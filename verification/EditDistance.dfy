/**
 Spelling suggestions: the two-row edit distance and the closest candidate within a threshold
 (schema/levenshtein.go). Each character of a string stands for one byte.
 */
module EditDistance {

  function Min(a: nat, b: nat): nat {
    if a <= b then a else b
  }

  function Max(a: nat, b: nat): nat {
    if a >= b then a else b
  }

  /** The recurrence on prefixes that the dynamic programme fills in. */
  function Dist(a: string, b: string): nat
    decreases |a| + |b|
  {
    if a == [] then |b|
    else if b == [] then |a|
    else
      var a', b' := a[..|a| - 1], b[..|b| - 1];
      var cost := if a[|a| - 1] == b[|b| - 1] then 0 else 1;
      Min(Dist(a, b') + 1, Min(Dist(a', b) + 1, Dist(a', b') + cost))
  }

  // ---------------------------------------------------------------- the two-row programme

  ghost predicate RowIs(row: seq<nat>, a: string, i: nat, b: string, n: nat)
    requires i <= |a| && n <= |b| + 1 && n <= |row|
  {
    forall j :: 0 <= j < n ==> row[j] == Dist(a[..i], b[..j])
  }

  lemma {:induction false} DistEmpty(a: string)
    ensures Dist(a, []) == |a| && Dist([], a) == |a|
  {
  }

  lemma DistCell(a: string, i: nat, b: string, j: nat)
    requires 0 < i <= |a| && 0 < j <= |b|
    ensures Dist(a[..i], b[..j]) ==
            Min(Dist(a[..i], b[..j - 1]) + 1,
                Min(Dist(a[..i - 1], b[..j]) + 1,
                    Dist(a[..i - 1], b[..j - 1]) + if a[i - 1] == b[j - 1] then 0 else 1))
  {
    assert a[..i][..i - 1] == a[..i - 1] && b[..j][..j - 1] == b[..j - 1];
  }

  /** Fills one row from the row above it. */
  method FillRow(a: string, b: string, i: nat, prev: array<nat>, curr: array<nat>)
    requires 0 < i <= |a| && |b| > 0 && prev != curr && prev.Length == curr.Length == |b| + 1
    requires RowIs(prev[..], a, i - 1, b, |b| + 1)
    modifies curr
    ensures RowIs(curr[..], a, i, b, |b| + 1)
  {
    hide Dist, Min;
    DistEmpty(a[..i]);
    assert b[..0] == [];
    curr[0] := i;
    var j := 1;
    while j <= |b|
      invariant 1 <= j <= |b| + 1
      invariant RowIs(prev[..], a, i - 1, b, |b| + 1)
      invariant forall k :: 0 <= k < j ==> curr[k] == Dist(a[..i], b[..k])
    {
      DistCell(a, i, b, j);
      assert prev[..][j] == prev[j] && prev[..][j - 1] == prev[j - 1];
      var cost := if a[i - 1] == b[j - 1] then 0 else 1;
      curr[j] := Min(curr[j - 1] + 1, Min(prev[j] + 1, prev[j - 1] + cost));
      j := j + 1;
    }
  }

  /** The two-row loop computes the recurrence, whatever the strings. */
  method Levenshtein(a: string, b: string) returns (d: nat)
    ensures d == Dist(a, b)
  {
    hide Dist;
    DistEmpty(a);
    DistEmpty(b);
    if a == [] {
      return |b|;
    }
    if b == [] {
      return |a|;
    }
    assert a[..0] == [];
    var prev, curr := new nat[|b| + 1], new nat[|b| + 1];
    var j := 0;
    while j <= |b|
      invariant 0 <= j <= |b| + 1
      invariant forall k :: 0 <= k < j ==> prev[k] == Dist(a[..0], b[..k])
    {
      DistEmpty(b[..j]);
      prev[j] := j;
      j := j + 1;
    }
    var i := 1;
    while i <= |a|
      invariant 1 <= i <= |a| + 1 && prev != curr && prev.Length == curr.Length == |b| + 1
      invariant fresh(prev) && fresh(curr)
      invariant RowIs(prev[..], a, i - 1, b, |b| + 1)
    {
      FillRow(a, b, i, prev, curr);
      prev, curr := curr, prev;
      i := i + 1;
    }
    assert a[..|a|] == a && b[..|b|] == b;
    assert prev[..][|b|] == prev[|b|];
    d := prev[|b|];
  }

  // ---------------------------------------------------------------- edit scripts

  /** One column of an alignment of two strings. */
  datatype Op = Keep(c: char) | Sub(c: char, d: char) | Ins(d: char) | Del(c: char)

  datatype Script = Nil | Snoc(init: Script, last: Op)

  function Source(s: Script): string {
    if s.Nil? then "" else if s.last.Ins? then Source(s.init) else Source(s.init) + [s.last.c]
  }

  function Target(s: Script): string {
    if s.Nil? then ""
    else match s.last
         case Keep(c) => Target(s.init) + [c]
         case Sub(_, d) => Target(s.init) + [d]
         case Ins(d) => Target(s.init) + [d]
         case Del(_) => Target(s.init)
  }

  function Cost(s: Script): nat {
    if s.Nil? then 0 else Cost(s.init) + if s.last.Keep? then 0 else 1
  }

  ghost predicate Turns(s: Script, a: string, b: string) {
    Source(s) == a && Target(s) == b
  }

  /** How the recurrence reacts to one more character on either or both sides. */
  lemma {:induction false} DistSnoc(a: string, b: string, c: char, d: char)
    ensures Dist(a, b + [d]) <= Dist(a, b) + 1
    ensures Dist(a + [c], b) <= Dist(a, b) + 1
    ensures Dist(a + [c], b + [d]) <= Dist(a, b) + if c == d then 0 else 1
  {
    assert (a + [c])[..|a|] == a && (b + [d])[..|b|] == b;
  }

  /** No script is cheaper than the distance. */
  lemma {:induction false} DistIsLowerBound(s: Script)
    ensures Dist(Source(s), Target(s)) <= Cost(s)
  {
    hide Dist;
    if s.Nil? {
      DistEmpty("");
    } else {
      DistIsLowerBound(s.init);
      var a, b := Source(s.init), Target(s.init);
      match s.last
      case Keep(c) => DistSnoc(a, b, c, c);
      case Sub(c, d) => DistSnoc(a, b, c, d);
      case Ins(d) => DistSnoc(a, b, d, d);
      case Del(c) => DistSnoc(a, b, c, c);
    }
  }

  /** Some script costs exactly the distance. */
  lemma {:induction false} DistIsAchieved(a: string, b: string) returns (s: Script)
    ensures Turns(s, a, b) && Cost(s) == Dist(a, b)
    decreases |a| + |b|
  {
    if a == "" {
      if b == "" {
        s := Nil;
      } else {
        var t := DistIsAchieved(a, b[..|b| - 1]);
        s := Snoc(t, Ins(b[|b| - 1]));
      }
    } else if b == "" {
      var t := DistIsAchieved(a[..|a| - 1], b);
      s := Snoc(t, Del(a[|a| - 1]));
    } else {
      var a', b', x, y := a[..|a| - 1], b[..|b| - 1], a[|a| - 1], b[|b| - 1];
      assert a == a' + [x] && b == b' + [y];
      if Dist(a, b) == Dist(a, b') + 1 {
        var t := DistIsAchieved(a, b');
        s := Snoc(t, Ins(y));
      } else if Dist(a, b) == Dist(a', b) + 1 {
        var t := DistIsAchieved(a', b);
        s := Snoc(t, Del(x));
      } else {
        var t := DistIsAchieved(a', b');
        s := Snoc(t, if x == y then Keep(x) else Sub(x, y));
      }
    }
  }

  // ---------------------------------------------------------------- the distance is a metric

  function Inverse(s: Script): Script {
    if s.Nil? then Nil
    else
      Snoc(Inverse(s.init),
           match s.last
           case Keep(c) => Keep(c)
           case Sub(c, d) => Sub(d, c)
           case Ins(d) => Del(d)
           case Del(c) => Ins(c))
  }

  lemma {:induction false} InverseSwaps(s: Script)
    ensures Turns(Inverse(s), Target(s), Source(s)) && Cost(Inverse(s)) == Cost(s)
  {
    if s.Snoc? {
      InverseSwaps(s.init);
    }
  }

  lemma {:induction false} AtMostReverse(a: string, b: string)
    ensures Dist(b, a) <= Dist(a, b)
  {
    hide Dist;
    var s := DistIsAchieved(a, b);
    InverseSwaps(s);
    DistIsLowerBound(Inverse(s));
  }

  lemma {:induction false} Symmetric(a: string, b: string)
    ensures Dist(a, b) == Dist(b, a)
  {
    AtMostReverse(a, b);
    AtMostReverse(b, a);
  }

  /** Two alignments over a common middle string, joined into one of at most their joint cost. */
  lemma {:induction false} Compose(s: Script, t: Script) returns (r: Script)
    requires Target(s) == Source(t)
    ensures Turns(r, Source(s), Target(t)) && Cost(r) <= Cost(s) + Cost(t)
    decreases s, t
  {
    if t.Snoc? && t.last.Ins? {
      var q := Compose(s, t.init);
      r := Snoc(q, t.last);
    } else if s.Snoc? && s.last.Del? {
      var q := Compose(s.init, t);
      r := Snoc(q, s.last);
    } else if s.Nil? || t.Nil? {
      r := Nil;
    } else {
      LastOf(s, t);
      var q := Compose(s.init, t.init);
      if s.last.Ins? {
        r := if t.last.Del? then q else Snoc(q, Ins(Produces(t.last)));
      } else if t.last.Del? {
        r := Snoc(q, Del(s.last.c));
      } else {
        var c, d := s.last.c, Produces(t.last);
        r := Snoc(q, if c == d then Keep(c) else Sub(c, d));
      }
    }
  }

  function Produces(op: Op): char
    requires !op.Del?
  {
    if op.Keep? then op.c else op.d
  }

  lemma LastOf(s: Script, t: Script)
    requires s.Snoc? && t.Snoc? && !s.last.Del? && !t.last.Ins? && Target(s) == Source(t)
    ensures Target(s.init) == Source(t.init) && Produces(s.last) == t.last.c
  {
    var u, v, x, y := Target(s.init), Source(t.init), Produces(s.last), t.last.c;
    assert u + [x] == v + [y];
    assert (u + [x])[..|u|] == u && (v + [y])[..|v|] == v;
    assert (u + [x])[|u|] == x && (v + [y])[|v|] == y;
  }

  lemma {:induction false} Triangle(a: string, b: string, c: string)
    ensures Dist(a, c) <= Dist(a, b) + Dist(b, c)
  {
    hide Dist;
    var s := DistIsAchieved(a, b);
    var t := DistIsAchieved(b, c);
    var r := Compose(s, t);
    DistIsLowerBound(r);
  }

  lemma {:induction false} FreeScriptKeeps(s: Script)
    requires Cost(s) == 0
    ensures Source(s) == Target(s)
  {
    if s.Snoc? {
      FreeScriptKeeps(s.init);
    }
  }

  /** The script that extends `s` by keeping every character of `w`. */
  function KeepAll(s: Script, w: string): Script {
    if w == "" then s else Snoc(KeepAll(s, w[..|w| - 1]), Keep(w[|w| - 1]))
  }

  lemma {:induction false} KeepAllKeeps(s: Script, w: string)
    ensures Turns(KeepAll(s, w), Source(s) + w, Target(s) + w) && Cost(KeepAll(s, w)) == Cost(s)
  {
    if w != "" {
      var n := |w| - 1;
      KeepAllKeeps(s, w[..n]);
      assert w == w[..n] + [w[n]];
    }
  }

  lemma {:induction false} ZeroOnlyWhenEqual(a: string, b: string)
    ensures Dist(a, b) == 0 <==> a == b
  {
    hide Dist;
    if a == b {
      KeepAllKeeps(Nil, a);
      assert "" + a == a;
      DistIsLowerBound(KeepAll(Nil, a));
    } else {
      var s := DistIsAchieved(a, b);
      if Cost(s) == 0 { FreeScriptKeeps(s); }
    }
  }

  // ---------------------------------------------------------------- the distance counts edits

  /** `long` is `short` with one character inserted. */
  ghost predicate Inserted(short: string, long: string) {
    && |long| == |short| + 1
    && exists i :: 0 <= i <= |short| && long[..i] == short[..i] && long[i + 1..] == short[i..]
  }

  /** `a` and `b` differ in at most one position. */
  ghost predicate Substituted(a: string, b: string) {
    && |a| == |b|
    && exists i :: 0 <= i < |a| && a[..i] == b[..i] && a[i + 1..] == b[i + 1..]
  }

  /** One edit: an insertion, a deletion or a substitution of a single character. */
  ghost predicate EditStep(a: string, b: string) {
    Inserted(a, b) || Inserted(b, a) || Substituted(a, b)
  }

  /** A sequence of strings, each one edit away from the one before. */
  ghost predicate EditChain(p: seq<string>) {
    |p| > 0 && forall i :: 0 < i < |p| ==> EditStep(p[i - 1], p[i])
  }

  /** One column between kept prefixes and suffixes costs at most one. */
  lemma OneColumn(u: string, op: Op, v: string)
    ensures var s := KeepAll(Snoc(KeepAll(Nil, u), op), v);
            && Source(s) == u + (if op.Ins? then "" else [op.c]) + v
            && Target(s) == u + (if op.Del? then "" else [Produces(op)]) + v
            && Dist(Source(s), Target(s)) <= 1
  {
    hide Dist;
    KeepAllKeeps(Nil, u);
    assert "" + u == u;
    var mid := Snoc(KeepAll(Nil, u), op);
    KeepAllKeeps(mid, v);
    DistIsLowerBound(KeepAll(mid, v));
  }

  lemma InsertionCostsOne(short: string, long: string)
    requires Inserted(short, long)
    ensures Dist(short, long) <= 1
  {
    hide Dist, KeepAll;
    var i :| 0 <= i <= |short| && long[..i] == short[..i] && long[i + 1..] == short[i..];
    OneColumn(short[..i], Ins(long[i]), short[i..]);
    assert short == short[..i] + "" + short[i..];
    SplitAt(long, i);
  }

  lemma SplitAt(s: string, i: nat)
    requires i < |s|
    ensures s == s[..i] + [s[i]] + s[i + 1..]
  {
  }

  lemma SubstitutionCostsOne(a: string, b: string)
    requires Substituted(a, b)
    ensures Dist(a, b) <= 1
  {
    hide Dist, KeepAll;
    var i :| 0 <= i < |a| && a[..i] == b[..i] && a[i + 1..] == b[i + 1..];
    OneColumn(a[..i], Sub(a[i], b[i]), a[i + 1..]);
    SplitAt(a, i);
    SplitAt(b, i);
  }

  lemma StepCostsOne(a: string, b: string)
    requires EditStep(a, b)
    ensures Dist(a, b) <= 1
  {
    hide Dist, Inserted, Substituted;
    if Inserted(a, b) {
      InsertionCostsOne(a, b);
    } else if Inserted(b, a) {
      InsertionCostsOne(b, a);
      Symmetric(a, b);
    } else {
      SubstitutionCostsOne(a, b);
    }
  }

  /** No sequence of edits is shorter than the distance. */
  lemma {:induction false} ChainAtLeastDist(p: seq<string>)
    requires EditChain(p)
    ensures Dist(p[0], p[|p| - 1]) <= |p| - 1
  {
    hide Dist, EditStep;
    var n := |p| - 1;
    if n == 0 {
      ZeroOnlyWhenEqual(p[0], p[0]);
    } else {
      ChainAtLeastDist(p[..n]);
      StepCostsOne(p[n - 1], p[n]);
      Triangle(p[0], p[n - 1], p[n]);
    }
  }

  /** Every string of the chain with `c` appended. */
  function AppendAll(p: seq<string>, c: char): seq<string> {
    seq(|p|, i requires 0 <= i < |p| => p[i] + [c])
  }

  lemma AppendAllChain(p: seq<string>, c: char)
    requires EditChain(p)
    ensures EditChain(AppendAll(p, c))
  {
    hide EditStep;
    forall i | 0 < i < |p|
      ensures EditStep(p[i - 1] + [c], p[i] + [c])
    {
      StepAppend(p[i - 1], p[i], c);
    }
  }

  lemma StepAppend(a: string, b: string, c: char)
    requires EditStep(a, b)
    ensures EditStep(a + [c], b + [c])
  {
    if Inserted(a, b) {
      InsertedAppend(a, b, c);
    } else if Inserted(b, a) {
      InsertedAppend(b, a, c);
    } else {
      var i :| 0 <= i < |a| && a[..i] == b[..i] && a[i + 1..] == b[i + 1..];
      var x, y := a + [c], b + [c];
      assert x[..i] == a[..i] && y[..i] == b[..i] && x[i + 1..] == a[i + 1..] + [c] && y[i + 1..] == b[i + 1..] + [c];
      assert Substituted(x, y);
    }
  }

  lemma InsertedAppend(short: string, long: string, c: char)
    requires Inserted(short, long)
    ensures Inserted(short + [c], long + [c])
  {
    var i :| 0 <= i <= |short| && long[..i] == short[..i] && long[i + 1..] == short[i..];
    var x, y := short + [c], long + [c];
    assert x[..i] == short[..i] && y[..i] == long[..i] && x[i..] == short[i..] + [c] && y[i + 1..] == long[i + 1..] + [c];
  }

  lemma AppendIsInsertion(a: string, c: char)
    ensures Inserted(a, a + [c])
  {
    var b := a + [c];
    assert b[..|a|] == a[..|a|] && b[|a| + 1..] == a[|a|..];
  }

  lemma {:induction false} ChainSnoc(p: seq<string>, b: string)
    requires EditChain(p) && EditStep(p[|p| - 1], b)
    ensures EditChain(p + [b])
  {
    hide EditStep;
    var q := p + [b];
    forall i | 0 < i < |q|
      ensures EditStep(q[i - 1], q[i])
    {
      if i < |p| { assert EditStep(p[i - 1], p[i]); }
    }
  }

  /** A script spelled out as a sequence of edits, one for each of its unit costs. */
  lemma {:induction false} ScriptAsChain(s: Script) returns (p: seq<string>)
    ensures EditChain(p) && |p| == Cost(s) + 1 && p[0] == Source(s) && p[|p| - 1] == Target(s)
  {
    hide EditStep;
    if s.Nil? {
      p := [""];
    } else {
      var q := ScriptAsChain(s.init);
      match s.last
      case Keep(c) =>
        AppendAllChain(q, c);
        p := AppendAll(q, c);
      case Sub(c, d) =>
        AppendAllChain(q, c);
        LastCharEdit(Target(s.init), c, d);
        p := AppendAll(q, c) + [Target(s)];
        ChainSnoc(AppendAll(q, c), Target(s));
      case Ins(d) =>
        LastCharEdit(Target(s.init), d, d);
        p := q + [Target(s)];
        ChainSnoc(q, Target(s));
      case Del(c) =>
        AppendAllChain(q, c);
        LastCharEdit(Target(s.init), c, c);
        p := AppendAll(q, c) + [Target(s)];
        ChainSnoc(AppendAll(q, c), Target(s));
    }
  }

  lemma LastCharEdit(a: string, c: char, d: char)
    ensures EditStep(a + [c], a + [d]) && EditStep(a, a + [c]) && EditStep(a + [c], a)
  {
    AppendIsInsertion(a, c);
    var x, y := a + [c], a + [d];
    assert x[..|a|] == y[..|a|] && x[|a| + 1..] == y[|a| + 1..];
    assert Substituted(x, y);
  }

  /** The distance is the least number of single-character edits that turn `a` into `b`. */
  lemma DistCountsEdits(a: string, b: string)
    ensures exists p :: EditChain(p) && p[0] == a && p[|p| - 1] == b && |p| - 1 == Dist(a, b)
    ensures forall p :: EditChain(p) && p[0] == a && p[|p| - 1] == b ==> |p| - 1 >= Dist(a, b)
  {
    hide Dist, EditStep;
    var s := DistIsAchieved(a, b);
    var p := ScriptAsChain(s);
    forall q | EditChain(q) && q[0] == a && q[|q| - 1] == b
      ensures |q| - 1 >= Dist(a, b)
    {
      ChainAtLeastDist(q);
    }
  }

  // ---------------------------------------------------------------- suggestions

  /** Within a third of the length, and always within one edit. */
  predicate Near(unknown: string, distance: nat) {
    distance <= 1 || 3 * distance <= |unknown|
  }

  /** Candidate `i` is the earliest of those closest to `unknown`, and close enough. */
  ghost predicate IsSuggestion(unknown: string, valid: seq<string>, i: nat)
    requires i < |valid|
  {
    && Near(unknown, Dist(unknown, valid[i]))
    && (forall j :: 0 <= j < |valid| ==> Dist(unknown, valid[i]) <= Dist(unknown, valid[j]))
    && (forall j :: 0 <= j < i ==> Dist(unknown, valid[i]) < Dist(unknown, valid[j]))
  }

  /** The earliest closest candidate within the threshold, or "" when none is within it. */
  method Suggest(unknown: string, valid: seq<string>) returns (best: string)
    ensures (exists i :: 0 <= i < |valid| && Near(unknown, Dist(unknown, valid[i]))) ==>
              exists i :: 0 <= i < |valid| && IsSuggestion(unknown, valid, i) && best == valid[i]
    ensures (forall i :: 0 <= i < |valid| ==> !Near(unknown, Dist(unknown, valid[i]))) ==> best == ""
  {
    hide Dist;
    if valid == [] {
      return "";
    }
    var threshold := Max(1, |unknown| / 3);
    best := "";
    var bestDist := threshold + 1;
    ghost var at := 0;
    var k := 0;
    while k < |valid|
      invariant 0 <= k <= |valid| && bestDist <= threshold + 1
      invariant forall j :: 0 <= j < k ==> bestDist <= Dist(unknown, valid[j])
      invariant bestDist == threshold + 1 ==> best == ""
      invariant bestDist <= threshold ==> 0 <= at < k && best == valid[at] && bestDist == Dist(unknown, valid[at])
      invariant bestDist <= threshold ==> forall j :: 0 <= j < at ==> bestDist < Dist(unknown, valid[j])
    {
      var d := Levenshtein(unknown, valid[k]);
      if d < bestDist {
        best := valid[k];
        bestDist := d;
        at := k;
      }
      k := k + 1;
    }
    if bestDist <= threshold {
      assert IsSuggestion(unknown, valid, at);
      return;
    }
    best := "";
  }
}
