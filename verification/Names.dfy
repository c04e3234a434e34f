/**
 The deterministic orders of the system: Go's `sort.Strings` over a set of names, with the
 proof that its result depends on the set alone.
 */
module Names {

  /** Go's string order. */
  predicate Less(a: string, b: string) {
    b != [] && (a == [] || a[0] < b[0] || (a[0] == b[0] && Less(a[1..], b[1..])))
  }

  lemma {:induction false} LessTransitive(a: string, b: string, c: string)
    requires Less(a, b) && Less(b, c)
    ensures Less(a, c)
  {
    if a != [] && a[0] == b[0] == c[0] {
      LessTransitive(a[1..], b[1..], c[1..]);
    }
  }

  lemma {:induction false} LessTotal(a: string, b: string)
    ensures a == b || Less(a, b) || Less(b, a)
    ensures !(Less(a, b) && Less(b, a))
    ensures !Less(a, a)
  {
    if a != [] {
      LessTotal(a[1..], a[1..]);
      if b != [] && a[0] == b[0] {
        LessTotal(a[1..], b[1..]);
        assert a == [a[0]] + a[1..] && b == [b[0]] + b[1..];
      }
    }
  }

  /** It is the lexicographic order: `a` ends, or has the smaller character, where the two part. */
  ghost predicate PartAt(a: string, b: string, i: int) {
    && 0 <= i <= |a| && i < |b| && a[..i] == b[..i]
    && (i == |a| || a[i] < b[i])
  }

  lemma {:induction false} LessExactly(a: string, b: string)
    ensures Less(a, b) <==> exists i :: PartAt(a, b, i)
  {
    if a != [] && b != [] && a[0] == b[0] {
      LessExactly(a[1..], b[1..]);
      if i :| PartAt(a[1..], b[1..], i) {
        PartLater(a, b, i);
      }
      if i :| PartAt(a, b, i) {
        assert i > 0;
        PartLater(a, b, i - 1);
      }
    } else {
      forall i ensures PartAt(a, b, i) ==> i == 0 {
        PartsAfterFirst(a, b, i);
      }
      assert Less(a, b) <==> PartAt(a, b, 0);
    }
  }

  lemma PartsAfterFirst(a: string, b: string, i: int)
    ensures PartAt(a, b, i) && i > 0 ==> a[0] == b[0]
  {
    if PartAt(a, b, i) && i > 0 {
      assert a[..i][0] == b[..i][0];
    }
  }

  lemma PartLater(a: string, b: string, i: nat)
    requires a != [] && b != [] && a[0] == b[0]
    ensures PartAt(a, b, i + 1) <==> PartAt(a[1..], b[1..], i)
  {
    if i + 1 <= |a| && i + 1 <= |b| {
      assert a[..i + 1] == [a[0]] + a[1..][..i] && b[..i + 1] == [b[0]] + b[1..][..i];
      assert a[..i + 1] == b[..i + 1] <==> a[1..][..i] == b[1..][..i] by {
        assert a[..i + 1][1..] == a[1..][..i] && b[..i + 1][1..] == b[1..][..i];
      }
    }
  }

  /** Strictly ascending, hence also free of duplicates. */
  ghost predicate Ascending(s: seq<string>) {
    forall i, j :: 0 <= i < j < |s| ==> Less(s[i], s[j])
  }

  /** The order is determined by the set: there is one ascending listing of it. */
  lemma {:induction false} AscendingUnique(s: seq<string>, t: seq<string>)
    requires Ascending(s) && Ascending(t)
    requires forall x :: x in s <==> x in t
    ensures s == t
  {
    assert t != [] ==> t[0] in s;
    if s != [] {
      assert s[0] in t && t != [];
      HeadsAgree(s, t);
      forall x
        ensures x in s[1..] <==> x in t[1..]
      {
        TailMember(s, x);
        TailMember(t, x);
      }
      AscendingUnique(s[1..], t[1..]);
      assert s == [s[0]] + s[1..] && t == [t[0]] + t[1..];
    }
  }

  lemma HeadsAgree(s: seq<string>, t: seq<string>)
    requires Ascending(s) && Ascending(t) && s != [] && t != []
    requires s[0] in t && t[0] in s
    ensures s[0] == t[0]
  {
    LessTotal(s[0], t[0]);
  }

  lemma TailMember(s: seq<string>, x: string)
    requires Ascending(s) && s != []
    ensures x in s[1..] <==> x in s && x != s[0]
  {
    LessTotal(s[0], s[0]);
    if x in s && x != s[0] {
      var i :| 0 <= i < |s| && s[i] == x;
      assert s[1..][i - 1] == x;
    }
  }

  /** `n` put at its place. */
  function Insert(s: seq<string>, n: string): (r: seq<string>)
    requires Ascending(s) && n !in s
    ensures Ascending(r)
    ensures forall x :: x in r <==> x in s || x == n
  {
    if s == [] then [n]
    else
      LessTotal(s[0], n);
      if Less(n, s[0]) then
        LessThanAll(n, s);
        [n] + s
      else
        var rest := Insert(s[1..], n);
        LessThanRest(s, n, rest);
        [s[0]] + rest
  }

  lemma LessThanAll(n: string, s: seq<string>)
    requires Ascending(s) && s != [] && Less(n, s[0])
    ensures forall k :: 0 <= k < |s| ==> Less(n, s[k])
  {
    forall k | 0 < k < |s|
      ensures Less(n, s[k])
    {
      LessTransitive(n, s[0], s[k]);
    }
  }

  lemma LessThanRest(s: seq<string>, n: string, rest: seq<string>)
    requires Ascending(s) && s != [] && Less(s[0], n)
    requires forall x :: x in rest <==> x in s[1..] || x == n
    ensures forall k :: 0 <= k < |rest| ==> Less(s[0], rest[k])
    ensures forall x :: x in [s[0]] + rest <==> x in s || x == n
  {
    assert s == [s[0]] + s[1..];
    forall k | 0 <= k < |rest|
      ensures Less(s[0], rest[k])
    {
      assert rest[k] in rest;
      if rest[k] != n {
        var j :| 0 <= j < |s| - 1 && s[1..][j] == rest[k];
        assert s[j + 1] == rest[k];
      }
    }
  }

  /** The ascending listing of a set. */
  ghost function Sorted(names: set<string>): (r: seq<string>)
    ensures Ascending(r)
    ensures forall x :: x in r <==> x in names
  {
    if names == {} then []
    else
      var n :| n in names;
      Insert(Sorted(names - {n}), n)
  }

  /** `sort.Strings` applied to the keys of a Go map. */
  method SortNames(names: set<string>) returns (r: seq<string>)
    ensures r == Sorted(names)
  {
    r := [];
    var rest := names;
    while rest != {}
      invariant Ascending(r) && rest <= names
      invariant forall x :: x in r <==> x in names - rest
      decreases rest
    {
      var n :| n in rest;
      r := Insert(r, n);
      rest := rest - {n};
    }
    AscendingUnique(r, Sorted(names));
  }
}
