/**
 A dict that converts its protobuf source on first access (convert/starlark_dict.go).
 */
module LazyDict {
  import opened Wrappers
  import opened Starlark
  import P = Proto
  import Convert

  // ---------------------------------------------------------------- the eager dict

  /** A Starlark dict as the interpreter provides it. */
  datatype PlainDict = PlainDict(items: seq<Item>, frozen: bool)

  datatype Op =
    | Freeze
    | Get(key: Value)
    | SetKey(key: Value, value: Value)
    | Delete(key: Value)
    | Clear
    | Keys
    | Len

  datatype Answer = Done | Refused | Broken | Found(v: Value) | Missing | Listed(vs: seq<Value>) | Count(n: nat)

  predicate Hashable(k: Value) {
    match k
    case List(_) | Dict(_, _) => false
    case Tuple(members) => forall i | 0 <= i < |members| :: Hashable(members[i])
    case _ => true
  }

  /** The position of a key, or the number of items when it is missing. */
  function IndexOf(items: seq<Item>, key: Value): (i: nat)
    ensures i <= |items| && (i < |items| ==> items[i].key == key)
    ensures forall j | 0 <= j < i :: items[j].key != key
  {
    if items == [] then 0
    else if items[0].key == key then 0
    else 1 + IndexOf(items[1..], key)
  }

  function Apply(d: PlainDict, op: Op): (PlainDict, Answer) {
    match op
    case Freeze => (d.(frozen := true), Done)
    case Get(key) =>
      var i := IndexOf(d.items, key);
      (d, if !Hashable(key) then Refused else if i < |d.items| then Found(d.items[i].value) else Missing)
    case SetKey(key, value) =>
      if d.frozen || !Hashable(key) then (d, Refused)
      else
        var i := IndexOf(d.items, key);
        (d.(items := if i < |d.items| then d.items[i := Item(key, value)] else d.items + [Item(key, value)]), Done)
    case Delete(key) =>
      if d.frozen || !Hashable(key) then (d, Refused)
      else
        var i := IndexOf(d.items, key);
        if i < |d.items| then (d.(items := d.items[..i] + d.items[i + 1..]), Found(d.items[i].value)) else (d, Missing)
    case Clear => if d.frozen then (d, Refused) else (d.(items := []), Done)
    case Keys => (d, Listed(KeysOf(d.items)))
    case Len => (d, Count(|d.items|))
  }

  function KeysOf(items: seq<Item>): seq<Value> {
    seq(|items|, i requires 0 <= i < |items| => items[i].key)
  }

  // ---------------------------------------------------------------- what the eager dict does

  ghost predicate HasKey(items: seq<Item>, key: Value) {
    exists i :: 0 <= i < |items| && items[i].key == key
  }

  /** Lists, dicts and tuples that contain them cannot be keys; a frozen dict cannot be changed. */
  ghost predicate Refuses(d: PlainDict, op: Op) {
    match op
    case Get(key) => !Hashable(key)
    case SetKey(key, _) => d.frozen || !Hashable(key)
    case Delete(key) => d.frozen || !Hashable(key)
    case Clear => d.frozen
    case _ => false
  }

  /** The effect of each operation: a refused one changes nothing; a write replaces the entry of its key in
      place or appends one, a deletion takes out the entry of its key, and reads change nothing. */
  lemma ApplyExactly(d: PlainDict, op: Op)
    ensures var (t, a) := Apply(d, op);
            && (a == Refused <==> Refuses(d, op)) && (a == Refused ==> t == d)
            && t.frozen == (d.frozen || op.Freeze?)
            && (!Refuses(d, op) ==>
                  match op
                  case Freeze => t.items == d.items && a == Done
                  case Get(key) =>
                    && t == d
                    && if HasKey(d.items, key)
                       then exists i :: 0 <= i < |d.items| && d.items[i].key == key && a == Found(d.items[i].value)
                       else a == Missing
                  case SetKey(key, value) =>
                    && a == Done
                    && if HasKey(d.items, key)
                       then exists i :: 0 <= i < |d.items| && d.items[i].key == key && t.items == d.items[i := Item(key, value)]
                       else t.items == d.items + [Item(key, value)]
                  case Delete(key) =>
                    if HasKey(d.items, key)
                    then exists i :: 0 <= i < |d.items| && d.items[i].key == key && a == Found(d.items[i].value)
                                     && t.items == d.items[..i] + d.items[i + 1..]
                    else t == d && a == Missing
                  case Clear => t.items == [] && a == Done
                  case Keys =>
                    && t == d && a.Listed? && |a.vs| == |d.items|
                    && forall i :: 0 <= i < |d.items| ==> a.vs[i] == d.items[i].key
                  case Len => t == d && a == Count(|d.items|))
  {
    hide Hashable;
    if op.Get? || op.SetKey? || op.Delete? {
      var i := IndexOf(d.items, op.key);
      assert HasKey(d.items, op.key) <==> i < |d.items|;
    }
  }

  /** Which keys are refused. */
  lemma HashableExactly(k: Value)
    ensures Hashable(k) <==>
      !k.List? && !k.Dict? && (k.Tuple? ==> forall i :: 0 <= i < |k.members| ==> Hashable(k.members[i]))
  {
  }

  // ---------------------------------------------------------------- replaying a log on it

  datatype Event = Event(op: Op, answer: Answer)

  /** A dict whose source could not be converted says so when it is read; it is empty otherwise. */
  function Step(d: PlainDict, op: Op, broken: bool): (PlainDict, Answer) {
    if broken && (op.Get? || op.Keys?) then (d, Broken) else Apply(d, op)
  }

  /** The state after the log, if the dict gives exactly the answers recorded in it. */
  function Replay(d: PlainDict, broken: bool, log: seq<Event>): Option<PlainDict> {
    if log == [] then Some(d)
    else
      var before, last := Replay(d, broken, log[..|log| - 1]), log[|log| - 1];
      if before.None? then Option.None
      else
        var (after, answer) := Step(before.value, last.op, broken);
        if answer == last.answer then Some(after) else Option.None
  }

  ghost predicate OnlyFreezes(log: seq<Event>) {
    forall e :: e in log ==> e == Event(Freeze, Done)
  }

  /** The eager dict that is built from the source: its fields in some order, or nothing. */
  ghost predicate IsEager(src: P.Body, items: seq<Item>) {
    if Convert.Convertible(P.Struct(P.BodyFields(src))) then
      Convert.ItemsRepresent(items, P.BodyFields(src), Converted)
    else items == []
  }

  /** An eager dict built from the source and used like this would have come to `now`. */
  ghost predicate Explains(start: seq<Item>, src: P.Body, log: seq<Event>, now: PlainDict) {
    IsEager(src, start) &&
    Replay(PlainDict(start, false), !Convert.Convertible(P.Struct(P.BodyFields(src))), log) == Some(now)
  }

  lemma {:induction false} ReplayFreezes(d: PlainDict, broken: bool, log: seq<Event>)
    requires OnlyFreezes(log)
    ensures Replay(d, broken, log) == Some(d.(frozen := d.frozen || log != []))
  {
    if log != [] {
      var before := log[..|log| - 1];
      assert forall e :: e in before ==> e in log;
      ReplayFreezes(d, broken, before);
      assert log[|log| - 1] in log;
    }
  }

  lemma ReplayOneMore(d: PlainDict, broken: bool, log: seq<Event>, op: Op)
    requires Replay(d, broken, log).Some?
    ensures
      var (after, answer) := Step(Replay(d, broken, log).value, op, broken);
      Replay(d, broken, log + [Event(op, answer)]) == Some(after)
  {
    var (after, answer) := Step(Replay(d, broken, log).value, op, broken);
    var longer := log + [Event(op, answer)];
    assert longer[..|longer| - 1] == log;
  }

  // ---------------------------------------------------------------- the lazy dict

  class LazyStarlarkDict {
    const src: P.Body
    /** None until the first access. */
    var d: Option<PlainDict>
    /** The conversion failed. */
    var err: bool
    /** A freeze was requested before the first access. */
    var frozen: bool
    /** Everything that was asked, with the answers given. */
    ghost var log: seq<Event>

    /** The answers so far are those of an eager dict; before the first access, of any. */
    ghost predicate Valid()
      reads this
    {
      match d
      case None => !err && OnlyFreezes(log) && frozen == (log != [])
      case Some(now) =>
        err == !Convert.Convertible(P.Struct(P.BodyFields(src))) &&
        exists start :: Explains(start, src, log, now)
    }

    constructor (src: P.Body)
      ensures Valid() && this.src == src && log == []
    {
      this.src := src;
      d := Option.None;
      err, frozen := false, false;
      log := [];
    }

    /** `ensure`. */
    method Ensure() returns (failed: bool)
      requires Valid()
      modifies this
      ensures Valid() && d.Some? && log == old(log) && failed == err
      ensures old(d).Some? ==> d == old(d) && err == old(err)
    {
      if d.None? {
        var tmp := Convert.StructToStarlark(src);
        match tmp {
          case Err(_) =>
            err := true;
            d := Some(PlainDict([], frozen));
            ReplayFreezes(PlainDict([], false), true, log);
            assert Explains([], src, log, d.value);
          case Ok(v) =>
            d := Some(PlainDict(v.items, frozen));
            ReplayFreezes(PlainDict(v.items, false), false, log);
            assert Explains(v.items, src, log, d.value);
        }
      }
      failed := err;
    }

    /** Carries out one operation on the materialized dict. */
    method Perform(op: Op) returns (answer: Answer)
      requires Valid() && d.Some?
      modifies this
      ensures Valid() && d.Some? && err == old(err)
      ensures log == old(log) + [Event(op, answer)]
      ensures (d.value, answer) == Step(old(d.value), op, err)
    {
      ghost var start :| Explains(start, src, log, d.value);
      ReplayOneMore(PlainDict(start, false), err, log, op);
      var (after, a) := Step(d.value, op, err);
      answer := a;
      d := Some(after);
      log := log + [Event(op, answer)];
      assert Explains(start, src, log, after);
    }

    /** `Freeze` does not force the conversion. */
    method DoFreeze()
      requires Valid()
      modifies this
      ensures Valid() && log == old(log) + [Event(Freeze, Done)]
      ensures old(d).None? ==> d.None?
      ensures match d case None => frozen case Some(now) => now.frozen
    {
      if d.None? {
        frozen := true;
        log := log + [Event(Freeze, Done)];
        return;
      }
      var _ := Perform(Freeze);
    }

    /** `Get` surfaces a failed conversion. */
    method DoGet(key: Value) returns (answer: Answer)
      requires Valid()
      modifies this
      ensures Valid() && log == old(log) + [Event(Get(key), answer)]
      ensures answer == Broken <==> !Convert.Convertible(P.Struct(P.BodyFields(src)))
      ensures old(d).Some? && answer != Broken ==> d.Some? && (d.value, answer) == Apply(old(d).value, Get(key))
    {
      var failed := Ensure();
      answer := Perform(Get(key));
    }

    /** `SetKey` does not; like `pop` and `clear` it works on the underlying dict. */
    method DoSetKey(key: Value, value: Value) returns (answer: Answer)
      requires Valid()
      modifies this
      ensures Valid() && log == old(log) + [Event(SetKey(key, value), answer)]
      ensures answer != Broken
      ensures old(d).Some? ==> d.Some? && (d.value, answer) == Apply(old(d).value, SetKey(key, value))
    {
      var _ := Ensure();
      answer := Perform(SetKey(key, value));
    }

    method DoDelete(key: Value) returns (answer: Answer)
      requires Valid()
      modifies this
      ensures Valid() && log == old(log) + [Event(Delete(key), answer)]
      ensures answer != Broken
      ensures old(d).Some? ==> d.Some? && (d.value, answer) == Apply(old(d).value, Delete(key))
    {
      var _ := Ensure();
      answer := Perform(Delete(key));
    }

    method DoClear() returns (answer: Answer)
      requires Valid()
      modifies this
      ensures Valid() && log == old(log) + [Event(Clear, answer)]
      ensures answer != Broken
      ensures old(d).Some? ==> d.Some? && (d.value, answer) == Apply(old(d).value, Clear)
    {
      var _ := Ensure();
      answer := Perform(Clear);
    }

    method DoKeys() returns (answer: Answer)
      requires Valid()
      modifies this
      ensures Valid() && log == old(log) + [Event(Keys, answer)]
      ensures answer == Broken <==> !Convert.Convertible(P.Struct(P.BodyFields(src)))
      ensures old(d).Some? && answer != Broken ==> d.Some? && (d.value, answer) == Apply(old(d).value, Keys)
    {
      var _ := Ensure();
      answer := Perform(Keys);
    }

    method DoLen() returns (answer: Answer)
      requires Valid()
      modifies this
      ensures Valid() && log == old(log) + [Event(Len, answer)]
      ensures answer != Broken
      ensures old(d).Some? ==> d.Some? && (d.value, answer) == Apply(old(d).value, Len)
    {
      var _ := Ensure();
      answer := Perform(Len);
    }
  }

  /** Whatever was asked, in whatever order: some eager conversion of the source gives the same
      answers throughout. */
  lemma AnswersLikeEager(lazy: LazyStarlarkDict)
    requires lazy.Valid()
    ensures exists start, now :: Explains(start, lazy.src, lazy.log, now)
  {
    match lazy.d
    case Some(now) =>
      var start :| Explains(start, lazy.src, lazy.log, now);
    case None =>
      var v := P.Struct(P.BodyFields(lazy.src));
      var start := [];
      if Convert.Convertible(v) {
        var s := Convert.HasForm(v, Converted);
        start := s.items;
      }
      ReplayFreezes(PlainDict(start, false), !Convert.Convertible(v), lazy.log);
      assert Explains(start, lazy.src, lazy.log, PlainDict(start, lazy.log != []));
  }

  /** After a freeze the items never change again. */
  lemma {:induction false} FrozenForGood(d: PlainDict, broken: bool, log: seq<Event>)
    requires d.frozen
    ensures Replay(d, broken, log).Some? ==> Replay(d, broken, log).value == d
  {
    if log != [] {
      FrozenForGood(d, broken, log[..|log| - 1]);
    }
  }
}
