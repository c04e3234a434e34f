/** The two result shapes used throughout the model, and what it means to pick from a list in order. */
module Wrappers {
  datatype Option<+T> = None | Some(value: T)
  datatype Result<+T, +E> = Ok(value: T) | Err(error: E)

  /** `ys` has one entry for each wanted element of `xs`, made from it, in the same order; `at` are the
      positions of the wanted elements. */
  ghost predicate PicksAt<A, B>(xs: seq<A>, ys: seq<B>, wanted: A -> bool, made: (A, B) -> bool, at: seq<int>) {
    && |at| == |ys|
    && (forall j, k :: 0 <= j < k < |at| ==> at[j] < at[k])
    && (forall k :: 0 <= k < |at| ==> 0 <= at[k] < |xs| && made(xs[at[k]], ys[k]))
    && (forall i :: 0 <= i < |xs| ==> (wanted(xs[i]) <==> i in at))
  }

  ghost predicate Picks<A, B>(xs: seq<A>, ys: seq<B>, wanted: A -> bool, made: (A, B) -> bool) {
    exists at :: PicksAt(xs, ys, wanted, made, at)
  }

  lemma PicksNil<A, B>(wanted: A -> bool, made: (A, B) -> bool)
    ensures Picks([], [], wanted, made)
  {
    assert PicksAt([], [], wanted, made, []);
  }

  lemma PicksSkip<A, B>(xs: seq<A>, ys: seq<B>, wanted: A -> bool, made: (A, B) -> bool, x: A)
    requires Picks(xs, ys, wanted, made) && !wanted(x)
    ensures Picks(xs + [x], ys, wanted, made)
  {
    var at :| PicksAt(xs, ys, wanted, made, at);
    assert |xs| !in at;
    assert PicksAt(xs + [x], ys, wanted, made, at);
  }

  lemma PicksTake<A, B>(xs: seq<A>, ys: seq<B>, wanted: A -> bool, made: (A, B) -> bool, x: A, y: B)
    requires Picks(xs, ys, wanted, made) && wanted(x) && made(x, y)
    ensures Picks(xs + [x], ys + [y], wanted, made)
  {
    var at :| PicksAt(xs, ys, wanted, made, at);
    var more, longer, n := at + [|xs|], xs + [x], |xs|;
    forall i | 0 <= i < |longer|
      ensures wanted(longer[i]) <==> i in more
    {
      assert i in more <==> i in at || i == n;
      assert i < n ==> longer[i] == xs[i];
    }
    forall k | 0 <= k < |more|
      ensures 0 <= more[k] < |longer| && made(longer[more[k]], (ys + [y])[k])
    {
      if k < |at| {
        assert more[k] == at[k] && longer[at[k]] == xs[at[k]];
      }
    }
    assert PicksAt(longer, ys + [y], wanted, made, more);
  }

  /** Every wanted element was made into some entry, and every entry comes from a wanted element. */
  lemma PickedMembers<A, B>(xs: seq<A>, ys: seq<B>, wanted: A -> bool, made: (A, B) -> bool)
    requires Picks(xs, ys, wanted, made)
    ensures forall x :: x in xs && wanted(x) ==> exists y :: y in ys && made(x, y)
    ensures forall y :: y in ys ==> exists x :: x in xs && wanted(x) && made(x, y)
  {
    var at :| PicksAt(xs, ys, wanted, made, at);
    forall x | x in xs && wanted(x)
      ensures exists y :: y in ys && made(x, y)
    {
      var i :| 0 <= i < |xs| && xs[i] == x;
      var k :| 0 <= k < |at| && at[k] == i;
      assert ys[k] in ys && made(x, ys[k]);
    }
    forall y | y in ys
      ensures exists x :: x in xs && wanted(x) && made(x, y)
    {
      var k :| 0 <= k < |ys| && ys[k] == y;
      assert at[k] in at && xs[at[k]] in xs && wanted(xs[at[k]]);
    }
  }
}
