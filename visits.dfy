/**
 * The `map` operations of every container call a user visitor on each
 * element in container order and stop at the first negative answer.
 *
 * The visitor is modelled as a function of a caller state and an element
 * returning the new caller state and the visitor's answer; the caller state
 * stands for whatever the visitor records, so which elements were visited,
 * and in which order, is observable.
 */
module Visits {
  /** One visit result: the answer of the whole walk and the final caller state. */
  datatype Outcome<S> = Outcome(code: int, state: S)

  /** Visit `xs` in order; -1 as soon as a visit answers negatively, else 1. */
  function Traverse<S, T>(apply: (S, T) -> (S, int), xs: seq<T>, st: S): (r: Outcome<S>)
    ensures r.code == 1 || r.code == -1
    ensures xs == [] ==> r == Outcome(1, st)
    decreases |xs|
  {
    if xs == [] then Outcome(1, st)
    else
      var (st', v) := apply(st, xs[0]);
      if v < 0 then Outcome(-1, st') else Traverse(apply, xs[1..], st')
  }

  /**
   * Walking a concatenation is walking the first part and, unless it stopped
   * early, continuing with the second part from where it left off.
   */
  lemma {:induction false} TraverseAppend<S, T>(apply: (S, T) -> (S, int), xs: seq<T>, ys: seq<T>, st: S)
    ensures Traverse(apply, xs + ys, st) ==
      (var first := Traverse(apply, xs, st);
       if first.code < 0 then first else Traverse(apply, ys, first.state))
    decreases |xs|
  {
    if xs != [] {
      assert (xs + ys)[0] == xs[0];
      assert (xs + ys)[1..] == xs[1..] + ys;
      var (st', v) := apply(st, xs[0]);
      if v >= 0 {
        TraverseAppend(apply, xs[1..], ys, st');
      }
    } else {
      assert xs + ys == ys;
    }
  }

  /** A walk stops early exactly when some visit, reached in order, answers negatively. */
  lemma {:induction false} TraverseFails<S, T>(apply: (S, T) -> (S, int), xs: seq<T>, st: S)
    ensures Traverse(apply, xs, st).code == -1 <==>
      exists k :: 0 <= k < |xs| && Traverse(apply, xs[..k], st).code == 1
        && apply(Traverse(apply, xs[..k], st).state, xs[k]).1 < 0
    decreases |xs|
  {
    if xs != [] {
      var (st', v) := apply(st, xs[0]);
      assert xs[..0] == [];
      if v >= 0 {
        TraverseFails(apply, xs[1..], st');
        forall k | 1 <= k <= |xs|
          ensures Traverse(apply, xs[..k], st) == Traverse(apply, xs[1..][..k - 1], st')
        {
          assert xs[..k][0] == xs[0] && xs[..k][1..] == xs[1..][..k - 1];
        }
        if Traverse(apply, xs, st).code == -1 {
          var k' :| 0 <= k' < |xs| - 1 && Traverse(apply, xs[1..][..k'], st').code == 1
            && apply(Traverse(apply, xs[1..][..k'], st').state, xs[1..][k']).1 < 0;
          assert xs[k' + 1] == xs[1..][k'];
        } else {
          forall k | 0 <= k < |xs| && Traverse(apply, xs[..k], st).code == 1
            ensures apply(Traverse(apply, xs[..k], st).state, xs[k]).1 >= 0
          {
            if k > 0 {
              assert xs[k] == xs[1..][k - 1];
            }
          }
        }
      }
    }
  }
}
