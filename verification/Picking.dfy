/** What is kept of a sequence, in the order it had. */
module Picking {
  /** `picked` holds exactly the elements of `xs` that pass `keep`, found at the ascending `places`. */
  ghost predicate Picks<T>(xs: seq<T>, keep: T -> bool, picked: seq<T>, places: seq<nat>) {
    && |places| == |picked|
    && (forall i, j :: 0 <= i < j < |places| ==> places[i] < places[j])
    && (forall i :: 0 <= i < |places| ==> places[i] < |xs| && picked[i] == xs[places[i]])
    && forall k: nat :: k < |xs| ==> (k in places <==> keep(xs[k]))
  }

  lemma {:induction false} PicksSnoc<T>(xs: seq<T>, keep: T -> bool, picked: seq<T>, places: seq<nat>, x: T)
    requires Picks(xs, keep, picked, places)
    ensures keep(x) ==> Picks(xs + [x], keep, picked + [x], places + [|xs|])
    ensures !keep(x) ==> Picks(xs + [x], keep, picked, places)
  {
    var longer := xs + [x];
    assert forall k: nat :: k < |xs| ==> longer[k] == xs[k];
    assert |xs| !in places;
  }
}
