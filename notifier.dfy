/** Which mentors the newsletter handler reports on, and in which order. */
module Notifier {
  import opened Registry

  /** The mentors whose newsletter flag is set, in registration order. Defined
      one mentor at a time from the end, the way the handler's loop grows its output. */
  function Subscribers(ms: seq<Mentor>): (r: seq<Mentor>)
    ensures |r| <= |ms|
    ensures r == [] <==> forall k :: 0 <= k < |ms| ==> !ms[k].newsletter
  {
    if ms == [] then []
    else
      var init, last := ms[..|ms| - 1], ms[|ms| - 1];
      assert forall k :: 0 <= k < |init| ==> init[k] == ms[k];
      Subscribers(init) + (if last.newsletter then [last] else [])
  }

  /** A mentor receives the newsletter exactly when it is registered and subscribed. */
  lemma {:induction false} SubscribersExactly(ms: seq<Mentor>)
    ensures forall m :: m in Subscribers(ms) <==> m in ms && m.newsletter
  {
    if ms != [] {
      var init, last := ms[..|ms| - 1], ms[|ms| - 1];
      SubscribersExactly(init);
      assert ms == init + [last];
    }
  }

  /** The indices of the subscribed mentors, in increasing order. */
  function Positions(ms: seq<Mentor>): seq<nat> {
    if ms == [] then []
    else Positions(ms[..|ms| - 1]) + (if ms[|ms| - 1].newsletter then [|ms| - 1] else [])
  }

  /** The subscribed indices are in range, strictly increasing, and complete. */
  lemma {:induction false} PositionsAreSubscribedIndices(ms: seq<Mentor>)
    ensures forall k :: 0 <= k < |Positions(ms)| ==> Positions(ms)[k] < |ms| && ms[Positions(ms)[k]].newsletter
    ensures forall k, l :: 0 <= k < l < |Positions(ms)| ==> Positions(ms)[k] < Positions(ms)[l]
    ensures forall j :: 0 <= j < |ms| && ms[j].newsletter ==> j in Positions(ms)
  {
    if ms != [] {
      var n := |ms| - 1;
      var init := ms[..n];
      PositionsAreSubscribedIndices(init);
      assert forall j :: 0 <= j < n ==> init[j] == ms[j];
    }
  }

  /** The filter keeps exactly the subscribed mentors and keeps them in order:
      its k-th entry is the mentor at the k-th subscribed index. */
  lemma {:induction false} SubscribersInOrder(ms: seq<Mentor>)
    ensures |Positions(ms)| == |Subscribers(ms)|
    ensures forall k :: 0 <= k < |Positions(ms)| ==>
              Positions(ms)[k] < |ms| && Subscribers(ms)[k] == ms[Positions(ms)[k]]
  {
    if ms != [] {
      var n := |ms| - 1;
      var init, last := ms[..n], ms[n];
      SubscribersInOrder(init);
      PositionsAreSubscribedIndices(init);
      assert forall j :: 0 <= j < n ==> init[j] == ms[j];
    }
  }

  /** Extending the mentor list by one mentor extends the filter by that
      mentor exactly when it is subscribed. */
  lemma SubscribersAppend(ms: seq<Mentor>, m: Mentor)
    ensures Subscribers(ms + [m]) == Subscribers(ms) + (if m.newsletter then [m] else [])
  {
  }
}
