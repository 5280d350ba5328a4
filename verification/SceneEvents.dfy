/** What the events of a run alone say about a scene connection: whether it is open, and what it is subscribed to. */
module SceneEvents {
  import opened Bytes
  import opened KeyedSort
  import opened SceneSocket

  // ---------------------------------------------------------------------------
  // Open or closed
  // ---------------------------------------------------------------------------

  /** The turn does not end the loop. */
  predicate StaysOpen(e: Event) {
    && e.current && !e.FeedClosed?
    && (e.Incoming? ==>
          && !e.command.Disconnect?
          && (e.command.MoveNode? && e.command.accepted ==> e.command.stillCurrent))
  }

  /** No turn before the `n`th ended the loop. */
  ghost predicate OpenAt(events: seq<Event>, n: nat) {
    forall i :: 0 <= i < n && i < |events| ==> StaysOpen(events[i])
  }

  lemma {:induction false} OpenExactly(states: seq<State>, events: seq<Event>, n: nat)
    requires IsRun(states, events) && n < |states|
    ensures states[n].open <==> OpenAt(events, n)
  {
    hide Possible, Step;
    if n > 0 {
      OpenExactly(states, events, n - 1);
      StepStaysOpen(states[n - 1], events[n - 1]);
    }
  }

  lemma {:induction false} StepStaysOpen(s: State, e: Event)
    requires Possible(s, e)
    ensures Step(s, e).open <==> s.open && StaysOpen(e)
  {
    hide Recover, Persist, Possible;
    if e.Lagged? {
      RecoverMembers(s, e.loads, e.refused);
    }
  }

  // ---------------------------------------------------------------------------
  // Subscriptions
  // ---------------------------------------------------------------------------

  /** A subscription that takes effect. */
  predicate Joins(e: Event, petal: Id) {
    && e.current && e.Incoming?
    && match e.command
       case Subscribe(p, authorized) => p == petal && authorized
       case SceneSubscribe(p, authorized, loaded, _) => p == petal && authorized && loaded
       case _ => false
  }

  /** An unsubscription, or a scene subscription whose snapshot cannot be loaded. */
  predicate Leaves(e: Event, petal: Id) {
    && e.current && e.Incoming?
    && match e.command
       case Unsubscribe(p) => p == petal
       case SceneSubscribe(p, authorized, loaded, _) => p == petal && authorized && !loaded
       case _ => false
  }

  /** A lag at turn `n` that cannot be made up: some petal subscribed then is not loaded, or its snapshot is refused. */
  ghost predicate RecoveryFails(events: seq<Event>, n: nat)
    requires n < |events|
    decreases n, 2
  {
    && events[n].current && events[n].Lagged?
    && exists petal :: Holds(events, n, petal) && (petal !in events[n].loads || petal in events[n].refused)
  }

  /** Some turn before the `n`th subscribed to the petal, and none since took that back. */
  ghost predicate Holds(events: seq<Event>, n: nat, petal: Id)
    requires n <= |events|
    decreases n, 1
  {
    exists m :: 0 <= m < n && JoinedSince(events, m, n, petal)
  }

  ghost predicate JoinedSince(events: seq<Event>, m: nat, n: nat, petal: Id)
    requires m < n <= |events|
    decreases n, 0
  {
    && OpenAt(events, m) && Joins(events[m], petal)
    && forall i :: m < i < n && OpenAt(events, i) ==> !Leaves(events[i], petal) && !RecoveryFails(events, i)
  }

  /** One more turn. */
  lemma {:induction false} HoldsNext(events: seq<Event>, n: nat, petal: Id)
    requires 0 < n <= |events|
    ensures !OpenAt(events, n - 1) ==> (Holds(events, n, petal) <==> Holds(events, n - 1, petal))
    ensures OpenAt(events, n - 1) ==>
      (Holds(events, n, petal) <==>
        || Joins(events[n - 1], petal)
        || (Holds(events, n - 1, petal) && !Leaves(events[n - 1], petal) && !RecoveryFails(events, n - 1)))
  {
    hide OpenAt, Joins, Leaves, RecoveryFails;
    if m :| 0 <= m < n - 1 && JoinedSince(events, m, n, petal) {
      assert JoinedSince(events, m, n - 1, petal);
    }
    var kept := OpenAt(events, n - 1) ==> !Leaves(events[n - 1], petal) && !RecoveryFails(events, n - 1);
    if kept && Holds(events, n - 1, petal) {
      var m :| 0 <= m < n - 1 && JoinedSince(events, m, n - 1, petal);
      assert JoinedSince(events, m, n, petal);
    }
    if OpenAt(events, n - 1) && Joins(events[n - 1], petal) {
      assert JoinedSince(events, n - 1, n, petal);
    }
    OpenBefore(events, n);
  }

  /** A petal joined at a closed turn is no petal joined: what was open later was open before. */
  lemma {:induction false} OpenBefore(events: seq<Event>, n: nat)
    ensures forall m: nat :: m <= n && OpenAt(events, n) ==> OpenAt(events, m)
  {
  }

  /** Snapshots all go out exactly when none is refused. */
  lemma {:induction false} SnapshotsSucceed(s: State, ids: seq<Id>, loads: map<Id, Nodes>, refused: set<Id>)
    requires forall id :: id in ids ==> id in loads
    ensures var r := SendSnapshots(s, ids, loads, refused);
      && r.0.subscribed == s.subscribed && r.0.open == s.open
      && (r.1 <==> forall id :: id in ids ==> id !in refused)
    decreases ids
  {
    if ids != [] && ids[0] !in refused {
      var version := s.version + 1;
      var snapshot := SceneSnapshot(ids[0], version, loads[ids[0]]);
      SnapshotsSucceed(s.(version := version, sent := s.sent + [snapshot]), ids[1..], loads, refused);
      assert forall id :: id in ids <==> id == ids[0] || id in ids[1..];
    }
  }

  lemma {:induction false} RecoverMembers(s: State, loads: map<Id, Nodes>, refused: set<Id>)
    ensures var t := Recover(s, loads, refused);
      && t.open == s.open
      && t.subscribed ==
           if exists p :: p in s.subscribed && (p !in loads || p in refused) then {} else s.subscribed
  {
    hide SendSnapshots, Listing;
    var ids := Listing(s.subscribed);
    if !exists id :: id in ids && id !in loads {
      SnapshotsSucceed(s, ids, loads, refused);
    }
  }

  ghost predicate LosesAll(s: State, e: Event) {
    e.current && e.Lagged? && exists p :: p in s.subscribed && (p !in e.loads || p in e.refused)
  }

  lemma {:induction false} StepMembers(s: State, e: Event, petal: Id)
    requires Possible(s, e)
    ensures !s.open ==> (petal in Step(s, e).subscribed <==> petal in s.subscribed)
    ensures s.open ==>
      (petal in Step(s, e).subscribed <==>
        || Joins(e, petal)
        || (petal in s.subscribed && !Leaves(e, petal) && !LosesAll(s, e)))
  {
    hide Recover, Persist, Possible;
    if e.Lagged? {
      RecoverMembers(s, e.loads, e.refused);
    }
  }

  /**
   * On every run, a petal is subscribed exactly when some turn subscribed to it while the loop ran and since then
   * there was no unsubscription from it, no failed load of it, and no lag that could not be made up.
   */
  lemma {:induction false} SubscribedExactly(states: seq<State>, events: seq<Event>, n: nat)
    requires IsRun(states, events) && n < |states|
    ensures forall petal :: petal in states[n].subscribed <==> Holds(events, n, petal)
  {
    hide Possible, Step, OpenAt, Joins, Leaves, Holds;
    if n == 0 {
      forall petal ensures !Holds(events, 0, petal) {
        NothingHeld(events, petal);
      }
    } else {
      SubscribedExactly(states, events, n - 1);
      OpenExactly(states, events, n - 1);
      forall petal ensures petal in states[n].subscribed <==> Holds(events, n, petal) {
        StepMembers(states[n - 1], events[n - 1], petal);
        HoldsNext(events, n, petal);
      }
    }
  }

  lemma {:induction false} NothingHeld(events: seq<Event>, petal: Id)
    ensures !Holds(events, 0, petal)
  {
  }

  // ---------------------------------------------------------------------------
  // Answers
  // ---------------------------------------------------------------------------

  /** What a turn adds to the log for a client's command. */
  lemma {:induction false} CommandAnswered(s: State, e: Event)
    requires Possible(s, e) && s.open && e.current && e.Incoming?
    ensures var t, c := Step(s, e), e.command;
      && (c.SceneSubscribe? && c.authorized && c.loaded ==>
            t.sent == s.sent + [if e.sendable then SceneSnapshot(c.petal, s.version + 1, c.nodes) else AuthInvalid])
      && (c.SceneSubscribe? && c.authorized && !c.loaded ==> t.sent == s.sent + [ResyncRequired])
      && (c.MoveNode? && c.accepted && c.stillCurrent ==> t.sent == s.sent)
      && (c.MoveNode? && c.accepted && !c.stillCurrent ==> t.sent == s.sent + [AuthInvalid])
      && (c.Auth? || c.Disconnect? ==> t.sent == s.sent)
      && (c.Subscribe? || c.Unsubscribe? || c.Other? || (c.SceneSubscribe? && !c.authorized)
          || (c.MoveNode? && !c.accepted) ==>
            t.sent == s.sent + [if e.sendable then Reply else AuthInvalid])
  {
    hide Recover, Persist, Possible;
  }

  /** The snapshots of the first `count` petals, numbered from after `version`. */
  function Snapshots(ids: seq<Id>, count: nat, version: nat, loads: map<Id, Nodes>): seq<Message>
    requires count <= |ids| && forall id :: id in ids ==> id in loads
  {
    seq(count, k requires 0 <= k < count => SceneSnapshot(ids[k], version + 1 + k, loads[ids[k]]))
  }

  lemma {:induction false} SnapshotsSent(s: State, ids: seq<Id>, loads: map<Id, Nodes>, refused: set<Id>)
      returns (count: nat)
    requires forall id :: id in ids ==> id in loads
    ensures count <= |ids| && (forall k :: 0 <= k < count ==> ids[k] !in refused)
    ensures count < |ids| ==> ids[count] in refused
    ensures var r := SendSnapshots(s, ids, loads, refused);
      && r.0.version == s.version + count
      && r.0.sent == s.sent + Snapshots(ids, count, s.version, loads) + if count < |ids| then [AuthInvalid] else []
    decreases ids
  {
    count := 0;
    if ids == [] {
      assert s.sent + Snapshots(ids, 0, s.version, loads) + [] == s.sent;
    } else if ids[0] in refused {
      assert s.sent + Snapshots(ids, 0, s.version, loads) == s.sent;
    } else {
      var version := s.version + 1;
      var snapshot := SceneSnapshot(ids[0], version, loads[ids[0]]);
      var rest := SnapshotsSent(s.(version := version, sent := s.sent + [snapshot]), ids[1..], loads, refused);
      count := rest + 1;
      assert Snapshots(ids, count, s.version, loads) == [snapshot] + Snapshots(ids[1..], rest, version, loads);
      assert s.sent + ([snapshot] + Snapshots(ids[1..], rest, version, loads))
          == s.sent + [snapshot] + Snapshots(ids[1..], rest, version, loads);
    }
  }

  /**
   * What a lag adds to the log: when every subscribed petal can be loaded, one snapshot for each, in ascending order
   * and with consecutive versions, up to the first that is refused; then, or when some petal cannot be loaded, notices.
   */
  lemma {:induction false} LagAnswered(s: State, e: Event) returns (ids: seq<Id>, count: nat)
    requires Possible(s, e) && s.open && e.current && e.Lagged?
    ensures forall id :: id in ids <==> id in s.subscribed
    ensures forall i, j :: 0 <= i < j < |ids| ==> Precedes(ids[i], ids[j])
    ensures count <= |ids| && (forall k :: 0 <= k < count ==> ids[k] !in e.refused)
    ensures count < |ids| ==> ids[count] in e.refused
    ensures var t := Step(s, e);
      if exists id :: id in s.subscribed && id !in e.loads then t.sent == s.sent + [ResyncRequired]
      else t.sent == s.sent + Snapshots(ids, count, s.version, e.loads)
                     + if count < |ids| then [AuthInvalid, ResyncRequired] else []
  {
    hide SendSnapshots, Persist, Possible, LexLess, Precedes, StrictlyAscending;
    ids := Listing(s.subscribed);
    ListedInOrder(ids, s.subscribed);
    if exists id :: id in s.subscribed && id !in e.loads {
      count := FirstRefused(ids, e.refused);
    } else {
      count := SnapshotsSent(s, ids, e.loads, e.refused);
      SnapshotsSucceed(s, ids, e.loads, e.refused);
    }
  }

  lemma {:induction false} FirstRefused(ids: seq<Id>, refused: set<Id>) returns (count: nat)
    ensures count <= |ids| && (forall k :: 0 <= k < count ==> ids[k] !in refused)
    ensures count < |ids| ==> ids[count] in refused
  {
    count := 0;
    if ids != [] && ids[0] !in refused {
      var rest := FirstRefused(ids[1..], refused);
      count := rest + 1;
    }
  }

  lemma {:induction false} ListedInOrder(ids: seq<Id>, petals: set<Id>)
    requires Lists(ids, petals)
    ensures forall i, j :: 0 <= i < j < |ids| ==> Precedes(ids[i], ids[j])
  {
    hide LexLess, Precedes;
    var keyed := AsKeyed(ids);
    forall i, j | 0 <= i < j < |ids| ensures Precedes(ids[i], ids[j]) {
      assert LexLess(keyed[i].key, keyed[j].key);
      LexIsPrecedes(ids[i], ids[j]);
    }
  }
}
