/** One scene connection: the command loop as a state machine over its select branches. */
module SceneSocket {
  import opened Bytes
  import opened KeyedSort

  /** Identifiers compare bytewise, as Rust strings do. */
  type Id = seq<byte>

  type Nodes = seq<Id>

  /** A node's position, rotation and scale. */
  datatype Transform = Transform(position: seq<int>, rotation: seq<int>, scale: seq<int>)

  datatype Message =
    | SceneSnapshot(petal: Id, version: nat, nodes: Nodes)
    | SceneDelta(petal: Id, version: nat, change: Id)
    | TransformUpdate(petal: Id, node: Id)
    | TransformRollback(node: Id)
    | Reply
    | ResyncRequired
    | AuthInvalid

  /** A client message, with what the server finds out while handling it. */
  datatype Command =
    | Subscribe(petal: Id, authorized: bool)
    | Unsubscribe(petal: Id)
    | MoveNode(node: Id, transform: Transform, accepted: bool, stillCurrent: bool)
    | SceneSubscribe(petal: Id, authorized: bool, loaded: bool, nodes: Nodes)
    | Other
    | Auth
    | Disconnect

  /**
   * One turn of the loop. `current` is the credential check on entry, `sendable` the one inside a
   * protected send, `refused` the petals whose snapshot send fails its check, `loads` the node lists
   * that could be read, and `order` the order in which the debounce map drains.
   */
  datatype Event =
    | Incoming(current: bool, command: Command, sendable: bool)
    | Moved(current: bool, petal: Id, node: Id, sendable: bool)
    | Changed(current: bool, petal: Id, node: Id, failed: bool, sendable: bool)
    | Lagged(current: bool, loads: map<Id, Nodes>, refused: set<Id>)
    | FeedClosed(current: bool)
    | Tick(current: bool, order: seq<Id>)

  /** Loop variables, the messages sent so far, and the store the persist commands reach. */
  datatype State = State(
    open: bool,
    subscribed: set<Id>,
    version: nat,
    debounce: map<Id, Transform>,
    sent: seq<Message>,
    store: map<Id, Transform>)

  function Initial(store: map<Id, Transform>): State {
    State(true, {}, 0, map[], [], store)
  }

  /** A send that re-checks the credential first. */
  function SendProtected(s: State, message: Message, sendable: bool): State {
    s.(sent := s.sent + [if sendable then message else AuthInvalid])
  }

  function Break(s: State): State {
    s.(open := false, sent := s.sent + [AuthInvalid])
  }

  // ---------------------------------------------------------------------------
  // Lag recovery
  // ---------------------------------------------------------------------------

  function AsKeyed(ids: seq<Id>): (r: seq<Keyed<()>>)
    ensures |r| == |ids| && forall i :: 0 <= i < |ids| ==> r[i] == Keyed(ids[i], ())
  {
    seq(|ids|, i requires 0 <= i < |ids| => Keyed(ids[i], ()))
  }

  /** The petals of a set in ascending order. */
  ghost predicate Lists(ids: seq<Id>, petals: set<Id>) {
    StrictlyAscending(AsKeyed(ids)) && forall id :: id in ids <==> id in petals
  }

  lemma {:induction false} ListUnique(a: seq<Id>, b: seq<Id>, petals: set<Id>)
    requires Lists(a, petals) && Lists(b, petals)
    ensures a == b
  {
    hide StrictlyAscending;
    var left, right := AsKeyed(a), AsKeyed(b);
    forall x ensures x in left <==> x in right {
      if x in left {
        var i :| 0 <= i < |left| && left[i] == x;
        assert a[i] in b;
        var j :| 0 <= j < |b| && b[j] == a[i];
        assert right[j] == x;
      }
      if x in right {
        var j :| 0 <= j < |right| && right[j] == x;
        assert b[j] in a;
        var i :| 0 <= i < |a| && a[i] == b[j];
        assert left[i] == x;
      }
    }
    StrictUnique(left, right);
    forall i | 0 <= i < |a| ensures a[i] == b[i] {
      assert left[i] == right[i];
    }
  }

  /** Sorting any enumeration of a set lists it. */
  lemma {:induction false} SortLists(ids: seq<Id>, petals: set<Id>)
    requires DistinctKeys(AsKeyed(ids)) && forall id :: id in ids <==> id in petals
    ensures Lists(Keys(Sort(AsKeyed(ids))), petals)
  {
    hide StrictlyAscending, Sort, LexLess, DistinctKeys;
    var keyed := AsKeyed(ids);
    var sorted := Sort(keyed);
    SortStrict(keyed);
    SortMembers(keyed);
    forall i | 0 <= i < |sorted| ensures AsKeyed(Keys(sorted))[i] == sorted[i] {
      match sorted[i].item {
        case () =>
      }
    }
    assert AsKeyed(Keys(sorted)) == sorted;
    forall id ensures id in Keys(sorted) <==> id in petals {
      if id in Keys(sorted) {
        var i :| 0 <= i < |sorted| && Keys(sorted)[i] == id;
        assert sorted[i] in sorted;
        var k :| 0 <= k < |keyed| && keyed[k] == sorted[i];
        assert ids[k] == id;
      }
      if id in petals {
        var k :| 0 <= k < |ids| && ids[k] == id;
        assert keyed[k] in keyed;
        var i :| 0 <= i < |sorted| && sorted[i] == keyed[k];
        assert Keys(sorted)[i] == id;
      }
    }
  }

  function Keys(xs: seq<Keyed<()>>): (r: seq<Id>)
    ensures |r| == |xs| && forall i :: 0 <= i < |xs| ==> r[i] == xs[i].key
  {
    seq(|xs|, i requires 0 <= i < |xs| => xs[i].key)
  }

  lemma {:induction false} EnumerateSet(petals: set<Id>) returns (ids: seq<Id>)
    ensures DistinctKeys(AsKeyed(ids)) && forall id :: id in ids <==> id in petals
    decreases petals
  {
    ids := [];
    if petals != {} {
      var p :| p in petals;
      var rest := EnumerateSet(petals - {p});
      ids := [p] + rest;
      assert AsKeyed(ids) == [Keyed(p, ())] + AsKeyed(rest);
      forall i | 0 <= i < |rest| ensures rest[i] != p {
        assert rest[i] in rest;
      }
      DistinctCons(Keyed(p, ()), AsKeyed(rest));
    }
  }

  /** The order in which snapshots are loaded and sent. */
  ghost function Listing(petals: set<Id>): (ids: seq<Id>)
    ensures Lists(ids, petals)
  {
    ListingExists(petals);
    var ids :| Lists(ids, petals);
    ids
  }

  lemma {:induction false} ListingExists(petals: set<Id>)
    ensures exists ids :: Lists(ids, petals)
  {
    hide Lists;
    var ids := EnumerateSet(petals);
    SortLists(ids, petals);
  }

  /** Snapshots for `ids` in turn, each with its own version, until a credential check fails. */
  function SendSnapshots(s: State, ids: seq<Id>, loads: map<Id, Nodes>, refused: set<Id>): (r: (State, bool))
    requires forall id :: id in ids ==> id in loads
    decreases ids
  {
    if ids == [] then (s, true)
    else if ids[0] in refused then (s.(sent := s.sent + [AuthInvalid]), false)
    else
      var version := s.version + 1;
      var snapshot := SceneSnapshot(ids[0], version, loads[ids[0]]);
      SendSnapshots(s.(version := version, sent := s.sent + [snapshot]), ids[1..], loads, refused)
  }

  /** Gives up every subscription and tells the client to start over. */
  function Resync(s: State): State {
    s.(subscribed := {}, sent := s.sent + [ResyncRequired])
  }

  /** All snapshots are loaded before the first is sent. */
  ghost function Recover(s: State, loads: map<Id, Nodes>, refused: set<Id>): State {
    var ids := Listing(s.subscribed);
    if exists id :: id in ids && id !in loads then Resync(s)
    else
      var r := SendSnapshots(s, ids, loads, refused);
      if r.1 then r.0 else Resync(r.0)
  }

  // ---------------------------------------------------------------------------
  // Steps
  // ---------------------------------------------------------------------------

  function Persist(store: map<Id, Transform>, debounce: map<Id, Transform>, order: seq<Id>): map<Id, Transform>
    requires forall id :: id in order ==> id in debounce
    decreases order
  {
    if order == [] then store
    else Persist(store[order[0] := debounce[order[0]]], debounce, order[1..])
  }

  /** `order` visits every pending node once. */
  ghost predicate Drains(order: seq<Id>, debounce: map<Id, Transform>) {
    && (forall id :: id in order <==> id in debounce)
    && (forall i, j :: 0 <= i < j < |order| ==> order[i] != order[j])
  }

  function Handle(s: State, command: Command, sendable: bool): State {
    match command
    case Subscribe(petal, authorized) =>
      if !authorized then SendProtected(s, Reply, sendable)
      else SendProtected(s.(subscribed := s.subscribed + {petal}), Reply, sendable)
    case Unsubscribe(petal) => SendProtected(s.(subscribed := s.subscribed - {petal}), Reply, sendable)
    case MoveNode(node, transform, accepted, stillCurrent) =>
      if !accepted then SendProtected(s, Reply, sendable)
      else if !stillCurrent then Break(s)
      else s.(debounce := s.debounce[node := transform])
    case SceneSubscribe(petal, authorized, loaded, nodes) =>
      if !authorized then SendProtected(s, Reply, sendable)
      else if !loaded then s.(subscribed := s.subscribed - {petal}, sent := s.sent + [ResyncRequired])
      else
        var version := s.version + 1;
        SendProtected(s.(subscribed := s.subscribed + {petal}, version := version),
                      SceneSnapshot(petal, version, nodes), sendable)
    case Other => SendProtected(s, Reply, sendable)
    case Auth => s
    case Disconnect => s.(open := false)
  }

  /** An event the environment can produce in `s`: a drain visits exactly what is pending. */
  ghost predicate Possible(s: State, e: Event) {
    e.Tick? ==> Drains(e.order, s.debounce)
  }

  ghost function Step(s: State, e: Event): State
    requires Possible(s, e)
  {
    if !s.open then s
    else if !e.current then Break(s)
    else
      match e
      case Incoming(_, command, sendable) => Handle(s, command, sendable)
      case Moved(_, petal, node, sendable) =>
        if petal in s.subscribed then SendProtected(s, TransformUpdate(petal, node), sendable) else s
      case Changed(_, petal, node, failed, sendable) =>
        if petal !in s.subscribed then s
        else if failed then SendProtected(s, TransformRollback(node), sendable)
        else
          var version := s.version + 1;
          SendProtected(s.(version := version), SceneDelta(petal, version, node), sendable)
      case Lagged(_, loads, refused) => Recover(s, loads, refused)
      case FeedClosed(_) => s.(open := false)
      case Tick(_, order) => s.(debounce := map[], store := Persist(s.store, s.debounce, order))
  }

  /** `states[0]` is a fresh connection and each next state is one turn of the loop. */
  ghost predicate IsRun(states: seq<State>, events: seq<Event>) {
    && |states| == |events| + 1
    && states[0] == Initial(states[0].store)
    && forall i :: 0 <= i < |events| ==> Possible(states[i], events[i]) && states[i + 1] == Step(states[i], events[i])
  }

  // ---------------------------------------------------------------------------
  // The loop as it runs
  // ---------------------------------------------------------------------------

  class Connection {
    var state: State

    constructor (store: map<Id, Transform>)
      ensures state == Initial(store)
    {
      state := Initial(store);
    }

    /** Loads every snapshot first; false on a failed load or a failed credential check. */
    method SendSceneSnapshots(loads: map<Id, Nodes>, refused: set<Id>) returns (sent: bool)
      modifies this
      ensures var ids := Listing(old(state).subscribed);
        if exists id :: id in ids && id !in loads then !sent && state == old(state)
        else (state, sent) == SendSnapshots(old(state), ids, loads, refused)
    {
      hide Lists, SendSnapshots, Sort;
      var petalIds := SortedPetals(state.subscribed);
      var i := 0;
      while i < |petalIds|
        invariant 0 <= i <= |petalIds|
        invariant forall k :: 0 <= k < i ==> petalIds[k] in loads
      {
        if petalIds[i] !in loads {
          return false;
        }
        i := i + 1;
      }
      sent := SendAll(petalIds, loads, refused);
    }

    method SendAll(petalIds: seq<Id>, loads: map<Id, Nodes>, refused: set<Id>) returns (sent: bool)
      requires forall id :: id in petalIds ==> id in loads
      modifies this
      ensures (state, sent) == SendSnapshots(old(state), petalIds, loads, refused)
    {
      ghost var before := state;
      var i := 0;
      while i < |petalIds|
        invariant 0 <= i <= |petalIds|
        invariant SendSnapshots(before, petalIds, loads, refused) == SendSnapshots(state, petalIds[i..], loads, refused)
      {
        var petal := petalIds[i];
        assert petalIds[i..][0] == petal && petalIds[i..][1..] == petalIds[i + 1..];
        if petal in refused {
          state := state.(sent := state.sent + [AuthInvalid]);
          return false;
        }
        state := state.(version := state.version + 1);
        state := state.(sent := state.sent + [SceneSnapshot(petal, state.version, loads[petal])]);
        i := i + 1;
      }
      return true;
    }

    method Flush(order: seq<Id>)
      requires Drains(order, state.debounce)
      modifies this
      ensures state == old(state).(debounce := map[], store := Persist(old(state).store, old(state).debounce, order))
    {
      ghost var before := state;
      for i := 0 to |order|
        invariant state == before.(store := state.store)
        invariant Persist(before.store, before.debounce, order) == Persist(state.store, before.debounce, order[i..])
      {
        assert order[i..][0] == order[i] && order[i..][1..] == order[i + 1..];
        state := state.(store := state.store[order[i] := state.debounce[order[i]]]);
      }
      state := state.(debounce := map[]);
    }

    method Send(message: Message, sendable: bool)
      modifies this
      ensures state == SendProtected(old(state), message, sendable)
    {
      if sendable {
        state := state.(sent := state.sent + [message]);
      } else {
        state := state.(sent := state.sent + [AuthInvalid]);
      }
    }

    method HandleCommand(command: Command, sendable: bool)
      modifies this
      ensures state == Handle(old(state), command, sendable)
    {
      match command {
        case Subscribe(petal, authorized) =>
          if authorized {
            state := state.(subscribed := state.subscribed + {petal});
          }
          Send(Reply, sendable);
        case Unsubscribe(petal) =>
          state := state.(subscribed := state.subscribed - {petal});
          Send(Reply, sendable);
        case MoveNode(node, transform, accepted, stillCurrent) =>
          if !accepted {
            Send(Reply, sendable);
          } else if !stillCurrent {
            state := state.(open := false, sent := state.sent + [AuthInvalid]);
          } else {
            state := state.(debounce := state.debounce[node := transform]);
          }
        case SceneSubscribe(petal, authorized, loaded, nodes) =>
          if !authorized {
            Send(Reply, sendable);
            return;
          }
          var nextVersion := state.version + 1;
          if !loaded {
            state := state.(subscribed := state.subscribed - {petal});
            state := state.(sent := state.sent + [ResyncRequired]);
            return;
          }
          state := state.(subscribed := state.subscribed + {petal});
          state := state.(version := nextVersion);
          Send(SceneSnapshot(petal, nextVersion, nodes), sendable);
        case Other =>
          Send(Reply, sendable);
        case Auth =>
        case Disconnect =>
          state := state.(open := false);
      }
    }

    /** One turn of the loop. */
    method Turn(e: Event)
      requires Possible(state, e)
      modifies this
      ensures state == Step(old(state), e)
    {
      hide Lists, SendSnapshots, Listing, Persist, Drains, Handle;
      if !state.open {
        return;
      }
      if !e.current {
        state := state.(open := false, sent := state.sent + [AuthInvalid]);
        return;
      }
      match e {
        case Incoming(_, command, sendable) =>
          HandleCommand(command, sendable);
        case Moved(_, petal, node, sendable) =>
          if petal in state.subscribed {
            Send(TransformUpdate(petal, node), sendable);
          }
        case Changed(_, petal, node, failed, sendable) =>
          if petal in state.subscribed {
            if failed {
              Send(TransformRollback(node), sendable);
            } else {
              state := state.(version := state.version + 1);
              Send(SceneDelta(petal, state.version, node), sendable);
            }
          }
        case Lagged(_, loads, refused) =>
          var sent := SendSceneSnapshots(loads, refused);
          if !sent {
            state := state.(subscribed := {});
            state := state.(sent := state.sent + [ResyncRequired]);
          }
        case FeedClosed(_) =>
          state := state.(open := false);
        case Tick(_, order) =>
          Flush(order);
      }
    }
  }

  method SortedPetals(petals: set<Id>) returns (ids: seq<Id>)
    ensures ids == Listing(petals)
  {
    hide Lists, Listing, Sort;
    var rest := petals;
    ids := [];
    while rest != {}
      invariant rest <= petals
      invariant forall id :: id in ids <==> id in petals - rest
      invariant DistinctKeys(AsKeyed(ids))
      decreases rest
    {
      var p :| p in rest;
      rest := rest - {p};
      DistinctSnoc(ids, p);
      ids := ids + [p];
    }
    SortLists(ids, petals);
    ids := Keys(Sort(AsKeyed(ids)));
    ListUnique(ids, Listing(petals), petals);
  }

  lemma {:induction false} DistinctSnoc(ids: seq<Id>, p: Id)
    requires DistinctKeys(AsKeyed(ids)) && p !in ids
    ensures DistinctKeys(AsKeyed(ids + [p]))
  {
    var before, after := AsKeyed(ids), AsKeyed(ids + [p]);
    forall i, j | 0 <= i < j < |after| ensures after[i].key != after[j].key {
      if j == |ids| {
        assert ids[i] in ids;
      } else {
        assert before[i].key != before[j].key;
      }
    }
  }
}
