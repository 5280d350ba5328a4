/** What every run of a scene connection keeps. */
module SceneRuns {
  import opened SceneSocket
  import opened SceneEvents

  // ---------------------------------------------------------------------------
  // Versions
  // ---------------------------------------------------------------------------

  predicate Versioned(m: Message) {
    m.SceneSnapshot? || m.SceneDelta?
  }

  /** The versions carried by a log, in the order sent. */
  function Versions(log: seq<Message>): seq<nat> {
    if log == [] then []
    else
      var last := log[|log| - 1];
      Versions(log[..|log| - 1]) + if Versioned(last) then [last.version] else []
  }

  lemma {:induction false} VersionsSnoc(log: seq<Message>, m: Message)
    ensures Versions(log + [m]) == Versions(log) + if Versioned(m) then [m.version] else []
  {
    assert (log + [m])[..|log|] == log;
  }

  /** Versions ascend strictly and have not passed the counter. */
  ghost predicate Ordered(s: State) {
    var vs := Versions(s.sent);
    && (forall i, j :: 0 <= i < j < |vs| ==> vs[i] < vs[j])
    && (forall i :: 0 <= i < |vs| ==> 1 <= vs[i] <= s.version)
  }

  /** Every version up to the counter has been sent. */
  ghost predicate Gapless(s: State) {
    var vs := Versions(s.sent);
    |vs| == s.version && forall i :: 0 <= i < |vs| ==> vs[i] == i + 1
  }

  /** How many versions the counter has passed without their being sent. */
  function Missing(s: State): int {
    s.version - |Versions(s.sent)|
  }

  lemma {:induction false} Counts(s: State, n: nat)
    requires Ordered(s) && n < |Versions(s.sent)|
    ensures n + 1 <= Versions(s.sent)[n] <= s.version - (|Versions(s.sent)| - 1 - n)
    decreases n
  {
    CountsFrom(s, 0, n);
    CountsFrom(s, n, |Versions(s.sent)| - 1);
  }

  /** Ascending versions are at least as far apart as their places. */
  lemma {:induction false} CountsFrom(s: State, m: nat, n: nat)
    requires Ordered(s) && m <= n < |Versions(s.sent)|
    ensures Versions(s.sent)[m] + (n - m) <= Versions(s.sent)[n]
  {
    hide Versions;
    if m < n {
      CountsFrom(s, m, n - 1);
    }
  }

  /** Ascending versions have no gap exactly when none is missing. */
  lemma {:induction false} GaplessCounts(s: State)
    requires Ordered(s)
    ensures Missing(s) >= 0
    ensures Gapless(s) <==> Missing(s) == 0
  {
    hide Versions;
    var vs := Versions(s.sent);
    if |vs| > 0 {
      Counts(s, |vs| - 1);
    }
    if |vs| == s.version {
      forall i | 0 <= i < |vs| ensures vs[i] == i + 1 {
        Counts(s, i);
      }
    }
  }

  /** Sending an unversioned message changes neither order nor count. */
  lemma {:induction false} SendPlain(s: State, m: Message)
    requires !Versioned(m)
    ensures Versions(s.sent + [m]) == Versions(s.sent)
    ensures Ordered(s) ==> Ordered(s.(sent := s.sent + [m]))
    ensures Missing(s.(sent := s.sent + [m])) == Missing(s)
  {
    hide Versions;
    VersionsSnoc(s.sent, m);
  }

  /** Bumping the counter and sending it keeps both; bumping without sending leaves one more version missing. */
  lemma {:induction false} SendNext(s: State, m: Message, sendable: bool)
    requires Versioned(m) && m.version == s.version + 1
    ensures var t := SendProtected(s.(version := s.version + 1), m, sendable);
      && (Ordered(s) ==> Ordered(t))
      && Missing(t) == Missing(s) + if sendable then 0 else 1
  {
    hide Versions;
    VersionsSnoc(s.sent, m);
    VersionsSnoc(s.sent, AuthInvalid);
  }

  lemma {:induction false} SnapshotsKeepVersions(s: State, ids: seq<Id>, loads: map<Id, Nodes>, refused: set<Id>)
    requires forall id :: id in ids ==> id in loads
    ensures var r := SendSnapshots(s, ids, loads, refused).0;
      && (Ordered(s) ==> Ordered(r))
      && Missing(r) == Missing(s)
    decreases ids
  {
    hide Ordered, Missing, Versions;
    if ids != [] {
      if ids[0] in refused {
        SendPlain(s, AuthInvalid);
      } else {
        var version := s.version + 1;
        var snapshot := SceneSnapshot(ids[0], version, loads[ids[0]]);
        SendNext(s, snapshot, true);
        SnapshotsKeepVersions(s.(version := version, sent := s.sent + [snapshot]), ids[1..], loads, refused);
      }
    }
  }

  lemma {:induction false} SameVersions(s: State, t: State)
    requires s.sent == t.sent && s.version == t.version
    ensures Ordered(s) == Ordered(t) && Missing(s) == Missing(t)
  {
  }

  lemma {:induction false} RecoverKeepsVersions(s: State, loads: map<Id, Nodes>, refused: set<Id>)
    ensures var t := Recover(s, loads, refused);
      && (Ordered(s) ==> Ordered(t))
      && Missing(t) == Missing(s)
  {
    hide Ordered, Missing, Versions, SendSnapshots, Lists, Listing;
    var ids := Listing(s.subscribed);
    if exists id :: id in ids && id !in loads {
      SendPlain(s, ResyncRequired);
      SameVersions(s.(sent := s.sent + [ResyncRequired]), Resync(s));
    } else {
      SnapshotsKeepVersions(s, ids, loads, refused);
      var r := SendSnapshots(s, ids, loads, refused);
      if !r.1 {
        SendPlain(r.0, ResyncRequired);
        SameVersions(r.0.(sent := r.0.sent + [ResyncRequired]), Resync(r.0));
      }
    }
  }

  predicate BumpsByCommand(command: Command) {
    command.SceneSubscribe? && command.authorized && command.loaded
  }

  /** A version-bearing message of this turn, outside lag recovery, fails the credential check of its send. */
  predicate RefusesVersion(s: State, e: Event) {
    && s.open && e.current
    && match e
       case Incoming(_, command, sendable) => BumpsByCommand(command) && !sendable
       case Changed(_, petal, _, failed, sendable) => petal in s.subscribed && !failed && !sendable
       case _ => false
  }

  lemma {:induction false} HandleKeepsVersions(s: State, command: Command, sendable: bool)
    ensures var t := Handle(s, command, sendable);
      && (Ordered(s) ==> Ordered(t))
      && Missing(t) == Missing(s) + if BumpsByCommand(command) && !sendable then 1 else 0
  {
    hide Ordered, Missing, Versions;
    if BumpsByCommand(command) {
      var wide := s.(subscribed := s.subscribed + {command.petal});
      SameVersions(s, wide);
      SendNext(wide, SceneSnapshot(command.petal, s.version + 1, command.nodes), sendable);
    } else {
      HandleSendsPlain(s, command, sendable);
      var t := Handle(s, command, sendable);
      if t.sent == s.sent {
        SameVersions(t, s);
      } else {
        SendPlain(s, t.sent[|s.sent|]);
        SameVersions(t, s.(sent := t.sent));
      }
    }
  }

  lemma {:induction false} HandleSendsPlain(s: State, command: Command, sendable: bool)
    requires !(command.SceneSubscribe? && command.authorized && command.loaded)
    ensures var t := Handle(s, command, sendable);
      && t.version == s.version
      && (t.sent == s.sent || exists m :: !Versioned(m) && RelayOf(m) == [] && t.sent == s.sent + [m])
  {
    var t := Handle(s, command, sendable);
    assert t.sent == s.sent || t.sent == s.sent + [Reply] || t.sent == s.sent + [AuthInvalid]
        || t.sent == s.sent + [ResyncRequired];
  }

  lemma {:induction false} StepKeepsVersions(s: State, e: Event)
    requires Possible(s, e)
    ensures var t := Step(s, e);
      && (Ordered(s) ==> Ordered(t))
      && Missing(t) == Missing(s) + if RefusesVersion(s, e) then 1 else 0
  {
    hide Ordered, Missing, Versions, Recover, Handle, Persist;
    var t := Step(s, e);
    SendPlain(s, AuthInvalid);
    if !s.open {
    } else if !e.current {
      SameVersions(s.(sent := s.sent + [AuthInvalid]), t);
    } else {
      match e {
        case Incoming(_, command, sendable) =>
          HandleKeepsVersions(s, command, sendable);
        case Moved(_, petal, node, _) =>
          SendPlain(s, TransformUpdate(petal, node));
        case Changed(_, petal, node, failed, sendable) =>
          if petal in s.subscribed {
            if failed {
              SendPlain(s, TransformRollback(node));
            } else {
              SendNext(s, SceneDelta(petal, s.version + 1, node), sendable);
            }
          }
        case Lagged(_, loads, refused) =>
          RecoverKeepsVersions(s, loads, refused);
        case FeedClosed(_) =>
          SameVersions(s, t);
        case Tick(_, _) =>
          SameVersions(s, t);
      }
    }
  }

  /** On every run the versions sent ascend strictly. */
  lemma {:induction false} VersionsAscend(states: seq<State>, events: seq<Event>, n: nat)
    requires IsRun(states, events) && n < |states|
    ensures Ordered(states[n])
  {
    hide Step, Possible;
    if n == 0 {
      NothingSent(states[0].store);
    } else {
      hide Ordered;
      VersionsAscend(states, events, n - 1);
      StepKeepsVersions(states[n - 1], events[n - 1]);
    }
  }

  lemma {:induction false} NothingSent(store: map<Id, Transform>)
    ensures Ordered(Initial(store)) && Missing(Initial(store)) == 0
  {
  }

  /** The turn, by the events alone, bears a version that fails the credential check of its send. */
  ghost predicate Refused(events: seq<Event>, i: nat)
    requires i < |events|
  {
    && OpenAt(events, i) && events[i].current
    && match events[i]
       case Incoming(_, command, sendable) => BumpsByCommand(command) && !sendable
       case Changed(_, petal, _, failed, sendable) => Holds(events, i, petal) && !failed && !sendable
       case _ => false
  }

  /** How many version-bearing sends were refused in the first `n` turns. */
  ghost function RefusedSoFar(events: seq<Event>, n: nat): (count: nat)
    requires n <= |events|
    ensures count == 0 <==> forall i :: 0 <= i < n ==> !Refused(events, i)
  {
    if n == 0 then 0 else RefusedSoFar(events, n - 1) + if Refused(events, n - 1) then 1 else 0
  }

  lemma {:induction false} RefusedByEvents(states: seq<State>, events: seq<Event>, i: nat)
    requires IsRun(states, events) && i < |events|
    ensures RefusesVersion(states[i], events[i]) <==> Refused(events, i)
  {
    hide Step, Possible, OpenAt, Holds;
    OpenExactly(states, events, i);
    SubscribedExactly(states, events, i);
  }

  /** On every run the counter is the number of versions sent and of versions refused. */
  lemma {:induction false} VersionsAccounted(states: seq<State>, events: seq<Event>, n: nat)
    requires IsRun(states, events) && n < |states|
    ensures states[n].version == |Versions(states[n].sent)| + RefusedSoFar(events, n)
  {
    hide Step, Possible, RefusesVersion, Refused, Versions;
    if n == 0 {
      NothingSent(states[0].store);
    } else {
      VersionsAccounted(states, events, n - 1);
      StepKeepsVersions(states[n - 1], events[n - 1]);
      RefusedByEvents(states, events, n - 1);
    }
  }

  /** The versions sent are 1, 2, 3, … up to the counter if and only if no version-bearing send was refused. */
  lemma {:induction false} VersionsHaveNoGap(states: seq<State>, events: seq<Event>, n: nat)
    requires IsRun(states, events) && n < |states|
    ensures Gapless(states[n]) <==> forall i :: 0 <= i < n ==> !Refused(events, i)
  {
    hide Step, Possible, Refused, Gapless, Versions, Ordered;
    VersionsAscend(states, events, n);
    VersionsAccounted(states, events, n);
    GaplessCounts(states[n]);
  }

  /** A snapshot that cannot be loaded: a scene subscription, or any petal of a lag recovery. */
  ghost predicate LoadFails(s: State, e: Event) {
    || (e.Incoming? && e.command.SceneSubscribe? && e.command.authorized && !e.command.loaded)
    || (e.Lagged? && exists p :: p in s.subscribed && p !in e.loads)
  }

  /** A failed load consumes no version, drops the subscriptions it was for, and asks for a resync. */
  lemma {:induction false} LoadFailureKeepsVersion(s: State, e: Event)
    requires Possible(s, e) && s.open && e.current && LoadFails(s, e)
    ensures var t := Step(s, e);
      && t.version == s.version
      && t.sent == s.sent + [ResyncRequired]
      && t.subscribed == if e.Lagged? then {} else s.subscribed - {e.command.petal}
  {
    if e.Lagged? {
      var p :| p in s.subscribed && p !in e.loads;
      assert p in Listing(s.subscribed);
    }
  }

  // ---------------------------------------------------------------------------
  // The log over a run
  // ---------------------------------------------------------------------------

  lemma {:induction false} SnapshotsExtend(s: State, ids: seq<Id>, loads: map<Id, Nodes>, refused: set<Id>)
    requires forall id :: id in ids ==> id in loads
    ensures var r := SendSnapshots(s, ids, loads, refused);
      && s.sent <= r.0.sent && r.0.subscribed == s.subscribed
      && (r.1 ==> forall id :: id in ids ==>
            exists k :: |s.sent| <= k < |r.0.sent| && IsSnapshot(r.0.sent[k], id, loads[id]))
      && (forall k :: |s.sent| <= k < |r.0.sent| ==>
            r.0.sent[k] == AuthInvalid || (r.0.sent[k].SceneSnapshot? && r.0.sent[k].petal in ids))
    decreases ids
  {
    if ids != [] && ids[0] !in refused {
      var version := s.version + 1;
      var snapshot := SceneSnapshot(ids[0], version, loads[ids[0]]);
      var t := s.(version := version, sent := s.sent + [snapshot]);
      SnapshotsExtend(t, ids[1..], loads, refused);
      var r := SendSnapshots(t, ids[1..], loads, refused);
      assert r.0.sent[|s.sent|] == snapshot;
      if r.1 {
        forall id | id in ids
          ensures exists k :: |s.sent| <= k < |r.0.sent| && IsSnapshot(r.0.sent[k], id, loads[id])
        {
          if id == ids[0] {
            assert IsSnapshot(r.0.sent[|s.sent|], id, loads[id]);
          } else {
            assert id in ids[1..];
            var k :| |t.sent| <= k < |r.0.sent| && IsSnapshot(r.0.sent[k], id, loads[id]);
          }
        }
      }
    }
  }

  predicate IsSnapshot(m: Message, petal: Id, nodes: Nodes) {
    m.SceneSnapshot? && m.petal == petal && m.nodes == nodes
  }

  /** The log only grows, and what a step adds names only petals subscribed before or by that step. */
  ghost predicate Grows(s: State, t: State) {
    && s.sent <= t.sent
    && forall k :: |s.sent| <= k < |t.sent| ==> Addressed(t.sent[k], s.subscribed + t.subscribed)
  }

  predicate Addressed(m: Message, petals: set<Id>) {
    (m.SceneSnapshot? || m.SceneDelta? || m.TransformUpdate?) ==> m.petal in petals
  }

  lemma {:induction false} RecoverGrows(s: State, loads: map<Id, Nodes>, refused: set<Id>)
    ensures var t := Recover(s, loads, refused);
      && Grows(s, t) && t.subscribed <= s.subscribed
      && (forall p :: p in t.subscribed ==>
            p in loads && exists k :: |s.sent| <= k < |t.sent| && IsSnapshot(t.sent[k], p, loads[p]))
  {
    hide SendSnapshots, Listing;
    var ids := Listing(s.subscribed);
    if !exists id :: id in ids && id !in loads {
      SnapshotsExtend(s, ids, loads, refused);
    }
  }

  lemma {:induction false} StepGrows(s: State, e: Event)
    requires Possible(s, e)
    ensures Grows(s, Step(s, e))
  {
    hide Recover, Persist, Possible;
    if e.Lagged? && s.open && e.current {
      RecoverGrows(s, e.loads, e.refused);
    }
  }

  lemma {:induction false} LogGrows(states: seq<State>, events: seq<Event>, m: nat, n: nat)
    requires IsRun(states, events) && m <= n < |states|
    ensures states[m].sent <= states[n].sent
    decreases n - m
  {
    hide Step, Possible;
    if m < n {
      LogGrows(states, events, m, n - 1);
      StepGrows(states[n - 1], events[n - 1]);
    }
  }

  /**
   * A petal still subscribed after a lag got a snapshot of the nodes read then, and every delta for
   * it sent later stands after that snapshot in the log.
   */
  lemma {:induction false} FreshSnapshotAfterLag(states: seq<State>, events: seq<Event>, i: nat, n: nat,
      petal: Id, later: nat)
    requires IsRun(states, events) && i < n < |states|
    requires events[i].Lagged? && states[i].open && events[i].current
    requires petal in states[i + 1].subscribed
    requires |states[i + 1].sent| <= later < |states[n].sent|
    ensures petal in events[i].loads
    ensures exists k :: |states[i].sent| <= k < later && IsSnapshot(states[n].sent[k], petal, events[i].loads[petal])
  {
    hide Recover, Possible;
    var e := events[i];
    assert states[i + 1] == Step(states[i], e);
    RecoverGrows(states[i], e.loads, e.refused);
    LogGrows(states, events, i + 1, n);
    var k :| |states[i].sent| <= k < |states[i + 1].sent| && IsSnapshot(states[i + 1].sent[k], petal, e.loads[petal]);
    assert states[n].sent[k] == states[i + 1].sent[k];
  }

  // ---------------------------------------------------------------------------
  // Authorization
  // ---------------------------------------------------------------------------

  /** Some event before `n` was an authorized subscription to `petal`. */
  ghost predicate AuthorizedBefore(events: seq<Event>, n: nat, petal: Id) {
    exists i :: 0 <= i < n && i < |events| && Authorizes(events[i], petal)
  }

  predicate Authorizes(e: Event, petal: Id) {
    && e.Incoming?
    && (e.command.Subscribe? || e.command.SceneSubscribe?)
    && e.command.petal == petal && e.command.authorized
  }

  lemma {:induction false} StepSubscribes(s: State, e: Event)
    requires Possible(s, e)
    ensures forall p :: p in Step(s, e).subscribed ==> p in s.subscribed || Authorizes(e, p)
  {
    hide Recover, Persist, Possible;
    if e.Lagged? && s.open && e.current {
      RecoverGrows(s, e.loads, e.refused);
    }
  }

  /** On every run, only petals the connection was authorized for are subscribed, and only they are talked about. */
  lemma {:induction false} OnlyAuthorizedPetals(states: seq<State>, events: seq<Event>, n: nat)
    requires IsRun(states, events) && n < |states|
    ensures forall p :: p in states[n].subscribed ==> AuthorizedBefore(events, n, p)
    ensures forall k :: 0 <= k < |states[n].sent| ==>
      var m := states[n].sent[k];
      m.SceneSnapshot? || m.SceneDelta? || m.TransformUpdate? ==> AuthorizedBefore(events, n, m.petal)
  {
    hide Step, Possible;
    if n > 0 {
      var s, t, e := states[n - 1], states[n], events[n - 1];
      OnlyAuthorizedPetals(states, events, n - 1);
      StepGrows(s, e);
      StepSubscribes(s, e);
      forall p | AuthorizedBefore(events, n - 1, p) || Authorizes(e, p) ensures AuthorizedBefore(events, n, p) {
        if Authorizes(e, p) {
          assert Authorizes(events[n - 1], p);
        }
      }
      forall k | 0 <= k < |t.sent| && (t.sent[k].SceneSnapshot? || t.sent[k].SceneDelta? || t.sent[k].TransformUpdate?)
        ensures AuthorizedBefore(events, n, t.sent[k].petal)
      {
        if k < |s.sent| {
          assert t.sent[k] == s.sent[k];
        } else {
          assert Addressed(t.sent[k], s.subscribed + t.subscribed);
        }
      }
    }
  }

  predicate Mentions(m: Message, petal: Id) {
    (m.SceneSnapshot? || m.SceneDelta? || m.TransformUpdate?) && m.petal == petal
  }

  /** Between subscriptions a petal is neither subscribed nor mentioned. */
  lemma {:induction false} SilentWhileUnsubscribed(states: seq<State>, events: seq<Event>, m: nat, n: nat, petal: Id)
    requires IsRun(states, events) && m <= n < |states|
    requires petal !in states[m].subscribed
    requires forall i :: m <= i < n ==> !Authorizes(events[i], petal)
    ensures petal !in states[n].subscribed && states[m].sent <= states[n].sent
    ensures forall k :: |states[m].sent| <= k < |states[n].sent| ==> !Mentions(states[n].sent[k], petal)
    decreases n - m
  {
    hide Step, Possible;
    if m < n {
      var s, t, e := states[n - 1], states[n], events[n - 1];
      SilentWhileUnsubscribed(states, events, m, n - 1, petal);
      StepGrows(s, e);
      StepSubscribes(s, e);
      forall k | |states[m].sent| <= k < |t.sent| ensures !Mentions(t.sent[k], petal) {
        if k < |s.sent| {
          assert t.sent[k] == s.sent[k];
        } else {
          assert Addressed(t.sent[k], s.subscribed + t.subscribed);
        }
      }
    }
  }

  /** After an unsubscription the petal stays unmentioned until it is subscribed again. */
  lemma {:induction false} UnsubscribeSilences(states: seq<State>, events: seq<Event>, m: nat, n: nat, petal: Id)
    requires IsRun(states, events) && m < n < |states|
    requires states[m].open && events[m].current && events[m].Incoming? && events[m].command == Unsubscribe(petal)
    requires forall i :: m < i < n ==> !Authorizes(events[i], petal)
    ensures forall k :: |states[m + 1].sent| <= k < |states[n].sent| ==> !Mentions(states[n].sent[k], petal)
  {
    hide Recover, Persist, Possible;
    assert states[m + 1] == Step(states[m], events[m]);
    SilentWhileUnsubscribed(states, events, m + 1, n, petal);
  }

  /** A load that fails uses up no version, and its petals stay unmentioned until they are subscribed again. */
  lemma {:induction false} FailedLoadSilences(states: seq<State>, events: seq<Event>, m: nat, n: nat, petal: Id)
    requires IsRun(states, events) && m < n < |states|
    requires states[m].open && events[m].current && LoadFails(states[m], events[m])
    requires events[m].Lagged? || petal == events[m].command.petal
    requires forall i :: m < i < n ==> !Authorizes(events[i], petal)
    ensures states[m + 1].version == states[m].version && states[m + 1].sent == states[m].sent + [ResyncRequired]
    ensures forall k :: |states[m].sent| <= k < |states[n].sent| ==> !Mentions(states[n].sent[k], petal)
  {
    hide Step, Possible, LoadFails;
    LoadFailureKeepsVersion(states[m], events[m]);
    SilentWhileUnsubscribed(states, events, m + 1, n, petal);
  }

  /** A credential that has lapsed when a turn starts ends the run: one notice, and nothing ever after. */
  lemma {:induction false} LapsedCredentialEndsRun(states: seq<State>, events: seq<Event>, m: nat, n: nat)
    requires IsRun(states, events) && m < n < |states|
    requires states[m].open && !events[m].current
    ensures states[n] == states[m].(open := false, sent := states[m].sent + [AuthInvalid])
    decreases n
  {
    hide Recover, Persist, Possible;
    if n == m + 1 {
      assert states[m + 1] == Step(states[m], events[m]);
    } else {
      LapsedCredentialEndsRun(states, events, m, n - 1);
      assert states[n] == Step(states[n - 1], events[n - 1]);
    }
  }

  // ---------------------------------------------------------------------------
  // Relayed changes
  // ---------------------------------------------------------------------------

  /** What a client is told about a node, apart from the version. */
  datatype Relay = Change(petal: Id, node: Id) | Move(petal: Id, node: Id) | Undo(node: Id)

  function RelayOf(m: Message): seq<Relay> {
    match m
    case SceneDelta(petal, _, change) => [Change(petal, change)]
    case TransformUpdate(petal, node) => [Move(petal, node)]
    case TransformRollback(node) => [Undo(node)]
    case _ => []
  }

  function Relays(log: seq<Message>): seq<Relay> {
    if log == [] then [] else Relays(log[..|log| - 1]) + RelayOf(log[|log| - 1])
  }

  /** What the feeds brought for subscribed petals in this turn, if its sending passes the credential check. */
  function Owed(s: State, e: Event): seq<Relay> {
    if !s.open || !e.current then []
    else
      match e
      case Moved(_, petal, node, sendable) => if petal in s.subscribed && sendable then [Move(petal, node)] else []
      case Changed(_, petal, node, failed, sendable) =>
        if petal !in s.subscribed || !sendable then []
        else if failed then [Undo(node)] else [Change(petal, node)]
      case _ => []
  }

  /** The same, by the events alone. */
  ghost function Due(events: seq<Event>, i: nat): seq<Relay>
    requires i < |events|
  {
    if !OpenAt(events, i) || !events[i].current then []
    else
      match events[i]
      case Moved(_, petal, node, sendable) => if Holds(events, i, petal) && sendable then [Move(petal, node)] else []
      case Changed(_, petal, node, failed, sendable) =>
        if !Holds(events, i, petal) || !sendable then []
        else if failed then [Undo(node)] else [Change(petal, node)]
      case _ => []
  }

  ghost function DueSoFar(events: seq<Event>, n: nat): seq<Relay>
    requires n <= |events|
  {
    if n == 0 then [] else DueSoFar(events, n - 1) + Due(events, n - 1)
  }

  lemma {:induction false} OwedByEvents(states: seq<State>, events: seq<Event>, i: nat)
    requires IsRun(states, events) && i < |events|
    ensures Owed(states[i], events[i]) == Due(events, i)
  {
    hide Step, Possible, OpenAt, Holds;
    OpenExactly(states, events, i);
    SubscribedExactly(states, events, i);
  }

  lemma {:induction false} RelaysSnoc(log: seq<Message>, m: Message)
    ensures Relays(log + [m]) == Relays(log) + RelayOf(m)
  {
    assert (log + [m])[..|log|] == log;
  }

  lemma {:induction false} SnapshotsRelayNothing(s: State, ids: seq<Id>, loads: map<Id, Nodes>, refused: set<Id>)
    requires forall id :: id in ids ==> id in loads
    ensures Relays(SendSnapshots(s, ids, loads, refused).0.sent) == Relays(s.sent)
    decreases ids
  {
    hide Relays;
    if ids != [] {
      if ids[0] in refused {
        RelaysSnoc(s.sent, AuthInvalid);
      } else {
        var version := s.version + 1;
        var snapshot := SceneSnapshot(ids[0], version, loads[ids[0]]);
        RelaysSnoc(s.sent, snapshot);
        SnapshotsRelayNothing(s.(version := version, sent := s.sent + [snapshot]), ids[1..], loads, refused);
      }
    }
  }

  lemma {:induction false} RecoverRelaysNothing(s: State, loads: map<Id, Nodes>, refused: set<Id>)
    ensures Relays(Recover(s, loads, refused).sent) == Relays(s.sent)
  {
    hide Relays, SendSnapshots, Lists, Listing;
    var ids := Listing(s.subscribed);
    if exists id :: id in ids && id !in loads {
      RelaysSnoc(s.sent, ResyncRequired);
    } else {
      SnapshotsRelayNothing(s, ids, loads, refused);
      RelaysSnoc(SendSnapshots(s, ids, loads, refused).0.sent, ResyncRequired);
    }
  }

  lemma {:induction false} HandleRelaysNothing(s: State, command: Command, sendable: bool)
    ensures Relays(Handle(s, command, sendable).sent) == Relays(s.sent)
  {
    hide Relays, Handle;
    if command.SceneSubscribe? && command.authorized && command.loaded {
      HandleSendsSnapshot(s, command, sendable);
    } else {
      HandleSendsPlain(s, command, sendable);
    }
    var t := Handle(s, command, sendable);
    if t.sent != s.sent {
      RelaysSnoc(s.sent, t.sent[|s.sent|]);
    }
  }

  lemma {:induction false} HandleSendsSnapshot(s: State, command: Command, sendable: bool)
    requires command.SceneSubscribe? && command.authorized && command.loaded
    ensures exists m :: RelayOf(m) == [] && Handle(s, command, sendable).sent == s.sent + [m]
  {
    var m := if sendable then SceneSnapshot(command.petal, s.version + 1, command.nodes) else AuthInvalid;
    assert RelayOf(m) == [];
    assert Handle(s, command, sendable).sent == s.sent + [m];
  }

  lemma {:induction false} StepRelays(s: State, e: Event)
    requires Possible(s, e)
    ensures Relays(Step(s, e).sent) == Relays(s.sent) + Owed(s, e)
  {
    hide Relays, Recover, Handle, Persist, Possible;
    RelaysSnoc(s.sent, AuthInvalid);
    if s.open && e.current {
      match e {
        case Incoming(_, command, sendable) =>
          HandleRelaysNothing(s, command, sendable);
        case Moved(_, petal, node, _) =>
          RelaysSnoc(s.sent, TransformUpdate(petal, node));
        case Changed(_, petal, node, _, _) =>
          RelaysSnoc(s.sent, TransformRollback(node));
          RelaysSnoc(s.sent, SceneDelta(petal, s.version + 1, node));
        case Lagged(_, loads, refused) =>
          RecoverRelaysNothing(s, loads, refused);
        case _ =>
      }
    }
  }

  /**
   * On every run, the deltas, moves and rollbacks in the log are exactly what the feeds brought for petals subscribed
   * at that moment, in the order it arrived, less what failed its credential check; all of it by the events alone.
   */
  lemma {:induction false} EveryChangeRelayed(states: seq<State>, events: seq<Event>, n: nat)
    requires IsRun(states, events) && n < |states|
    ensures Relays(states[n].sent) == DueSoFar(events, n)
  {
    hide Step, Possible, Owed, Due;
    if n > 0 {
      EveryChangeRelayed(states, events, n - 1);
      StepRelays(states[n - 1], events[n - 1]);
      OwedByEvents(states, events, n - 1);
    }
  }

  // ---------------------------------------------------------------------------
  // Debounced persistence
  // ---------------------------------------------------------------------------

  /** The transform the event accepts, if any. */
  predicate AcceptsMove(s: State, e: Event) {
    s.open && e.current && e.Incoming? && e.command.MoveNode? && e.command.accepted && e.command.stillCurrent
  }

  /** The store had every accepted transform been persisted on arrival, by the events alone. */
  ghost function Immediate(store: map<Id, Transform>, events: seq<Event>, n: nat): map<Id, Transform>
    requires n <= |events|
  {
    if n == 0 then store
    else
      var before, e := Immediate(store, events, n - 1), events[n - 1];
      if OpenAt(events, n - 1) && e.current && e.Incoming? && e.command.MoveNode? && e.command.accepted
         && e.command.stillCurrent
      then before[e.command.node := e.command.transform]
      else before
  }

  /** Draining in any order overwrites the store with exactly what was pending. */
  lemma {:induction false} PersistMerges(store: map<Id, Transform>, debounce: map<Id, Transform>, order: seq<Id>)
    requires forall id :: id in order ==> id in debounce
    ensures var r := Persist(store, debounce, order);
      forall id :: (id in r <==> id in store || id in order)
        && (id in order ==> r[id] == debounce[id])
        && (id in store && id !in order ==> r[id] == store[id])
    decreases order
  {
    if order != [] {
      PersistMerges(store[order[0] := debounce[order[0]]], debounce, order[1..]);
    }
  }

  lemma {:induction false} StepKeepsPending(s: State, e: Event)
    requires Possible(s, e)
    ensures var t := Step(s, e);
      t.store + t.debounce ==
        if AcceptsMove(s, e)
        then (s.store + s.debounce)[e.command.node := e.command.transform] else s.store + s.debounce
    ensures e.Tick? && s.open && e.current ==> Step(s, e).debounce == map[]
  {
    hide Recover, Persist, Handle;
    if e.Incoming? && s.open && e.current {
      HandleKeepsPending(s, e.command, e.sendable);
    } else if e.Tick? && s.open && e.current {
      PersistMerges(s.store, s.debounce, e.order);
      var t := Step(s, e);
      assert t.store + t.debounce == s.store + s.debounce;
    } else if e.Lagged? && s.open && e.current {
      RecoverKeepsStore(s, e.loads, e.refused);
    }
  }

  lemma {:induction false} HandleKeepsPending(s: State, command: Command, sendable: bool)
    ensures var t := Handle(s, command, sendable);
      t.store + t.debounce ==
        if command.MoveNode? && command.accepted && command.stillCurrent
        then (s.store + s.debounce)[command.node := command.transform] else s.store + s.debounce
  {
  }

  lemma {:induction false} RecoverKeepsStore(s: State, loads: map<Id, Nodes>, refused: set<Id>)
    ensures Recover(s, loads, refused).store == s.store && Recover(s, loads, refused).debounce == s.debounce
  {
    hide SendSnapshots, Listing;
    var ids := Listing(s.subscribed);
    if !exists id :: id in ids && id !in loads {
      SnapshotsKeepStore(s, ids, loads, refused);
    }
  }

  lemma {:induction false} SnapshotsKeepStore(s: State, ids: seq<Id>, loads: map<Id, Nodes>, refused: set<Id>)
    requires forall id :: id in ids ==> id in loads
    ensures var t := SendSnapshots(s, ids, loads, refused).0; t.store == s.store && t.debounce == s.debounce
    decreases ids
  {
    if ids != [] && ids[0] !in refused {
      var version := s.version + 1;
      var snapshot := SceneSnapshot(ids[0], version, loads[ids[0]]);
      SnapshotsKeepStore(s.(version := version, sent := s.sent + [snapshot]), ids[1..], loads, refused);
    }
  }

  /** At every point of a run, the store with what is pending is the store of immediate persistence. */
  lemma {:induction false} DebounceRefines(states: seq<State>, events: seq<Event>, n: nat)
    requires IsRun(states, events) && n < |states|
    ensures Immediate(states[0].store, events, n) == states[n].store + states[n].debounce
  {
    hide Step, Possible;
    if n == 0 {
      assert states[0].store + map[] == states[0].store;
    } else {
      DebounceRefines(states, events, n - 1);
      StepKeepsPending(states[n - 1], events[n - 1]);
      OpenExactly(states, events, n - 1);
    }
  }

  /** After every flush, whatever the drain order, nothing distinguishes the two stores. */
  lemma {:induction false} FlushCatchesUp(states: seq<State>, events: seq<Event>, n: nat)
    requires IsRun(states, events) && 0 < n < |states|
    requires events[n - 1].Tick? && events[n - 1].current && OpenAt(events, n - 1)
    ensures states[n].store == Immediate(states[0].store, events, n)
  {
    hide Step, Possible;
    DebounceRefines(states, events, n);
    OpenExactly(states, events, n - 1);
    StepKeepsPending(states[n - 1], events[n - 1]);
    assert states[n].store + map[] == states[n].store;
  }

  /** A connection that ends loses exactly the pending transforms the store does not already hold. */
  lemma {:induction false} LossIsPending(states: seq<State>, events: seq<Event>, n: nat)
    requires IsRun(states, events) && n < |states|
    ensures states[n].store == Immediate(states[0].store, events, n) <==>
      forall id :: id in states[n].debounce ==> id in states[n].store && states[n].store[id] == states[n].debounce[id]
  {
    hide Step, Possible;
    DebounceRefines(states, events, n);
    var store, pending := states[n].store, states[n].debounce;
    if store == store + pending {
      forall id | id in pending ensures id in store && store[id] == pending[id] {
        assert id in store + pending && (store + pending)[id] == pending[id];
      }
    }
  }
}
