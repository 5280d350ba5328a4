/** A petal's visibility-group registry: editing one group, and concurrent clients committing their edits. */
module VisibilityGroups {
  import opened Options
  import opened Doubles
  import opened Trimming
  import opened Picking

  datatype Group = Group(id: string, name: string, visible: bool, order: Double)

  datatype Patch = Patch(name: Option<string>, visible: Option<bool>, order: Option<Double>)

  datatype Result = Ok(groups: seq<Group>) | GroupNotFound

  // ---------------------------------------------------------------------------
  // Validation
  // ---------------------------------------------------------------------------

  const MAX_VISIBILITY_GROUPS: nat := 256
  const MAX_GROUP_NAME_CHARS: nat := 80
  const MAX_VIEW_GROUP_ID_LEN: nat := 64

  predicate GroupValid(blank: char -> bool, g: Group) {
    && Trim(blank, g.id) != [] && |g.id| <= MAX_VIEW_GROUP_ID_LEN
    && 1 <= |Trim(blank, g.name)| <= MAX_GROUP_NAME_CHARS
    && g.order.Finite?
  }

  predicate DistinctIds(groups: seq<Group>) {
    forall i, j :: 0 <= i < j < |groups| ==> groups[i].id != groups[j].id
  }

  /** What every stored registry satisfies. */
  predicate Valid(blank: char -> bool, groups: seq<Group>) {
    && |groups| <= MAX_VISIBILITY_GROUPS
    && DistinctIds(groups)
    && forall i :: 0 <= i < |groups| ==> GroupValid(blank, groups[i])
  }

  lemma {:induction false} ValidInWords(blank: char -> bool, groups: seq<Group>)
    ensures Valid(blank, groups) <==>
      && |groups| <= 256
      && (forall i, j :: 0 <= i < j < |groups| ==> groups[i].id != groups[j].id)
      && forall i :: 0 <= i < |groups| ==>
           && !AllBlank(blank, groups[i].id) && |groups[i].id| <= 64
           && 1 <= |Trim(blank, groups[i].name)| <= 80
           && groups[i].order.Finite?
  {
    hide Trim, AllBlank;
    forall i | 0 <= i < |groups| ensures Trim(blank, groups[i].id) == [] <==> AllBlank(blank, groups[i].id) {
      TrimsToNothing(blank, groups[i].id);
    }
  }

  method ValidateGroups(blank: char -> bool, groups: seq<Group>) returns (valid: bool)
    ensures valid <==> Valid(blank, groups)
    ensures valid <==>
      && |groups| <= 256
      && (forall i, j :: 0 <= i < j < |groups| ==> groups[i].id != groups[j].id)
      && forall i :: 0 <= i < |groups| ==>
           && !AllBlank(blank, groups[i].id) && |groups[i].id| <= 64
           && 1 <= |Trim(blank, groups[i].name)| <= 80
           && groups[i].order.Finite?
  {
    hide GroupValid, Trim, AllBlank;
    ValidInWords(blank, groups);
    if |groups| > MAX_VISIBILITY_GROUPS {
      return false;
    }
    var seen: set<string> := {};
    for i := 0 to |groups|
      invariant forall k :: 0 <= k < i ==> GroupValid(blank, groups[k]) && groups[k].id in seen
      invariant forall id :: id in seen ==> exists k :: 0 <= k < i && groups[k].id == id
      invariant DistinctIds(groups[..i])
    {
      if groups[i].id in seen {
        return false;
      }
      if !GroupValid(blank, groups[i]) {
        return false;
      }
      seen := seen + {groups[i].id};
      assert groups[..i + 1] == groups[..i] + [groups[i]];
    }
    assert groups[..|groups|] == groups;
    return true;
  }

  // ---------------------------------------------------------------------------
  // Editing one group
  // ---------------------------------------------------------------------------

  /** The first index of `id`, or the length. */
  function Find(groups: seq<Group>, id: string): (at: nat)
    ensures at <= |groups|
    ensures forall i :: 0 <= i < at ==> groups[i].id != id
    ensures at < |groups| ==> groups[at].id == id
  {
    if groups == [] || groups[0].id == id then 0 else 1 + Find(groups[1..], id)
  }

  function Or<T>(patched: Option<T>, current: T): T {
    if patched.Some? then patched.value else current
  }

  function Patched(g: Group, patch: Patch): Group {
    Group(g.id, Or(patch.name, g.name), Or(patch.visible, g.visible), Or(patch.order, g.order))
  }

  /** The fold that looks for the largest order, starting from `top`. */
  function LargestOrder(groups: seq<Group>, top: Double): Double {
    if groups == [] then top else LargestOrder(groups[1..], Larger(top, groups[0].order))
  }

  function NewGroup(groups: seq<Group>, id: string, name: string, patch: Patch): Group {
    Group(id, name, Or(patch.visible, true), Or(patch.order, PlusOne(LargestOrder(groups, MinusOne()))))
  }

  function Upsert(groups: seq<Group>, id: string, patch: Patch): Result {
    var at := Find(groups, id);
    if at < |groups| then Ok(groups[at := Patched(groups[at], patch)])
    else if patch.name.None? then GroupNotFound
    else Ok(groups + [NewGroup(groups, id, patch.name.value, patch)])
  }

  method UpsertGroup(groups: seq<Group>, id: string, patch: Patch) returns (r: Result)
    ensures r == Upsert(groups, id, patch)
  {
    var at := 0;
    while at < |groups| && groups[at].id != id
      invariant 0 <= at <= |groups|
      invariant forall i :: 0 <= i < at ==> groups[i].id != id
    {
      at := at + 1;
    }
    assert at == Find(groups, id);
    if at < |groups| {
      var g := groups[at];
      if patch.name.Some? {
        g := g.(name := patch.name.value);
      }
      if patch.visible.Some? {
        g := g.(visible := patch.visible.value);
      }
      if patch.order.Some? {
        g := g.(order := patch.order.value);
      }
      return Ok(groups[at := g]);
    }
    if patch.name.None? {
      return GroupNotFound;
    }
    var top := MinusOne();
    for i := 0 to |groups|
      invariant LargestOrder(groups[i..], top) == LargestOrder(groups, MinusOne())
    {
      assert groups[i..][0] == groups[i] && groups[i..][1..] == groups[i + 1..];
      top := Larger(top, groups[i].order);
    }
    var added := Group(id, patch.name.value, Or(patch.visible, true), Or(patch.order, PlusOne(top)));
    return Ok(groups + [added]);
  }

  /** The groups other than `id`, in order. */
  function Others(groups: seq<Group>, id: string): seq<Group> {
    if groups == [] then []
    else (if groups[0].id != id then [groups[0]] else []) + Others(groups[1..], id)
  }

  function Remove(groups: seq<Group>, id: string): Result {
    if |Others(groups, id)| == |groups| then GroupNotFound else Ok(Others(groups, id))
  }

  method RemoveGroup(groups: seq<Group>, id: string) returns (r: Result)
    ensures r == Remove(groups, id)
  {
    hide Others;
    var kept: seq<Group> := [];
    NoOthers(id);
    for i := 0 to |groups|
      invariant kept == Others(groups[..i], id)
    {
      OthersGrow(groups[..i], id, groups[i]);
      assert groups[..i + 1] == groups[..i] + [groups[i]];
      if groups[i].id != id {
        kept := kept + [groups[i]];
      }
    }
    assert groups[..|groups|] == groups;
    if |kept| == |groups| {
      return GroupNotFound;
    }
    return Ok(kept);
  }

  lemma {:induction false} NoOthers(id: string)
    ensures Others([], id) == []
  {
  }

  predicate Has(groups: seq<Group>, id: string) {
    exists i :: 0 <= i < |groups| && groups[i].id == id
  }

  lemma {:induction false} OthersAbsent(groups: seq<Group>, id: string)
    requires !Has(groups, id)
    ensures Others(groups, id) == groups
  {
    if groups != [] {
      assert groups[0].id != id;
      forall i | 0 <= i < |groups[1..]| ensures groups[1..][i].id != id {
        assert groups[i + 1].id != id;
      }
      OthersAbsent(groups[1..], id);
      assert groups == [groups[0]] + groups[1..];
    }
  }

  lemma {:induction false} OthersMembers(groups: seq<Group>, id: string)
    ensures forall g :: g in Others(groups, id) <==> g in groups && g.id != id
    ensures |Others(groups, id)| <= |groups|
    ensures |Others(groups, id)| == |groups| <==> !Has(groups, id)
  {
    if groups != [] {
      OthersMembers(groups[1..], id);
      assert groups == [groups[0]] + groups[1..];
      HasCons(groups, id);
    }
  }

  lemma {:induction false} HasCons(groups: seq<Group>, id: string)
    requires groups != []
    ensures Has(groups, id) <==> groups[0].id == id || Has(groups[1..], id)
  {
    if i :| 0 < i < |groups| && groups[i].id == id {
      assert groups[1..][i - 1].id == id;
    }
    if i :| 0 <= i < |groups[1..]| && groups[1..][i].id == id {
      assert groups[i + 1].id == id;
    }
  }

  lemma {:induction false} OthersDistinct(groups: seq<Group>, id: string)
    requires DistinctIds(groups)
    ensures DistinctIds(Others(groups, id))
  {
    if groups != [] {
      OthersDistinct(groups[1..], id);
      OthersMembers(groups[1..], id);
      var rest := Others(groups[1..], id);
      forall j | 0 <= j < |rest| ensures rest[j].id != groups[0].id {
        assert rest[j] in groups[1..];
        var k :| 0 <= k < |groups[1..]| && groups[1..][k] == rest[j];
        assert groups[k + 1] == rest[j];
      }
    }
  }

  /**
   * Removal fails exactly on an unknown id; otherwise the id is gone, every other group stays, and ids stay
   * distinct.
   */
  lemma {:induction false} RemoveEffect(groups: seq<Group>, id: string)
    ensures Remove(groups, id).GroupNotFound? <==> !Has(groups, id)
    ensures Remove(groups, id).Ok? ==>
      && !Has(Remove(groups, id).groups, id)
      && (forall g: Group :: g.id != id ==> (g in Remove(groups, id).groups <==> g in groups))
      && (DistinctIds(groups) ==> DistinctIds(Remove(groups, id).groups))
  {
    hide Others;
    OthersMembers(groups, id);
    if DistinctIds(groups) {
      OthersDistinct(groups, id);
    }
    forall i | 0 <= i < |Others(groups, id)| ensures Others(groups, id)[i].id != id {
      assert Others(groups, id)[i] in Others(groups, id);
    }
  }

  lemma {:induction false} OthersGrow(groups: seq<Group>, id: string, g: Group)
    ensures Others(groups + [g], id) == Others(groups, id) + if g.id != id then [g] else []
  {
    if groups == [] {
      assert groups + [g] == [g];
      assert [g][1..] == [];
    } else {
      OthersGrow(groups[1..], id, g);
      var first, added := if groups[0].id != id then [groups[0]] else [], if g.id != id then [g] else [];
      assert (groups + [g])[0] == groups[0] && (groups + [g])[1..] == groups[1..] + [g];
      assert first + (Others(groups[1..], id) + added) == (first + Others(groups[1..], id)) + added;
    }
  }

  lemma {:induction false} OthersPlaces(groups: seq<Group>, id: string) returns (places: seq<nat>)
    ensures Picks(groups, (g: Group) => g.id != id, Others(groups, id), places)
  {
    hide Others;
    var keep := (g: Group) => g.id != id;
    if groups == [] {
      places := [];
      OthersMembers(groups, id);
    } else {
      var front, last := groups[..|groups| - 1], groups[|groups| - 1];
      places := OthersPlaces(front, id);
      PicksSnoc(front, keep, Others(front, id), places, last);
      OthersGrow(front, id, last);
      assert groups == front + [last];
      if last.id != id {
        places := places + [|front|];
      }
    }
  }

  /** A removal that succeeds leaves exactly the other groups, in the order they had. */
  lemma {:induction false} RemoveKeepsOrder(groups: seq<Group>, id: string) returns (places: seq<nat>)
    requires Remove(groups, id).Ok?
    ensures Picks(groups, (g: Group) => g.id != id, Remove(groups, id).groups, places)
  {
    hide Picks;
    places := OthersPlaces(groups, id);
  }

  /**
   * An upsert fails exactly when it would create a group without a name; it touches only its own group and
   * keeps ids distinct.
   */
  lemma {:induction false} UpsertEffect(groups: seq<Group>, id: string, patch: Patch)
    ensures Upsert(groups, id, patch).GroupNotFound? <==> !Has(groups, id) && patch.name.None?
    ensures Upsert(groups, id, patch).Ok? ==>
      var r := Upsert(groups, id, patch).groups;
      && Has(r, id)
      && |r| == |groups| + (if Has(groups, id) then 0 else 1)
      && (forall i :: 0 <= i < |groups| ==> r[i].id == groups[i].id)
      && (forall i :: 0 <= i < |groups| && groups[i].id != id ==> r[i] == groups[i])
      && (DistinctIds(groups) ==> DistinctIds(r))
  {
    hide LargestOrder;
    var at := Find(groups, id);
    assert Has(groups, id) <==> at < |groups|;
    if Upsert(groups, id, patch).Ok? {
      var r := Upsert(groups, id, patch).groups;
      assert r[at].id == id;
    }
  }

  ghost predicate AllBelow(groups: seq<Group>, order: Double) {
    forall i :: 0 <= i < |groups| ==> Less(groups[i].order, order)
  }

  /** Every order compares with larger ones, and the largest is below 2^53, or below 2^54 and an odd multiple of two. */
  predicate RoomAtEnd(groups: seq<Group>) {
    && (forall i :: 0 <= i < |groups| ==> !groups[i].order.NaN? && !groups[i].order.PosInfinity?)
    && var largest := LargestOrder(groups, MinusOne());
       largest.Finite? && RoomAbove(largest.units)
  }

  /** The fold ends at the largest order there is, or where it started; an infinite order decides it. */
  lemma {:induction false} LargestOrderFound(groups: seq<Group>, top: Double)
    requires top.Finite? || top.PosInfinity?
    ensures var r := LargestOrder(groups, top);
      && (r.Finite? || r.PosInfinity?)
      && !Less(r, top)
      && (forall i :: 0 <= i < |groups| ==> !Less(r, groups[i].order))
      && (r == top || exists i :: 0 <= i < |groups| && groups[i].order == r)
  {
    if groups != [] {
      var next := Larger(top, groups[0].order);
      LargestOrderFound(groups[1..], next);
      var r := LargestOrder(groups[1..], next);
      assert forall i :: 0 < i < |groups| ==> groups[i] == groups[1..][i - 1];
      if i :| 0 <= i < |groups[1..]| && groups[1..][i].order == r {
        assert groups[i + 1].order == r;
      }
    }
  }

  /** The default order comes after every order there is exactly when there is room at the end. */
  lemma {:induction false} DefaultOrderExactly(groups: seq<Group>)
    ensures AllBelow(groups, PlusOne(LargestOrder(groups, MinusOne()))) <==> RoomAtEnd(groups)
  {
    hide LargestOrder, PlusOne, RoomAbove, One;
    var largest := LargestOrder(groups, MinusOne());
    var next := PlusOne(largest);
    LargestOrderFound(groups, MinusOne());
    if largest.Finite? {
      PlusOneGrows(largest.units);
      StartHasRoom();
    } else {
      InfinityStays();
    }
  }

  /** A defaulted order is the double nearest to one more than the largest order, or to zero if all are below. */
  lemma {:induction false} DefaultOrderValue(groups: seq<Group>, id: string, patch: Patch) returns (top: int)
    requires forall i :: 0 <= i < |groups| ==> groups[i].order.Finite?
    requires !Has(groups, id) && patch.name.Some? && patch.order.None?
    ensures var r := Upsert(groups, id, patch);
      r.Ok? && |r.groups| == |groups| + 1 && r.groups[|groups|].order == Nearest(top + One(BINARY64))
    ensures top >= -One(BINARY64) && forall i :: 0 <= i < |groups| ==> groups[i].order.units <= top
    ensures top == -One(BINARY64) || exists i :: 0 <= i < |groups| && groups[i].order.units == top
  {
    hide LargestOrder, One, Nearest;
    assert Find(groups, id) == |groups|;
    LargestOrderFound(groups, MinusOne());
    StartUnits();
    top := LargestOrder(groups, MinusOne()).units;
  }

  lemma {:induction false} StartUnits()
    ensures MinusOne().Finite? && MinusOne().units == -One(BINARY64)
  {
    hide Pow2;
  }

  lemma {:induction false} InfinityStays()
    ensures PlusOne(PosInfinity) == PosInfinity
  {
  }

  lemma {:induction false} StartHasRoom()
    ensures MinusOne().units + One(BINARY64) == 0 && RoomAbove(MinusOne().units)
  {
    hide Pow2, Scale;
  }

  /** A single group at 2^53: the group created after it gets the same order. */
  lemma {:induction false} DefaultOrderSticks(id: string, name: string) returns (groups: seq<Group>)
    ensures |groups| == 1 && groups[0].order.Finite? && groups[0].order.units == TWO_TO_THE_53 * One(BINARY64)
    ensures !AllBelow(groups, PlusOne(LargestOrder(groups, MinusOne())))
  {
    hide Pow2, Scale, RoomAbove, PlusOne, LargestOrder;
    NoRoomAt53();
    groups := [Group(id, name, true, Finite(TWO_TO_THE_53 * One(BINARY64)))];
    LargestOrderFound(groups, MinusOne());
    StartHasRoom();
    DefaultOrderExactly(groups);
  }

  /** The group an upsert leaves carries every patched field, and the old or default value of the rest. */
  lemma {:induction false} UpsertFields(groups: seq<Group>, id: string, patch: Patch)
    requires Upsert(groups, id, patch).Ok?
    ensures var r := Upsert(groups, id, patch).groups;
      && Find(r, id) < |r|
      && var g := r[Find(r, id)];
      && (patch.name.Some? ==> g.name == patch.name.value)
      && (patch.visible.Some? ==> g.visible == patch.visible.value)
      && (patch.order.Some? ==> g.order == patch.order.value)
      && (Has(groups, id) ==>
            var before := groups[Find(groups, id)];
            && (patch.name.None? ==> g.name == before.name)
            && (patch.visible.None? ==> g.visible == before.visible)
            && (patch.order.None? ==> g.order == before.order))
      && (!Has(groups, id) ==>
            && (patch.visible.None? ==> g.visible)
            && (patch.order.None? ==> (AllBelow(groups, g.order) <==> RoomAtEnd(groups))))
  {
    hide LargestOrder, AllBelow, RoomAtEnd, PlusOne;
    DefaultOrderExactly(groups);
    var at, r := Find(groups, id), Upsert(groups, id, patch).groups;
    assert Has(groups, id) <==> at < |groups|;
    assert r[at].id == id && forall i :: 0 <= i < at ==> r[i].id != id;
    assert Find(r, id) == at;
  }

  /** Removing a group just created gives back the registry as it was. */
  lemma {:induction false} RemoveUndoesUpsert(groups: seq<Group>, id: string, patch: Patch)
    requires !Has(groups, id) && patch.name.Some?
    ensures Remove(Upsert(groups, id, patch).groups, id) == Ok(groups)
  {
    hide LargestOrder;
    assert Find(groups, id) == |groups|;
    var added := NewGroup(groups, id, patch.name.value, patch);
    OthersAbsent(groups, id);
    OthersGrow(groups, id, added);
  }

  // ---------------------------------------------------------------------------
  // Concurrent clients
  // ---------------------------------------------------------------------------

  datatype Edit = Upserting(id: string, patch: Patch) | Removing(id: string)

  function Apply(edit: Edit, groups: seq<Group>): Result {
    match edit
    case Upserting(id, patch) => Upsert(groups, id, patch)
    case Removing(id) => Remove(groups, id)
  }

  /** A client between its read and its write remembers what it read. */
  datatype Client = Idle | Editing(edit: Edit, expected: seq<Group>)

  /** A write that reached the store, with the registry reported back. */
  datatype Write = Committed(edit: Edit, reply: seq<Group>) | Replaced(reply: seq<Group>)

  datatype System = System(stored: seq<Group>, clients: map<nat, Client>, history: seq<Write>)

  /** Steps of any client in any order; `permitted` is the store's own authorization and reference checks. */
  datatype Action =
    | Read(client: nat, edit: Edit)
    | Commit(client: nat, permitted: bool)
    | Replace(groups: seq<Group>, permitted: bool)
    | Abandon(client: nat)

  /**
   * Whether the edited registry is stored: the edit applies, validates, is permitted, and nothing changed
   * meanwhile.
   */
  predicate Commits(blank: char -> bool, stored: seq<Group>, edit: Edit, expected: seq<Group>, permitted: bool) {
    && Apply(edit, expected).Ok?
    && Valid(blank, Apply(edit, expected).groups)
    && permitted
    && stored == expected
  }

  function Next(blank: char -> bool, s: System, a: Action): System {
    match a
    case Read(client, edit) => s.(clients := s.clients[client := Editing(edit, s.stored)])
    case Commit(client, permitted) =>
      if client !in s.clients || s.clients[client].Idle? then s
      else
        var Editing(edit, expected) := s.clients[client];
        var idle := s.clients[client := Idle];
        if Commits(blank, s.stored, edit, expected, permitted) then
          var groups := Apply(edit, expected).groups;
          System(groups, idle, s.history + [Committed(edit, groups)])
        else s.(clients := idle)
    case Replace(groups, permitted) =>
      if Valid(blank, groups) && permitted then System(groups, s.clients, s.history + [Replaced(groups)]) else s
    case Abandon(client) => s.(clients := s.clients[client := Idle])
  }

  /** A write happened: the edited or given registry is stored and recorded. */
  predicate Wrote(before: System, after: System, w: Write) {
    after.stored == w.reply && after.history == before.history + [w]
  }

  predicate NothingWritten(before: System, after: System) {
    after.stored == before.stored && after.history == before.history
  }

  /** The store and its clients as they run. */
  class Server {
    const blank: char -> bool
    var system: System

    constructor (blank: char -> bool, stored: seq<Group>)
      ensures this.blank == blank && system == System(stored, map[], [])
    {
      this.blank := blank;
      system := System(stored, map[], []);
    }

    /** The read half of a read-modify-compare-and-swap. */
    method Fetch(client: nat, edit: Edit) returns (current: seq<Group>)
      modifies this
      ensures current == system.stored == old(system).stored
      ensures system == Next(blank, old(system), Read(client, edit))
    {
      current := system.stored;
      system := system.(clients := system.clients[client := Editing(edit, current)]);
    }

    /** The modify and compare-and-swap half. */
    method CompareAndSwap(client: nat, permitted: bool) returns (stored: bool)
      requires client in system.clients && system.clients[client].Editing?
      modifies this
      ensures system == Next(blank, old(system), Commit(client, permitted))
      ensures var Editing(edit, expected) := old(system).clients[client];
        stored <==>
          && permitted && old(system).stored == expected
          && Apply(edit, expected).Ok? && Valid(blank, Apply(edit, expected).groups)
      ensures var Editing(edit, expected) := old(system).clients[client];
        stored ==> Wrote(old(system), system, Committed(edit, Apply(edit, expected).groups))
      ensures !stored ==> NothingWritten(old(system), system)
    {
      hide Valid, Upsert, Remove;
      var Editing(edit, expected) := system.clients[client];
      system := system.(clients := system.clients[client := Idle]);
      var modified: Result;
      match edit {
        case Upserting(id, patch) => modified := UpsertGroup(expected, id, patch);
        case Removing(id) => modified := RemoveGroup(expected, id);
      }
      if modified.GroupNotFound? {
        return false;
      }
      var valid := ValidateGroups(blank, modified.groups);
      if !valid || !permitted || system.stored != expected {
        return false;
      }
      system := system.(stored := modified.groups, history := system.history + [Committed(edit, modified.groups)]);
      return true;
    }
  }

  /** The registry after the first `n` writes, applied one after another from `initial`. */
  function Replay(initial: seq<Group>, history: seq<Write>, n: nat): Result
    requires n <= |history|
  {
    if n == 0 then Ok(initial)
    else
      match Replay(initial, history, n - 1)
      case GroupNotFound => GroupNotFound
      case Ok(groups) =>
        match history[n - 1]
        case Committed(edit, _) => Apply(edit, groups)
        case Replaced(reply) => Ok(reply)
  }

  /** The store is the sequential outcome of its history, and every reply was the registry at that point. */
  ghost predicate Serial(initial: seq<Group>, s: System) {
    && Replay(initial, s.history, |s.history|) == Ok(s.stored)
    && forall n :: 0 < n <= |s.history| ==> Replay(initial, s.history, n) == Ok(s.history[n - 1].reply)
  }

  lemma {:induction false} ReplayPrefix(initial: seq<Group>, history: seq<Write>, w: Write, n: nat)
    requires n <= |history|
    ensures Replay(initial, history + [w], n) == Replay(initial, history, n)
  {
    hide Apply;
    if n > 0 {
      ReplayPrefix(initial, history, w, n - 1);
    }
  }

  lemma {:induction false} AppendWrite(initial: seq<Group>, s: System, w: Write, clients: map<nat, Client>)
    requires Serial(initial, s)
    requires w.Committed? ==> Apply(w.edit, s.stored) == Ok(w.reply)
    ensures Serial(initial, System(w.reply, clients, s.history + [w]))
  {
    hide Apply;
    var history := s.history + [w];
    forall n | 0 <= n <= |s.history| ensures Replay(initial, history, n) == Replay(initial, s.history, n) {
      ReplayPrefix(initial, s.history, w, n);
    }
    assert Replay(initial, history, |history|) == Ok(w.reply);
    forall n | 0 < n <= |history| ensures Replay(initial, history, n) == Ok(history[n - 1].reply) {
    }
  }

  lemma {:induction false} NextKeepsSerial(blank: char -> bool, initial: seq<Group>, s: System, a: Action)
    requires Serial(initial, s)
    ensures Serial(initial, Next(blank, s, a))
    ensures Valid(blank, s.stored) ==> Valid(blank, Next(blank, s, a).stored)
  {
    hide Apply, Valid, Replay;
    if a.Commit? && a.client in s.clients && s.clients[a.client].Editing? {
      var Editing(edit, expected) := s.clients[a.client];
      if Commits(blank, s.stored, edit, expected, a.permitted) {
        AppendWrite(initial, s, Committed(edit, Apply(edit, expected).groups), s.clients[a.client := Idle]);
      }
    } else if a.Replace? && Valid(blank, a.groups) && a.permitted {
      AppendWrite(initial, s, Replaced(a.groups), s.clients);
    }
  }

  function After(blank: char -> bool, initial: seq<Group>, actions: seq<Action>): System {
    if actions == [] then System(initial, map[], [])
    else Next(blank, After(blank, initial, actions[..|actions| - 1]), actions[|actions| - 1])
  }

  /**
   * In every interleaving, the registry equals the successful writes applied one after another in
   * commit order, every reply is the registry at its own commit, and a valid registry stays valid.
   */
  lemma {:induction false} NoLostUpdate(blank: char -> bool, initial: seq<Group>, actions: seq<Action>)
    ensures Serial(initial, After(blank, initial, actions))
    ensures Valid(blank, initial) ==> Valid(blank, After(blank, initial, actions).stored)
  {
    hide Next, Valid;
    if actions != [] {
      NoLostUpdate(blank, initial, actions[..|actions| - 1]);
      NextKeepsSerial(blank, initial, After(blank, initial, actions[..|actions| - 1]), actions[|actions| - 1]);
    }
  }

  // ---------------------------------------------------------------------------
  // Which writes succeed
  // ---------------------------------------------------------------------------

  /** The action is one of this client's own. */
  predicate ByClient(a: Action, client: nat) {
    !a.Replace? && a.client == client
  }

  /** Other actions leave a client's edit and what it read alone. */
  lemma {:induction false} EditRemembered(blank: char -> bool, initial: seq<Group>, actions: seq<Action>,
      m: nat, n: nat)
    requires m < n <= |actions| && actions[m].Read?
    requires forall k :: m < k < n ==> !ByClient(actions[k], actions[m].client)
    ensures var s := After(blank, initial, actions[..n]);
      var client := actions[m].client;
      client in s.clients
      && s.clients[client] == Editing(actions[m].edit, After(blank, initial, actions[..m]).stored)
    decreases n - m
  {
    hide Apply, Valid;
    assert actions[..n][..n - 1] == actions[..n - 1];
    if n > m + 1 {
      EditRemembered(blank, initial, actions, m, n - 1);
    }
  }

  /**
   * In every interleaving, a commit is written exactly when it is permitted, the registry is what its client read, the
   * edit applies to it and the result is valid; otherwise nothing is written.
   */
  lemma {:induction false} CommitExactly(blank: char -> bool, initial: seq<Group>, actions: seq<Action>, m: nat, n: nat)
    requires m < n < |actions| && actions[m].Read? && actions[n].Commit? && actions[n].client == actions[m].client
    requires forall k :: m < k < n ==> !ByClient(actions[k], actions[m].client)
    ensures var atRead, before, after :=
        After(blank, initial, actions[..m]), After(blank, initial, actions[..n]),
        After(blank, initial, actions[..n + 1]);
      var edit := actions[m].edit;
      var edited :=
        if edit.Upserting? then Upsert(atRead.stored, edit.id, edit.patch) else Remove(atRead.stored, edit.id);
      if actions[n].permitted && before.stored == atRead.stored && edited.Ok? && Valid(blank, edited.groups)
      then Wrote(before, after, Committed(actions[m].edit, edited.groups))
      else NothingWritten(before, after)
  {
    hide Upsert, Remove, Valid;
    EditRemembered(blank, initial, actions, m, n);
    assert actions[..n + 1][..n] == actions[..n];
  }

  /** The client has no edit under way: it has done nothing yet, or what it did last was not a read. */
  predicate HasNoEdit(actions: seq<Action>, n: nat, client: nat)
    requires n <= |actions|
  {
    forall m :: 0 <= m < n && ByClient(actions[m], client) && actions[m].Read? ==>
      exists k :: m < k < n && ByClient(actions[k], client)
  }

  lemma {:induction false} NoEditIsIdle(blank: char -> bool, initial: seq<Group>, actions: seq<Action>, n: nat,
      client: nat)
    requires n <= |actions| && HasNoEdit(actions, n, client)
    ensures var s := After(blank, initial, actions[..n]); client in s.clients ==> s.clients[client].Idle?
  {
    hide Apply, Valid;
    if n > 0 {
      assert actions[..n][..n - 1] == actions[..n - 1];
      if !ByClient(actions[n - 1], client) {
        forall m | 0 <= m < n - 1 && ByClient(actions[m], client) && actions[m].Read?
          ensures exists k :: m < k < n - 1 && ByClient(actions[k], client)
        {
          var k :| m < k < n && ByClient(actions[k], client);
        }
        NoEditIsIdle(blank, initial, actions, n - 1, client);
      }
    }
  }

  /** A commit without an edit under way writes nothing: an abandoned or finished edit cannot come back. */
  lemma {:induction false} CommitNeedsRead(blank: char -> bool, initial: seq<Group>, actions: seq<Action>, n: nat)
    requires n < |actions| && actions[n].Commit? && HasNoEdit(actions, n, actions[n].client)
    ensures NothingWritten(After(blank, initial, actions[..n]), After(blank, initial, actions[..n + 1]))
  {
    hide Apply, Valid;
    NoEditIsIdle(blank, initial, actions, n, actions[n].client);
    assert actions[..n + 1][..n] == actions[..n];
  }

  /** As long as nothing is recorded, the registry stays what it was. */
  lemma {:induction false} QuietKeepsStore(blank: char -> bool, initial: seq<Group>, actions: seq<Action>,
      m: nat, n: nat)
    requires m <= n <= |actions|
    requires |After(blank, initial, actions[..m]).history| == |After(blank, initial, actions[..n]).history|
    ensures NothingWritten(After(blank, initial, actions[..m]), After(blank, initial, actions[..n]))
    decreases n - m
  {
    hide Apply, Valid;
    if m < n {
      HistoryGrows(blank, initial, actions, m, n - 1);
      assert actions[..n][..n - 1] == actions[..n - 1];
      QuietKeepsStore(blank, initial, actions, m, n - 1);
    }
  }

  lemma {:induction false} HistoryGrows(blank: char -> bool, initial: seq<Group>, actions: seq<Action>, m: nat, n: nat)
    requires m <= n <= |actions|
    ensures |After(blank, initial, actions[..m]).history| <= |After(blank, initial, actions[..n]).history|
    ensures n < |actions| ==>
      |After(blank, initial, actions[..n]).history| <= |After(blank, initial, actions[..n + 1]).history|
    decreases n - m
  {
    hide Apply, Valid;
    if m < n {
      HistoryGrows(blank, initial, actions, m, n - 1);
    }
    if n < |actions| {
      assert actions[..n + 1][..n] == actions[..n];
    }
  }

  /** A client that nobody writes between its read and its permitted commit gets its valid edit of what it read. */
  lemma {:induction false} UndisturbedCommits(blank: char -> bool, initial: seq<Group>, actions: seq<Action>,
      m: nat, n: nat)
    requires m < n < |actions| && actions[m].Read? && actions[n] == Commit(actions[m].client, true)
    requires forall k :: m < k < n ==> !ByClient(actions[k], actions[m].client)
    requires |After(blank, initial, actions[..m]).history| == |After(blank, initial, actions[..n]).history|
    requires var edited := Apply(actions[m].edit, After(blank, initial, actions[..m]).stored);
      edited.Ok? && Valid(blank, edited.groups)
    ensures var edited := Apply(actions[m].edit, After(blank, initial, actions[..m]).stored);
      Wrote(After(blank, initial, actions[..n]), After(blank, initial, actions[..n + 1]),
            Committed(actions[m].edit, edited.groups))
  {
    hide Upsert, Remove, Valid, After;
    QuietKeepsStore(blank, initial, actions, m, n);
    CommitExactly(blank, initial, actions, m, n);
  }

  /** A whole registry is stored exactly when it is valid and permitted. */
  lemma {:induction false} ReplaceExactly(blank: char -> bool, s: System, groups: seq<Group>, permitted: bool)
    ensures var t := Next(blank, s, Replace(groups, permitted));
      if permitted && Valid(blank, groups) then Wrote(s, t, Replaced(groups)) else NothingWritten(s, t)
  {
    hide Valid;
  }
}
