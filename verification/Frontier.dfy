/** Frontiers: non-empty sets of 32-byte operation IDs and the bytes their commitment hashes. */
module Frontier {
  import opened Bytes
  import opened KeyedSort

  type Hash32 = id: seq<byte> | |id| == 32 witness seq(32, _ => 0)

  datatype FrontierError = Empty | DuplicateOperationId(opId: Hash32)

  datatype Outcome = Sorted(opIds: seq<Hash32>) | Rejected(error: FrontierError)

  predicate Increasing(ids: seq<Hash32>) {
    forall i, j :: 0 <= i < j < |ids| ==> LexLess(ids[i], ids[j])
  }

  predicate NoDuplicates(ids: seq<Hash32>) {
    forall i, j :: 0 <= i < j < |ids| ==> ids[i] != ids[j]
  }

  /** What `try_new` promises, without naming an order for the input. */
  ghost predicate IsOutcome(ids: multiset<Hash32>, outcome: Outcome) {
    match outcome
    case Sorted(opIds) => |ids| > 0 && multiset(opIds) == ids && Increasing(opIds)
    case Rejected(Empty) => |ids| == 0
    case Rejected(DuplicateOperationId(id)) =>
      ids[id] >= 2 && forall other: Hash32 :: ids[other] >= 2 ==> !LexLess(other, id)
  }

  function AsKeyed(ids: seq<Hash32>): (r: seq<Keyed<()>>)
    ensures |r| == |ids|
    ensures forall i :: 0 <= i < |ids| ==> r[i] == Keyed(ids[i], ())
  {
    seq(|ids|, i requires 0 <= i < |ids| => Keyed(ids[i], ()))
  }

  /** `sort_unstable` on operation IDs. */
  function SortIds(ids: seq<Hash32>): (r: seq<Hash32>)
    ensures |r| == |ids|
  {
    var sorted := Sort(AsKeyed(ids));
    SortedKeysAreIds(ids);
    seq(|ids|, i requires 0 <= i < |ids| => sorted[i].key)
  }

  lemma {:induction false} SortedKeysAreIds(ids: seq<Hash32>)
    ensures forall i :: 0 <= i < |ids| ==> |Sort(AsKeyed(ids))[i].key| == 32
  {
    hide Sort;
    var keyed := AsKeyed(ids);
    SortMembers(keyed);
    forall i | 0 <= i < |ids| ensures |Sort(keyed)[i].key| == 32 {
      assert Sort(keyed)[i] in Sort(keyed);
    }
  }

  lemma {:induction false} KeyedCount(ids: seq<Hash32>, keyed: seq<Keyed<()>>, id: Hash32)
    requires |ids| == |keyed| && forall i :: 0 <= i < |ids| ==> keyed[i] == Keyed(ids[i], ())
    ensures multiset(ids)[id] == multiset(keyed)[Keyed(id, ())]
  {
    if ids != [] {
      KeyedCount(ids[1..], keyed[1..], id);
      assert ids == [ids[0]] + ids[1..] && keyed == [keyed[0]] + keyed[1..];
    }
  }

  /** Sorting keeps every ID as often as it occurred, and orders them. */
  lemma {:induction false} SortIdsSorts(ids: seq<Hash32>)
    ensures multiset(SortIds(ids)) == multiset(ids)
    ensures forall i, j :: 0 <= i < j < |ids| ==> !LexLess(SortIds(ids)[j], SortIds(ids)[i])
  {
    hide Sort, LexLess;
    var keyed := AsKeyed(ids);
    SortSorts(keyed);
    forall i | 0 <= i < |ids| ensures Sort(keyed)[i] == Keyed(SortIds(ids)[i], ()) {
      match Sort(keyed)[i].item {
        case () =>
      }
    }
    forall id: Hash32 ensures multiset(SortIds(ids))[id] == multiset(ids)[id] {
      KeyedCount(ids, keyed, id);
      KeyedCount(SortIds(ids), Sort(keyed), id);
    }
    forall i, j | 0 <= i < j < |ids| ensures !LexLess(SortIds(ids)[j], SortIds(ids)[i]) {
      assert !LexLess(Sort(keyed)[j].key, Sort(keyed)[i].key);
    }
  }

  /** An ID that occurs twice has an equal right neighbour once the list is ordered. */
  lemma {:induction false} CountTwice(ids: seq<Hash32>, id: Hash32) returns (i: nat, j: nat)
    requires multiset(ids)[id] >= 2
    ensures i < j < |ids| && ids[i] == ids[j] == id
  {
    assert ids == [ids[0]] + ids[1..];
    if ids[0] == id {
      assert id in multiset(ids[1..]);
      var k :| 0 <= k < |ids[1..]| && ids[1..][k] == id;
      i, j := 0, k + 1;
    } else {
      var a, b := CountTwice(ids[1..], id);
      i, j := a + 1, b + 1;
    }
  }

  lemma {:induction false} TwiceCounts(ids: seq<Hash32>, i: nat, j: nat)
    requires i < j < |ids| && ids[i] == ids[j]
    ensures multiset(ids)[ids[i]] >= 2
  {
    var id := ids[i];
    assert ids == ids[..j] + ids[j..];
    assert ids[..j][i] == id && ids[j..][0] == id;
    assert id in multiset(ids[..j]) && id in multiset(ids[j..]);
  }

  /** Sorts, then scans neighbouring pairs for the first repeat. */
  method TryNew(opIds: seq<Hash32>) returns (outcome: Outcome)
    ensures IsOutcome(multiset(opIds), outcome)
    ensures outcome.Sorted? ==> forall i :: 0 <= i < |outcome.opIds| - 1 ==>
      Precedes(outcome.opIds[i], outcome.opIds[i + 1])
    ensures outcome.Rejected? && outcome.error.DuplicateOperationId? ==> forall other: Hash32 ::
      multiset(opIds)[other] >= 2 ==> other == outcome.error.opId || Precedes(outcome.error.opId, other)
  {
    hide LexLess, SortIds, Precedes;
    if |opIds| == 0 {
      return Rejected(Empty);
    }
    var sorted := SortIds(opIds);
    SortIdsSorts(opIds);
    var index := 0;
    while index + 1 < |sorted|
      invariant 0 <= index < |sorted|
      invariant forall k :: 0 <= k < index ==> sorted[k] != sorted[k + 1]
    {
      if sorted[index] == sorted[index + 1] {
        TwiceCounts(sorted, index, index + 1);
        FirstRepeat(sorted, index);
        forall other: Hash32 | multiset(opIds)[other] >= 2
          ensures other == sorted[index] || Precedes(sorted[index], other)
        {
          LexTotal(sorted[index], other);
          LexIsPrecedes(sorted[index], other);
        }
        return Rejected(DuplicateOperationId(sorted[index]));
      }
      index := index + 1;
    }
    NoRepeat(sorted);
    forall i | 0 <= i < |sorted| - 1 ensures Precedes(sorted[i], sorted[i + 1]) {
      LexIsPrecedes(sorted[i], sorted[i + 1]);
    }
    return Sorted(sorted);
  }

  /** Before the first equal pair nothing repeats, so that pair names the smallest repeated ID. */
  lemma {:induction false} FirstRepeat(sorted: seq<Hash32>, index: nat)
    requires index + 1 < |sorted| && sorted[index] == sorted[index + 1]
    requires forall i, j :: 0 <= i < j < |sorted| ==> !LexLess(sorted[j], sorted[i])
    requires forall k :: 0 <= k < index ==> sorted[k] != sorted[k + 1]
    ensures forall other: Hash32 :: multiset(sorted)[other] >= 2 ==> !LexLess(other, sorted[index])
  {
    hide LexLess;
    forall other: Hash32 | multiset(sorted)[other] >= 2 ensures !LexLess(other, sorted[index]) {
      var i, j := CountTwice(sorted, other);
      if i < index {
        Sandwich(sorted, i, j);
        assert false;
      } else if i > index {
        assert !LexLess(sorted[i], sorted[index]);
      } else {
        LexIrreflexive(other);
      }
    }
  }

  lemma {:induction false} Sandwich(sorted: seq<Hash32>, i: nat, j: nat)
    requires i < j < |sorted| && sorted[i] == sorted[j]
    requires forall i, j :: 0 <= i < j < |sorted| ==> !LexLess(sorted[j], sorted[i])
    ensures sorted[i] == sorted[i + 1]
  {
    hide LexLess;
    assert !LexLess(sorted[i + 1], sorted[i]);
    if i + 1 < j {
      assert !LexLess(sorted[j], sorted[i + 1]);
      LexTotal(sorted[i], sorted[i + 1]);
    }
  }

  lemma {:induction false} NoRepeat(sorted: seq<Hash32>)
    requires forall i, j :: 0 <= i < j < |sorted| ==> !LexLess(sorted[j], sorted[i])
    requires forall k :: 0 <= k < |sorted| - 1 ==> sorted[k] != sorted[k + 1]
    ensures Increasing(sorted)
  {
    hide LexLess;
    forall i, j | 0 <= i < j < |sorted| ensures LexLess(sorted[i], sorted[j]) {
      LexTotal(sorted[i], sorted[j]);
      if sorted[i] == sorted[j] {
        Sandwich(sorted, i, j);
        assert false;
      }
    }
  }

  lemma {:induction false} IncreasingNoDuplicates(ids: seq<Hash32>)
    requires Increasing(ids)
    ensures NoDuplicates(ids)
  {
    hide LexLess;
    forall i, j | 0 <= i < j < |ids| ensures ids[i] != ids[j] {
      LexAsymmetric(ids[i], ids[j]);
    }
  }

  lemma {:induction false} NoDuplicatesCount(ids: seq<Hash32>)
    ensures NoDuplicates(ids) <==> forall id: Hash32 :: multiset(ids)[id] <= 1
  {
    if NoDuplicates(ids) {
      forall id: Hash32 ensures multiset(ids)[id] <= 1 {
        if multiset(ids)[id] >= 2 {
          var i, j := CountTwice(ids, id);
          assert false;
        }
      }
    } else {
      var i, j :| 0 <= i < j < |ids| && ids[i] == ids[j];
      TwiceCounts(ids, i, j);
    }
  }

  /** Two increasing lists with the same members are the same list. */
  lemma {:induction false} IncreasingUnique(a: seq<Hash32>, b: seq<Hash32>)
    requires Increasing(a) && Increasing(b) && forall id :: id in a <==> id in b
    ensures a == b
  {
    hide LexLess;
    var left, right := AsKeyed(a), AsKeyed(b);
    forall x ensures x in left <==> x in right {
      if x in left {
        var i :| 0 <= i < |left| && left[i] == x;
        assert a[i] in b;
        var j :| 0 <= j < |b| && b[j] == a[i];
        assert right[j] == x;
      }
      if x in right {
        var j :| 0 <= j < |right| && right[j] == x;
        assert b[j] in a;
        var i :| 0 <= i < |a| && a[i] == b[j];
        assert left[i] == x;
      }
    }
    StrictUnique(left, right);
    forall i | 0 <= i < |a| ensures a[i] == b[i] {
      assert left[i] == right[i];
    }
  }

  /** The outcome depends only on which IDs were given and how often, never on their order. */
  lemma {:induction false} OutcomeIgnoresOrder(ids: multiset<Hash32>, a: Outcome, b: Outcome)
    requires IsOutcome(ids, a) && IsOutcome(ids, b)
    ensures a == b
  {
    hide LexLess, Increasing;
    if a.Sorted? && b.Sorted? {
      assert forall id :: id in a.opIds <==> id in multiset(a.opIds);
      assert forall id :: id in b.opIds <==> id in multiset(b.opIds);
      IncreasingUnique(a.opIds, b.opIds);
    } else if a.Sorted? && b.error.DuplicateOperationId? {
      IncreasingNoDuplicates(a.opIds);
      NoDuplicatesCount(a.opIds);
    } else if b.Sorted? && a.error.DuplicateOperationId? {
      IncreasingNoDuplicates(b.opIds);
      NoDuplicatesCount(b.opIds);
    } else if a.Rejected? && b.Rejected? && a.error.DuplicateOperationId? && b.error.DuplicateOperationId? {
      LexTotal(a.error.opId, b.error.opId);
    }
  }

  /** A frontier is built exactly from the non-empty inputs without duplicates. */
  lemma {:induction false} SucceedsExactly(ids: seq<Hash32>, outcome: Outcome)
    requires IsOutcome(multiset(ids), outcome)
    ensures outcome.Sorted? <==> ids != [] && NoDuplicates(ids)
    ensures outcome.Sorted? ==> forall id :: id in outcome.opIds <==> id in ids
  {
    hide LexLess, Increasing;
    NoDuplicatesCount(ids);
    if outcome.Sorted? {
      IncreasingNoDuplicates(outcome.opIds);
      NoDuplicatesCount(outcome.opIds);
      assert forall id :: id in outcome.opIds <==> id in multiset(outcome.opIds);
      assert forall id :: id in ids <==> id in multiset(ids);
    }
  }

  // ---------------------------------------------------------------------------
  // Commitment preimage
  // ---------------------------------------------------------------------------

  function Preimage(opIds: seq<Hash32>): seq<byte> {
    if opIds == [] then [] else opIds[0] + Preimage(opIds[1..])
  }

  /** The bytes `commitment` feeds the hasher, one ID at a time. */
  method FeedHasher(opIds: seq<Hash32>) returns (fed: seq<byte>)
    ensures fed == Preimage(opIds) && |fed| == 32 * |opIds|
    ensures forall i :: 0 <= i < |opIds| ==> fed[32 * i..32 * i + 32] == opIds[i]
  {
    fed := [];
    for i := 0 to |opIds|
      invariant fed + Preimage(opIds[i..]) == Preimage(opIds)
      invariant |fed| == 32 * i
      invariant forall k :: 0 <= k < i ==> fed[32 * k..32 * k + 32] == opIds[k]
    {
      ghost var before := fed;
      assert opIds[i..][0] == opIds[i] && opIds[i..][1..] == opIds[i + 1..];
      assert fed + (opIds[i] + Preimage(opIds[i + 1..])) == (fed + opIds[i]) + Preimage(opIds[i + 1..]);
      fed := fed + opIds[i];
      forall k | 0 <= k <= i ensures fed[32 * k..32 * k + 32] == opIds[k] {
        if k < i {
          assert fed[32 * k..32 * k + 32] == before[32 * k..32 * k + 32];
        }
      }
    }
    assert fed + [] == fed;
  }

  /** Frontiers that feed the hasher the same bytes are the same frontier. */
  lemma {:induction false} PreimageInjective(a: seq<Hash32>, b: seq<Hash32>)
    requires Preimage(a) == Preimage(b)
    ensures a == b
  {
    assert b != [] ==> |Preimage(b)| >= 32;
    if a != [] {
      var whole := Preimage(a);
      assert a[0] == whole[..32] == b[0];
      assert Preimage(a[1..]) == whole[32..] == Preimage(b[1..]);
      PreimageInjective(a[1..], b[1..]);
      assert a == [a[0]] + a[1..] && b == [b[0]] + b[1..];
    }
  }

  /** Two frontiers hash the same bytes exactly when they are the same set of operations. */
  lemma {:induction false} CommitmentFixesSet(a: seq<Hash32>, b: seq<Hash32>)
    requires Increasing(a) && Increasing(b)
    ensures Preimage(a) == Preimage(b) <==> forall id :: id in a <==> id in b
  {
    hide LexLess, Increasing;
    if Preimage(a) == Preimage(b) {
      PreimageInjective(a, b);
    }
    if forall id :: id in a <==> id in b {
      IncreasingUnique(a, b);
    }
  }
}
