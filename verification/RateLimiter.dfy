/** The keyed one-second rate limiter: what eviction may change, and what a trace of requests can be admitted. */
module RateLimiter {
  const SECOND: nat := 1_000_000_000
  const TWO_TO_THE_32: int := 0x1_0000_0000

  type u32 = n: int | 0 <= n < TWO_TO_THE_32

  datatype Window = Window(count: u32, start: nat)

  type Table = map<string, Window>

  /** One call: the caller's key, the instant read by the call, and the limit it asks for. */
  datatype Request = Request(key: string, now: nat, limit: u32)

  /** `Instant::duration_since`, which saturates at zero. */
  function Since(now: nat, earlier: nat): nat {
    if now >= earlier then now - earlier else 0
  }

  /** Drops every entry aged ten seconds or more. */
  function Sweep(table: Table, now: nat): Table {
    map key | key in table && Since(now, table[key].start) < 10 * SECOND :: table[key]
  }

  /** The entry the call leaves for its own key. */
  function Touched(table: Table, r: Request): Window {
    var entry := if r.key in table then table[r.key] else Window(0, r.now);
    if Since(r.now, entry.start) > SECOND then Window(1, r.now)
    else Window((entry.count + 1) % TWO_TO_THE_32, entry.start)
  }

  /** Whether the call goes through; a reset window always does. */
  predicate Admits(table: Table, r: Request) {
    var entry := if r.key in table then table[r.key] else Window(0, r.now);
    Since(r.now, entry.start) > SECOND || (entry.count + 1) % TWO_TO_THE_32 <= r.limit
  }

  function Next(table: Table, r: Request): Table {
    var kept := Sweep(table, r.now);
    kept[r.key := Touched(kept, r)]
  }

  /** The limiter as it runs, over one shared table. */
  class Limiter {
    var table: Table

    constructor ()
      ensures table == map[]
    {
      table := map[];
    }

    method Check(key: string, now: nat, limit: u32) returns (admitted: bool)
      modifies this
      ensures table == Next(old(table), Request(key, now, limit))
      ensures admitted <==> Admits(Sweep(old(table), now), Request(key, now, limit))
      ensures forall k :: k in table ==> Since(now, table[k].start) < 10 * SECOND
    {
      table := map k | k in table && Since(now, table[k].start) < 10 * SECOND :: table[k];
      if key !in table {
        table := table[key := Window(0, now)];
      }
      var entry := table[key];
      if Since(now, entry.start) > SECOND {
        table := table[key := Window(1, now)];
        return true;
      }
      var count := (entry.count + 1) % TWO_TO_THE_32;
      table := table[key := Window(count, entry.start)];
      return count <= limit;
    }
  }

  // ---------------------------------------------------------------------------
  // Traces
  // ---------------------------------------------------------------------------

  /** Requests in the order they take the lock, each read its instant at most `skew` too early for that order. */
  ghost predicate Skewed(trace: seq<Request>, skew: nat) {
    forall i, j :: 0 <= i < j < |trace| ==> trace[i].now <= trace[j].now + skew
  }

  /** Instants out of lock order by less than nine seconds. */
  ghost predicate Orderly(trace: seq<Request>) {
    Skewed(trace, 9 * SECOND - 1)
  }

  function Max(a: nat, b: nat): nat {
    if a >= b then a else b
  }

  /** The latest instant among the first `n` requests. */
  function Peak(trace: seq<Request>, n: nat): nat
    requires n <= |trace|
  {
    if n == 0 then 0 else Max(Peak(trace, n - 1), trace[n - 1].now)
  }

  lemma {:induction false} PeakBound(trace: seq<Request>, n: nat, j: nat, skew: nat)
    requires Skewed(trace, skew) && n <= j < |trace|
    ensures Peak(trace, n) <= trace[j].now + skew
  {
    if n > 0 {
      PeakBound(trace, n - 1, j, skew);
    }
  }

  /** The table after the first `n` requests. */
  function TableAfter(trace: seq<Request>, n: nat): Table
    requires n <= |trace|
  {
    if n == 0 then map[] else Next(TableAfter(trace, n - 1), trace[n - 1])
  }

  predicate Admitted(trace: seq<Request>, i: nat)
    requires i < |trace|
  {
    Admits(Sweep(TableAfter(trace, i), trace[i].now), trace[i])
  }

  /** The same trace on a table that never evicts. */
  function HoardAfter(trace: seq<Request>, n: nat): Table
    requires n <= |trace|
  {
    if n == 0 then map[]
    else
      var table := HoardAfter(trace, n - 1);
      table[trace[n - 1].key := Touched(table, trace[n - 1])]
  }

  predicate AdmittedByHoard(trace: seq<Request>, i: nat)
    requires i < |trace|
  {
    Admits(HoardAfter(trace, i), trace[i])
  }

  // ---------------------------------------------------------------------------
  // Eviction is invisible
  // ---------------------------------------------------------------------------

  /** The evicting table holds part of the hoard, and what it misses was ten seconds old at the latest instant seen. */
  ghost predicate Covers(table: Table, hoard: Table, peak: nat) {
    && (forall k :: k in table ==> k in hoard && table[k] == hoard[k])
    && (forall k :: k in hoard && k !in table ==> hoard[k].start + 10 * SECOND <= peak)
  }

  lemma {:induction false} TablesCorrespond(trace: seq<Request>, n: nat)
    requires Orderly(trace) && n <= |trace|
    ensures Covers(TableAfter(trace, n), HoardAfter(trace, n), Peak(trace, n))
  {
    hide Covers;
    if n > 0 {
      TablesCorrespond(trace, n - 1);
      PeakBound(trace, n - 1, n - 1, 9 * SECOND - 1);
      CoversNext(TableAfter(trace, n - 1), HoardAfter(trace, n - 1), Peak(trace, n - 1), trace[n - 1]);
    } else {
      NothingCovers();
    }
  }

  lemma {:induction false} NothingCovers()
    ensures Covers(map[], map[], 0)
  {
  }

  lemma {:induction false} CoversNext(table: Table, hoard: Table, peak: nat, r: Request)
    requires Covers(table, hoard, peak) && peak < r.now + 9 * SECOND
    ensures Covers(Next(table, r), hoard[r.key := Touched(hoard, r)], Max(peak, r.now))
  {
    hide Touched, Admits;
    SameTouch(table, hoard, peak, r);
  }

  /** An aged-out entry and a missing one lead to the same fresh window. */
  lemma {:induction false} SameTouch(table: Table, hoard: Table, peak: nat, r: Request)
    requires Covers(table, hoard, peak) && peak < r.now + 9 * SECOND
    ensures Touched(Sweep(table, r.now), r) == Touched(hoard, r)
    ensures r.limit >= 1 ==> (Admits(Sweep(table, r.now), r) <==> Admits(hoard, r))
  {
  }

  /** Under a positive limit, evicting and never evicting make the same decision. */
  lemma {:induction false} EvictionInvisible(trace: seq<Request>, i: nat)
    requires Orderly(trace) && i < |trace| && trace[i].limit >= 1
    ensures Admitted(trace, i) <==> AdmittedByHoard(trace, i)
  {
    hide Admits, TableAfter, HoardAfter, Covers;
    TablesCorrespond(trace, i);
    PeakBound(trace, i, i, 9 * SECOND - 1);
    SameTouch(TableAfter(trace, i), HoardAfter(trace, i), Peak(trace, i), trace[i]);
  }

  ghost predicate SameDecisions(trace: seq<Request>) {
    forall i :: 0 <= i < |trace| ==> (Admitted(trace, i) <==> AdmittedByHoard(trace, i))
  }

  ghost predicate AllLimited(trace: seq<Request>, limit: u32) {
    forall i :: 0 <= i < |trace| ==> trace[i].limit == limit
  }

  /** Two requests ten seconds apart under a zero limit: only the hoard lets the second one through. */
  function ZeroLimitTrace(): seq<Request> {
    [Request("a", 0, 0), Request("a", 10 * SECOND, 0)]
  }

  lemma {:induction false} ZeroLimitSeesEviction()
    ensures Skewed(ZeroLimitTrace(), 0) && AllLimited(ZeroLimitTrace(), 0)
    ensures !Admitted(ZeroLimitTrace(), 1) && AdmittedByHoard(ZeroLimitTrace(), 1)
  {
    var trace := ZeroLimitTrace();
    assert TableAfter(trace, 0) == map[] && HoardAfter(trace, 0) == map[];
    assert HoardAfter(trace, 1)["a"] == Window(1, 0);
    assert "a" !in Sweep(TableAfter(trace, 1), 10 * SECOND);
  }

  /** A full window is swept by another key ten seconds on, then asked for again by a call nine seconds late. */
  function LateTrace(limit: u32): seq<Request> {
    seq(limit, _ => Request("a", 0, limit)) + [Request("b", 10 * SECOND, limit), Request("a", SECOND, limit)]
  }

  /** One key at instant zero, `n` requests in. */
  function Filled(n: u32): Table {
    if n == 0 then map[] else map["a" := Window(n, 0)]
  }

  lemma {:induction false} FillNext(n: nat, limit: u32)
    requires n + 1 < TWO_TO_THE_32
    ensures var r := Request("a", 0, limit);
      Next(Filled(n), r) == Filled(n + 1) && Filled(n)["a" := Touched(Filled(n), r)] == Filled(n + 1)
  {
    assert Sweep(Filled(n), 0) == Filled(n);
  }

  lemma {:induction false} LateFills(limit: u32, n: nat)
    requires n <= limit < TWO_TO_THE_32 - 1
    ensures TableAfter(LateTrace(limit), n) == Filled(n) && HoardAfter(LateTrace(limit), n) == Filled(n)
  {
    hide Next, Filled, Touched;
    if n > 0 {
      LateFills(limit, n - 1);
      FillNext(n - 1, limit);
      assert LateTrace(limit)[n - 1] == Request("a", 0, limit);
    } else {
      NothingFilled();
    }
  }

  lemma {:induction false} NothingFilled()
    ensures Filled(0) == map[]
  {
  }

  lemma {:induction false} LateTables(limit: u32)
    requires 1 <= limit < TWO_TO_THE_32 - 1
    ensures "a" !in TableAfter(LateTrace(limit), limit + 1)
    ensures var hoard := HoardAfter(LateTrace(limit), limit + 1); "a" in hoard && hoard["a"] == Window(limit, 0)
  {
    hide Touched;
    assert LateTrace(limit)[limit] == Request("b", 10 * SECOND, limit);
    LateFills(limit, limit);
  }

  lemma {:induction false} LateSeesEviction(limit: u32)
    requires 1 <= limit < TWO_TO_THE_32 - 1
    ensures Skewed(LateTrace(limit), 9 * SECOND) && AllLimited(LateTrace(limit), limit)
    ensures Admitted(LateTrace(limit), limit + 1) && !AdmittedByHoard(LateTrace(limit), limit + 1)
  {
    hide TableAfter, HoardAfter;
    assert LateTrace(limit)[limit + 1] == Request("a", SECOND, limit);
    LateTables(limit);
  }

  /** The largest limit admits everything, evicting or not. */
  lemma {:induction false} TopLimitAdmits(trace: seq<Request>, i: nat)
    requires i < |trace| && trace[i].limit == TWO_TO_THE_32 - 1
    ensures Admitted(trace, i) && AdmittedByHoard(trace, i)
  {
  }

  /**
   * Eviction is invisible on every trace of a common limit and a given skew exactly when the limit is not zero and
   * the skew is below nine seconds, or the limit is the largest there is.
   */
  lemma {:induction false} EvictionInvisibleExactly(limit: u32, skew: nat)
    ensures limit == TWO_TO_THE_32 - 1 || (limit >= 1 && skew < 9 * SECOND) <==>
      forall trace :: Skewed(trace, skew) && AllLimited(trace, limit) ==> SameDecisions(trace)
  {
    hide Admitted, AdmittedByHoard;
    if limit == TWO_TO_THE_32 - 1 || (limit >= 1 && skew < 9 * SECOND) {
      forall trace | Skewed(trace, skew) && AllLimited(trace, limit) ensures SameDecisions(trace) {
        forall i | 0 <= i < |trace| ensures Admitted(trace, i) <==> AdmittedByHoard(trace, i) {
          if limit == TWO_TO_THE_32 - 1 {
            TopLimitAdmits(trace, i);
          } else {
            EvictionInvisible(trace, i);
          }
        }
      }
    } else if limit == 0 {
      ZeroLimitSeesEviction();
      assert Skewed(ZeroLimitTrace(), skew) && !SameDecisions(ZeroLimitTrace());
    } else {
      LateSeesEviction(limit);
      assert Skewed(LateTrace(limit), skew) && !SameDecisions(LateTrace(limit));
    }
  }

  // ---------------------------------------------------------------------------
  // Windows
  // ---------------------------------------------------------------------------

  /** The window request `i` was counted in. */
  function WindowOf(trace: seq<Request>, i: nat): (w: Window)
    requires i < |trace|
  {
    TableAfter(trace, i + 1)[trace[i].key]
  }

  /** `i` is the last request for `key` among the first `n`. */
  predicate LatestBefore(trace: seq<Request>, n: nat, key: string, i: nat)
    requires n <= |trace|
  {
    && i < n && trace[i].key == key
    && forall j :: i < j < n ==> trace[j].key != key
  }

  lemma {:induction false} NextEntry(trace: seq<Request>, j: nat)
    requires j < |trace|
    ensures WindowOf(trace, j) == Touched(Sweep(TableAfter(trace, j), trace[j].now), trace[j])
  {
  }

  lemma {:induction false} WindowInHoard(trace: seq<Request>, i: nat)
    requires Orderly(trace) && i < |trace|
    ensures WindowOf(trace, i) == Touched(HoardAfter(trace, i), trace[i]) == HoardAfter(trace, i + 1)[trace[i].key]
  {
    hide Touched, TableAfter, Covers;
    NextEntry(trace, i);
    TablesCorrespond(trace, i);
    PeakBound(trace, i, i, 9 * SECOND - 1);
    SameTouch(TableAfter(trace, i), HoardAfter(trace, i), Peak(trace, i), trace[i]);
  }

  lemma {:induction false} HoardHolds(trace: seq<Request>, n: nat, key: string, i: nat)
    requires n <= |trace| && LatestBefore(trace, n, key, i)
    ensures key in HoardAfter(trace, n) && HoardAfter(trace, n)[key] == HoardAfter(trace, i + 1)[key]
    decreases n
  {
    hide Touched;
    if i + 1 < n {
      HoardHolds(trace, n - 1, key, i);
    }
  }

  lemma {:induction false} HoardMisses(trace: seq<Request>, n: nat, key: string)
    requires n <= |trace| && forall i :: 0 <= i < n ==> trace[i].key != key
    ensures key !in HoardAfter(trace, n) && key !in TableAfter(trace, n)
  {
    hide Touched;
    if n > 0 {
      HoardMisses(trace, n - 1, key);
    }
  }

  lemma {:induction false} FirstWindow(trace: seq<Request>, j: nat)
    requires j < |trace| && forall i :: 0 <= i < j ==> trace[i].key != trace[j].key
    ensures WindowOf(trace, j) == Window(1, trace[j].now)
  {
    HoardMisses(trace, j, trace[j].key);
  }

  /** How a request's window follows from that of the previous request for the same key. */
  lemma {:induction false} NextWindow(trace: seq<Request>, i: nat, j: nat)
    requires Orderly(trace) && j < |trace| && LatestBefore(trace, j, trace[j].key, i)
    ensures var v, w := WindowOf(trace, i), WindowOf(trace, j);
      if trace[j].now > v.start + SECOND then w == Window(1, trace[j].now)
      else w == Window((v.count + 1) % TWO_TO_THE_32, v.start)
  {
    hide HoardAfter, WindowOf;
    WindowInHoard(trace, i);
    WindowInHoard(trace, j);
    HoardHolds(trace, j, trace[j].key, i);
  }

  lemma {:induction false} StartsInPast(trace: seq<Request>, n: nat)
    requires n <= |trace|
    ensures forall k :: k in TableAfter(trace, n) ==> TableAfter(trace, n)[k].start <= Peak(trace, n)
  {
    if n > 0 {
      StartsInPast(trace, n - 1);
    }
  }

  /** A request comes at most a second after its window's start, and before it by at most the skew. */
  lemma {:induction false} WindowCovers(trace: seq<Request>, i: nat, skew: nat)
    requires Skewed(trace, skew) && i < |trace|
    ensures var w := WindowOf(trace, i); w.start <= trace[i].now + skew && trace[i].now <= w.start + SECOND
  {
    hide TableAfter;
    StartsInPast(trace, i);
    PeakBound(trace, i, i, skew);
    NextEntry(trace, i);
  }

  lemma {:induction false} FindLatest(trace: seq<Request>, i: nat, j: nat) returns (p: nat)
    requires i < j < |trace| && trace[i].key == trace[j].key
    ensures i <= p && LatestBefore(trace, j, trace[j].key, p)
    decreases j - i
  {
    p := i;
    if k :| i < k < j && trace[k].key == trace[j].key {
      p := FindLatest(trace, k, j);
    }
  }

  /** Windows of one key either coincide or start more than a second apart. */
  lemma {:induction false} WindowsApart(trace: seq<Request>, i: nat, j: nat)
    requires Orderly(trace) && i < j < |trace| && trace[i].key == trace[j].key
    ensures var v, w := WindowOf(trace, i).start, WindowOf(trace, j).start; v == w || v + SECOND < w
    decreases j
  {
    hide WindowOf;
    var p := FindLatest(trace, i, j);
    NextWindow(trace, p, j);
    if i < p {
      WindowsApart(trace, i, p);
    }
  }

  ghost predicate AllApart(trace: seq<Request>) {
    forall i: nat, j: nat :: i < j < |trace| && trace[i].key == trace[j].key ==>
      var v, w := WindowOf(trace, i).start, WindowOf(trace, j).start; v == w || v + SECOND < w
  }

  /** Windows of one key are apart on every trace of a given skew exactly when that is below nine seconds. */
  lemma {:induction false} WindowsApartExactly(skew: nat)
    ensures skew < 9 * SECOND <==> forall trace :: Skewed(trace, skew) ==> AllApart(trace)
  {
    hide WindowOf;
    if skew < 9 * SECOND {
      forall trace: seq<Request> | Skewed(trace, skew) ensures AllApart(trace) {
        forall i: nat, j: nat | i < j < |trace| && trace[i].key == trace[j].key
          ensures var v, w := WindowOf(trace, i).start, WindowOf(trace, j).start; v == w || v + SECOND < w
        {
          WindowsApart(trace, i, j);
        }
      }
    } else {
      LateWindows();
      assert Skewed(LateTrace(1), skew) && !AllApart(LateTrace(1));
    }
  }

  lemma {:induction false} LateWindows()
    ensures var trace := LateTrace(1);
      && Skewed(trace, 9 * SECOND) && |trace| == 3 && trace[0].key == trace[2].key
      && WindowOf(trace, 0).start == 0 && WindowOf(trace, 2).start == SECOND
  {
    var trace := LateTrace(1);
    LateSeesEviction(1);
    LateFills(1, 1);
    LateTables(1);
    assert trace[0] == Request("a", 0, 1) && trace[2] == Request("a", SECOND, 1);
  }

  /** Requests of `i`'s key in `i`'s window, up to and including `i`. */
  ghost function Rank(trace: seq<Request>, i: nat): set<nat>
    requires i < |trace|
  {
    set m: nat | m <= i && trace[m].key == trace[i].key && WindowOf(trace, m).start == WindowOf(trace, i).start
  }

  /** The count held for a window is the number of its requests so far, modulo 2^32. */
  lemma {:induction false} CountIsRank(trace: seq<Request>, i: nat)
    requires Orderly(trace) && i < |trace|
    ensures WindowOf(trace, i).count == |Rank(trace, i)| % TWO_TO_THE_32
    decreases i
  {
    hide WindowOf, Rank;
    if k :| 0 <= k < i && trace[k].key == trace[i].key {
      var p := FindLatest(trace, k, i);
      NextWindow(trace, p, i);
      CountIsRank(trace, p);
      if trace[i].now > WindowOf(trace, p).start + SECOND {
        FreshRank(trace, i, p);
      } else {
        GrownRank(trace, i, p);
      }
    } else {
      FirstWindow(trace, i);
      FirstRank(trace, i);
    }
  }

  lemma {:induction false} FirstRank(trace: seq<Request>, i: nat)
    requires i < |trace| && forall m :: 0 <= m < i ==> trace[m].key != trace[i].key
    ensures Rank(trace, i) == {i}
  {
    hide WindowOf;
  }

  lemma {:induction false} GrownRank(trace: seq<Request>, i: nat, p: nat)
    requires i < |trace| && LatestBefore(trace, i, trace[i].key, p)
    requires WindowOf(trace, p).start == WindowOf(trace, i).start
    ensures Rank(trace, i) == Rank(trace, p) + {i} && i !in Rank(trace, p)
    ensures |Rank(trace, i)| == |Rank(trace, p)| + 1
  {
    hide WindowOf;
    assert i !in Rank(trace, p);
    assert Rank(trace, i) == Rank(trace, p) + {i};
  }

  lemma {:induction false} FreshRank(trace: seq<Request>, i: nat, p: nat)
    requires Orderly(trace) && i < |trace| && LatestBefore(trace, i, trace[i].key, p)
    requires WindowOf(trace, p).start + SECOND < WindowOf(trace, i).start
    ensures Rank(trace, i) == {i}
  {
    hide WindowOf;
    forall m: nat | m < i && trace[m].key == trace[i].key
      ensures WindowOf(trace, m).start != WindowOf(trace, i).start
    {
      if m < p {
        WindowsApart(trace, m, p);
      }
    }
  }

  /** All the requests of one key counted in the window that started at `start`. */
  ghost function Members(trace: seq<Request>, key: string, start: nat): set<nat> {
    set i: nat | i < |trace| && trace[i].key == key && WindowOf(trace, i).start == start
  }

  ghost function AdmittedMembers(trace: seq<Request>, key: string, start: nat): set<nat> {
    set i | i in Members(trace, key, start) && Admitted(trace, i)
  }

  lemma {:induction false} SubsetSize(a: set<nat>, b: set<nat>)
    requires a <= b
    ensures |a| <= |b|
  {
    assert b == a + (b - a);
  }

  lemma {:induction false} Greatest(s: set<nat>) returns (m: nat)
    requires s != {}
    ensures m in s && forall x :: x in s ==> x <= m
  {
    m :| m in s;
    if x :| x in s && x > m {
      var rest := s - {m};
      assert x in rest && forall y :: y in s ==> y == m || y in rest;
      m := Greatest(rest);
    }
  }

  function Min(a: nat, b: nat): nat {
    if a <= b then a else b
  }

  // ---------------------------------------------------------------------------
  // How much is admitted
  // ---------------------------------------------------------------------------

  /** Every request for `key` asks for the same limit. */
  ghost predicate KeyLimited(trace: seq<Request>, key: string, limit: u32) {
    forall i :: 0 <= i < |trace| && trace[i].key == key ==> trace[i].limit == limit
  }

  /** The window of `p` is over when `i` comes, and no instant seen in between swept it away. */
  ghost predicate Outlives(trace: seq<Request>, p: nat, i: nat)
    requires p < i < |trace|
  {
    var start := WindowOf(trace, p).start;
    start + SECOND < trace[i].now && forall k :: p < k <= i ==> trace[k].now < start + 10 * SECOND
  }

  /** Request `i` begins its window by resetting an older entry that is still held. */
  ghost predicate Resets(trace: seq<Request>, i: nat)
    requires i < |trace|
  {
    exists p: nat :: LatestBefore(trace, i, trace[i].key, p) && Outlives(trace, p, i)
  }

  lemma {:induction false} TableHolds(trace: seq<Request>, n: nat, key: string, p: nat)
    requires n <= |trace| && LatestBefore(trace, n, key, p)
    ensures key in TableAfter(trace, n) <==>
      forall k :: p < k < n ==> trace[k].now < WindowOf(trace, p).start + 10 * SECOND
    ensures key in TableAfter(trace, n) ==> TableAfter(trace, n)[key] == WindowOf(trace, p)
    decreases n
  {
    hide Touched;
    if p + 1 < n {
      TableHolds(trace, n - 1, key, p);
    }
  }

  /** A request is admitted exactly when its window's count is within the limit or it resets an older entry. */
  lemma {:induction false} AdmittedExactly(trace: seq<Request>, i: nat)
    requires i < |trace|
    ensures Admitted(trace, i) <==> WindowOf(trace, i).count <= trace[i].limit || Resets(trace, i)
  {
    hide TableAfter, WindowOf;
    var key := trace[i].key;
    NextEntry(trace, i);
    if k :| 0 <= k < i && trace[k].key == key {
      var p := FindLatest(trace, k, i);
      TableHolds(trace, i, key, p);
      assert Resets(trace, i) <==> Outlives(trace, p, i);
    } else {
      HoardMisses(trace, i, key);
    }
  }

  /** How many of the first `n` requests of a window have a count, modulo 2^32, within the limit. */
  function Tally(n: nat, limit: u32): nat {
    n / TWO_TO_THE_32 * (limit + 1) + Min(n % TWO_TO_THE_32, limit)
  }

  lemma {:induction false} TallyNext(n: nat, limit: u32)
    ensures Tally(n + 1, limit) == Tally(n, limit) + if (n + 1) % TWO_TO_THE_32 <= limit then 1 else 0
  {
    var rounds := n / TWO_TO_THE_32;
    if (n + 1) % TWO_TO_THE_32 == 0 {
      assert (n + 1) / TWO_TO_THE_32 == rounds + 1 && n % TWO_TO_THE_32 == TWO_TO_THE_32 - 1;
      assert (rounds + 1) * (limit + 1) == rounds * (limit + 1) + limit + 1;
    } else {
      assert (n + 1) / TWO_TO_THE_32 == rounds && (n + 1) % TWO_TO_THE_32 == n % TWO_TO_THE_32 + 1;
    }
  }

  ghost function AdmittedRank(trace: seq<Request>, i: nat): set<nat>
    requires i < |trace|
  {
    set m | m in Rank(trace, i) && Admitted(trace, m)
  }

  /** One more is admitted where the limit is zero and the window began by a reset. */
  ghost function Extra(trace: seq<Request>, s: set<nat>, limit: u32): nat
    requires forall m :: m in s ==> m < |trace|
  {
    if limit == 0 && exists m :: m in s && Resets(trace, m) then 1 else 0
  }

  /** What a window has admitted up to any of its requests. */
  lemma {:induction false} AdmittedSoFar(trace: seq<Request>, i: nat, limit: u32)
    requires Orderly(trace) && i < |trace| && KeyLimited(trace, trace[i].key, limit)
    ensures |AdmittedRank(trace, i)| == Tally(|Rank(trace, i)|, limit) + Extra(trace, Rank(trace, i), limit)
    decreases i
  {
    hide WindowOf, Admitted, Rank, Tally, Resets;
    AdmittedExactly(trace, i);
    CountIsRank(trace, i);
    if k :| 0 <= k < i && trace[k].key == trace[i].key {
      var p := FindLatest(trace, k, i);
      NextWindow(trace, p, i);
      if trace[i].now > WindowOf(trace, p).start + SECOND {
        FreshRank(trace, i, p);
        AdmittedAlone(trace, i, limit);
      } else {
        GrownRank(trace, i, p);
        AdmittedSoFar(trace, p, limit);
        TallyNext(|Rank(trace, p)|, limit);
        GrownNeverResets(trace, i, p);
        GrownAdmitted(trace, i, p, limit);
      }
    } else {
      FirstRank(trace, i);
      AdmittedAlone(trace, i, limit);
    }
  }

  lemma {:induction false} AdmittedAlone(trace: seq<Request>, i: nat, limit: u32)
    requires i < |trace| && trace[i].limit == limit && Rank(trace, i) == {i} && WindowOf(trace, i).count == 1
    ensures |AdmittedRank(trace, i)| == Tally(1, limit) + Extra(trace, {i}, limit)
  {
    hide WindowOf, Admitted, Rank, Resets;
    AdmittedExactly(trace, i);
    assert AdmittedRank(trace, i) == if Admitted(trace, i) then {i} else {};
    assert i in {i};
  }

  lemma {:induction false} GrownAdmitted(trace: seq<Request>, i: nat, p: nat, limit: u32)
    requires p < i < |trace| && Rank(trace, i) == Rank(trace, p) + {i} && i !in Rank(trace, p) && !Resets(trace, i)
    ensures |AdmittedRank(trace, i)| == |AdmittedRank(trace, p)| + if Admitted(trace, i) then 1 else 0
    ensures Extra(trace, Rank(trace, i), limit) == Extra(trace, Rank(trace, p), limit)
  {
    hide Admitted, Resets, Rank, WindowOf;
    assert AdmittedRank(trace, i) == AdmittedRank(trace, p) + if Admitted(trace, i) then {i} else {};
  }

  lemma {:induction false} GrownNeverResets(trace: seq<Request>, i: nat, p: nat)
    requires i < |trace| && LatestBefore(trace, i, trace[i].key, p)
    requires trace[i].now <= WindowOf(trace, p).start + SECOND
    ensures !Resets(trace, i)
  {
    hide WindowOf;
  }

  /** The window that started at `start` began by resetting an older entry. */
  ghost predicate BeganByReset(trace: seq<Request>, key: string, start: nat) {
    exists i :: i in Members(trace, key, start) && Resets(trace, i)
  }

  /** Exactly what a window admits, whatever the limit and however many requests it receives. */
  lemma {:induction false} WindowAdmits(trace: seq<Request>, key: string, limit: u32, start: nat)
    requires Orderly(trace) && KeyLimited(trace, key, limit)
    ensures |AdmittedMembers(trace, key, start)|
         == Tally(|Members(trace, key, start)|, limit)
            + if limit == 0 && BeganByReset(trace, key, start) then 1 else 0
  {
    hide WindowOf, Admitted, Tally, Resets;
    var members := Members(trace, key, start);
    if members == {} {
      assert AdmittedMembers(trace, key, start) == {};
      NoTally(limit);
    } else {
      var last := Greatest(members);
      assert Rank(trace, last) == members;
      AdmittedSoFar(trace, last, limit);
      assert AdmittedRank(trace, last) == AdmittedMembers(trace, key, start);
    }
  }

  lemma {:induction false} NoTally(limit: u32)
    ensures Tally(0, limit) == 0
  {
  }

  /** A window admits no more than the limit, under the one condition that makes it so. */
  ghost predicate Bounded(trace: seq<Request>, key: string, limit: u32, start: nat) {
    |Members(trace, key, start)| < TWO_TO_THE_32 && !(limit == 0 && BeganByReset(trace, key, start))
  }

  /**
   * A window stays within its limit exactly when it receives fewer than 2^32 requests and, under a zero limit, did not
   * begin by resetting an older entry.
   */
  lemma {:induction false} WindowBoundExactly(trace: seq<Request>, key: string, limit: u32, start: nat)
    requires Orderly(trace) && KeyLimited(trace, key, limit)
    ensures |AdmittedMembers(trace, key, start)| <= limit <==> Bounded(trace, key, limit, start)
  {
    hide Members, AdmittedMembers, BeganByReset, Tally;
    WindowAdmits(trace, key, limit, start);
    TallyBound(|Members(trace, key, start)|, limit);
  }

  lemma {:induction false} TallyBound(n: nat, limit: u32)
    ensures Tally(n, limit) <= limit <==> n < TWO_TO_THE_32
  {
    if n >= TWO_TO_THE_32 {
      AtLeastOnce(n / TWO_TO_THE_32, limit + 1);
    }
  }

  lemma {:induction false} AtLeastOnce(rounds: nat, n: nat)
    requires rounds >= 1
    ensures rounds * n >= n
  {
    assert (rounds - 1) * n >= 0;
  }

  /** Admitted requests for `key` in the closed second from `from`. */
  ghost function AdmittedWithin(trace: seq<Request>, key: string, from: nat): set<nat> {
    set i: nat | i < |trace| && trace[i].key == key && from <= trace[i].now <= from + SECOND && Admitted(trace, i)
  }

  /** How many windows, more than a second apart, can start within a stretch of time. */
  function Fit(stretch: nat): nat {
    1 + stretch / (SECOND + 1)
  }

  /** Admitted requests for `key` whose windows start within `lo` and `hi`. */
  ghost predicate Spread(trace: seq<Request>, key: string, s: set<nat>, lo: int, hi: int) {
    forall i :: i in s ==>
      i < |trace| && trace[i].key == key && Admitted(trace, i) && lo <= WindowOf(trace, i).start <= hi
  }

  /** What is left of a spread set without the window of its last request started more than a second before. */
  lemma {:induction false} PeelWindow(trace: seq<Request>, key: string, s: set<nat>, lo: int, hi: int)
      returns (rest: set<nat>, start: nat)
    requires Orderly(trace) && Spread(trace, key, s, lo, hi) && s != {}
    ensures rest < s && |s| <= |rest| + |AdmittedMembers(trace, key, start)|
    ensures lo <= start <= hi && Spread(trace, key, rest, lo, start - SECOND - 1)
  {
    hide WindowOf, Admitted;
    var last := Greatest(s);
    start := WindowOf(trace, last).start;
    var window := AdmittedMembers(trace, key, start);
    rest := s - window;
    assert last in window;
    SubsetSize(s, rest + window);
    forall i | i in rest ensures WindowOf(trace, i).start <= start - SECOND - 1 {
      WindowsApart(trace, i, last);
    }
  }

  lemma {:induction false} SpreadBound(trace: seq<Request>, key: string, limit: u32, s: set<nat>, lo: int, hi: int)
    requires Orderly(trace) && lo <= hi && Spread(trace, key, s, lo, hi)
    requires forall start :: |AdmittedMembers(trace, key, start)| <= limit
    ensures |s| <= Fit(hi - lo) * limit
    decreases s
  {
    hide WindowOf, Admitted, Fit, AdmittedMembers, Spread;
    FitGrows(0, hi - lo, limit);
    if s != {} {
      var rest, start := PeelWindow(trace, key, s, lo, hi);
      if rest != {} {
        SpreadAround(trace, key, rest, lo, start - SECOND - 1);
        SpreadBound(trace, key, limit, rest, lo, start - SECOND - 1);
        FitStep(start - lo, limit);
        FitGrows(start - lo, hi - lo, limit);
      }
    }
  }

  lemma {:induction false} SpreadAround(trace: seq<Request>, key: string, s: set<nat>, lo: int, hi: int)
    requires Spread(trace, key, s, lo, hi) && s != {}
    ensures lo <= hi
  {
    hide WindowOf, Admitted;
    var i :| i in s;
  }

  lemma {:induction false} FitGrows(a: nat, b: nat, limit: u32)
    requires a <= b
    ensures limit <= Fit(a) * limit <= Fit(b) * limit
  {
    var fa, fb := Fit(a), Fit(b);
    assert 1 <= fa <= fb;
    assert (fa - 1) * limit >= 0 && (fb - fa) * limit >= 0;
  }

  lemma {:induction false} FitStep(stretch: nat, limit: u32)
    requires stretch >= SECOND + 1
    ensures Fit(stretch) * limit == Fit(stretch - SECOND - 1) * limit + limit
  {
    assert Fit(stretch) == Fit(stretch - SECOND - 1) + 1;
  }

  /**
   * Any closed second admits at most the limit for each window that can reach into it: two while instants are in
   * order, more with more skew.
   */
  lemma {:induction false} SecondBound(trace: seq<Request>, key: string, limit: u32, from: nat, skew: nat)
    requires Skewed(trace, skew) && skew < 9 * SECOND && KeyLimited(trace, key, limit)
    requires forall start :: Bounded(trace, key, limit, start)
    ensures |AdmittedWithin(trace, key, from)| <= Fit(2 * SECOND + skew) * limit
  {
    hide WindowOf, Admitted, Fit, Bounded;
    forall start ensures |AdmittedMembers(trace, key, start)| <= limit {
      assert Bounded(trace, key, limit, start);
      WindowBoundExactly(trace, key, limit, start);
    }
    var s := AdmittedWithin(trace, key, from);
    forall i | i in s ensures from - SECOND <= WindowOf(trace, i).start <= from + SECOND + skew {
      WindowCovers(trace, i, skew);
    }
    SpreadBound(trace, key, limit, s, from - SECOND, from + SECOND + skew);
  }

  /** Within any one window's conditions, no closed second admits more than twice the limit. */
  ghost predicate AtMostTwice(trace: seq<Request>, key: string, limit: u32, from: nat) {
    KeyLimited(trace, key, limit) && (forall start :: Bounded(trace, key, limit, start)) ==>
      |AdmittedWithin(trace, key, from)| <= 2 * limit
  }

  /** Twice the limit holds for every closed second of every trace of a given skew exactly when that is at most 1 ns. */
  lemma {:induction false} TwiceExactly(skew: nat)
    ensures skew <= 1 <==>
      forall trace, key, limit, from :: Skewed(trace, skew) ==> AtMostTwice(trace, key, limit, from)
  {
    hide Bounded, AdmittedWithin, KeyLimited;
    if skew <= 1 {
      assert Fit(2 * SECOND + skew) == 2;
      forall trace, key, limit, from | Skewed(trace, skew) ensures AtMostTwice(trace, key, limit, from) {
        if KeyLimited(trace, key, limit) && forall start :: Bounded(trace, key, limit, start) {
          SecondBound(trace, key, limit, from, skew);
        }
      }
    } else {
      SkewAdmitsMore();
      assert Skewed(SkewTrace(), skew) && !AtMostTwice(SkewTrace(), "a", 3, SECOND);
    }
  }

  /** Nine requests under a limit of three; the last two come 2 ns before the window they are counted in. */
  function SkewTrace(): seq<Request> {
    [At(0), At(SECOND), At(SECOND), At(SECOND + 1), At(SECOND + 1), At(SECOND + 1),
     At(2 * SECOND + 2), At(2 * SECOND), At(2 * SECOND)]
  }

  function At(now: nat): Request {
    Request("a", now, 3)
  }

  lemma {:induction false} OneKey(trace: seq<Request>, n: nat, before: Window)
    requires n < |trace| && trace[n].key == "a" && trace[n].now < before.start + 10 * SECOND
    requires TableAfter(trace, n) == map["a" := before]
    ensures var after := Touched(map["a" := before], trace[n]);
      && TableAfter(trace, n + 1) == map["a" := after] && WindowOf(trace, n) == after
      && (after.count <= trace[n].limit ==> Admitted(trace, n))
  {
    assert Sweep(map["a" := before], trace[n].now) == map["a" := before];
  }

  lemma {:induction false} SkewTables()
    ensures forall i :: 0 <= i < 9 ==> Admitted(SkewTrace(), i)
  {
    hide TableAfter, WindowOf, Admitted, Sweep;
    var trace := SkewTrace();
    FirstWindow(trace, 0);
    FirstTable(trace);
    AdmittedExactly(trace, 0);
    OneKey(trace, 1, Window(1, 0));
    OneKey(trace, 2, Window(2, 0));
    OneKey(trace, 3, Window(3, 0));
    OneKey(trace, 4, Window(1, SECOND + 1));
    OneKey(trace, 5, Window(2, SECOND + 1));
    OneKey(trace, 6, Window(3, SECOND + 1));
    OneKey(trace, 7, Window(1, 2 * SECOND + 2));
    OneKey(trace, 8, Window(2, 2 * SECOND + 2));
  }

  lemma {:induction false} FirstTable(trace: seq<Request>)
    requires trace != [] && trace[0].key == "a"
    ensures TableAfter(trace, 1) == map["a" := Window(1, trace[0].now)]
  {
    assert TableAfter(trace, 0) == map[];
  }

  lemma {:induction false} FewBounded(trace: seq<Request>, key: string, limit: u32, start: nat)
    requires |trace| < TWO_TO_THE_32 && limit >= 1
    ensures Bounded(trace, key, limit, start)
  {
    hide WindowOf, Below;
    SubsetSize(Members(trace, key, start), Below(|trace|));
  }

  lemma {:induction false} SkewWithin()
    requires forall i :: 0 <= i < 9 ==> Admitted(SkewTrace(), i)
    ensures |AdmittedWithin(SkewTrace(), "a", SECOND)| >= 7
  {
    hide Admitted;
    var seven: set<nat> := {1, 2, 3, 4, 5, 7, 8};
    assert |seven| == 7;
    SubsetSize(seven, AdmittedWithin(SkewTrace(), "a", SECOND));
  }

  lemma {:induction false} SkewAdmitsMore()
    ensures Skewed(SkewTrace(), 2) && KeyLimited(SkewTrace(), "a", 3)
    ensures forall start :: Bounded(SkewTrace(), "a", 3, start)
    ensures |AdmittedWithin(SkewTrace(), "a", SECOND)| >= 7
  {
    hide Admitted, Bounded, AdmittedWithin;
    var trace := SkewTrace();
    SkewTables();
    forall start ensures Bounded(trace, "a", 3, start) {
      FewBounded(trace, "a", 3, start);
    }
    SkewWithin();
  }

  // ---------------------------------------------------------------------------
  // Both exceptions are real
  // ---------------------------------------------------------------------------

  function Burst(limit: u32): seq<Request> {
    seq(TWO_TO_THE_32, _ => Request("a", 0, limit))
  }

  ghost function Below(n: nat): (s: set<nat>)
    ensures |s| == n && forall i: nat :: i in s <==> i < n
  {
    if n == 0 then {} else Below(n - 1) + {n - 1}
  }

  /** 2^32 requests at one instant fall in one window, which therefore admits more than its limit. */
  lemma {:induction false} OverflowAdmitsMore(limit: u32)
    ensures Skewed(Burst(limit), 0) && KeyLimited(Burst(limit), "a", limit)
    ensures |Members(Burst(limit), "a", 0)| == TWO_TO_THE_32
    ensures |AdmittedMembers(Burst(limit), "a", 0)| > limit
  {
    hide WindowOf, Below, AdmittedMembers;
    var trace := Burst(limit);
    forall i: nat | i < |trace| ensures WindowOf(trace, i).start == 0 {
      WindowCovers(trace, i, 0);
    }
    assert Members(trace, "a", 0) == Below(|trace|);
    WindowBoundExactly(trace, "a", limit, 0);
  }

  /** Under a zero limit, a request just over a second after the first is let through. */
  lemma {:induction false} ZeroLimitResets()
    ensures var trace := [Request("a", 0, 0), Request("a", SECOND + 1, 0)];
      && Skewed(trace, 0) && KeyLimited(trace, "a", 0)
      && AdmittedMembers(trace, "a", SECOND + 1) == {1}
  {
    hide TableAfter, WindowOf, Admitted, Sweep;
    var trace := [Request("a", 0, 0), Request("a", SECOND + 1, 0)];
    FirstWindow(trace, 0);
    NextWindow(trace, 0, 1);
    AdmittedExactly(trace, 1);
    assert Outlives(trace, 0, 1);
    assert Members(trace, "a", SECOND + 1) == {1};
  }
}
