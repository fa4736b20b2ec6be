/** The block-window scan of internalReadEvents (src/Restake-AXS.ts, lines 115-144).

    The endpoint refuses log queries over more than 500 blocks, so the scan first walks
    back from an estimated start block until it finds one that is old enough, then queries
    the logs window by window up to the chain head, and finally sorts what it collected.

    The provider is abstract: `ts(n)` is the time of block `n` in milliseconds (the
    block's timestamp after fromBlockchainTimestamp), and `query(s, e)` is the result of
    queryFilter for the Staked filter over blocks `s..e`, in the order the node returns it. */
module EventScan {

  /** Blocks produced per day at three seconds per block (`OneDay`). */
  const OneDay: int := 28_800
  /** Largest number of blocks one log query may span (`MAX_BLOCKS`). */
  const MaxBlocks: int := 500
  /** Milliseconds in a day, the divisor of `diffDays`. */
  const MsPerDay: int := 86_400_000

  /** A Staked log entry. The scan and the cooldown read only the block number; the
      log index stands for the rest and keeps distinct entries of one block apart. */
  datatype Event = Event(blockNumber: int, logIndex: int)

  /** The blocks `start..end` of one queryFilter call, both ends included. */
  datatype Window = Window(start: int, end: int)

  // ---------------------------------------------------------------------------
  // Backward refinement (lines 119, 124-134)

  /** Whole days from `date` to `now`, rounded down as Math.floor does. Dafny's
      division by a positive divisor rounds down, as Math.floor does, also for a
      negative difference. */
  function AgeInDays(now: int, date: int): (d: int)
    ensures MsPerDay * d <= now - date < MsPerDay * (d + 1)
  {
    (now - date) / MsPerDay
  }

  /** The exit test of the backward loop. */
  predicate OldEnough(now: int, date: int, days: int)
    ensures OldEnough(now, date, days) <==> now - date >= MsPerDay * days
  {
    AgeInDays(now, date) >= days
  }

  /** `blockNumber - OneDay * days`: the first candidate start block (line 119). */
  function InitialStart(head: int, days: int): int {
    head - OneDay * days
  }

  /** The candidate tried after `k` backward steps. */
  function Probe(initial: int, k: nat): int {
    initial - MaxBlocks * k
  }

  /** Some candidate is old enough, so the backward loop stops. */
  ghost predicate SomeProbeOldEnough(initial: int, days: int, now: int, ts: int -> int) {
    exists j: nat :: OldEnough(now, ts(Probe(initial, j)), days)
  }

  /** Steps back 500 blocks at a time from `initial` until the block there is at
      least `days` whole days old. `k` is the number of steps taken: the result is
      the first candidate that passes the test. */
  method RefineStartBlock(initial: int, days: int, now: int, ts: int -> int) returns (startBlock: int, ghost k: nat)
    requires SomeProbeOldEnough(initial, days, now, ts)
    ensures startBlock == Probe(initial, k)
    ensures OldEnough(now, ts(startBlock), days)
    ensures forall j: nat :: j < k ==> !OldEnough(now, ts(Probe(initial, j)), days)
  {
    ghost var bound: nat :| OldEnough(now, ts(Probe(initial, bound)), days);
    startBlock, k := initial, 0;
    while true
      invariant k <= bound
      invariant startBlock == Probe(initial, k)
      invariant forall j: nat :: j < k ==> !OldEnough(now, ts(Probe(initial, j)), days)
      decreases bound - k
    {
      var date := ts(startBlock);
      var diffMS := now - date;
      var diffDays := diffMS / MsPerDay;
      if diffDays >= days {
        break;
      }
      startBlock := startBlock - MaxBlocks;
      k := k + 1;
    }
  }

  /** The refinement is tight: one step less would have been too young. */
  lemma RefinementIsTight(initial: int, days: int, now: int, ts: int -> int, k: nat)
    requires k > 0
    requires forall j: nat :: j < k ==> !OldEnough(now, ts(Probe(initial, j)), days)
    ensures !OldEnough(now, ts(Probe(initial, k) + MaxBlocks), days)
  {
    assert Probe(initial, k) + MaxBlocks == Probe(initial, k - 1);
  }

  // ---------------------------------------------------------------------------
  // Forward pagination (lines 136-142)

  /** The windows the do-while queries when the first window is `start..end` and the
      chain head is `current`: after each window the next one starts one block after
      its end and spans 500 blocks, and the loop goes on while that start is below
      `current`. */
  function Windows(start: int, end: int, current: int): (ws: seq<Window>)
    requires start <= end
    ensures |ws| >= 1 && ws[0] == Window(start, end)
    decreases current - start
  {
    var next := end + 1;
    [Window(start, end)] + if next < current then Windows(next, next + MaxBlocks - 1, current) else []
  }

  /** Last element of a non-empty sequence. */
  function Last<T>(s: seq<T>): T
    requires |s| > 0
  {
    s[|s| - 1]
  }

  /** Each window after the first starts one block after the previous one ends and
      spans exactly 500 blocks. */
  ghost predicate Contiguous(ws: seq<Window>) {
    forall i :: 1 <= i < |ws| ==> ws[i].start == ws[i - 1].end + 1 && ws[i].end == ws[i].start + MaxBlocks - 1
  }

  /** Every window is non-empty, none starts below `low`, and each lies strictly before
      every later one. */
  ghost predicate Ordered(ws: seq<Window>, low: int) {
    && (forall i :: 0 <= i < |ws| ==> low <= ws[i].start <= ws[i].end)
    && (forall i, j :: 0 <= i < j < |ws| ==> ws[i].end < ws[j].start)
  }

  /** The stop rule of the do-while against the head `current`: every window after the
      first starts below `current`, the start after every window but the last is below
      `current`, and the start after the last one is not. */
  ghost predicate StopsAtHead(ws: seq<Window>, current: int) {
    && |ws| > 0
    && (forall i :: 1 <= i < |ws| ==> ws[i].start < current)
    && (forall i :: 0 <= i < |ws| - 1 ==> ws[i].end + 1 < current)
    && Last(ws).end + 1 >= current
  }

  /** Block `b` lies in window `i`. */
  predicate InWindow(ws: seq<Window>, i: int, b: int)
    requires 0 <= i < |ws|
  {
    ws[i].start <= b <= ws[i].end
  }

  lemma {:induction false} WindowsContiguous(start: int, end: int, current: int)
    requires start <= end
    ensures Contiguous(Windows(start, end, current))
    decreases current - start
  {
    var ws := Windows(start, end, current);
    var next := end + 1;
    if next < current {
      var rest := Windows(next, next + MaxBlocks - 1, current);
      WindowsContiguous(next, next + MaxBlocks - 1, current);
      assert ws == [Window(start, end)] + rest;
      assert forall i :: 1 <= i < |ws| ==> ws[i] == rest[i - 1];
    }
  }

  lemma {:induction false} WindowsOrdered(start: int, end: int, current: int)
    requires start <= end
    ensures Ordered(Windows(start, end, current), start)
    decreases current - start
  {
    var ws := Windows(start, end, current);
    var next := end + 1;
    if next < current {
      var rest := Windows(next, next + MaxBlocks - 1, current);
      WindowsOrdered(next, next + MaxBlocks - 1, current);
      assert ws == [Window(start, end)] + rest;
      assert forall i :: 1 <= i < |ws| ==> ws[i] == rest[i - 1];
      forall i, j | 0 <= i < j < |ws| ensures ws[i].end < ws[j].start {
        assert ws[j] == rest[j - 1];
        if i > 0 {
          assert ws[i] == rest[i - 1];
        }
      }
    }
  }

  lemma {:induction false} WindowsReachHead(start: int, end: int, current: int)
    requires start <= end
    ensures StopsAtHead(Windows(start, end, current), current)
    decreases current - start
  {
    var ws := Windows(start, end, current);
    var next := end + 1;
    if next < current {
      var rest := Windows(next, next + MaxBlocks - 1, current);
      WindowsReachHead(next, next + MaxBlocks - 1, current);
      assert ws == [Window(start, end)] + rest;
      assert forall i :: 1 <= i < |ws| ==> ws[i] == rest[i - 1];
      assert Last(ws) == Last(rest);
    }
  }

  /** Every block from the first start up to the last window's end lies in some window. */
  lemma {:induction false} WindowsCover(start: int, end: int, current: int, b: int)
    requires start <= end
    requires start <= b <= Last(Windows(start, end, current)).end
    ensures exists i :: 0 <= i < |Windows(start, end, current)| && InWindow(Windows(start, end, current), i, b)
    decreases current - start
  {
    var ws := Windows(start, end, current);
    var next := end + 1;
    if b <= end {
      assert InWindow(ws, 0, b);
    } else {
      // the block lies beyond the first window, so there is a further window
      var rest := Windows(next, next + MaxBlocks - 1, current);
      assert next < current;
      assert ws == [Window(start, end)] + rest;
      assert Last(ws) == Last(rest);
      WindowsCover(next, next + MaxBlocks - 1, current, b);
      var i :| 0 <= i < |rest| && InWindow(rest, i, b);
      assert ws[i + 1] == rest[i];
      assert InWindow(ws, i + 1, b);
    }
  }

  /** Every block from the first start up to the block before the head is queried in
      exactly one window. */
  lemma EveryBlockQueriedOnce(start: int, end: int, current: int, b: int)
    requires start <= end
    requires start <= b < current
    ensures exists i :: 0 <= i < |Windows(start, end, current)| && InWindow(Windows(start, end, current), i, b)
    ensures forall i, j ::
      (0 <= i < |Windows(start, end, current)| && 0 <= j < |Windows(start, end, current)|
       && InWindow(Windows(start, end, current), i, b) && InWindow(Windows(start, end, current), j, b)) ==> i == j
  {
    var ws := Windows(start, end, current);
    WindowsReachHead(start, end, current);
    WindowsCover(start, end, current, b);
    WindowsOrdered(start, end, current);
  }

  /** The accumulator: the query results of the windows, concatenated in order
      (the accumulator is reassigned to itself followed by each batch). */
  function Collected(query: (int, int) -> seq<Event>, ws: seq<Window>): (r: seq<Event>)
    ensures ws != [] ==> query(ws[0].start, ws[0].end) <= r
  {
    if ws == [] then [] else query(ws[0].start, ws[0].end) + Collected(query, ws[1..])
  }

  /** An event is collected exactly when one of the windows' queries returned it. */
  lemma {:induction false} CollectedMembers(query: (int, int) -> seq<Event>, ws: seq<Window>, ev: Event)
    ensures ev in Collected(query, ws) <==> exists i :: 0 <= i < |ws| && ev in query(ws[i].start, ws[i].end)
  {
    if ws != [] {
      CollectedMembers(query, ws[1..], ev);
      if ev in Collected(query, ws[1..]) {
        var i :| 0 <= i < |ws[1..]| && ev in query(ws[1..][i].start, ws[1..][i].end);
        assert ws[i + 1] == ws[1..][i];
      }
      if i :| 0 <= i < |ws| && ev in query(ws[i].start, ws[i].end) {
        if i > 0 {
          assert ws[1..][i - 1] == ws[i];
        }
      }
    }
  }

  /** A node that answers each query with logs from the queried blocks only. */
  ghost predicate KeepsToRange(query: (int, int) -> seq<Event>) {
    forall s, e, ev :: ev in query(s, e) ==> s <= ev.blockNumber <= e
  }

  /** Because the windows do not overlap, no log entry is fetched by two windows. */
  lemma NoEventFetchedTwice(query: (int, int) -> seq<Event>, start: int, end: int, current: int)
    requires start <= end
    requires KeepsToRange(query)
    ensures forall i, j, ev ::
      (0 <= i < j < |Windows(start, end, current)|
       && ev in query(Windows(start, end, current)[i].start, Windows(start, end, current)[i].end))
      ==> ev !in query(Windows(start, end, current)[j].start, Windows(start, end, current)[j].end)
  {
    var ws := Windows(start, end, current);
    WindowsOrdered(start, end, current);
    forall i, j, ev | 0 <= i < j < |ws| && ev in query(ws[i].start, ws[i].end)
      ensures ev !in query(ws[j].start, ws[j].end)
    {
      assert ev.blockNumber <= ws[i].end < ws[j].start;
    }
  }

  /** Queries window after window from `start..end` and concatenates the results,
      as the do-while of lines 137-142 does. */
  method QueryWindows(start: int, end: int, current: int, query: (int, int) -> seq<Event>) returns (events: seq<Event>)
    requires start <= end
    ensures events == Collected(query, Windows(start, end, current))
  {
    var startBlock, endBlock := start, end;
    events := [];
    ghost var total := Collected(query, Windows(start, end, current));
    while true
      invariant startBlock <= endBlock
      invariant events + Collected(query, Windows(startBlock, endBlock, current)) == total
      decreases current - startBlock
    {
      ghost var ws := Windows(startBlock, endBlock, current);
      assert Collected(query, ws) == query(startBlock, endBlock) + Collected(query, ws[1..]);
      var batch := query(startBlock, endBlock);
      ghost var before := events;
      events := events + batch;
      assert before + (batch + Collected(query, ws[1..])) == events + Collected(query, ws[1..]);
      startBlock := endBlock + 1;
      endBlock := startBlock + MaxBlocks - 1;
      if !(startBlock < current) {
        assert ws[1..] == [];
        break;
      }
      assert ws[1..] == Windows(startBlock, endBlock, current);
    }
  }

  // ---------------------------------------------------------------------------
  // The sort (line 143)

  /** Ascending by block number. */
  ghost predicate SortedByBlock(s: seq<Event>) {
    forall i, j :: 0 <= i < j < |s| ==> s[i].blockNumber <= s[j].blockNumber
  }

  /** The entries of `s` at block `b`, in their order in `s`. A reordering keeps every
      one of these subsequences exactly when it is stable. */
  function AtBlock(s: seq<Event>, b: int): seq<Event> {
    if s == [] then [] else (if s[0].blockNumber == b then [s[0]] else []) + AtBlock(s[1..], b)
  }

  /** Puts `x` before the first entry of the sorted `s` whose block is not below its own. */
  function Insert(x: Event, s: seq<Event>): (r: seq<Event>)
    requires SortedByBlock(s)
    ensures SortedByBlock(r)
    ensures multiset(r) == multiset(s) + multiset{x}
    ensures |r| > 0 && (r[0] == x || (s != [] && r[0] == s[0]))
  {
    if s == [] || x.blockNumber <= s[0].blockNumber then
      [x] + s
    else
      var r' := Insert(x, s[1..]);
      assert s == [s[0]] + s[1..];
      assert s[0].blockNumber <= r'[0].blockNumber;
      [s[0]] + r'
  }

  /** Inserting `x` adds it in front of the entries of its own block and leaves the
      entries of every other block as they were. */
  lemma {:induction false} InsertAtBlock(x: Event, s: seq<Event>, b: int)
    requires SortedByBlock(s)
    ensures AtBlock(Insert(x, s), b) == (if x.blockNumber == b then [x] else []) + AtBlock(s, b)
  {
    if s == [] || x.blockNumber <= s[0].blockNumber {
      assert Insert(x, s) == [x] + s;
      assert ([x] + s)[1..] == s;
    } else {
      var r' := Insert(x, s[1..]);
      assert Insert(x, s) == [s[0]] + r';
      InsertAtBlock(x, s[1..], b);
      assert ([s[0]] + r')[1..] == r';
      assert AtBlock([s[0]] + r', b) == (if s[0].blockNumber == b then [s[0]] else []) + AtBlock(r', b);
      assert AtBlock(s, b) == (if s[0].blockNumber == b then [s[0]] else []) + AtBlock(s[1..], b);
    }
  }

  /** The sort of line 143, comparing block numbers. Array.prototype.sort
      is stable, so entries of one block keep their fetch order. */
  function SortByBlock(s: seq<Event>): (r: seq<Event>)
    ensures SortedByBlock(r)
    ensures multiset(r) == multiset(s)
    ensures forall b :: AtBlock(r, b) == AtBlock(s, b)
  {
    if s == [] then []
    else
      assert s == [s[0]] + s[1..];
      var r := Insert(s[0], SortByBlock(s[1..]));
      assert forall b :: AtBlock(r, b) == AtBlock(s, b) by {
        forall b ensures AtBlock(r, b) == AtBlock(s, b) {
          InsertAtBlock(s[0], SortByBlock(s[1..]), b);
        }
      }
      r
  }

  /** Every entry at some index shows up among the entries of its block. */
  lemma {:induction false} AtBlockHas(s: seq<Event>, i: int)
    requires 0 <= i < |s|
    ensures s[i] in AtBlock(s, s[i].blockNumber)
  {
    if i > 0 {
      AtBlockHas(s[1..], i - 1);
      assert s[1..][i - 1] == s[i];
    }
  }

  /** The entries of a block are entries of the sequence at that block. */
  lemma {:induction false} AtBlockFrom(s: seq<Event>, b: int, ev: Event)
    requires ev in AtBlock(s, b)
    ensures ev in s && ev.blockNumber == b
  {
    if s != [] && ev !in (if s[0].blockNumber == b then [s[0]] else []) {
      AtBlockFrom(s[1..], b, ev);
    }
  }

  /** Two sorted sequences with the same entries, in the same order, at every block
      are equal: sortedness and stability determine the result of the sort. */
  lemma {:induction false} StableSortUnique(t: seq<Event>, r: seq<Event>)
    requires SortedByBlock(t) && SortedByBlock(r)
    requires forall b :: AtBlock(t, b) == AtBlock(r, b)
    ensures t == r
    decreases |t|
  {
    if t != [] {
      AtBlockHas(t, 0);
      AtBlockFrom(r, t[0].blockNumber, t[0]);
    }
    if r != [] {
      AtBlockHas(r, 0);
      AtBlockFrom(t, r[0].blockNumber, r[0]);
    }
    if t != [] && r != [] {
      var m := t[0].blockNumber;
      // the first entries sit at the lowest block of either sequence
      assert m <= r[0].blockNumber by {
        var i :| 0 <= i < |t| && t[i] == r[0];
      }
      assert r[0].blockNumber <= m by {
        var i :| 0 <= i < |r| && r[i] == t[0];
      }
      assert r[0].blockNumber == m;
      assert AtBlock(t, m) == [t[0]] + AtBlock(t[1..], m);
      assert AtBlock(r, m) == [r[0]] + AtBlock(r[1..], m);
      assert AtBlock(t, m) == AtBlock(r, m);
      assert AtBlock(t, m)[0] == AtBlock(r, m)[0];
      assert t[0] == r[0];
      forall b ensures AtBlock(t[1..], b) == AtBlock(r[1..], b) {
        if b == m {
          assert AtBlock(t, m)[1..] == AtBlock(t[1..], m);
          assert AtBlock(r, m)[1..] == AtBlock(r[1..], m);
        } else {
          assert AtBlock(t, b) == AtBlock(t[1..], b);
          assert AtBlock(r, b) == AtBlock(r[1..], b);
        }
      }
      StableSortUnique(t[1..], r[1..]);
      assert t == [t[0]] + t[1..] && r == [r[0]] + r[1..];
    }
  }

  /** SortByBlock is the stable sort by block number: any sorted sequence that keeps
      the order of each block's entries is its result. */
  lemma SortByBlockIsStableSort(s: seq<Event>, t: seq<Event>)
    requires SortedByBlock(t)
    requires forall b :: AtBlock(t, b) == AtBlock(s, b)
    ensures t == SortByBlock(s)
  {
    StableSortUnique(t, SortByBlock(s));
  }

  /** Sorting a sorted sequence leaves it as it is. */
  lemma SortByBlockIdempotent(s: seq<Event>)
    requires SortedByBlock(s)
    ensures SortByBlock(s) == s
  {
    SortByBlockIsStableSort(s, s);
  }

  // ---------------------------------------------------------------------------
  // The whole scan (lines 115-144)

  /** The head-relative part of internalReadEvents: refine the start block, query the
      windows up to the head, sort. The end of the first window is computed from the
      start block before refinement (line 120), so after `k` backward steps the first
      window spans 500 * (k + 1) blocks. */
  method ScanEvents(days: int, head: int, now: int, ts: int -> int, query: (int, int) -> seq<Event>)
    returns (events: seq<Event>, ghost k: nat)
    requires SomeProbeOldEnough(InitialStart(head, days), days, now, ts)
    ensures OldEnough(now, ts(Probe(InitialStart(head, days), k)), days)
    ensures forall j: nat :: j < k ==> !OldEnough(now, ts(Probe(InitialStart(head, days), j)), days)
    ensures events == SortByBlock(Collected(query, ScanWindows(head, days, k)))
  {
    var currentBlockNumber := head;
    var startBlock := head - OneDay * days;
    var endBlock := startBlock + MaxBlocks - 1;
    startBlock, k := RefineStartBlock(startBlock, days, now, ts);
    var stakedEvents := QueryWindows(startBlock, endBlock, currentBlockNumber, query);
    assert stakedEvents == Collected(query, ScanWindows(head, days, k));
    events := SortByBlock(stakedEvents);
  }

  /** The windows a scan queries after `k` backward steps. */
  function ScanWindows(head: int, days: int, k: nat): seq<Window> {
    Windows(Probe(InitialStart(head, days), k), InitialStart(head, days) + MaxBlocks - 1, head)
  }

  /** The first window starts at the refined block, ends at the end fixed before the
      refinement, and so spans 500 * (k + 1) blocks. */
  lemma FirstWindowSpan(head: int, days: int, k: nat)
    ensures ScanWindows(head, days, k)[0].start == head - OneDay * days - MaxBlocks * k
    ensures ScanWindows(head, days, k)[0].end == head - OneDay * days + MaxBlocks - 1
    ensures ScanWindows(head, days, k)[0].end - ScanWindows(head, days, k)[0].start + 1 == MaxBlocks * (k + 1)
  {
  }
}
