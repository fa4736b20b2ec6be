/** The cooldown check of RestakeRewards (src/Restake-AXS.ts, lines 44-62).

    The last entry of the sorted Staked events is taken as the last claim. A claim is
    allowed once at least one whole day has passed since that block's time; otherwise
    the run stops and reports the instant 24 hours after it. */
module Cooldown {
  import opened EventScan

  /** Milliseconds in an hour (`addHours`). */
  const MsPerHour: int := 3_600_000

  /** What RestakeRewards does after reading the events. */
  datatype Decision =
    /** The event list is empty: line 46 reads `.blockNumber` of element -1, which is
        undefined, and the run ends with a TypeError before any claim. */
    | NoStakedEvent
    /** Cooldown active; `nextClaimDate` is the instant reported to the user. */
    | MustWait(lastClaimDate: int, nextClaimDate: int)
    /** Cooldown over; the restakeRewards transaction is sent. */
    | SendClaim(lastClaimDate: int)

  /** `ts` gives block times in milliseconds and `now` is the instant of line 51. */
  function ClaimDecision(stakedEvents: seq<Event>, ts: int -> int, now: int): (d: Decision)
    ensures d.NoStakedEvent? <==> stakedEvents == []
    ensures stakedEvents != [] ==> d.lastClaimDate == ts(Last(stakedEvents).blockNumber)
    // a whole day rounds down to at least 1 exactly when 86 400 000 ms have passed
    ensures d.SendClaim? <==> stakedEvents != [] && now - ts(Last(stakedEvents).blockNumber) >= MsPerDay
    ensures d.MustWait? ==> d.nextClaimDate == d.lastClaimDate + MsPerDay && now < d.nextClaimDate
  {
    if stakedEvents == [] then NoStakedEvent
    else
      var lastClaimBlockNumber := stakedEvents[|stakedEvents| - 1].blockNumber;
      var lastClaimDate := ts(lastClaimBlockNumber);
      var diffMS := now - lastClaimDate;
      var diffDays := diffMS / MsPerDay;
      var canClaim := diffDays >= 1;
      if canClaim then SendClaim(lastClaimDate)
      else MustWait(lastClaimDate, lastClaimDate + 24 * MsPerHour)
  }

  /** Later blocks never carry earlier timestamps. */
  ghost predicate Monotonic(ts: int -> int) {
    forall a, b :: a <= b ==> ts(a) <= ts(b)
  }

  /** In a sorted list the last entry has the highest block number. */
  lemma LastIsHighest(s: seq<Event>, e: Event)
    requires SortedByBlock(s) && e in s
    ensures e.blockNumber <= Last(s).blockNumber
  {
    var i :| 0 <= i < |s| && s[i] == e;
    assert i == |s| - 1 || i < |s| - 1;
  }

  /** With monotonic block times, the check on the last entry of a sorted list is the
      check on all of them: a claim is sent exactly when every Staked event is at
      least a day old. */
  lemma SendClaimIffAllStakesOld(stakedEvents: seq<Event>, ts: int -> int, now: int)
    requires SortedByBlock(stakedEvents) && Monotonic(ts) && stakedEvents != []
    ensures ClaimDecision(stakedEvents, ts, now).SendClaim?
        <==> forall e :: e in stakedEvents ==> now - ts(e.blockNumber) >= MsPerDay
  {
    var last := Last(stakedEvents);
    if now - ts(last.blockNumber) >= MsPerDay {
      forall e | e in stakedEvents ensures now - ts(e.blockNumber) >= MsPerDay {
        LastIsHighest(stakedEvents, e);
        assert ts(e.blockNumber) <= ts(last.blockNumber);
      }
    } else {
      assert last in stakedEvents;
    }
  }

  /** Applied to the sorted result of a scan, the decision depends only on which events
      were fetched, not on the order the node returned them in. */
  lemma DecisionOnSortedScan(fetched: seq<Event>, ts: int -> int, now: int)
    requires Monotonic(ts) && fetched != []
    ensures ClaimDecision(SortByBlock(fetched), ts, now).SendClaim?
        <==> forall e :: e in fetched ==> now - ts(e.blockNumber) >= MsPerDay
  {
    var sorted := SortByBlock(fetched);
    assert forall e :: e in sorted <==> e in multiset(sorted);
    assert forall e :: e in fetched <==> e in multiset(fetched);
    assert multiset(sorted) == multiset(fetched);
    assert sorted != [] by {
      assert fetched[0] in multiset(sorted);
    }
    SendClaimIffAllStakesOld(sorted, ts, now);
  }

  /** Two sorted lists with the same entries end at the same block number. */
  lemma SortedLastBlocksAgree(s1: seq<Event>, s2: seq<Event>)
    requires SortedByBlock(s1) && SortedByBlock(s2)
    requires multiset(s1) == multiset(s2) && s1 != []
    ensures s2 != [] && Last(s1).blockNumber == Last(s2).blockNumber
  {
    assert Last(s1) in multiset(s1);
    assert Last(s1) in s2;
    LastIsHighest(s2, Last(s1));
    assert Last(s2) in multiset(s2);
    LastIsHighest(s1, Last(s2));
  }

  /** The decision on the sorted scan, dates included, is the same for any order the
      node returns the same entries in, with or without monotonic block times. */
  lemma DecisionIgnoresFetchOrder(f1: seq<Event>, f2: seq<Event>, ts: int -> int, now: int)
    requires multiset(f1) == multiset(f2)
    ensures ClaimDecision(SortByBlock(f1), ts, now) == ClaimDecision(SortByBlock(f2), ts, now)
  {
    SortedDecisionsAgree(SortByBlock(f1), SortByBlock(f2), ts, now);
  }

  /** The decision on a sorted list depends only on which entries it holds. */
  lemma SortedDecisionsAgree(s1: seq<Event>, s2: seq<Event>, ts: int -> int, now: int)
    requires SortedByBlock(s1) && SortedByBlock(s2) && multiset(s1) == multiset(s2)
    ensures ClaimDecision(s1, ts, now) == ClaimDecision(s2, ts, now)
  {
    if s1 != [] {
      SortedLastBlocksAgree(s1, s2);
    } else if s2 != [] {
      SortedLastBlocksAgree(s2, s1);
    }
  }

  /** One Staked event at block 100 stamped T: 25 hours later a claim is sent, and 23
      hours later the user is told to wait until T + 24 hours. */
  lemma CooldownScenario(t: int, ts: int -> int)
    requires ts(100) == t
    ensures ClaimDecision([Event(100, 0)], ts, t + 25 * MsPerHour) == SendClaim(t)
    ensures ClaimDecision([Event(100, 0)], ts, t + 23 * MsPerHour) == MustWait(t, t + 24 * MsPerHour)
  {
  }
}
