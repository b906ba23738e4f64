/**
 * getHourlyData: today's hourly elements summed into 24 buckets, one per
 * hour of the day, by two nested loops over a fixed-size array.
 */
module HourlyView {
  import opened Options
  import opened Store
  import opened Rollups

  const HoursPerDay := 24

  /** One element of `hourlyMap`. */
  datatype Bucket = Bucket(productiveTime: int, unproductiveTime: int)

  /** One element of the response: `{ hour, ...data }`. */
  datatype HourTotal = HourTotal(hour: Hour, productiveTime: int, unproductiveTime: int)

  /** The sum of `f` over the elements of one record that fall in hour `h`. */
  function HourSum(hs: seq<HourEntry>, h: Hour, f: HourEntry -> int): int {
    if hs == [] then 0
    else HourSum(hs[..|hs| - 1], h, f) + (if hs[|hs| - 1].hour == h then f(hs[|hs| - 1]) else 0)
  }

  /** The sum of `f` over every record's elements that fall in hour `h`. */
  function DayHourSum(entries: seq<DayRecord>, h: Hour, f: HourEntry -> int): int {
    if entries == [] then 0
    else DayHourSum(entries[..|entries| - 1], h, f) + HourSum(entries[|entries| - 1].hourlyData, h, f)
  }

  /** The sum of `f` over every hourly element of every record. */
  function AllHourly(entries: seq<DayRecord>, f: HourEntry -> int): int {
    if entries == [] then 0
    else AllHourly(entries[..|entries| - 1], f) + HourlyTotal(entries[|entries| - 1].hourlyData, f)
  }

  /** The response for today's records: bucket h sums every element of hour h. */
  method HourlyData(entries: seq<DayRecord>) returns (hours: seq<HourTotal>)
    ensures |hours| == HoursPerDay
    ensures forall h: Hour :: hours[h].hour == h
    ensures forall h: Hour ::
              && hours[h].productiveTime == DayHourSum(entries, h, EntryProductive)
              && hours[h].unproductiveTime == DayHourSum(entries, h, EntryUnproductive)
  {
    var hourlyMap := new Bucket[HoursPerDay](_ => Bucket(0, 0));
    var i := 0;
    while i < |entries|
      invariant 0 <= i <= |entries|
      invariant forall h: Hour ::
                  && hourlyMap[h].productiveTime == DayHourSum(entries[..i], h, EntryProductive)
                  && hourlyMap[h].unproductiveTime == DayHourSum(entries[..i], h, EntryUnproductive)
    {
      var hourly := entries[i].hourlyData;
      var j := 0;
      while j < |hourly|
        invariant 0 <= j <= |hourly|
        invariant forall h: Hour ::
                    && hourlyMap[h].productiveTime
                       == DayHourSum(entries[..i], h, EntryProductive) + HourSum(hourly[..j], h, EntryProductive)
                    && hourlyMap[h].unproductiveTime
                       == DayHourSum(entries[..i], h, EntryUnproductive) + HourSum(hourly[..j], h, EntryUnproductive)
      {
        var e := hourly[j];
        var b := hourlyMap[e.hour];
        hourlyMap[e.hour] := Bucket(b.productiveTime + e.productiveTime, b.unproductiveTime + e.unproductiveTime);
        assert hourly[..j + 1][..j] == hourly[..j];
        j := j + 1;
      }
      assert hourly[..j] == hourly;
      assert entries[..i + 1][..i] == entries[..i];
      i := i + 1;
    }
    assert entries[..i] == entries;
    hours := seq(HoursPerDay, h requires 0 <= h < HoursPerDay reads hourlyMap =>
                   HourTotal(h, hourlyMap[h].productiveTime, hourlyMap[h].unproductiveTime));
  }

  /** The sum over the first `n` hours of one record's per-hour sums. */
  function PerHourTotal(hs: seq<HourEntry>, n: nat, f: HourEntry -> int): int
    requires n <= HoursPerDay
  {
    if n == 0 then 0 else PerHourTotal(hs, n - 1, f) + HourSum(hs, n - 1, f)
  }

  /** The sum over the first `n` hours of the buckets. */
  function HoursTotal(entries: seq<DayRecord>, n: nat, f: HourEntry -> int): int
    requires n <= HoursPerDay
  {
    if n == 0 then 0 else HoursTotal(entries, n - 1, f) + DayHourSum(entries, n - 1, f)
  }

  lemma {:induction false} PerHourTotalSnoc(hs: seq<HourEntry>, e: HourEntry, n: nat, f: HourEntry -> int)
    requires n <= HoursPerDay
    ensures PerHourTotal(hs + [e], n, f) == PerHourTotal(hs, n, f) + (if e.hour < n then f(e) else 0)
  {
    assert (hs + [e])[..|hs|] == hs;
    if n > 0 {
      PerHourTotalSnoc(hs, e, n - 1, f);
    }
  }

  /** Every element of a record lands in exactly one of the 24 hours. */
  lemma {:induction false} PerHourTotalIsHourlyTotal(hs: seq<HourEntry>, f: HourEntry -> int)
    ensures PerHourTotal(hs, HoursPerDay, f) == HourlyTotal(hs, f)
    decreases |hs|
  {
    if hs == [] {
      PerHourTotalOfEmpty(HoursPerDay, f);
    } else {
      var init := hs[..|hs| - 1];
      PerHourTotalIsHourlyTotal(init, f);
      PerHourTotalSnoc(init, hs[|hs| - 1], HoursPerDay, f);
      assert init + [hs[|hs| - 1]] == hs;
    }
  }

  lemma {:induction false} PerHourTotalOfEmpty(n: nat, f: HourEntry -> int)
    requires n <= HoursPerDay
    ensures PerHourTotal([], n, f) == 0
  {
    if n > 0 {
      PerHourTotalOfEmpty(n - 1, f);
    }
  }

  lemma {:induction false} HoursTotalSnoc(entries: seq<DayRecord>, r: DayRecord, n: nat, f: HourEntry -> int)
    requires n <= HoursPerDay
    ensures HoursTotal(entries + [r], n, f) == HoursTotal(entries, n, f) + PerHourTotal(r.hourlyData, n, f)
  {
    assert (entries + [r])[..|entries|] == entries;
    if n > 0 {
      HoursTotalSnoc(entries, r, n - 1, f);
    }
  }

  lemma {:induction false} HoursTotalOfEmpty(n: nat, f: HourEntry -> int)
    requires n <= HoursPerDay
    ensures HoursTotal([], n, f) == 0
  {
    if n > 0 {
      HoursTotalOfEmpty(n - 1, f);
    }
  }

  /** The 24 buckets together hold every hourly element of every record exactly once. */
  lemma {:induction false} BucketsHoldEverything(entries: seq<DayRecord>, f: HourEntry -> int)
    ensures HoursTotal(entries, HoursPerDay, f) == AllHourly(entries, f)
    decreases |entries|
  {
    if entries == [] {
      HoursTotalOfEmpty(HoursPerDay, f);
    } else {
      var init := entries[..|entries| - 1];
      var last := entries[|entries| - 1];
      BucketsHoldEverything(init, f);
      HoursTotalSnoc(init, last, HoursPerDay, f);
      PerHourTotalIsHourlyTotal(last.hourlyData, f);
      assert init + [last] == entries;
    }
  }

  /** Over balanced records the hourly elements add up to the day counters. */
  lemma {:induction false} BalancedHourlyIsCounters(entries: seq<DayRecord>)
    requires forall i :: 0 <= i < |entries| ==> Balanced(entries[i])
    ensures AllHourly(entries, EntryProductive) == SumBy(entries, Productive)
    ensures AllHourly(entries, EntryUnproductive) == SumBy(entries, Unproductive)
    decreases |entries|
  {
    if entries != [] {
      var init := entries[..|entries| - 1];
      var last := entries[|entries| - 1];
      BalancedHourlyIsCounters(init);
      assert init + [last] == entries;
      SumByAppend(init, [last], Productive);
      SumByAppend(init, [last], Unproductive);
    }
  }

  function DatesOf(s: seq<DayRecord>): set<int> {
    set i | 0 <= i < |s| :: s[i].date
  }

  /** Records with pairwise different dates have as many dates as records. */
  lemma {:induction false} DistinctDatesCount(s: seq<DayRecord>)
    requires forall i, j :: 0 <= i < j < |s| ==> s[i].date != s[j].date
    ensures |DatesOf(s)| == |s|
    decreases |s|
  {
    if s != [] {
      var rest := s[1..];
      DistinctDatesCount(rest);
      forall x
        ensures x in DatesOf(s) <==> x == s[0].date || x in DatesOf(rest)
      {
        if x in DatesOf(s) {
          var i :| 0 <= i < |s| && s[i].date == x;
          if i > 0 {
            assert rest[i - 1].date == x;
          }
        }
        if x in DatesOf(rest) {
          var i :| 0 <= i < |rest| && rest[i].date == x;
          assert s[i + 1].date == x;
        }
      }
      assert DatesOf(s) == {s[0].date} + DatesOf(rest);
      forall i | 0 <= i < |rest|
        ensures rest[i].date != s[0].date
      {
        assert rest[i] == s[i + 1];
      }
    }
  }

  /**
   * The query for today (`$gte today, $lt tomorrow`) answers today's record
   * alone, or nothing when there is none.
   */
  lemma TodayAnswer(store: map<Key, DayRecord>, user: UserId, today: int, entries: seq<DayRecord>)
    requires Answers(store, user, today, Some(today), entries)
    ensures entries == [] <==> Key(user, today) !in store
    ensures entries != [] ==> entries == [store[Key(user, today)]]
  {
    DistinctDatesCount(entries);
    var dates := DatesOf(entries);
    assert dates <= {today};
    if today in dates {
      assert dates == {today};
    } else {
      assert dates == {};
    }
    assert |entries| <= 1;
    assert InRange(Key(user, today).day, today, Some(today));
    if entries != [] {
      assert entries[0] == store[Key(user, today)];
      assert entries == [entries[0]];
    }
  }

  /**
   * When every stored record is balanced, the 24 buckets of today's view
   * together hold exactly the productive and unproductive time
   * TodayTimeasync reports.
   */
  lemma HourlyViewMatchesToday(store: map<Key, DayRecord>, user: UserId, today: int, entries: seq<DayRecord>)
    requires Answers(store, user, today, Some(today), entries)
    requires forall k :: k in store ==> Balanced(store[k])
    ensures HoursTotal(entries, HoursPerDay, EntryProductive) == TodayTime(store, user, today).productiveTime
    ensures HoursTotal(entries, HoursPerDay, EntryUnproductive) == TodayTime(store, user, today).unproductiveTime
  {
    TodayAnswer(store, user, today, entries);
    BucketsHoldEverything(entries, EntryProductive);
    BucketsHoldEverything(entries, EntryUnproductive);
    BalancedHourlyIsCounters(entries);
  }
}
