/**
 * The read side of the productivity controller: the date-window queries and
 * the totals, daily breakdown, heatmap and weekly-hours folds over them.
 *
 * A query `Productivity.find({ user, date: { $gte: lo, ... } })` is not
 * computed here: its answer is an input, and `Answers` says which inputs the
 * database may return (every record of the user in the window, each once,
 * in any order unless the query sorts).
 */
module Rollups {
  import opened Options
  import opened Store
  import JsMath

  /** Days back from today for the weekly, monthly and yearly windows. */
  const WeekBack := 6
  const MonthBack := 30
  const YearBack := 365

  /** Seconds per hour, the heatmap's divisor. */
  const SecondsPerHour := 3600

  /** `date >= lo`, and `date <= hi` when the query also has an upper bound. */
  predicate InRange(day: int, lo: int, hi: Option<int>) {
    lo <= day && (hi.None? || day <= hi.value)
  }

  /** `entries` is an answer of the query for `user` over the window [lo, hi]. */
  ghost predicate Answers(records: map<Key, DayRecord>, user: UserId, lo: int, hi: Option<int>, entries: seq<DayRecord>): (b: bool)
    ensures b && entries == [] ==> WindowKeys(records, user, lo, hi) == {}
  {
    && (forall i :: 0 <= i < |entries| ==>
          && InRange(entries[i].date, lo, hi)
          && Key(user, entries[i].date) in records
          && records[Key(user, entries[i].date)] == entries[i])
    && (forall i, j :: 0 <= i < j < |entries| ==> entries[i].date != entries[j].date)
    && (forall k :: k in records && k.user == user && InRange(k.day, lo, hi) ==>
          exists i :: 0 <= i < |entries| && entries[i].date == k.day)
  }

  /** `.sort({ date: 1 })`. */
  predicate Ascending(entries: seq<DayRecord>) {
    forall i, j :: 0 <= i < j < |entries| ==> entries[i].date <= entries[j].date
  }

  /** `.sort({ date: -1 })`. */
  predicate Descending(entries: seq<DayRecord>) {
    forall i, j :: 0 <= i < j < |entries| ==> entries[i].date >= entries[j].date
  }

  // ----- sums over records -----

  function Productive(r: DayRecord): int { r.productiveTime }
  function Unproductive(r: DayRecord): int { r.unproductiveTime }

  /** The sum of `f` over the records, first to last. */
  function SumBy(entries: seq<DayRecord>, f: DayRecord -> int): int {
    if entries == [] then 0 else f(entries[0]) + SumBy(entries[1..], f)
  }

  lemma {:induction false} SumByAppend(a: seq<DayRecord>, b: seq<DayRecord>, f: DayRecord -> int)
    ensures SumBy(a + b, f) == SumBy(a, f) + SumBy(b, f)
    decreases |a|
  {
    if a != [] {
      assert (a + b)[1..] == a[1..] + b;
      SumByAppend(a[1..], b, f);
    } else {
      assert a + b == b;
    }
  }

  lemma MultisetRemoveAt(t: seq<DayRecord>, j: int)
    requires 0 <= j < |t|
    ensures multiset(t) == multiset(t[..j] + t[j + 1..]) + multiset{t[j]}
  {
    assert t == t[..j] + [t[j]] + t[j + 1..];
  }

  lemma SumByRemoveAt(t: seq<DayRecord>, j: int, f: DayRecord -> int)
    requires 0 <= j < |t|
    ensures SumBy(t, f) == SumBy(t[..j] + t[j + 1..], f) + f(t[j])
  {
    SumByAppend(t[..j], [t[j]] + t[j + 1..], f);
    SumByAppend(t[..j], t[j + 1..], f);
    assert t == t[..j] + ([t[j]] + t[j + 1..]);
    assert ([t[j]] + t[j + 1..])[1..] == t[j + 1..];
  }

  /** A sum does not depend on the order of the records. */
  lemma {:induction false} SumByPermutation(s: seq<DayRecord>, t: seq<DayRecord>, f: DayRecord -> int)
    requires multiset(s) == multiset(t)
    ensures SumBy(s, f) == SumBy(t, f)
    decreases |s|
  {
    if s == [] {
      assert |t| == |multiset(t)| == 0;
    } else {
      var x := s[0];
      assert x in multiset(s);
      var j :| 0 <= j < |t| && t[j] == x;
      var rest := t[..j] + t[j + 1..];
      MultisetRemoveAt(t, j);
      assert s == [x] + s[1..];
      assert multiset(s[1..]) == multiset(s) - multiset{x};
      assert multiset(rest) == multiset(t) - multiset{x};
      SumByPermutation(s[1..], rest, f);
      SumByRemoveAt(t, j, f);
    }
  }

  /** Records with pairwise different dates occur once each. */
  lemma {:induction false} DistinctOccurOnce(s: seq<DayRecord>)
    requires forall i, j :: 0 <= i < j < |s| ==> s[i].date != s[j].date
    ensures forall x :: multiset(s)[x] == if x in s then 1 else 0
    decreases |s|
  {
    if s != [] {
      DistinctOccurOnce(s[1..]);
      assert s == [s[0]] + s[1..];
      forall j | 0 <= j < |s[1..]|
        ensures s[1..][j] != s[0]
      {
        assert s[1..][j] == s[j + 1];
      }
    }
  }

  /** A record in one answer of a query is in every answer of it. */
  lemma AnswerMember(records: map<Key, DayRecord>, user: UserId, lo: int, hi: Option<int>,
                     s: seq<DayRecord>, t: seq<DayRecord>, x: DayRecord)
    requires Answers(records, user, lo, hi, s) && Answers(records, user, lo, hi, t)
    requires x in s
    ensures x in t
  {
    var i :| 0 <= i < |s| && s[i] == x;
    assert Key(user, x.date) in records;
    var j :| 0 <= j < |t| && t[j].date == Key(user, x.date).day;
    assert t[j] == x;
  }

  /** Any two answers of the same query hold the same records. */
  lemma AnswersArePermutations(records: map<Key, DayRecord>, user: UserId, lo: int, hi: Option<int>,
                               s: seq<DayRecord>, t: seq<DayRecord>)
    requires Answers(records, user, lo, hi, s) && Answers(records, user, lo, hi, t)
    ensures multiset(s) == multiset(t)
  {
    DistinctOccurOnce(s);
    DistinctOccurOnce(t);
    forall x
      ensures multiset(s)[x] == multiset(t)[x]
    {
      if x in s {
        AnswerMember(records, user, lo, hi, s, t, x);
      }
      if x in t {
        AnswerMember(records, user, lo, hi, t, s, x);
      }
    }
  }

  // ----- getMonthlyTime, getYearlyTime -----

  datatype Totals = Totals(productiveTime: int, unproductiveTime: int)

  /** `entries.reduce((acc, entry) => ({ ...sums }), seed)`. */
  function Accumulate(acc: Totals, entries: seq<DayRecord>): Totals
    decreases |entries|
  {
    if entries == [] then acc
    else
      var e := entries[0];
      Accumulate(Totals(acc.productiveTime + e.productiveTime, acc.unproductiveTime + e.unproductiveTime), entries[1..])
  }

  /** The response of getMonthlyTime and getYearlyTime for the records of their window. */
  function RangeTime(entries: seq<DayRecord>): (t: Totals)
    ensures t == Totals(SumBy(entries, Productive), SumBy(entries, Unproductive))
  {
    AccumulateSums(Totals(0, 0), entries);
    Accumulate(Totals(0, 0), entries)
  }

  lemma {:induction false} AccumulateSums(acc: Totals, entries: seq<DayRecord>)
    ensures Accumulate(acc, entries)
         == Totals(acc.productiveTime + SumBy(entries, Productive), acc.unproductiveTime + SumBy(entries, Unproductive))
    decreases |entries|
  {
    if entries != [] {
      var e := entries[0];
      AccumulateSums(Totals(acc.productiveTime + e.productiveTime, acc.unproductiveTime + e.unproductiveTime), entries[1..]);
    }
  }

  /**
   * Whatever order the (unsorted) monthly or yearly query returns its
   * records in, the totals are the same: they are a function of the window.
   */
  lemma RangeTimeIgnoresOrder(records: map<Key, DayRecord>, user: UserId, today: int, back: int,
                              s: seq<DayRecord>, t: seq<DayRecord>)
    requires Answers(records, user, today - back, None, s) && Answers(records, user, today - back, None, t)
    ensures RangeTime(s) == RangeTime(t)
  {
    AnswersArePermutations(records, user, today - back, None, s, t);
    SumByPermutation(s, t, Productive);
    SumByPermutation(s, t, Unproductive);
  }

  // ----- the stored records of a window -----

  /** The keys of the user's stored records dated inside [lo, hi]. */
  ghost function WindowKeys(records: map<Key, DayRecord>, user: UserId, lo: int, hi: Option<int>): set<Key> {
    set k | k in records.Keys && k.user == user && InRange(k.day, lo, hi)
  }

  /** The sum of `f` over the stored records of `keys`, independent of any query answer. */
  ghost function KeySum(records: map<Key, DayRecord>, keys: set<Key>, f: DayRecord -> int): int
    requires keys <= records.Keys
    decreases |keys|
  {
    if keys == {} then 0
    else
      var k :| k in keys;
      f(records[k]) + KeySum(records, keys - {k}, f)
  }

  /** KeySum may take any key out first. */
  lemma {:induction false} KeySumRemove(records: map<Key, DayRecord>, keys: set<Key>, k: Key, f: DayRecord -> int)
    requires keys <= records.Keys && k in keys
    ensures KeySum(records, keys, f) == f(records[k]) + KeySum(records, keys - {k}, f)
    decreases |keys|
  {
    var j :| j in keys && KeySum(records, keys, f) == f(records[j]) + KeySum(records, keys - {j}, f);
    if j != k {
      KeySumRemove(records, keys - {j}, k, f);
      KeySumRemove(records, keys - {k}, j, f);
      assert keys - {j} - {k} == keys - {k} - {j};
    }
  }

  /** The keys of the user's records a sequence of records holds. */
  ghost function KeysOf(user: UserId, entries: seq<DayRecord>): set<Key> {
    set i | 0 <= i < |entries| :: Key(user, entries[i].date)
  }

  lemma {:induction false} SumByIsKeySum(records: map<Key, DayRecord>, user: UserId, entries: seq<DayRecord>, f: DayRecord -> int)
    requires forall i :: 0 <= i < |entries| ==> Key(user, entries[i].date) in records && records[Key(user, entries[i].date)] == entries[i]
    requires forall i, j :: 0 <= i < j < |entries| ==> entries[i].date != entries[j].date
    ensures KeysOf(user, entries) <= records.Keys
    ensures SumBy(entries, f) == KeySum(records, KeysOf(user, entries), f)
    decreases |entries|
  {
    if entries == [] {
      assert KeysOf(user, entries) == {};
    } else {
      var rest := entries[1..];
      var k := Key(user, entries[0].date);
      SumByIsKeySum(records, user, rest, f);
      assert KeysOf(user, rest) == KeysOf(user, entries) - {k} by {
        forall x | x in KeysOf(user, entries) - {k} ensures x in KeysOf(user, rest) {
          var i :| 0 <= i < |entries| && x == Key(user, entries[i].date);
          assert rest[i - 1] == entries[i];
        }
        forall x | x in KeysOf(user, rest) ensures x in KeysOf(user, entries) - {k} {
          var i :| 0 <= i < |rest| && x == Key(user, rest[i].date);
          assert rest[i] == entries[i + 1];
        }
      }
      KeySumRemove(records, KeysOf(user, entries), k, f);
    }
  }

  /**
   * Whatever order the database returns them in, the records of an answer
   * add up to the sum over the user's stored records of the window.
   */
  /** Every stored record of the window is one of the answered entries. */
  lemma WindowKeyAnswered(records: map<Key, DayRecord>, user: UserId, lo: int, hi: Option<int>,
                          entries: seq<DayRecord>, k: Key) returns (i: int)
    requires Answers(records, user, lo, hi, entries)
    requires k in WindowKeys(records, user, lo, hi)
    ensures 0 <= i < |entries| && entries[i].date == k.day && k == Key(user, entries[i].date)
  {
    assert k in records && k.user == user && InRange(k.day, lo, hi);
    i :| 0 <= i < |entries| && entries[i].date == k.day;
  }

  lemma AnswerSumIsWindowSum(records: map<Key, DayRecord>, user: UserId, lo: int, hi: Option<int>,
                             entries: seq<DayRecord>, f: DayRecord -> int)
    requires Answers(records, user, lo, hi, entries)
    ensures SumBy(entries, f) == KeySum(records, WindowKeys(records, user, lo, hi), f)
  {
    SumByIsKeySum(records, user, entries, f);
    assert KeysOf(user, entries) == WindowKeys(records, user, lo, hi) by {
      forall k | k in WindowKeys(records, user, lo, hi) ensures k in KeysOf(user, entries) {
        var i := WindowKeyAnswered(records, user, lo, hi, entries, k);
      }
    }
  }

  /** getMonthlyTime: the counters summed over the user's stored days from today-30 on. */
  lemma MonthlyTimeIsWindowSum(records: map<Key, DayRecord>, user: UserId, today: int, entries: seq<DayRecord>)
    requires Answers(records, user, today - MonthBack, None, entries)
    ensures var keys := WindowKeys(records, user, today - MonthBack, None);
            RangeTime(entries) == Totals(KeySum(records, keys, Productive), KeySum(records, keys, Unproductive))
  {
    AnswerSumIsWindowSum(records, user, today - MonthBack, None, entries, Productive);
    AnswerSumIsWindowSum(records, user, today - MonthBack, None, entries, Unproductive);
  }

  /** getYearlyTime: the counters summed over the user's stored days from today-365 on. */
  lemma YearlyTimeIsWindowSum(records: map<Key, DayRecord>, user: UserId, today: int, entries: seq<DayRecord>)
    requires Answers(records, user, today - YearBack, None, entries)
    ensures var keys := WindowKeys(records, user, today - YearBack, None);
            RangeTime(entries) == Totals(KeySum(records, keys, Productive), KeySum(records, keys, Unproductive))
  {
    AnswerSumIsWindowSum(records, user, today - YearBack, None, entries, Productive);
    AnswerSumIsWindowSum(records, user, today - YearBack, None, entries, Unproductive);
  }

  // ----- getWeeklyTime -----

  datatype DayTotal = DayTotal(date: int, productiveTime: int, unproductiveTime: int)

  datatype WeeklyTotals = WeeklyTotals(productiveTime: int, unproductiveTime: int, dailyBreakdown: seq<DayTotal>)

  function DayTotalOf(r: DayRecord): DayTotal {
    DayTotal(r.date, r.productiveTime, r.unproductiveTime)
  }

  /** The weekly reduce: both sums, and one breakdown item appended per record. */
  function WeeklyFold(acc: WeeklyTotals, entries: seq<DayRecord>): WeeklyTotals
    decreases |entries|
  {
    if entries == [] then acc
    else
      var e := entries[0];
      WeeklyFold(WeeklyTotals(acc.productiveTime + e.productiveTime, acc.unproductiveTime + e.unproductiveTime,
                              acc.dailyBreakdown + [DayTotalOf(e)]),
                 entries[1..])
  }

  function WeeklyTime(entries: seq<DayRecord>): (w: WeeklyTotals)
    ensures w.productiveTime == SumBy(entries, Productive)
    ensures w.unproductiveTime == SumBy(entries, Unproductive)
    ensures |w.dailyBreakdown| == |entries|
    ensures forall i :: 0 <= i < |entries| ==> w.dailyBreakdown[i] == DayTotalOf(entries[i])
  {
    WeeklyFoldSums(WeeklyTotals(0, 0, []), entries);
    var w := WeeklyFold(WeeklyTotals(0, 0, []), entries);
    assert forall i :: 0 <= i < |entries| ==> w.dailyBreakdown[0 + i] == DayTotalOf(entries[i]);
    w
  }

  lemma {:induction false} WeeklyFoldSums(acc: WeeklyTotals, entries: seq<DayRecord>)
    ensures var w := WeeklyFold(acc, entries);
            && w.productiveTime == acc.productiveTime + SumBy(entries, Productive)
            && w.unproductiveTime == acc.unproductiveTime + SumBy(entries, Unproductive)
            && |w.dailyBreakdown| == |acc.dailyBreakdown| + |entries|
            && w.dailyBreakdown[..|acc.dailyBreakdown|] == acc.dailyBreakdown
            && forall i :: 0 <= i < |entries| ==> w.dailyBreakdown[|acc.dailyBreakdown| + i] == DayTotalOf(entries[i])
    decreases |entries|
  {
    if entries != [] {
      var e := entries[0];
      var next := WeeklyTotals(acc.productiveTime + e.productiveTime, acc.unproductiveTime + e.unproductiveTime,
                               acc.dailyBreakdown + [DayTotalOf(e)]);
      WeeklyFoldSums(next, entries[1..]);
      var w := WeeklyFold(acc, entries);
      assert w.dailyBreakdown[..|acc.dailyBreakdown|] == w.dailyBreakdown[..|next.dailyBreakdown|][..|acc.dailyBreakdown|];
      forall i | 0 <= i < |entries|
        ensures w.dailyBreakdown[|acc.dailyBreakdown| + i] == DayTotalOf(entries[i])
      {
        if i > 0 {
          assert w.dailyBreakdown[|next.dailyBreakdown| + (i - 1)] == DayTotalOf(entries[1..][i - 1]);
        } else {
          assert w.dailyBreakdown[..|next.dailyBreakdown|] == next.dailyBreakdown;
        }
      }
    }
  }

  /**
   * getWeeklyTime: the totals are the counters summed over the user's
   * stored days from today-6 on, and for the date-ascending answer the
   * daily breakdown lists those days once each, in strictly increasing
   * date order.
   */
  lemma WeeklyTimeMeaning(records: map<Key, DayRecord>, user: UserId, today: int, entries: seq<DayRecord>)
    requires Answers(records, user, today - WeekBack, None, entries) && Ascending(entries)
    ensures var w := WeeklyTime(entries);
            var keys := WindowKeys(records, user, today - WeekBack, None);
            && w.productiveTime == KeySum(records, keys, Productive)
            && w.unproductiveTime == KeySum(records, keys, Unproductive)
            && (forall i :: 0 <= i < |w.dailyBreakdown| ==>
                  Key(user, w.dailyBreakdown[i].date) in keys
                  && w.dailyBreakdown[i] == DayTotalOf(records[Key(user, w.dailyBreakdown[i].date)]))
            && (forall k :: k in keys ==> exists i :: 0 <= i < |w.dailyBreakdown| && w.dailyBreakdown[i].date == k.day)
            && (forall i, j :: 0 <= i < j < |w.dailyBreakdown| ==> w.dailyBreakdown[i].date < w.dailyBreakdown[j].date)
  {
    var w := WeeklyTime(entries);
    var keys := WindowKeys(records, user, today - WeekBack, None);
    AnswerSumIsWindowSum(records, user, today - WeekBack, None, entries, Productive);
    AnswerSumIsWindowSum(records, user, today - WeekBack, None, entries, Unproductive);
    forall k | k in keys
      ensures exists i :: 0 <= i < |w.dailyBreakdown| && w.dailyBreakdown[i].date == k.day
    {
      var i := WindowKeyAnswered(records, user, today - WeekBack, None, entries, k);
      assert w.dailyBreakdown[i].date == k.day;
    }
  }

  // ----- getHeatmapData -----

  datatype HeatCell = HeatCell(date: int, count: int)

  /** `entries.map(entry => ({ date, count: Math.round(entry.productiveTime / 3600) }))`. */
  function Heatmap(entries: seq<DayRecord>): (cells: seq<HeatCell>)
    ensures |cells| == |entries|
    ensures forall i :: 0 <= i < |entries| ==>
              && cells[i].date == entries[i].date
              && 2 * SecondsPerHour * cells[i].count <= 2 * entries[i].productiveTime + SecondsPerHour
              && 2 * entries[i].productiveTime + SecondsPerHour < 2 * SecondsPerHour * cells[i].count + 2 * SecondsPerHour
  {
    seq(|entries|, i requires 0 <= i < |entries| => HeatCell(entries[i].date, JsMath.RoundDiv(entries[i].productiveTime, SecondsPerHour)))
  }

  /** A day of whole hours shows exactly that many hours; a day under half an hour shows 0. */
  lemma HeatmapCounts(entries: seq<DayRecord>, i: int)
    requires 0 <= i < |entries|
    ensures entries[i].productiveTime % SecondsPerHour == 0 ==>
              Heatmap(entries)[i].count == entries[i].productiveTime / SecondsPerHour
    ensures 0 <= entries[i].productiveTime < SecondsPerHour / 2 ==> Heatmap(entries)[i].count == 0
    ensures entries[i].productiveTime >= SecondsPerHour / 2 ==> Heatmap(entries)[i].count >= 1
  {
    var p := entries[i].productiveTime;
    if p % SecondsPerHour == 0 {
      JsMath.RoundDivExact(p / SecondsPerHour, SecondsPerHour);
      assert p == (p / SecondsPerHour) * SecondsPerHour;
    }
  }

  /** The heatmap is ordered like its records: more productive time never shows fewer hours. */
  lemma HeatmapMonotone(entries: seq<DayRecord>, i: int, j: int)
    requires 0 <= i < |entries| && 0 <= j < |entries|
    requires entries[i].productiveTime <= entries[j].productiveTime
    ensures Heatmap(entries)[i].count <= Heatmap(entries)[j].count
  {
    JsMath.RoundDivMonotone(entries[i].productiveTime, SecondsPerHour, entries[j].productiveTime, SecondsPerHour);
  }

  /** The stored keys the cells stand for. */
  ghost function CellKeys(user: UserId, cells: seq<HeatCell>): set<Key> {
    set i | 0 <= i < |cells| :: Key(user, cells[i].date)
  }

  /**
   * getHeatmapData: one cell per stored day of the user from today-365 on,
   * each with that day's rounded hours, in the order the database returns
   * the records (the query does not sort).
   */
  lemma HeatmapOfYear(records: map<Key, DayRecord>, user: UserId, today: int, entries: seq<DayRecord>)
    requires Answers(records, user, today - YearBack, None, entries)
    ensures forall i :: 0 <= i < |Heatmap(entries)| ==>
              var cell := Heatmap(entries)[i];
              && today - YearBack <= cell.date
              && Key(user, cell.date) in records
              && cell.count == JsMath.RoundDiv(records[Key(user, cell.date)].productiveTime, SecondsPerHour)
    ensures CellKeys(user, Heatmap(entries)) == WindowKeys(records, user, today - YearBack, None)
    ensures forall i, j :: 0 <= i < j < |Heatmap(entries)| ==> Heatmap(entries)[i].date != Heatmap(entries)[j].date
  {
    var cells := Heatmap(entries);
    var keys := WindowKeys(records, user, today - YearBack, None);
    forall k | k in keys ensures k in CellKeys(user, cells) {
      var i := WindowKeyAnswered(records, user, today - YearBack, None, entries, k);
      assert k == Key(user, cells[i].date);
    }
    forall k | k in CellKeys(user, cells) ensures k in keys {
      var i :| 0 <= i < |cells| && k == Key(user, cells[i].date);
      assert cells[i].date == entries[i].date;
    }
  }

  /** The year query has unsorted answers: today's record before yesterday's is one. */
  lemma HeatmapAnswerMayBeUnsorted(user: UserId, today: int)
    ensures var records := map[Key(user, today) := Fresh(user, today), Key(user, today - 1) := Fresh(user, today - 1)];
            var entries := [Fresh(user, today), Fresh(user, today - 1)];
            Answers(records, user, today - YearBack, None, entries) && !Ascending(entries)
            && Heatmap(entries)[0].date > Heatmap(entries)[1].date
  {
    var records := map[Key(user, today) := Fresh(user, today), Key(user, today - 1) := Fresh(user, today - 1)];
    var entries := [Fresh(user, today), Fresh(user, today - 1)];
    forall k | k in records && k.user == user && InRange(k.day, today - YearBack, None)
      ensures exists i :: 0 <= i < |entries| && entries[i].date == k.day
    {
      if k == Key(user, today) {
        assert entries[0].date == k.day;
      } else {
        assert entries[1].date == k.day;
      }
    }
  }

  // ----- getWeeklyHours -----

  datatype DayHours = DayHours(date: int, hourly: seq<HourEntry>)

  /** `data.map(day => ({ date: day.date, hourly: day.hourlyData || [] }))`. */
  function WeeklyHours(data: seq<DayRecord>): (days: seq<DayHours>)
    ensures |days| == |data|
    ensures forall i :: 0 <= i < |data| ==> days[i] == DayHours(data[i].date, data[i].hourlyData)
  {
    seq(|data|, i requires 0 <= i < |data| => DayHours(data[i].date, data[i].hourlyData))
  }

  lemma {:induction false} AscendingDistinctSpread(data: seq<DayRecord>, i: int)
    requires Ascending(data)
    requires forall a, b :: 0 <= a < b < |data| ==> data[a].date != data[b].date
    requires 0 <= i < |data|
    ensures data[i].date >= data[0].date + i
    decreases i
  {
    if i > 0 {
      AscendingDistinctSpread(data, i - 1);
      assert data[i - 1].date <= data[i].date && data[i - 1].date != data[i].date;
    }
  }

  /**
   * The weekly-hours window runs from today-6 to now, so the answer has at
   * most seven days, in strictly increasing date order, all inside the week.
   */
  lemma WeeklyHoursMeaning(records: map<Key, DayRecord>, user: UserId, today: int, data: seq<DayRecord>)
    requires Answers(records, user, today - WeekBack, Some(today), data) && Ascending(data)
    ensures var days := WeeklyHours(data);
            && |days| <= WeekBack + 1
            && (forall i :: 0 <= i < |days| ==> today - WeekBack <= days[i].date <= today)
            && (forall i, j :: 0 <= i < j < |days| ==> days[i].date < days[j].date)
  {
    if data != [] {
      AscendingDistinctSpread(data, |data| - 1);
    }
  }
}
