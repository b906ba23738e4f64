/**
 * getStreak: the run of consecutive productive days ending today, found by
 * walking the year's records newest first until a day is missing or idle.
 */
module StreakView {
  import opened Options
  import opened Store
  import opened Rollups

  /** Record k continues a run that started on `day`: it is dated day-k and holds productive time. */
  predicate Continues(entries: seq<DayRecord>, day: int, k: int)
    requires 0 <= k < |entries|
  {
    entries[k].date == day - k && entries[k].productiveTime > 0
  }

  /** The streak counted from `day` on, consuming records while each is on the expected day and productive. */
  function StreakFrom(entries: seq<DayRecord>, day: int): (n: nat)
    ensures n <= |entries|
    ensures n > 0 ==> entries[0].date == day && entries[0].productiveTime > 0
    decreases |entries|
  {
    if entries == [] || entries[0].date != day || entries[0].productiveTime <= 0 then 0
    else 1 + StreakFrom(entries[1..], day - 1)
  }

  /** The response for the date-descending records of the year. */
  method Streak(entries: seq<DayRecord>, today: int) returns (streak: nat)
    ensures streak == StreakFrom(entries, today)
  {
    streak := 0;
    var currentDate := today;
    var i := 0;
    while i < |entries|
      invariant 0 <= i <= |entries|
      invariant streak == i && currentDate == today - i
      invariant StreakFrom(entries, today) == streak + StreakFrom(entries[i..], currentDate)
    {
      var entry := entries[i];
      if entry.date != currentDate {
        break;
      }
      if entry.productiveTime <= 0 {
        break;
      }
      assert entries[i..][1..] == entries[i + 1..];
      streak := streak + 1;
      currentDate := currentDate - 1;
      i := i + 1;
    }
  }

  /** The streak from `day` is a run of records that continue it, stopped by one that does not (if any). */
  lemma {:induction false} StreakFromIsRun(entries: seq<DayRecord>, day: int)
    ensures var s := StreakFrom(entries, day);
            && s <= |entries|
            && (forall k :: 0 <= k < s ==> Continues(entries, day, k))
            && (s < |entries| ==> !Continues(entries, day, s))
    decreases |entries|
  {
    if entries != [] && entries[0].date == day && entries[0].productiveTime > 0 {
      var rest := entries[1..];
      StreakFromIsRun(rest, day - 1);
      var s := StreakFrom(entries, day);
      forall k | 0 <= k < s
        ensures Continues(entries, day, k)
      {
        if k > 0 {
          assert Continues(rest, day - 1, k - 1);
          assert entries[k] == rest[k - 1];
        }
      }
      if s < |entries| {
        assert !Continues(rest, day - 1, s - 1);
        assert entries[s] == rest[s - 1];
      }
    }
  }

  /** A run stopped as above has the length StreakFrom computes. */
  lemma {:induction false} RunIsStreakFrom(entries: seq<DayRecord>, day: int, s: nat)
    requires s <= |entries|
    requires forall k :: 0 <= k < s ==> Continues(entries, day, k)
    requires s < |entries| ==> !Continues(entries, day, s)
    ensures StreakFrom(entries, day) == s
    decreases s
  {
    if s > 0 {
      assert Continues(entries, day, 0);
      var rest := entries[1..];
      forall k | 0 <= k < s - 1
        ensures rest[k].date == (day - 1) - k && rest[k].productiveTime > 0
      {
        assert Continues(entries, day, k + 1);
        assert rest[k] == entries[k + 1];
      }
      if s - 1 < |rest| {
        assert !Continues(entries, day, s);
        assert rest[s - 1] == entries[s];
      }
      RunIsStreakFrom(rest, day - 1, s - 1);
    }
  }

  /**
   * The streak is the length of the longest prefix of the records in which
   * the k-th record is dated today-k and holds productive time: every record
   * before it continues the run, the one at it (if any) does not.
   */
  lemma StreakIsLongestRun(entries: seq<DayRecord>, today: int, s: nat)
    ensures s == StreakFrom(entries, today) <==>
              && s <= |entries|
              && (forall k :: 0 <= k < s ==> Continues(entries, today, k))
              && (s < |entries| ==> !Continues(entries, today, s))
  {
    StreakFromIsRun(entries, today);
    if s <= |entries| && (forall k :: 0 <= k < s ==> Continues(entries, today, k))
       && (s < |entries| ==> !Continues(entries, today, s)) {
      RunIsStreakFrom(entries, today, s);
    }
  }

  /** No records, or a newest record that is not today's, give a streak of 0. */
  lemma StreakZeroUnlessTodayFirst(entries: seq<DayRecord>, today: int)
    ensures entries == [] ==> StreakFrom(entries, today) == 0
    ensures entries != [] && entries[0].date != today ==> StreakFrom(entries, today) == 0
    ensures entries != [] && entries[0].date == today && entries[0].productiveTime > 0 ==>
              StreakFrom(entries, today) >= 1
  {
  }

  /** No record is dated after today: every write goes to the day it happens on. */
  ghost predicate NoFutureRecords(records: map<Key, DayRecord>, today: int) {
    forall k :: k in records ==> k.day <= today
  }

  /** Each of the days today-s+1 .. today of `user` has a record holding productive time. */
  ghost predicate ProductiveRun(records: map<Key, DayRecord>, user: UserId, today: int, s: int) {
    forall d :: today - s < d <= today ==> Key(user, d) in records && records[Key(user, d)].productiveTime > 0
  }

  /** A record at or after the stop of a date-descending run is dated before the run's next expected day, or is that record. */
  lemma {:induction false} StopDateBound(entries: seq<DayRecord>, today: int, s: nat)
    requires Descending(entries)
    requires forall a, b :: 0 <= a < b < |entries| ==> entries[a].date != entries[b].date
    requires forall a :: 0 <= a < |entries| ==> entries[a].date <= today
    requires s < |entries| && (forall k :: 0 <= k < s ==> Continues(entries, today, k))
    ensures forall i :: s < i < |entries| ==> entries[i].date < today - s
    ensures entries[s].date <= today - s
  {
    if s > 0 {
      assert Continues(entries, today, s - 1);
    }
    forall i | s < i < |entries|
      ensures entries[i].date < today - s
    {
      assert entries[s].date >= entries[i].date && entries[s].date != entries[i].date;
    }
  }

  /** Every record of the run is a stored productive day of the user. */
  lemma RunIsStored(records: map<Key, DayRecord>, user: UserId, today: int, entries: seq<DayRecord>)
    requires Answers(records, user, today - YearBack, None, entries)
    ensures ProductiveRun(records, user, today, StreakFrom(entries, today))
  {
    var s := StreakFrom(entries, today);
    StreakFromIsRun(entries, today);
    forall d | today - s < d <= today
      ensures Key(user, d) in records && records[Key(user, d)].productiveTime > 0
    {
      assert Continues(entries, today, today - d);
    }
  }

  /** The record of the day before the run, if the window holds one, has no productive time. */
  lemma RunStopsAtIdleDay(records: map<Key, DayRecord>, user: UserId, today: int, entries: seq<DayRecord>, i: int)
    requires Descending(entries)
    requires forall a, b :: 0 <= a < b < |entries| ==> entries[a].date != entries[b].date
    requires forall a :: 0 <= a < |entries| ==> entries[a].date <= today
    requires 0 <= i < |entries| && entries[i].date == today - StreakFrom(entries, today)
    ensures entries[i].productiveTime <= 0
  {
    var s := StreakFrom(entries, today);
    StreakFromIsRun(entries, today);
    forall k | 0 <= k < s
      ensures entries[k].date == today - k
    {
      assert Continues(entries, today, k);
    }
    if s < |entries| {
      StopDateBound(entries, today, s);
    }
  }

  /** Without future records, no answer holds a date after today. */
  lemma AnswerNotAfterToday(records: map<Key, DayRecord>, user: UserId, lo: int, today: int, entries: seq<DayRecord>)
    requires Answers(records, user, lo, None, entries) && NoFutureRecords(records, today)
    ensures forall a :: 0 <= a < |entries| ==> entries[a].date <= today
  {
    forall a | 0 <= a < |entries|
      ensures entries[a].date <= today
    {
      assert Key(user, entries[a].date) in records;
    }
  }

  /** A stored day of the user inside the window is one of the answer's records. */
  lemma AnswerHolds(records: map<Key, DayRecord>, user: UserId, lo: int, entries: seq<DayRecord>, day: int)
    returns (i: int)
    requires Answers(records, user, lo, None, entries)
    requires Key(user, day) in records && lo <= day
    ensures 0 <= i < |entries| && entries[i].date == day && entries[i] == records[Key(user, day)]
  {
    assert InRange(Key(user, day).day, lo, None);
    i :| 0 <= i < |entries| && entries[i].date == day;
  }

  /** The day before the run is not a productive stored day of the window. */
  lemma DayBeforeRunIsIdle(records: map<Key, DayRecord>, user: UserId, today: int, entries: seq<DayRecord>)
    requires Answers(records, user, today - YearBack, None, entries) && Descending(entries)
    requires NoFutureRecords(records, today)
    ensures var day := today - StreakFrom(entries, today);
            !(Key(user, day) in records && today - YearBack <= day && records[Key(user, day)].productiveTime > 0)
  {
    var day := today - StreakFrom(entries, today);
    if Key(user, day) in records && today - YearBack <= day {
      var i := AnswerHolds(records, user, today - YearBack, entries, day);
      AnswerNotAfterToday(records, user, today - YearBack, today, entries);
      RunStopsAtIdleDay(records, user, today, entries, i);
    }
  }

  /**
   * For the year's records newest first, the streak counts the consecutive
   * productive days ending today, and the day before the run is not a
   * productive day of the window.
   */
  lemma StreakCountsProductiveDays(records: map<Key, DayRecord>, user: UserId, today: int, entries: seq<DayRecord>)
    requires Answers(records, user, today - YearBack, None, entries) && Descending(entries)
    requires NoFutureRecords(records, today)
    ensures var s := StreakFrom(entries, today);
            && ProductiveRun(records, user, today, s)
            && !(Key(user, today - s) in records && today - YearBack <= today - s
                 && records[Key(user, today - s)].productiveTime > 0)
  {
    RunIsStored(records, user, today, entries);
    DayBeforeRunIsIdle(records, user, today, entries);
  }
}
