/**
 * The weekly top-hours grid: seven day columns ('6 days ago' .. 'Today') by
 * 24 hour rows, each cell shaded 0..4 from the productive time recorded in
 * that hour of that day.
 */
module TopHours {
  import opened Options
  import opened Store
  import opened Rollups
  import opened HourlyView
  import JsMath

  /** Seconds per shade step: a quarter of an hour. */
  const QuarterHour := 900
  const MaxShade := 4
  /** The number of day columns; column 6 is today. */
  const DayColumns := 7

  /** `hourly.find(h => h.hour === hour)`: the first element recorded for that hour. */
  function FindHour(hourly: seq<HourEntry>, hour: int): (r: Option<HourEntry>)
    ensures r.None? <==> forall j :: 0 <= j < |hourly| ==> hourly[j].hour != hour
    ensures r.Some? ==> exists i :: 0 <= i < |hourly| && hourly[i] == r.value && hourly[i].hour == hour
                                    && forall j :: 0 <= j < i ==> hourly[j].hour != hour
  {
    if hourly == [] then None
    else if hourly[0].hour == hour then Some(hourly[0])
    else
      var r := FindHour(hourly[1..], hour);
      assert forall j :: 1 <= j < |hourly| ==> hourly[j] == hourly[1..][j - 1];
      r
  }

  /** `Math.min(Math.floor(p / 3600 * 4) + 1, 4)`. */
  function Shade(productiveTime: int): (s: int)
    ensures s <= MaxShade
    ensures productiveTime >= 0 ==> 1 <= s
  {
    JsMath.Min(productiveTime / QuarterHour + 1, MaxShade)
  }

  /** A shade is 1..4 for non-negative time, grows with the time, starts at 1 and saturates at 45 minutes. */
  lemma ShadeProperties(p: int, q: int)
    ensures p >= 0 ==> 1 <= Shade(p) <= MaxShade
    ensures 0 <= p < QuarterHour ==> Shade(p) == 1
    ensures p >= 3 * QuarterHour ==> Shade(p) == MaxShade
    ensures p <= q ==> Shade(p) <= Shade(q)
  {
    if p <= q {
      JsMath.FloorDivMonotone(p, QuarterHour, q, QuarterHour);
    }
  }

  /** getIntensity as written: the dayIndex-th answer of /weekly-hours, and the first element of the hour. */
  function GetIntensity(weekly: seq<DayHours>, dayIndex: int, hour: int): (shade: int)
    ensures (dayIndex < 0 || dayIndex >= |weekly|) ==> shade == 0
    ensures 0 <= dayIndex < |weekly| ==>
              match FindHour(weekly[dayIndex].hourly, hour) {
                case None => shade == 0
                case Some(e) => shade == Shade(e.productiveTime)
              }
  {
    var hourly := if 0 <= dayIndex < |weekly| then weekly[dayIndex].hourly else [];
    match FindHour(hourly, hour) {
      case None => 0
      case Some(e) => Shade(e.productiveTime)
    }
  }

  /** The shade of one hour of one day's elements, counting every element of the hour. */
  function HourShade(hourly: seq<HourEntry>, hour: Hour): (shade: int)
    ensures FindHour(hourly, hour).None? ==> shade == 0
    ensures FindHour(hourly, hour).Some? ==> shade == Shade(HourSum(hourly, hour, EntryProductive))
  {
    if FindHour(hourly, hour).None? then 0 else Shade(HourSum(hourly, hour, EntryProductive))
  }

  /** The answer dated `day`, if any. */
  function DayOn(weekly: seq<DayHours>, day: int): (r: Option<DayHours>)
    ensures r.None? <==> forall i :: 0 <= i < |weekly| ==> weekly[i].date != day
    ensures r.Some? ==> r.value.date == day && r.value in weekly
  {
    if weekly == [] then None
    else if weekly[0].date == day then Some(weekly[0])
    else
      var r := DayOn(weekly[1..], day);
      assert forall j :: 1 <= j < |weekly| ==> weekly[j] == weekly[1..][j - 1];
      r
  }

  /** The intended cell: column c is the day today-6+c, shaded by all the time recorded in that hour. */
  function CellShade(weekly: seq<DayHours>, today: int, column: int, hour: Hour): (shade: int)
    ensures shade <= MaxShade
    ensures (forall i :: 0 <= i < |weekly| ==> weekly[i].date != today - (DayColumns - 1) + column) ==> shade == 0
  {
    match DayOn(weekly, today - (DayColumns - 1) + column) {
      case None => 0
      case Some(d) => HourShade(d.hourly, hour)
    }
  }

  lemma {:induction false} HourSumNonNegative(hs: seq<HourEntry>, hour: Hour)
    requires forall i :: 0 <= i < |hs| ==> hs[i].productiveTime >= 0
    ensures HourSum(hs, hour, EntryProductive) >= 0
    decreases |hs|
  {
    if hs != [] {
      HourSumNonNegative(hs[..|hs| - 1], hour);
    }
  }

  /** One element that holds time for the hour makes the hour's sum at least that large. */
  lemma {:induction false} HourSumCoversEntry(hs: seq<HourEntry>, hour: Hour, i: int)
    requires forall k :: 0 <= k < |hs| ==> hs[k].productiveTime >= 0
    requires 0 <= i < |hs| && hs[i].hour == hour
    ensures HourSum(hs, hour, EntryProductive) >= hs[i].productiveTime
    decreases |hs|
  {
    var init := hs[..|hs| - 1];
    if i < |hs| - 1 {
      HourSumCoversEntry(init, hour, i);
    } else {
      HourSumNonNegative(init, hour);
    }
  }

  /**
   * Counting every element never shades a cell lighter than the first
   * element alone does (for non-negative times).
   */
  lemma HourShadeAtLeastFirst(hourly: seq<HourEntry>, hour: Hour)
    requires forall k :: 0 <= k < |hourly| ==> hourly[k].productiveTime >= 0
    ensures FindHour(hourly, hour).Some? ==>
              Shade(FindHour(hourly, hour).value.productiveTime) <= HourShade(hourly, hour)
    ensures 0 <= HourShade(hourly, hour) <= MaxShade
  {
    HourSumNonNegative(hourly, hour);
    var s := HourSum(hourly, hour, EntryProductive);
    ShadeProperties(s, s);
    if FindHour(hourly, hour).Some? {
      var e := FindHour(hourly, hour).value;
      var i :| 0 <= i < |hourly| && hourly[i] == e && hourly[i].hour == hour
               && forall j :: 0 <= j < i ==> hourly[j].hour != hour;
      HourSumCoversEntry(hourly, hour, i);
      ShadeProperties(e.productiveTime, s);
    }
  }

  /**
   * The intended cell is 0 exactly when the day has no record or the hour no
   * element; otherwise it is the shade of the hour's total.
   */
  lemma CellShadeMeaning(weekly: seq<DayHours>, today: int, column: int, hour: Hour)
    ensures var day := today - (DayColumns - 1) + column;
            && ((forall i :: 0 <= i < |weekly| ==> weekly[i].date != day) ==> CellShade(weekly, today, column, hour) == 0)
            && (DayOn(weekly, day).Some? ==>
                  CellShade(weekly, today, column, hour) == HourShade(DayOn(weekly, day).value.hourly, hour))
  {
  }

  /** With non-negative times every intended cell is a shade 0..4. */
  lemma CellShadeRange(weekly: seq<DayHours>, today: int, column: int, hour: Hour)
    requires forall i, k :: 0 <= i < |weekly| && 0 <= k < |weekly[i].hourly| ==> weekly[i].hourly[k].productiveTime >= 0
    ensures 0 <= CellShade(weekly, today, column, hour) <= MaxShade
  {
    var d := DayOn(weekly, today - (DayColumns - 1) + column);
    if d.Some? {
      var i :| 0 <= i < |weekly| && weekly[i] == d.value;
      HourShadeAtLeastFirst(d.value.hourly, hour);
    }
  }

  /** Where the week has a record for every day, position and date agree and only the first-element rule differs. */
  lemma FullWeekAligns(weekly: seq<DayHours>, today: int, column: int, hour: Hour)
    requires 0 <= column < |weekly|
    requires weekly[column].date == today - (DayColumns - 1) + column
    requires forall i, j :: 0 <= i < j < |weekly| ==> weekly[i].date != weekly[j].date
    ensures CellShade(weekly, today, column, hour) == HourShade(weekly[column].hourly, hour)
    ensures FindHour(weekly[column].hourly, hour).None? ==> GetIntensity(weekly, column, hour) == 0
  {
    var day := today - (DayColumns - 1) + column;
    var d := DayOn(weekly, day);
    assert d.Some?;
    var k :| 0 <= k < |weekly| && weekly[k] == d.value;
    assert weekly[k].date == weekly[column].date;
    assert k == column;
  }

  // ----- the two discrepancies, on concrete inputs -----

  /** Five ticks of 180 seconds in hour 9: fifteen minutes of work. */
  function FiveTicks(): seq<HourEntry> {
    [HourEntry(9, 180, 0), HourEntry(9, 180, 0), HourEntry(9, 180, 0), HourEntry(9, 180, 0), HourEntry(9, 180, 0)]
  }

  /**
   * Fifteen minutes recorded as five ticks shade today's cell as if only one
   * tick (three minutes) had been recorded.
   */
  lemma FirstElementUndercounts(today: int)
    ensures GetIntensity([DayHours(today - 6, FiveTicks())], 0, 9) == 1
    ensures CellShade([DayHours(today - 6, FiveTicks())], today, 0, 9) == 2
  {
    var hs := FiveTicks();
    assert hs[..1][..0] == [];
    assert HourSum(hs[..1], 9, EntryProductive) == 180;
    assert hs[..2][..1] == hs[..1];
    assert HourSum(hs[..2], 9, EntryProductive) == 360;
    assert hs[..3][..2] == hs[..2];
    assert HourSum(hs[..3], 9, EntryProductive) == 540;
    assert hs[..4][..3] == hs[..3];
    assert HourSum(hs[..4], 9, EntryProductive) == 720;
    assert hs[..4] == hs[..|hs| - 1];
    assert HourSum(hs, 9, EntryProductive) == 900;
  }

  /**
   * A user whose only record this week is today's sees it in the
   * '6 days ago' column, and an empty 'Today' column.
   */
  lemma ColumnsFollowPositionNotDate(today: int)
    ensures var weekly := [DayHours(today, [HourEntry(9, 3600, 0)])];
            && GetIntensity(weekly, 0, 9) == 4
            && GetIntensity(weekly, DayColumns - 1, 9) == 0
            && CellShade(weekly, today, 0, 9) == 0
            && CellShade(weekly, today, DayColumns - 1, 9) == 4
  {
    var hs := [HourEntry(9, 3600, 0)];
    assert hs[..0] == [];
    assert HourSum(hs, 9, EntryProductive) == 3600;
  }
}
