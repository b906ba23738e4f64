/**
 * The two "peak hour" reductions over the hourly view: getTopHour of the
 * insights card and topHour of the insights-and-inspiration card.
 */
module Insights {
  import opened Options
  import opened Decimal
  import opened HourlyView
  import opened Store
  import opened DashboardMetrics

  const NoClearPeakText := "No clear peak hour yet. Keep tracking!"
  const NoPeakYetText := "No peak hours yet."

  /** `(max, curr) => curr.productiveTime > max.productiveTime ? curr : max`, folded left. */
  function TopFrom(max: HourTotal, rest: seq<HourTotal>): (top: HourTotal)
    ensures top.productiveTime >= max.productiveTime
    ensures forall j :: 0 <= j < |rest| ==> rest[j].productiveTime <= top.productiveTime
    decreases |rest|
  {
    if rest == [] then max
    else
      var top := TopFrom(if rest[0].productiveTime > max.productiveTime then rest[0] else max, rest[1..]);
      assert forall j :: 1 <= j < |rest| ==> rest[j] == rest[1..][j - 1];
      top
  }

  /** Element i holds the most productive time, and every element before it holds strictly less. */
  predicate EarliestMax(data: seq<HourTotal>, i: int)
  {
    && 0 <= i < |data|
    && (forall j :: 0 <= j < |data| ==> data[j].productiveTime <= data[i].productiveTime)
    && (forall j :: 0 <= j < i ==> data[j].productiveTime < data[i].productiveTime)
  }

  /** Folding on from the earliest maximum of the first k elements ends on the earliest maximum of all. */
  lemma {:induction false} TopFromIsEarliestMax(data: seq<HourTotal>, k: nat, i: int) returns (m: int)
    requires k <= |data|
    requires (0 <= i < |data| && i < k) || (k == 0 && i == 0 && data != [])
    requires forall j :: 0 <= j < k ==> data[j].productiveTime <= data[i].productiveTime
    requires forall j :: 0 <= j < i ==> data[j].productiveTime < data[i].productiveTime
    ensures EarliestMax(data, m) && TopFrom(data[i], data[k..]) == data[m]
    decreases |data| - k
  {
    if k == |data| {
      assert data[k..] == [];
      m := i;
    } else {
      var next := if data[k].productiveTime > data[i].productiveTime then k else i;
      assert data[k..][1..] == data[k + 1..];
      m := TopFromIsEarliestMax(data, k + 1, next);
    }
  }

  /** getTopHour: null for a missing or empty array, else the hour of the earliest maximum. */
  function GetTopHour(hourlyData: Option<seq<HourTotal>>): (top: Option<int>)
    ensures hourlyData.None? || hourlyData.value == [] <==> top.None?
  {
    if hourlyData.None? || hourlyData.value == [] then None
    else Some(TopFrom(hourlyData.value[0], hourlyData.value).hour)
  }

  /** The hour returned belongs to the earliest element holding the most productive time. */
  lemma GetTopHourIsEarliestMax(data: seq<HourTotal>)
    requires data != []
    ensures exists m :: EarliestMax(data, m) && GetTopHour(Some(data)) == Some(data[m].hour)
  {
    assert data[0..] == data;
    var m := TopFromIsEarliestMax(data, 0, 0);
  }

  /** The insight line: a falsy top hour (none, or hour 0) gives the no-peak text. */
  function TopHourInsight(hourlyData: Option<seq<HourTotal>>): (text: string)
    ensures (GetTopHour(hourlyData).None? || GetTopHour(hourlyData) == Some(0)) <==> text == NoClearPeakText
  {
    match GetTopHour(hourlyData) {
      case None => NoClearPeakText
      case Some(h) =>
        if h == 0 then NoClearPeakText
        else
          var text := "You're most productive around " + IntToString(h) + ":00 today. Schedule critical tasks then!";
          assert text[0] != NoClearPeakText[0];
          text
    }
  }

  const AheadText := "Great work! Your productive time exceeds unproductive today."
  const BehindText := "Try minimizing distractions to boost productivity."

  /** The second insight: praise exactly when today's productive time exceeds the unproductive. */
  function TodayInsight(todayData: Option<TodaySummary>): (text: string)
    ensures text == AheadText <==> todayData.Some? && todayData.value.productiveTime > todayData.value.unproductiveTime
    ensures text == AheadText || text == BehindText
  {
    if todayData.Some? && todayData.value.productiveTime > todayData.value.unproductiveTime then AheadText
    else
      assert |AheadText| != |BehindText|;
      BehindText
  }

  /** topHour's element: the seed has no unproductive field. */
  datatype Peak = Peak(hour: int, productiveTime: int)

  const Seed := Peak(0, 0)

  function PeakFrom(max: Peak, rest: seq<HourTotal>): (p: Peak)
    ensures p.productiveTime >= max.productiveTime
    decreases |rest|
  {
    if rest == [] then max
    else PeakFrom(if rest[0].productiveTime > max.productiveTime then Peak(rest[0].hour, rest[0].productiveTime) else max,
                  rest[1..])
  }

  /** topHour: `(hourlyData?.hourlyData || []).reduce(…, { hour: 0, productiveTime: 0 })`. */
  function TopHour(nested: Option<seq<HourTotal>>): (p: Peak)
    ensures p.productiveTime >= 0
    ensures nested.Some? ==> forall j :: 0 <= j < |nested.value| ==> nested.value[j].productiveTime <= p.productiveTime
  {
    var data := if nested.Some? then nested.value else [];
    PeakFromBounds(Seed, data);
    PeakFrom(Seed, data)
  }

  lemma {:induction false} PeakFromBounds(max: Peak, rest: seq<HourTotal>)
    ensures var p := PeakFrom(max, rest);
            && p.productiveTime >= max.productiveTime
            && (forall j :: 0 <= j < |rest| ==> rest[j].productiveTime <= p.productiveTime)
            && (p == max || exists j :: 0 <= j < |rest| && p == Peak(rest[j].hour, rest[j].productiveTime)
                                       && rest[j].productiveTime > max.productiveTime
                                       && forall k :: 0 <= k < j ==> rest[k].productiveTime < rest[j].productiveTime)
    decreases |rest|
  {
    if rest != [] {
      var next := if rest[0].productiveTime > max.productiveTime then Peak(rest[0].hour, rest[0].productiveTime) else max;
      PeakFromBounds(next, rest[1..]);
      var p := PeakFrom(max, rest);
      forall j | 0 <= j < |rest|
        ensures rest[j].productiveTime <= p.productiveTime
      {
        if j > 0 {
          assert rest[j] == rest[1..][j - 1];
        }
      }
      if p != max && p != next {
        var j :| 0 <= j < |rest[1..]| && p == Peak(rest[1..][j].hour, rest[1..][j].productiveTime)
                 && rest[1..][j].productiveTime > next.productiveTime
                 && forall k :: 0 <= k < j ==> rest[1..][k].productiveTime < rest[1..][j].productiveTime;
        assert rest[j + 1] == rest[1..][j];
        forall k | 0 <= k < j + 1
          ensures rest[k].productiveTime < rest[j + 1].productiveTime
        {
          if k > 0 {
            assert rest[k] == rest[1..][k - 1];
          }
        }
      }
    }
  }

  /**
   * The peak holds at least 0 and at least every element's time; it is the
   * seed unless some element holds more than 0, and otherwise the earliest
   * element with the greatest time.
   */
  lemma TopHourMeaning(nested: Option<seq<HourTotal>>)
    ensures var data := if nested.Some? then nested.value else [];
            var p := TopHour(nested);
            && p.productiveTime >= 0
            && (forall j :: 0 <= j < |data| ==> data[j].productiveTime <= p.productiveTime)
            && ((forall j :: 0 <= j < |data| ==> data[j].productiveTime <= 0) ==> p == Seed)
            && (p == Seed || exists j :: 0 <= j < |data| && p == Peak(data[j].hour, data[j].productiveTime)
                                      && forall k :: 0 <= k < j ==> data[k].productiveTime < data[j].productiveTime)
  {
    var data := if nested.Some? then nested.value else [];
    PeakFromBounds(Seed, data);
  }

  const PeakPrefix := "Peak productivity at "

  /**
   * The insight line: with a positive peak, its hour and its time in hours
   * with one decimal (None only where toFixed meets an exact halfway tenth);
   * otherwise the no-peak text.
   */
  function PeakText(nested: Option<seq<HourTotal>>): (text: Option<string>)
    ensures TopHour(nested).productiveTime <= 0 ==> text == Some(NoPeakYetText)
    ensures TopHour(nested).productiveTime > 0 ==>
              && (text.None? <==> TopHour(nested).productiveTime % 360 == 180)
              && (text.Some? ==> |text.value| > |PeakPrefix| + |IntToString(TopHour(nested).hour)|
                                 && text.value[..|PeakPrefix|] == PeakPrefix
                                 && text.value[|PeakPrefix|..][..|IntToString(TopHour(nested).hour)|] == IntToString(TopHour(nested).hour))
  {
    var p := TopHour(nested);
    if p.productiveTime > 0 then
      match HoursFixed(p.productiveTime) {
        case None => None
        case Some(h) =>
          var hour := IntToString(p.hour);
          var text := PeakPrefix + hour + ":00: " + h + "h";
          assert text[..|PeakPrefix|] == PeakPrefix;
          assert text[|PeakPrefix|..][..|hour|] == hour;
          Some(text)
      }
    else Some(NoPeakYetText)
  }

  /** A missing nested list (the hourly-view array has no `hourlyData` field) always reads "no peak". */
  lemma MissingListMeansNoPeak()
    ensures TopHour(None) == Seed && PeakText(None) == Some(NoPeakYetText)
  {
  }
}
