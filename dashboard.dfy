/**
 * The dashboard page's own arithmetic: formatTime's three magnitudes and
 * calculateScore's rounded percentage with a +1 denominator.
 */
module DashboardMetrics {
  import opened Options
  import opened Decimal
  import JsMath

  /** A number of tenths as `toFixed(1)` prints it: whole part, a point, one digit. */
  function Tenths(n: nat): (s: string)
    ensures |s| >= 3 && s[|s| - 2] == '.'
  {
    NatToString(n / 10) + "." + [DigitChar(n % 10)]
  }

  /** Reads back a Tenths text. */
  lemma TenthsRoundTrip(n: nat)
    ensures var s := Tenths(n);
            AllDigits(s[..|s| - 2]) && IsDigit(s[|s| - 1])
            && ParseNat(s[..|s| - 2]) * 10 + DigitValue(s[|s| - 1]) == n
  {
    var s := Tenths(n);
    assert s[..|s| - 2] == NatToString(n / 10);
    ParseNatToString(n / 10);
  }

  /**
   * `(seconds / 3600).toFixed(1)` for a non-negative count: the tenth of an
   * hour nearest to it. When the count lies exactly halfway between two
   * tenths, the digit depends on the binary rounding of the quotient, which
   * the model does not reproduce; that case is None.
   */
  function HoursFixed(seconds: nat): (r: Option<string>)
    ensures r.None? <==> seconds % 360 == 180
  {
    if seconds % 360 == 180 then None else Some(Tenths(JsMath.RoundDiv(seconds, 360)))
  }

  /** Away from the halfway cases, the printed tenths are the nearest tenth of an hour. */
  lemma HoursFixedIsNearest(seconds: nat)
    requires seconds % 360 != 180
    ensures var n := JsMath.RoundDiv(seconds, 360);
            && HoursFixed(seconds) == Some(Tenths(n))
            && 720 * n - 360 < 2 * seconds < 720 * n + 360
  {
    var n := JsMath.RoundDiv(seconds, 360);
    assert 720 * n <= 2 * seconds + 360 < 720 * n + 720;
    assert 2 * seconds + 360 != 720 * n by {
      assert seconds == 360 * (seconds / 360) + seconds % 360;
    }
  }

  /** The last character of a non-empty text. */
  function Unit(text: string): char {
    if text == [] then ' ' else text[|text| - 1]
  }

  /** formatTime: seconds below a minute, whole minutes below an hour, else tenths of an hour. */
  function FormatTime(seconds: int): (r: Option<string>)
    ensures r.None? <==> seconds >= 3600 && seconds % 360 == 180
    ensures seconds < 60 ==> r.Some? && Unit(r.value) == 's'
    ensures 60 <= seconds < 3600 ==> r.Some? && Unit(r.value) == 'm'
    ensures seconds >= 3600 && r.Some? ==> Unit(r.value) == 'h'
  {
    if seconds < 60 then Some(IntToString(seconds) + "s")
    else if seconds < 3600 then Some(IntToString(seconds / 60) + "m")
    else match HoursFixed(seconds) {
      case None => None
      case Some(h) => Some(h + "h")
    }
  }

  /** The branch is chosen by magnitude, and each branch names its unit. */
  lemma FormatTimeBranches(seconds: int)
    ensures seconds < 60 ==> FormatTime(seconds) == Some(IntToString(seconds) + "s")
    ensures 60 <= seconds < 3600 ==>
              && FormatTime(seconds) == Some(NatToString(seconds / 60) + "m")
              && 1 <= seconds / 60 < 60
    ensures seconds >= 3600 && seconds % 360 != 180 ==>
              exists n: nat :: n >= 10 && FormatTime(seconds) == Some(Tenths(n) + "h")
                               && 720 * n - 360 < 2 * seconds < 720 * n + 360
    ensures seconds >= 3600 ==> (FormatTime(seconds).None? <==> seconds % 360 == 180)
  {
    if seconds >= 3600 && seconds % 360 != 180 {
      HoursFixedIsNearest(seconds);
      var n := JsMath.RoundDiv(seconds, 360);
      assert n >= 10;
      assert FormatTime(seconds) == Some(Tenths(n) + "h");
    }
  }

  /** calculateScore: `Math.round(productive / (productive + unproductive + 1) * 100)`. */
  function CalculateScore(productive: nat, unproductive: nat): (score: int)
    ensures 0 <= score <= 100
  {
    var t := productive + unproductive + 1;
    JsMath.RoundDivAtLeast(100 * productive, t, 0);
    JsMath.RoundDivAtLeast(100 * productive, t, 101);
    JsMath.RoundDiv(100 * productive, t)
  }

  /** The score is a percentage, 0 without productive time, and 100 is reached only by rounding up. */
  lemma CalculateScoreRange(productive: nat, unproductive: nat)
    ensures 0 <= CalculateScore(productive, unproductive) <= 100
    ensures productive == 0 ==> CalculateScore(productive, unproductive) == 0
    ensures CalculateScore(productive, unproductive) == 100 <==> productive >= 199 * (unproductive + 1)
  {
    var t := productive + unproductive + 1;
    JsMath.RoundDivAtLeast(100 * productive, t, 0);
    JsMath.RoundDivAtLeast(100 * productive, t, 1);
    JsMath.RoundDivAtLeast(100 * productive, t, 100);
    JsMath.RoundDivAtLeast(100 * productive, t, 101);
  }

  /** 100 is reachable: two hundred productive seconds and nothing else score 100. */
  lemma CalculateScoreReachesHundred()
    ensures CalculateScore(200, 0) == 100
  {
    CalculateScoreRange(200, 0);
  }

  /** More productive time never lowers the score; more unproductive time never raises it. */
  lemma CalculateScoreMonotone(p1: nat, p2: nat, u1: nat, u2: nat)
    requires p1 <= p2 && u2 <= u1
    ensures CalculateScore(p1, u1) <= CalculateScore(p2, u2)
  {
    var t1, t2 := p1 + u1 + 1, p2 + u2 + 1;
    // p1 / t1 <= p2 / t2  because  p1 * (p2 + u2 + 1) <= p2 * (p1 + u1 + 1)
    assert p1 * t2 == p1 * p2 + p1 * (u2 + 1);
    assert p2 * t1 == p1 * p2 + p2 * (u1 + 1);
    JsMath.MulLe(p1, p2, u2 + 1);
    JsMath.MulLe(u2 + 1, u1 + 1, p2);
    assert (100 * p1) * t2 == 100 * (p1 * t2);
    assert (100 * p2) * t1 == 100 * (p2 * t1);
    JsMath.RoundDivMonotone(100 * p1, t1, 100 * p2, t2);
  }
}
