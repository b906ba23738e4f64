/**
 * The extension popup's arithmetic: the "Hh Mm" rendering of a number of
 * seconds and today's productivity score.
 */
module Popup {
  import opened Decimal
  import JsMath

  /** `Math.floor(seconds / 3600)`. */
  function Hours(seconds: int): (h: int)
    ensures 3600 * h <= seconds < 3600 * h + 3600
  {
    seconds / 3600
  }

  /** `Math.floor((seconds % 3600) / 60)`, with JavaScript's `%`. */
  function Minutes(seconds: int): (m: int)
    ensures seconds >= 0 ==> 0 <= m < 60 && 60 * m <= seconds % 3600 < 60 * m + 60
    ensures seconds < 0 ==> -60 <= m <= 0
  {
    JsMath.JsRem(seconds, 3600) / 60
  }

  /** formatTime: `${hours}h ${minutes}m` when there are whole hours, `${minutes}m` otherwise. */
  function FormatTime(seconds: int): (r: string)
    ensures |r| >= 2 && r[|r| - 1] == 'm'
  {
    var hours := Hours(seconds);
    var minutes := Minutes(seconds);
    if hours > 0 then IntToString(hours) + "h " + IntToString(minutes) + "m"
    else IntToString(minutes) + "m"
  }

  /** For a non-negative count, hours and minutes are the whole hours and the whole minutes left over. */
  lemma FormatTimeParts(seconds: nat)
    ensures Hours(seconds) >= 0 && 0 <= Minutes(seconds) < 60
    ensures Hours(seconds) * 3600 + Minutes(seconds) * 60 <= seconds < Hours(seconds) * 3600 + Minutes(seconds) * 60 + 60
    ensures Hours(seconds) == (seconds / 60) / 60 && Minutes(seconds) == (seconds / 60) % 60
  {
    var q := seconds / 60;
    var h := q / 60;
    var m := q % 60;
    assert seconds == 3600 * h + 60 * m + seconds % 60;
    assert 0 <= 60 * m + seconds % 60 < 3600;
    assert seconds / 3600 == h;
    assert seconds % 3600 == 60 * m + seconds % 60;
  }

  /** A numeral followed by a marker that is not a digit determines both the numeral and what follows. */
  lemma DigitsBeforeMark(a: string, x: string, b: string, y: string, c: char)
    requires AllDigits(a) && AllDigits(b) && !IsDigit(c)
    requires a + [c] + x == b + [c] + y
    ensures a == b && x == y
  {
    var l := a + [c] + x;
    assert l[|a|] == c;
    assert l[|b|] == (b + [c] + y)[|b|] == c;
    assert forall k :: 0 <= k < |a| ==> l[k] == a[k];
    assert forall k :: 0 <= k < |b| ==> l[k] == b[k];
    assert |a| == |b|;
    assert a == l[..|a|] == b;
    assert x == l[|a| + 1..] == y;
  }

  /** The text has the "Hh Mm" form, with an 'h', exactly when there are whole hours. */
  lemma FormatTimeForm(seconds: nat)
    ensures Hours(seconds) > 0 ==>
              FormatTime(seconds) == NatToString(Hours(seconds)) + "h " + NatToString(Minutes(seconds)) + "m"
    ensures Hours(seconds) <= 0 ==> FormatTime(seconds) == NatToString(Minutes(seconds)) + "m"
    ensures 'h' in FormatTime(seconds) <==> Hours(seconds) > 0
  {
    FormatTimeParts(seconds);
    var r := FormatTime(seconds);
    if Hours(seconds) > 0 {
      assert r[|NatToString(Hours(seconds))|] == 'h';
    } else {
      assert forall k :: 0 <= k < |r| - 1 ==> r[k] == NatToString(Minutes(seconds))[k];
      assert forall k :: 0 <= k < |r| ==> r[k] != 'h';
    }
  }

  lemma Regroup(h: string, m: string)
    ensures h + "h " + m + "m" == h + ['h'] + (" " + m + "m")
  {
    assert "h " == ['h'] + [' '];
  }

  /** Equal texts come from the same hours and minutes. */
  lemma SameTextSameParts(a: nat, b: nat)
    requires FormatTime(a) == FormatTime(b)
    ensures Hours(a) == Hours(b) && Minutes(a) == Minutes(b)
  {
    FormatTimeForm(a);
    FormatTimeForm(b);
    var ma, mb := NatToString(Minutes(a)), NatToString(Minutes(b));
    if Hours(a) > 0 {
      assert Hours(b) > 0;
      var ha, hb := NatToString(Hours(a)), NatToString(Hours(b));
      Regroup(ha, ma);
      Regroup(hb, mb);
      DigitsBeforeMark(ha, " " + ma + "m", hb, " " + mb + "m", 'h');
      NatToStringInjective(Hours(a), Hours(b));
      assert ma == (" " + ma + "m")[1..|ma| + 1];
      assert mb == (" " + mb + "m")[1..|mb| + 1];
    } else {
      FormatTimeParts(a);
      FormatTimeParts(b);
      assert ma + ['m'] + [] == mb + ['m'] + [];
      DigitsBeforeMark(ma, [], mb, [], 'm');
    }
    NatToStringInjective(Minutes(a), Minutes(b));
  }

  /** Two non-negative durations print alike exactly when they have the same whole minutes. */
  lemma FormatTimeSameIffSameMinute(a: nat, b: nat)
    ensures FormatTime(a) == FormatTime(b) <==> a / 60 == b / 60
  {
    FormatTimeParts(a);
    FormatTimeParts(b);
    if FormatTime(a) == FormatTime(b) {
      SameTextSameParts(a, b);
    }
  }

  /** The popup's score: the rounded percentage of tracked time that was productive, 0 with nothing tracked. */
  function ProductivityScore(productive: int, unproductive: int): (score: int)
    ensures productive + unproductive <= 0 ==> score == 0
  {
    if productive + unproductive > 0 then JsMath.RoundDiv(100 * productive, productive + unproductive) else 0
  }

  /** For non-negative counters the score is a rounded percentage of productive time. */
  lemma ProductivityScoreMeaning(productive: nat, unproductive: nat)
    ensures 0 <= ProductivityScore(productive, unproductive) <= 100
    ensures productive + unproductive > 0 ==>
              var t := productive + unproductive;
              var score := ProductivityScore(productive, unproductive);
              2 * t * score <= 200 * productive + t < 2 * t * score + 2 * t
    ensures unproductive == 0 && productive > 0 ==> ProductivityScore(productive, unproductive) == 100
    ensures productive == 0 ==> ProductivityScore(productive, unproductive) == 0
  {
    var t := productive + unproductive;
    if t > 0 {
      JsMath.RoundDivMonotone(0, 1, 100 * productive, t);
      JsMath.RoundDivMonotone(100 * productive, t, 100, 1);
      JsMath.RoundDivExact(0, 1);
      JsMath.RoundDivExact(100, 1);
      if unproductive == 0 {
        JsMath.RoundDivExact(100, productive);
      }
      if productive == 0 {
        JsMath.RoundDivExact(0, t);
      }
    }
  }
}
