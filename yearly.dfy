/** The yearly heatmap's colour class for one day's cell. */
module YearlyActivity {
  import opened Options
  import opened Decimal
  import opened Rollups
  import JsMath

  const EmptyClass := "color-empty"
  const ScalePrefix := "color-scale-"
  const MaxScale := 4

  /** `Math.min(Math.floor(count / 2) + 1, 4)`. */
  function Scale(count: int): (s: int)
    ensures s <= MaxScale
    ensures count >= 0 ==> 1 <= s
  {
    JsMath.Min(count / 2 + 1, MaxScale)
  }

  /** classForValue: no value is 'color-empty'; a value is `color-scale-<scale of its count>`. */
  function ClassForValue(value: Option<HeatCell>): (cls: string)
    ensures value.None? <==> cls == EmptyClass
  {
    if value.None? then EmptyClass else ScalePrefix + IntToString(Scale(value.value.count))
  }

  /** For a non-negative count the scale is 1..4: 0-1 give 1, 6 and more give 4, and it never decreases. */
  lemma ScaleProperties(count: int, other: int)
    ensures count >= 0 ==> 1 <= Scale(count) <= MaxScale
    ensures 0 <= count <= 1 ==> Scale(count) == 1
    ensures count >= 6 ==> Scale(count) == MaxScale
    ensures count <= other ==> Scale(count) <= Scale(other)
  {
    if count <= other {
      JsMath.FloorDivMonotone(count, 2, other, 2);
    }
  }

  /** The class of a present value names exactly its scale (it can be read back). */
  lemma ClassNamesScale(cell: HeatCell)
    requires cell.count >= 0
    ensures var cls := ClassForValue(Some(cell));
            && cls[..|ScalePrefix|] == ScalePrefix
            && AllDigits(cls[|ScalePrefix|..])
            && ParseNat(cls[|ScalePrefix|..]) == Scale(cell.count)
  {
    ScaleProperties(cell.count, cell.count);
    var cls := ClassForValue(Some(cell));
    assert cls[|ScalePrefix|..] == NatToString(Scale(cell.count));
    ParseNatToString(Scale(cell.count));
  }
}
