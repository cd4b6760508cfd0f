/** The colour legend drawn beside the map: one bar per count 0..Total,
    each coloured with the ramp shade of that count's percentage. */
module Legend {
  import opened Palette
  import opened Percent

  /** One legend bar: its colour and its (constant) bar length. */
  datatype LegendEntry = LegendEntry(color: string, data: nat)

  /** The bar for count `i` out of `total`. */
  function EntryAt(colors: seq<ColorEntry>, total: nat, i: nat): (e: LegendEntry)
    requires total > 0 && |colors| > 0 && Usable(colors[0])
    ensures e.data == 1
    ensures colors[0].Single? ==> e.color == colors[0].color
    ensures colors[0].Ramp? ==> e.color in colors[0].shades
  {
    LegendEntry(GetColor(colors, Percentage(i, total), 0), 1)
  }

  /** Fills the legend dictionary for every key 0..total, in increasing order. */
  method BuildLegend(colors: seq<ColorEntry>, total: nat) returns (legend: map<nat, LegendEntry>)
    requires total > 0 && |colors| > 0 && Usable(colors[0])
    ensures forall i: nat :: i in legend <==> i <= total
    ensures |legend| == total + 1
    ensures forall i :: i in legend ==> legend[i] == EntryAt(colors, total, i)
  {
    legend := map[];
    for i := 0 to total + 1
      invariant forall j: nat :: j in legend <==> j < i
      invariant |legend| == i
      invariant forall j :: j in legend ==> legend[j] == EntryAt(colors, total, j)
    {
      legend := legend[i := EntryAt(colors, total, i)];
    }
  }

  /** Every bar has length one; the first bar has the first shade of the
      ramp and the last bar (count = total) the last shade. */
  lemma LegendEnds(colors: seq<ColorEntry>, total: nat)
    requires total > 0 && |colors| > 0 && colors[0].Ramp? && |colors[0].shades| > 0
    ensures EntryAt(colors, total, 0) == LegendEntry(colors[0].shades[0], 1)
    ensures EntryAt(colors, total, total) ==
      LegendEntry(colors[0].shades[|colors[0].shades| - 1], 1)
  {
    PercentageBounds(0, total);
    PercentageBounds(total, total);
    GetColorRamp(colors, 0, 0);
    GetColorRamp(colors, 100, 0);
  }

  /** Going down the legend the bars walk the ramp without stepping back:
      bar `i` has the shade at the index chosen for its percentage, and that
      index never decreases from bar `i` to bar `j >= i`. */
  lemma LegendShadesMonotone(colors: seq<ColorEntry>, total: nat, i: nat, j: nat)
    requires total > 0 && |colors| > 0 && colors[0].Ramp? && |colors[0].shades| > 0 && i <= j
    ensures EntryAt(colors, total, i).color ==
      colors[0].shades[ShadeIndex(|colors[0].shades|, Percentage(i, total))]
    ensures EntryAt(colors, total, j).color ==
      colors[0].shades[ShadeIndex(|colors[0].shades|, Percentage(j, total))]
    ensures ShadeIndex(|colors[0].shades|, Percentage(i, total)) <=
      ShadeIndex(|colors[0].shades|, Percentage(j, total))
  {
    PercentageMonotone(i, j, total);
    ShadeIndexMonotone(|colors[0].shades|, Percentage(i, total), Percentage(j, total));
  }
}
