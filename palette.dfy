/** The colour table of the map front end and the shade lookup over it.
    Each entry is either one fixed colour or a ramp of shades; a percentage
    ("decalage") picks a shade of a ramp by proportional bucketing. */
module Palette {

  /** One entry of the colour table: a fixed colour string or a list of shades. */
  datatype ColorEntry = Single(color: string) | Ramp(shades: seq<string>)

  /** Number of shades requested from the colour-map library for the main ramp. */
  const NShades: nat := 10

  /** An entry the lookup can use: a ramp must have at least one shade. */
  predicate Usable(e: ColorEntry) {
    e.Ramp? ==> |e.shades| > 0
  }

  /** A table whose every entry is usable. */
  predicate WellFormed(colors: seq<ColorEntry>) {
    forall i :: 0 <= i < |colors| ==> Usable(colors[i])
  }

  /** The module-level colour table. `ramp` is the (already reversed) output of
      the colour-map library for the "autumn" map; its contents are opaque. */
  function Colors(ramp: seq<string>): (colors: seq<ColorEntry>)
    requires |ramp| == NShades
    ensures |colors| == 8 && WellFormed(colors)
    ensures colors[0] == Ramp(ramp)
    ensures forall i :: 1 <= i < |colors| && i != 2 ==> colors[i].Single?
    ensures colors[2].Ramp? && |colors[2].shades| == 5
  {
    [ Ramp(ramp),
      Single("rgba(50,50,50,1)"),
      Ramp([ "rgba(255,255,255,1)",
             "rgba(255,223,191,1)",
             "rgba(255,191,127,1)",
             "rgba(255,159,64,1)",
             "rgba(255,127,0,1)" ]),
      Single("rgba(0,0,255,1)"),
      Single("rgba(255,255,0,1)"),
      Single("rgba(255,0,255,1)"),
      Single("rgba(0,255,255,1)"),
      Single("rgba(255,255,255,1)") ]
  }

  function Max(a: int, b: int): int { if a >= b then a else b }
  function Min(a: int, b: int): int { if a <= b then a else b }

  /** The shade of a ramp of `len` shades chosen for percentage `decalage`:
      the bucket floor(len * decalage / 100), clamped into the ramp. */
  function ShadeIndex(len: nat, decalage: int): (k: int)
    requires len > 0
    ensures 0 <= k < len
    ensures 0 <= decalage < 100 ==> 100 * k <= len * decalage < 100 * (k + 1)
  {
    var bucket := (len * decalage) / 100;
    assert 0 <= decalage < 100 ==> len * decalage < len * 100;
    Min(Max(bucket, 0), len - 1)
  }

  /** The colour of entry `i` of the table for percentage `decalage`. */
  function GetColor(colors: seq<ColorEntry>, decalage: int, i: nat): (r: string)
    requires i < |colors| && Usable(colors[i])
    ensures colors[i].Single? ==> r == colors[i].color
    ensures colors[i].Ramp? ==> r in colors[i].shades
  {
    match colors[i]
    case Single(c) => c
    case Ramp(shades) => shades[ShadeIndex(|shades|, decalage)]
  }

  /** Within [0, 100) the clamp changes nothing: the index is the plain bucket. */
  lemma ShadeIndexUnclamped(len: nat, decalage: int)
    requires len > 0 && 0 <= decalage < 100
    ensures ShadeIndex(len, decalage) == (len * decalage) / 100
  {
    assert len * decalage < len * 100;
  }

  /** A percentage of zero or below picks the first shade. */
  lemma ShadeIndexAtMostZero(len: nat, decalage: int)
    requires len > 0 && decalage <= 0
    ensures ShadeIndex(len, decalage) == 0
  {
    assert len * decalage <= 0;
  }

  /** A percentage of one hundred or above picks the last shade. */
  lemma ShadeIndexAtLeastHundred(len: nat, decalage: int)
    requires len > 0 && decalage >= 100
    ensures ShadeIndex(len, decalage) == len - 1
  {
    assert len * decalage >= len * 100;
  }

  /** A larger percentage never picks an earlier shade. */
  lemma ShadeIndexMonotone(len: nat, d1: int, d2: int)
    requires len > 0 && d1 <= d2
    ensures ShadeIndex(len, d1) <= ShadeIndex(len, d2)
  {
    assert len * d1 <= len * d2 by {
      assert len * d2 - len * d1 == len * (d2 - d1);
    }
  }

  /** The smallest percentage that reaches shade `k`: ceil(100 * k / len). */
  function ShadeStart(len: nat, k: nat): nat
    requires len > 0
  {
    (100 * k + len - 1) / len
  }

  /** When a ramp has at most one hundred shades, every shade is used by some
      percentage in [0, 100), and ShadeStart(len, k) is the first such one. */
  lemma ShadeReached(len: nat, k: nat)
    requires 0 < len <= 100 && k < len
    ensures 0 <= ShadeStart(len, k) < 100
    ensures ShadeIndex(len, ShadeStart(len, k)) == k
    ensures ShadeStart(len, k) > 0 ==> ShadeIndex(len, ShadeStart(len, k) - 1) < k
  {
    var d := ShadeStart(len, k);
    var n := 100 * k + len - 1;
    // d is ceil(100 * k / len): 100 * k <= len * d < 100 * k + len
    var m := len * d;
    assert m <= n < m + len by {
      assert n == len * (n / len) + n % len;
    }
    assert 100 * k <= m < 100 * k + len;
    assert m < 100 * len;
    assert len * (100 - d) == 100 * len - m;
    assert len * (100 - d) > 0;
    assert 100 * k <= len * d < 100 * (k + 1);
    if d > 0 {
      assert len * (d - 1) == m - len;
    }
  }

  /** For a ramp entry, the colour is the shade at the clamped bucket. */
  lemma GetColorRamp(colors: seq<ColorEntry>, decalage: int, i: nat)
    requires i < |colors| && colors[i].Ramp? && |colors[i].shades| > 0
    ensures decalage <= 0 ==> GetColor(colors, decalage, i) == colors[i].shades[0]
    ensures decalage >= 100 ==>
      GetColor(colors, decalage, i) == colors[i].shades[|colors[i].shades| - 1]
    ensures 0 <= decalage < 100 ==>
      GetColor(colors, decalage, i) == colors[i].shades[(|colors[i].shades| * decalage) / 100]
  {
    var len := |colors[i].shades|;
    if decalage <= 0 {
      ShadeIndexAtMostZero(len, decalage);
    } else if decalage >= 100 {
      ShadeIndexAtLeastHundred(len, decalage);
    } else {
      ShadeIndexUnclamped(len, decalage);
    }
  }
}
