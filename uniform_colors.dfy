/**
 * Team segmentation by uniform colour (`Action.get_player_locations` and
 * `Action.estimate_uniform_colors`, action.py).
 *
 * Images are flattened row-major into sequences of extended-hue values. The
 * extended-hue scale has two sides: chromatic hues 0..179 and the grey/white
 * tones 180..255. A pixel mask (`cv2.inRange`, `cv2.bitwise_or`, values 0 and
 * 255) is a sequence of booleans, 255 being `true`.
 */
module UniformColors {

  /** Inclusive range [lo, hi] of extended-hue values accepted for one colour. */
  datatype Band = Band(lo: int, hi: int)

  function Min(a: int, b: int): int { if a <= b then a else b }

  function Max(a: int, b: int): int { if a <= b then b else a }

  /**
   * The band around one representative colour: a margin of 2 on the hue side
   * and 15 on the grey side, shrunk near an edge of the colour's side to the
   * distance to that edge, so that a band never leaves its side.
   */
  function ColorBand(color: nat): (b: Band)
    ensures color < 180 ==> 0 <= b.lo <= color <= b.hi <= 179
    ensures 180 <= color <= 255 ==> 180 <= b.lo <= color <= b.hi <= 255
    ensures color < 180 ==> b.lo == Max(color - 2, 0) && b.hi == Min(color + 2, 179)
    ensures 180 <= color ==> b.lo == Max(color - 15, 180) && b.hi == Min(color + 15, 255)
  {
    var lower :=
      if color < 180 then (if color <= 1 then color else 2)
      else (if color < 195 then color - 180 else 15);
    var upper :=
      if color < 180 then (if color >= 178 then 179 - color else 2)
      else (if color > 240 then 255 - color else 15);
    Band(color - lower, color + upper)
  }

  /** `cv2.inRange` for one colour: the band is inclusive at both ends. */
  predicate InBand(color: nat, v: nat)
  {
    ColorBand(color).lo <= v <= ColorBand(color).hi
  }

  /** A value is selected when it lies in the band of at least one colour. */
  ghost predicate Covered(v: nat, colors: seq<nat>)
  {
    exists k :: 0 <= k < |colors| && InBand(colors[k], v)
  }

  /** No band reaches across the 179/180 boundary between the two sides of the scale. */
  lemma BandsStayOnTheirSide(color: nat, v: nat)
    requires color <= 255 && InBand(color, v)
    ensures v < 180 <==> color < 180
    ensures v <= 255
  {
  }

  /**
   * `get_player_locations`: OR together the in-range masks of every colour,
   * starting from an all-zero mask.
   */
  method PlayerLocations(image: seq<nat>, colors: seq<nat>) returns (mask: seq<bool>)
    ensures |mask| == |image|
    ensures forall i :: 0 <= i < |image| ==> (mask[i] <==> Covered(image[i], colors))
    ensures colors == [] ==> forall i :: 0 <= i < |image| ==> !mask[i]
  {
    mask := seq(|image|, _ => false);
    for k := 0 to |colors|
      invariant |mask| == |image|
      invariant forall i :: 0 <= i < |image| ==> (mask[i] <==> Covered(image[i], colors[..k]))
    {
      var band := ColorBand(colors[k]);
      var current := seq(|image|, i requires 0 <= i < |image| => band.lo <= image[i] <= band.hi);
      mask := seq(|image|, i requires 0 <= i < |image| => mask[i] || current[i]);
      forall i | 0 <= i < |image|
        ensures mask[i] <==> Covered(image[i], colors[..k + 1])
      {
        if mask[i] && !current[i] {
          var j :| 0 <= j < k && InBand(colors[..k][j], image[i]);
          assert colors[..k + 1][j] == colors[..k][j];
        }
        if Covered(image[i], colors[..k + 1]) {
          var j :| 0 <= j < k + 1 && InBand(colors[..k + 1][j], image[i]);
          if j < k {
            assert colors[..k][j] == colors[..k + 1][j];
          }
        }
        if current[i] {
          assert colors[..k + 1][k] == colors[k];
        }
      }
    }
    assert colors[..|colors|] == colors;
  }

  /** Which colours are listed decides the mask; their order and repetitions do not. */
  lemma {:induction false} MaskIgnoresColorOrder(v: nat, colors: seq<nat>, others: seq<nat>)
    requires forall c :: c in colors <==> c in others
    ensures Covered(v, colors) <==> Covered(v, others)
  {
    if Covered(v, colors) {
      var k :| 0 <= k < |colors| && InBand(colors[k], v);
      assert colors[k] in others;
      var j :| 0 <= j < |others| && others[j] == colors[k];
      assert InBand(others[j], v);
    }
    if Covered(v, others) {
      var k :| 0 <= k < |others| && InBand(others[k], v);
      assert others[k] in colors;
      var j :| 0 <= j < |colors| && colors[j] == others[k];
      assert InBand(colors[j], v);
    }
  }

  // ---------------------------------------------------------------------------
  // Uniform colour estimation over a calibration region
  // ---------------------------------------------------------------------------

  /** Number of unmasked pixels (mask value non-zero) whose value is `v`. */
  function Count(eh: seq<nat>, mask: seq<nat>, v: nat): nat
    requires |eh| == |mask|
  {
    if |eh| == 0 then 0
    else (if mask[0] != 0 && eh[0] == v then 1 else 0) + Count(eh[1..], mask[1..], v)
  }

  /** Number of unmasked pixels whose value lies in `s`. */
  function CountIn(eh: seq<nat>, mask: seq<nat>, s: set<nat>): nat
    requires |eh| == |mask|
  {
    if |eh| == 0 then 0
    else (if mask[0] != 0 && eh[0] in s then 1 else 0) + CountIn(eh[1..], mask[1..], s)
  }

  /** `np.count_nonzero(uniform_mask)`: the number of unmasked pixels. */
  function NonZero(mask: seq<nat>): nat
  {
    if |mask| == 0 then 0 else (if mask[0] != 0 then 1 else 0) + NonZero(mask[1..])
  }

  /** A value is a uniform colour when its share of the unmasked pixels is strictly above 20%. */
  ghost predicate Kept(eh: seq<nat>, mask: seq<nat>, v: nat)
    requires |eh| == |mask|
  {
    5 * Count(eh, mask, v) > NonZero(mask)
  }

  /** The values listed in `s`. */
  function ValueSet(s: seq<nat>): set<nat>
  {
    set v | v in s
  }

  predicate StrictlyAscending(s: seq<nat>)
  {
    forall i, j :: 0 <= i < j < |s| ==> s[i] < s[j]
  }

  /**
   * What `np.unique(..., return_counts=True)` hands back once the masked entry
   * is skipped: every unmasked value once, ascending, with its count.
   */
  ghost predicate IsUniqueOf(eh: seq<nat>, mask: seq<nat>, values: seq<nat>, counts: seq<nat>)
    requires |eh| == |mask|
  {
    && |values| == |counts|
    && StrictlyAscending(values)
    && (forall i :: 0 <= i < |values| ==> counts[i] == Count(eh, mask, values[i]) > 0)
    && (forall v :: Count(eh, mask, v) > 0 ==> v in values)
  }

  /**
   * `estimate_uniform_colors`: keep, in ascending order, every unmasked value
   * whose count is strictly more than a fifth of the unmasked pixels.
   */
  method EstimateUniformColors(eh: seq<nat>, mask: seq<nat>, values: seq<nat>, counts: seq<nat>)
    returns (uniform: seq<nat>)
    requires |eh| == |mask|
    requires IsUniqueOf(eh, mask, values, counts)
    ensures StrictlyAscending(uniform)
    ensures forall v :: v in uniform <==> Kept(eh, mask, v)
  {
    var pixels := NonZero(mask);
    uniform := [];
    for i := 0 to |values|
      invariant StrictlyAscending(uniform)
      invariant forall v :: v in uniform <==> v in values[..i] && Kept(eh, mask, v)
    {
      if 5 * counts[i] > pixels {
        forall a | 0 <= a < |uniform| ensures uniform[a] < values[i] {
          assert uniform[a] in uniform;
          var j :| 0 <= j < i && values[..i][j] == uniform[a];
        }
        uniform := uniform + [values[i]];
      }
      assert values[..i + 1] == values[..i] + [values[i]];
    }
    assert values[..|values|] == values;
  }

  lemma {:induction false} CountInAtMostUnmasked(eh: seq<nat>, mask: seq<nat>, s: set<nat>)
    requires |eh| == |mask|
    ensures CountIn(eh, mask, s) <= NonZero(mask)
  {
    if |eh| > 0 {
      CountInAtMostUnmasked(eh[1..], mask[1..], s);
    }
  }

  lemma {:induction false} CountInAddOne(eh: seq<nat>, mask: seq<nat>, s: set<nat>, v: nat)
    requires |eh| == |mask| && v !in s
    ensures CountIn(eh, mask, s + {v}) == CountIn(eh, mask, s) + Count(eh, mask, v)
  {
    if |eh| > 0 {
      CountInAddOne(eh[1..], mask[1..], s, v);
    }
  }

  /** Removing the head of a strictly ascending list removes exactly that value. */
  lemma ValueSetSplit(s: seq<nat>)
    requires |s| > 0 && StrictlyAscending(s)
    ensures ValueSet(s) == ValueSet(s[1..]) + {s[0]}
    ensures s[0] !in ValueSet(s[1..])
  {
    assert s == [s[0]] + s[1..];
  }

  /** One more kept value adds at least one more fifth-plus-one of the unmasked pixels. */
  lemma MassStep(k: nat, m: nat, before: nat, added: nat)
    requires 5 * before >= k * m && 5 * added >= m
    ensures 5 * (before + added) >= (k + 1) * m
  {
    assert (k + 1) * m == k * m + m;
  }

  /** Distinct kept values together cover more than |s| fifths of the unmasked pixels. */
  lemma {:induction false} KeptMass(eh: seq<nat>, mask: seq<nat>, s: seq<nat>)
    requires |eh| == |mask|
    requires StrictlyAscending(s)
    requires forall k :: 0 <= k < |s| ==> Kept(eh, mask, s[k])
    ensures 5 * CountIn(eh, mask, ValueSet(s)) >= |s| * (NonZero(mask) + 1)
  {
    if |s| > 0 {
      var m := NonZero(mask) + 1;
      var rest := s[1..];
      KeptMass(eh, mask, rest);
      ValueSetSplit(s);
      CountInAddOne(eh, mask, ValueSet(rest), s[0]);
      assert Kept(eh, mask, s[0]);
      MassStep(|rest|, m, CountIn(eh, mask, ValueSet(rest)), Count(eh, mask, s[0]));
    }
  }

  /** At most four values can each hold more than 20% of the unmasked pixels. */
  lemma AtMostFourUniformColors(eh: seq<nat>, mask: seq<nat>, s: seq<nat>)
    requires |eh| == |mask|
    requires StrictlyAscending(s)
    requires forall v :: v in s ==> Kept(eh, mask, v)
    ensures |s| <= 4
  {
    var n := NonZero(mask);
    KeptMass(eh, mask, s);
    CountInAtMostUnmasked(eh, mask, ValueSet(s));
  }

  /** Pixels outside the calibration mask never change any count. */
  lemma {:induction false} MaskedPixelsIgnored(eh: seq<nat>, other: seq<nat>, mask: seq<nat>, v: nat)
    requires |eh| == |mask| == |other|
    requires forall i :: 0 <= i < |mask| && mask[i] != 0 ==> eh[i] == other[i]
    ensures Count(eh, mask, v) == Count(other, mask, v)
  {
    if |eh| > 0 {
      MaskedPixelsIgnored(eh[1..], other[1..], mask[1..], v);
    }
  }

  /** The estimated colours therefore depend on unmasked pixels only. */
  lemma MaskedPixelsNeverContribute(eh: seq<nat>, other: seq<nat>, mask: seq<nat>)
    requires |eh| == |mask| == |other|
    requires forall i :: 0 <= i < |mask| && mask[i] != 0 ==> eh[i] == other[i]
    ensures forall v :: Kept(eh, mask, v) <==> Kept(other, mask, v)
  {
    forall v ensures Kept(eh, mask, v) <==> Kept(other, mask, v) {
      MaskedPixelsIgnored(eh, other, mask, v);
    }
  }
}
