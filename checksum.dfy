/**
 * The ISBN-13 check digit (`calculate_check_digit` in src/main.rs) and the
 * ISO 2108 check-digit rule it implements: the thirteen digits, weighted
 * 1, 3, 1, 3, ..., 1, must sum to a multiple of 10.
 */
module IsbnChecksum {

  /** A decimal digit value, as held in the source's `Vec<u8>`. */
  type Digit = d: int | 0 <= d <= 9

  /** The weights applied to the twelve payload digits. */
  const Weights: seq<nat> := [1, 3, 1, 3, 1, 3, 1, 3, 1, 3, 1, 3]

  /** The weights of all thirteen positions: the check digit has weight 1. */
  const IsbnWeights: seq<nat> := Weights + [1]

  /** Sum of the pairwise products over the common prefix of `d` and `w`
      (the `zip`, `map`, `sum` chain: zip stops at the shorter sequence). */
  function Dot(d: seq<Digit>, w: seq<nat>): nat
  {
    if |d| == 0 || |w| == 0 then 0 else d[0] * w[0] + Dot(d[1..], w[1..])
  }

  /** `calculate_check_digit`: the digit that brings the weighted sum of the
      payload up to a multiple of 10. Only the first twelve entries are read. */
  function CheckDigit(d: seq<Digit>): (r: Digit)
    ensures (Dot(d, Weights) + r) % 10 == 0
  {
    var check := 10 - Dot(d, Weights) % 10;
    if check == 10 then 0 else check
  }

  /** The ISO 2108 acceptance rule for a complete 13-digit sequence: the sum of
      all thirteen digits weighted 1, 3, 1, 3, ..., 1 is a multiple of 10. */
  predicate ChecksumValid(d: seq<Digit>)
  {
    |d| == 13 && Dot(d, IsbnWeights) % 10 == 0
  }

  /** Position `i` is weighted 1 when even and 3 when odd. */
  lemma IsbnWeightsAlternate(k: nat)
    requires k < 13
    ensures IsbnWeights[k] == if k % 2 == 0 then 1 else 3
    ensures k < 12 ==> Weights[k] == IsbnWeights[k]
  {
  }

  // Algebra of Dot

  lemma {:induction false} DotAppend(d: seq<Digit>, w: seq<nat>, x: nat)
    requires |d| == |w| + 1
    ensures Dot(d, w + [x]) == Dot(d, w) + d[|w|] * x
  {
    if w == [] {
      assert Dot(d, w + [x]) == d[0] * x + Dot(d[1..], []);
    } else {
      assert (w + [x])[1..] == w[1..] + [x];
      DotAppend(d[1..], w[1..], x);
    }
  }

  lemma {:induction false} DotTruncate(d: seq<Digit>, w: seq<nat>)
    requires |d| >= |w|
    ensures Dot(d, w) == Dot(d[..|w|], w)
  {
    if w != [] {
      assert d[..|w|][1..] == d[1..][..|w| - 1];
      DotTruncate(d[1..], w[1..]);
    }
  }

  lemma {:induction false} DotUpdate(d: seq<Digit>, w: seq<nat>, k: nat, x: Digit)
    requires k < |d| && k < |w|
    ensures Dot(d[k := x], w) == Dot(d, w) + (x - d[k]) * w[k]
  {
    if k > 0 {
      assert d[k := x][1..] == d[1..][k - 1 := x];
      DotUpdate(d[1..], w[1..], k - 1, x);
    }
  }

  lemma {:induction false} DotSwap(d: seq<Digit>, w: seq<nat>, k: nat)
    requires k + 1 < |d| && k + 1 < |w|
    ensures Dot(d[k := d[k + 1]][k + 1 := d[k]], w)
         == Dot(d, w) + (d[k + 1] as int - d[k]) * w[k] + (d[k] as int - d[k + 1]) * w[k + 1]
  {
    var e := d[k := d[k + 1]];
    DotUpdate(d, w, k, d[k + 1]);
    assert e[k + 1] == d[k + 1];
    DotUpdate(e, w, k + 1, d[k]);
  }

  /** The weighted sum of `d`, position by position (1 at even positions,
      3 at odd ones): an index-based statement of the same sum, independent
      of `zip`. */
  function WeightedSum(d: seq<Digit>): int
  {
    if d == [] then 0
    else
      var i := |d| - 1;
      WeightedSum(d[..i]) + if i % 2 == 0 then d[i] as int else 3 * (d[i] as int)
  }

  lemma {:induction false} DotSuffix(d: seq<Digit>, k: nat)
    requires k <= |d| <= 12
    ensures Dot(d[k..], Weights[k..]) + WeightedSum(d[..k]) == WeightedSum(d)
    decreases |d| - k
  {
    if k < |d| {
      IsbnWeightsAlternate(k);
      assert d[k..][1..] == d[k + 1..];
      assert Weights[k..][1..] == Weights[k + 1..];
      assert d[..k + 1][..k] == d[..k];
      DotSuffix(d, k + 1);
    } else {
      assert d[..k] == d;
    }
  }

  // Properties of the check digit

  /** The check digit is the only digit that completes the payload's weighted
      sum to a multiple of 10. */
  lemma CheckDigitUnique(d: seq<Digit>, x: Digit)
    ensures (Dot(d, Weights) + x) % 10 == 0 <==> x == CheckDigit(d)
  {
    var s := Dot(d, Weights);
    var r := CheckDigit(d);
    if (s + x) % 10 == 0 {
      assert s + x == 10 * ((s + x) / 10);
      assert s + r == 10 * ((s + r) / 10);
    }
  }

  /** `zip` with the twelve weights truncates: everything after the payload,
      the 13th digit included, is ignored. */
  lemma CheckDigitReadsPayloadOnly(d: seq<Digit>)
    requires |d| >= 12
    ensures CheckDigit(d) == CheckDigit(d[..12])
  {
    DotTruncate(d, Weights);
    DotTruncate(d[..12], Weights);
    assert d[..12][..12] == d[..12];
  }

  /** With at least twelve digits, the zip-based sum equals the
      position-by-position sum of the twelve payload digits. */
  lemma DotIsWeightedSum(d: seq<Digit>)
    requires |d| >= 12
    ensures Dot(d, Weights) == WeightedSum(d[..12])
  {
    var p := d[..12];
    DotTruncate(d, Weights);
    DotSuffix(p, 0);
    assert p[0..] == p && Weights[0..] == Weights;
    assert p[..0] == [];
  }

  lemma CheckDigitOfSum(d: seq<Digit>, s: int)
    requires Dot(d, Weights) == s
    ensures CheckDigit(d) == (10 - s % 10) % 10
  {
  }

  /** The check digit is `(10 - (d0 + 3 d1 + d2 + 3 d3 + ... + 3 d11) mod 10) mod 10`. */
  lemma CheckDigitFormula(d: seq<Digit>)
    requires |d| >= 12
    ensures CheckDigit(d) == (10 - WeightedSum(d[..12]) % 10) % 10
  {
    DotIsWeightedSum(d);
    CheckDigitOfSum(d, WeightedSum(d[..12]));
  }

  /** Comparing the 13th digit with the check digit (the source's test) is the
      same as the ISO 2108 rule over all thirteen weighted digits. */
  lemma CheckDigitMatchesIff(d: seq<Digit>)
    requires |d| == 13
    ensures d[12] == CheckDigit(d) <==> ChecksumValid(d)
  {
    DotTruncate(d, Weights);
    DotAppend(d, Weights, 1);
    DotTruncate(d[..12], Weights);
    assert d[..12][..12] == d[..12];
    assert Dot(d, IsbnWeights) == Dot(d, Weights) + d[12];
    CheckDigitUnique(d, d[12]);
  }

  lemma ShiftBreaksMultipleOfTen(x: int, delta: int)
    requires x % 10 == 0 && delta % 10 != 0
    ensures (x + delta) % 10 != 0
  {
    assert x == 10 * (x / 10);
  }

  /** Changing any single digit of a valid ISBN-13 makes it invalid. */
  lemma DetectsSingleDigitError(d: seq<Digit>, k: nat, x: Digit)
    requires ChecksumValid(d) && k < 13 && x != d[k]
    ensures !ChecksumValid(d[k := x])
  {
    DotUpdate(d, IsbnWeights, k, x);
    IsbnWeightsAlternate(k);
    var t := x - d[k];
    var delta := t * IsbnWeights[k];
    if k % 2 == 0 {
      assert delta == t;
    } else {
      assert delta == 3 * t;
    }
    ShiftBreaksMultipleOfTen(Dot(d, IsbnWeights), delta);
  }

  /** Swapping two adjacent digits of a valid ISBN-13 makes it invalid unless
      the two digits are equal or differ by exactly 5. */
  lemma DetectsAdjacentTransposition(d: seq<Digit>, k: nat)
    requires ChecksumValid(d) && k < 12
    requires d[k] != d[k + 1] && d[k] as int - d[k + 1] as int != 5 && d[k + 1] as int - d[k] as int != 5
    ensures !ChecksumValid(d[k := d[k + 1]][k + 1 := d[k]])
  {
    var t := d[k + 1] as int - d[k];
    DotSwap(d, IsbnWeights, k);
    IsbnWeightsAlternate(k);
    IsbnWeightsAlternate(k + 1);
    var delta := t * IsbnWeights[k] - t * IsbnWeights[k + 1];
    if k % 2 == 0 {
      assert delta == -2 * t;
    } else {
      assert delta == 2 * t;
    }
    ShiftBreaksMultipleOfTen(Dot(d, IsbnWeights), delta);
  }

  lemma WeightedSumSnoc(d: seq<Digit>, x: Digit)
    ensures WeightedSum(d + [x]) == WeightedSum(d) + if |d| % 2 == 0 then x as int else 3 * (x as int)
  {
    assert (d + [x])[..|d|] == d;
  }

  /** One more digit of a prefix adds it with its weight. */
  lemma WeightedSumStep(d: seq<Digit>, k: nat)
    requires k < |d|
    ensures WeightedSum(d[..k + 1]) == WeightedSum(d[..k]) + if k % 2 == 0 then d[k] as int else 3 * (d[k] as int)
  {
    assert d[..k + 1] == d[..k] + [d[k]];
    WeightedSumSnoc(d[..k], d[k]);
  }

  /** The two payloads of the source's unit test and their check digits. */
  /** The check digit of twelve digits, written out position by position. */
  lemma CheckDigitOfTwelve(d: seq<Digit>)
    requires |d| == 12
    ensures CheckDigit(d) == (10 - (d[0] as int + 3 * (d[1] as int) + d[2] as int + 3 * (d[3] as int) + d[4] as int + 3 * (d[5] as int) + d[6] as int + 3 * (d[7] as int) + d[8] as int + 3 * (d[9] as int) + d[10] as int + 3 * (d[11] as int)) % 10) % 10
  {
    WeightedSumStep(d, 0);
    WeightedSumStep(d, 1);
    WeightedSumStep(d, 2);
    WeightedSumStep(d, 3);
    WeightedSumStep(d, 4);
    WeightedSumStep(d, 5);
    WeightedSumStep(d, 6);
    WeightedSumStep(d, 7);
    WeightedSumStep(d, 8);
    WeightedSumStep(d, 9);
    WeightedSumStep(d, 10);
    WeightedSumStep(d, 11);
    assert d[..0] == [];
    assert d[..12] == d;
    CheckDigitFormula(d);
  }

  lemma CheckDigitExample1(payload: seq<Digit>)
    requires payload == [9, 7, 8, 1, 8, 6, 1, 9, 7, 8, 7, 6]
    ensures CheckDigit(payload) == 9
  {
    CheckDigitOfTwelve(payload);
  }

  lemma CheckDigitExample2(payload: seq<Digit>)
    requires payload == [9, 7, 8, 3, 1, 6, 1, 4, 8, 4, 1, 0]
    ensures CheckDigit(payload) == 0
  {
    CheckDigitOfTwelve(payload);
  }
}
