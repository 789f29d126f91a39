/**
 * `sum_missing_data` (challenge 9 of src/main.rs): the sum of a list of
 * optional 32-bit integers, a missing entry counting as 0.
 */
module MissingData {
  import opened Wrappers

  /** Rust's `i32`. */
  type I32 = x: int | -0x8000_0000 <= x < 0x8000_0000

  /** `unwrap_or(0)`. */
  function ValueOrZero(o: Option<I32>): int
  {
    match o
    case Some(v) => v as int
    case None => 0
  }

  /** The mathematical sum of the present entries. It lies between the
      list's length times the least and the greatest `i32`. */
  function SumMissingData(data: seq<Option<I32>>): (sum: int)
    ensures -0x8000_0000 * |data| <= sum <= 0x7fff_ffff * |data|
  {
    if |data| == 0 then 0 else ValueOrZero(data[0]) + SumMissingData(data[1..])
  }

  lemma {:induction false} SumMissingDataConcat(a: seq<Option<I32>>, b: seq<Option<I32>>)
    ensures SumMissingData(a + b) == SumMissingData(a) + SumMissingData(b)
  {
    if |a| == 0 {
      assert a + b == b;
    } else {
      assert (a + b)[1..] == a[1..] + b;
      SumMissingDataConcat(a[1..], b);
    }
  }

  /** A missing entry anywhere in the list leaves the sum unchanged. */
  lemma SumMissingDataIgnoresNone(a: seq<Option<I32>>, b: seq<Option<I32>>)
    ensures SumMissingData(a + [None] + b) == SumMissingData(a + b)
  {
    SumMissingDataConcat(a + [None], b);
    SumMissingDataConcat(a, [None]);
    SumMissingDataConcat(a, b);
  }

  /** The list in the demonstration: [Some(2), None, Some(3)] sums to 5. */
  lemma SumMissingDataExample(data: seq<Option<I32>>)
    requires data == [Some(2), None, Some(3)]
    ensures SumMissingData(data) == 5
  {
    assert data[1..] == [None, Some(3)];
    assert data[1..][1..] == [Some(3)];
    assert data[1..][1..][1..] == [];
    assert SumMissingData([Some(3)]) == 3;
    assert SumMissingData([None, Some(3)]) == 3;
  }
}
