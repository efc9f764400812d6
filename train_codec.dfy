/**
 * The digit codec of the 2024 day 17 training script: a digit string is
 * left-padded with '0' to a fixed length and one-hot encoded, one row of ten
 * classes per character; a matrix of class scores is decoded by taking the
 * arg-max of every row, joining the digits and stripping leading zeros.
 * Matrices are sequences of rows of reals (NumPy arrays in the source).
 */
module TrainCodec {
  import opened Wrappers
  import opened Decimal

  const MaxSequenceLength: int := 25
  const NumClasses: nat := 10

  type Row = seq<real>
  type Matrix = seq<Row>

  /** Python's str.rjust(width, fill): pad on the left up to width, never truncate. */
  function RJust(s: string, width: int, fill: char): (r: string)
    ensures |r| == if |s| >= width then |s| else width
    ensures r[|r| - |s|..] == s
    ensures forall i :: 0 <= i < |r| - |s| ==> r[i] == fill
  {
    if |s| >= width then s else seq(width - |s|, _ => fill) + s
  }

  /** keras.utils.to_categorical for one class index. */
  function OneHot(d: nat): (row: Row)
    requires d < NumClasses
    ensures |row| == NumClasses
    ensures forall k :: 0 <= k < NumClasses ==> row[k] == if k == d then 1.0 else 0.0
  {
    seq(NumClasses, k => if k == d then 1.0 else 0.0)
  }

  /** One row per character; int(char) raises on the first non-digit. */
  function EncodeDigits(s: string): (r: Result<Matrix>)
    ensures r.Ok? <==> IsDigits(s)
    ensures r.Ok? ==> |r.value| == |s|
    ensures r.Ok? ==> forall i, k :: 0 <= i < |s| && 0 <= k < NumClasses ==>
      |r.value[i]| == NumClasses && r.value[i][k] == if k == DigitVal(s[i]) then 1.0 else 0.0
  {
    if IsDigits(s) then Ok(seq(|s|, i requires 0 <= i < |s| => OneHot(DigitVal(s[i]))))
    else Err("invalid literal for int() with base 10")
  }

  /** encode_output: left-pad with '0' to maxLength, then one-hot encode. */
  function EncodeOutput(s: string, maxLength: int): (r: Result<Matrix>)
    ensures r.Ok? <==> IsDigits(s)
    ensures r.Ok? ==> |r.value| == if |s| >= maxLength then |s| else maxLength
    ensures r.Ok? ==> forall i :: 0 <= i < |r.value| ==> |r.value[i]| == NumClasses
  {
    var padded := RJust(s, maxLength, '0');
    assert IsDigits(padded) <==> IsDigits(s) by {
      if IsDigits(s) {
        forall i | 0 <= i < |padded| ensures IsDigit(padded[i]) {
          if i >= |padded| - |s| {
            assert padded[i] == padded[|padded| - |s|..][i - (|padded| - |s|)];
          }
        }
      }
      if IsDigits(padded) {
        forall i | 0 <= i < |s| ensures IsDigit(s[i]) {
          assert s[i] == padded[|padded| - |s|..][i];
        }
      }
    }
    EncodeDigits(padded)
  }

  /** np.argmax over one row: the first index holding the largest value. */
  function ArgMax(row: Row): (k: nat)
    requires |row| > 0
    ensures k < |row|
    ensures forall j :: 0 <= j < |row| ==> row[j] <= row[k]
    ensures forall j :: 0 <= j < k ==> row[j] < row[k]
  {
    if |row| == 1 then 0
    else
      var k := ArgMax(row[..|row| - 1]);
      if row[|row| - 1] > row[k] then |row| - 1 else k
  }

  predicate RowsNonEmpty(m: Matrix)
  {
    forall i :: 0 <= i < |m| ==> |m[i]| > 0
  }

  /** The arg-max indices of all rows, each written with str(), joined. */
  function ArgMaxDigits(m: Matrix): (s: string)
    requires RowsNonEmpty(m)
    ensures IsDigits(s)
  {
    if m == [] then "" else ArgMaxDigits(m[..|m| - 1]) + DecStr(ArgMax(m[|m| - 1]))
  }

  /** decode_sequence: the canonical decimal spelling of the arg-max digits. */
  function DecodeSequence(m: Matrix): (r: string)
    requires RowsNonEmpty(m)
    ensures Canonical(r)
    ensures DecVal(r) == DecVal(ArgMaxDigits(m))
    ensures r == "0" <==> forall i :: 0 <= i < |ArgMaxDigits(m)| ==> ArgMaxDigits(m)[i] == '0'
  {
    var digits := ArgMaxDigits(m);
    var stripped := StripZeros(digits);
    StripZerosVal(digits);
    if stripped == [] then "0" else stripped
  }

  lemma ArgMaxOneHot(d: nat)
    requires d < NumClasses
    ensures ArgMax(OneHot(d)) == d
  {
    var k := ArgMax(OneHot(d));
    assert OneHot(d)[d] == 1.0;
  }

  lemma {:induction false} ArgMaxDigitsOfEncoding(s: string)
    requires IsDigits(s)
    ensures RowsNonEmpty(EncodeDigits(s).value) && ArgMaxDigits(EncodeDigits(s).value) == s
    decreases |s|
  {
    var m := EncodeDigits(s).value;
    if s != [] {
      var p := s[..|s| - 1];
      assert EncodeDigits(p).value == m[..|m| - 1];
      ArgMaxDigitsOfEncoding(p);
      var c := s[|s| - 1];
      assert m[|m| - 1] == OneHot(DigitVal(c));
      ArgMaxOneHot(DigitVal(c));
      DigitCharVal(c);
      assert DecStr(DigitVal(c)) == [c];
      assert s == p + [c];
    }
  }

  lemma {:induction false} StripZerosPadded(z: nat, s: string)
    ensures StripZeros(seq(z, _ => '0') + s) == StripZeros(s)
  {
    if z > 0 {
      var t := seq(z, _ => '0') + s;
      assert t[1..] == seq(z - 1, _ => '0') + s;
      StripZerosPadded(z - 1, s);
    } else {
      assert seq(z, _ => '0') + s == s;
    }
  }

  /** Round trip: decoding an encoding gives the input without its leading zeros, or "0". */
  lemma DecodeEncode(s: string, maxLength: int)
    requires IsDigits(s)
    ensures EncodeOutput(s, maxLength).Ok?
    ensures RowsNonEmpty(EncodeOutput(s, maxLength).value)
    ensures DecodeSequence(EncodeOutput(s, maxLength).value)
            == if StripZeros(s) == [] then "0" else StripZeros(s)
  {
    var padded := RJust(s, maxLength, '0');
    assert IsDigits(padded) by {
      assert EncodeOutput(s, maxLength).Ok?;
    }
    ArgMaxDigitsOfEncoding(padded);
    if |s| < maxLength {
      StripZerosPadded(maxLength - |s|, s);
    }
  }

  /** A sequence longer than the fixed length is not truncated: one row per character. */
  lemma LongInputNotTruncated(s: string)
    requires IsDigits(s) && |s| > MaxSequenceLength
    ensures EncodeOutput(s, MaxSequenceLength).Ok?
    ensures |EncodeOutput(s, MaxSequenceLength).value| == |s|
  { }

  /**
   * The sample-size check of load_and_prepare_data: None keeps every row;
   * a size above the row count raises before sampling, and pandas rejects a
   * negative size.
   */
  function SampleCount(sampleSize: Option<int>, rows: nat): (r: Result<nat>)
    ensures sampleSize.None? ==> r == Ok(rows)
    ensures sampleSize.Some? ==> (r.Ok? <==> 0 <= sampleSize.value <= rows)
    ensures r.Ok? ==> r.value <= rows
    ensures r.Ok? && sampleSize.Some? ==> r.value == sampleSize.value
  {
    match sampleSize
    case None => Ok(rows)
    case Some(n) =>
      if n > rows then Err("Sample size exceeds total data size")
      else if n < 0 then Err("negative sample size")
      else Ok(n)
  }

  /** The list comprehension of load_and_prepare_data: every output string encoded at the training length. */
  function EncodeEach(outputs: seq<string>): (r: Result<seq<Matrix>>)
    ensures r.Ok? <==> forall i :: 0 <= i < |outputs| ==> IsDigits(outputs[i])
    ensures r.Ok? ==> |r.value| == |outputs|
    ensures r.Ok? ==> forall i :: 0 <= i < |outputs| ==>
      EncodeOutput(outputs[i], MaxSequenceLength) == Ok(r.value[i])
  {
    if outputs == [] then Ok([])
    else
      match EncodeEach(outputs[..|outputs| - 1])
      case Err(e) => Err(e)
      case Ok(init) =>
        match EncodeOutput(outputs[|outputs| - 1], MaxSequenceLength)
        case Err(e) => Err(e)
        case Ok(m) => Ok(init + [m])
  }

  /** The number of rows encode_output gives s at the training length: rjust never truncates. */
  function EncodedRows(s: string): int
  {
    if |s| >= MaxSequenceLength then |s| else MaxSequenceLength
  }

  /** Every output encodes to as many rows as the first. */
  predicate SameRows(outputs: seq<string>)
  {
    forall i :: 0 <= i < |outputs| ==> EncodedRows(outputs[i]) == EncodedRows(outputs[0])
  }

  /** Every matrix has as many rows as the first, the shape np.array can stack. */
  predicate Stackable(xs: seq<Matrix>)
  {
    forall i :: 0 <= i < |xs| ==> |xs[i]| == |xs[0]|
  }

  /** Stacking the encodings succeeds exactly when the outputs encode to equally many rows. */
  lemma StackableRows(outputs: seq<string>, xs: seq<Matrix>)
    requires |xs| == |outputs|
    requires forall i :: 0 <= i < |xs| ==> |xs[i]| == EncodedRows(outputs[i])
    ensures Stackable(xs) <==> SameRows(outputs)
  {
  }

  /**
   * X of load_and_prepare_data: the encodings, which np.array only stacks
   * when they all have the same number of rows (NumPy 1.24 and later raise
   * on a ragged list).
   */
  function EncodeAll(outputs: seq<string>): (r: Result<seq<Matrix>>)
    ensures r.Ok? <==> (forall i :: 0 <= i < |outputs| ==> IsDigits(outputs[i])) && SameRows(outputs)
    ensures r.Ok? ==> |r.value| == |outputs|
    ensures r.Ok? ==> forall i :: 0 <= i < |outputs| ==>
      EncodeOutput(outputs[i], MaxSequenceLength) == Ok(r.value[i]) && |r.value[i]| == EncodedRows(outputs[0])
  {
    match EncodeEach(outputs)
    case Err(e) => Err(e)
    case Ok(xs) =>
      assert Stackable(xs) <==> SameRows(outputs) by {
        forall i | 0 <= i < |xs| ensures |xs[i]| == EncodedRows(outputs[i]) {
          assert EncodeOutput(outputs[i], MaxSequenceLength) == Ok(xs[i]);
        }
        StackableRows(outputs, xs);
      }
      if Stackable(xs) then Ok(xs)
      else Err("setting an array element with a sequence. The requested array has an inhomogeneous shape")
  }
}
