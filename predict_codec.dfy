/**
 * The prediction script of 2024 day 17: the same digit codec at length 20
 * (zero-filled with str.zfill instead of rjust), a batch of one for the
 * network, and the interactive loop that validates, truncates and pads what
 * the user types. The trained network is a parameter: any function from a
 * batch of matrices to a batch of matrices.
 */
module PredictCodec {
  import opened Wrappers
  import opened Decimal
  import opened TrainCodec

  const PredictLength: int := 20

  /** Python's str.zfill: zeros go after a leading sign, up to width characters. */
  function ZFill(s: string, width: int): (r: string)
    ensures |r| == if |s| >= width then |s| else width
    ensures |s| >= width ==> r == s
    ensures |s| < width && (|s| == 0 || (s[0] != '+' && s[0] != '-')) ==>
              r[width - |s|..] == s && forall k :: 0 <= k < width - |s| ==> r[k] == '0'
    ensures |s| < width && |s| > 0 && (s[0] == '+' || s[0] == '-') ==>
              r[0] == s[0] && r[width - |s| + 1..] == s[1..] && forall k :: 1 <= k <= width - |s| ==> r[k] == '0'
  {
    if |s| >= width then s
    else if |s| > 0 && (s[0] == '+' || s[0] == '-') then [s[0]] + seq(width - |s|, _ => '0') + s[1..]
    else seq(width - |s|, _ => '0') + s
  }

  /** encode_sequence: zero-fill to maxLength, then one-hot encode. */
  function EncodeSequence(s: string, maxLength: int): Result<Matrix>
  {
    EncodeDigits(ZFill(s, maxLength))
  }

  /** zfill and rjust(…, '0') give the same encoding, error included, for every input. */
  lemma EncodeSequenceAgrees(s: string, maxLength: int)
    ensures EncodeSequence(s, maxLength) == EncodeOutput(s, maxLength)
  {
    var z := ZFill(s, maxLength);
    var r := RJust(s, maxLength, '0');
    if |s| < maxLength && |s| > 0 && (s[0] == '+' || s[0] == '-') {
      assert !IsDigit(z[0]);
      assert !IsDigit(s[0]);
      assert !IsDigits(z);
      assert !EncodeOutput(s, maxLength).Ok?;
    } else {
      assert z == r;
    }
  }

  /** prepare_input: the encoding with a leading batch dimension of one. */
  function PrepareInput(s: string): (r: Result<seq<Matrix>>)
    ensures r.Ok? <==> IsDigits(s)
    ensures r.Ok? ==> |r.value| == 1 && RowsNonEmpty(r.value[0])
    ensures r.Ok? ==> |r.value[0]| == if |s| >= PredictLength then |s| else PredictLength
  {
    EncodeSequenceAgrees(s, PredictLength);
    match EncodeSequence(s, PredictLength)
    case Err(e) => Err(e)
    case Ok(m) =>
      DecodeEncode(s, PredictLength);
      Ok([m])
  }

  /** The single matrix of a prepared batch decodes back to the input without leading zeros. */
  lemma PrepareInputRoundTrip(s: string)
    requires IsDigits(s)
    ensures PrepareInput(s).Ok?
    ensures DecodeSequence(PrepareInput(s).value[0]) == if StripZeros(s) == [] then "0" else StripZeros(s)
  {
    EncodeSequenceAgrees(s, PredictLength);
    DecodeEncode(s, PredictLength);
  }

  /**
   * predict_input_from_output: run the network, drop the batch dimension and
   * decode. Indexing an empty prediction or taking the arg-max of an empty
   * row raises in NumPy; both are errors here.
   */
  function PredictInputFromOutput(model: seq<Matrix> -> seq<Matrix>, s: string): (r: Result<string>)
    ensures r.Ok? ==> IsDigits(s) && Canonical(r.value)
  {
    match PrepareInput(s)
    case Err(e) => Err(e)
    case Ok(batch) =>
      var predicted := model(batch);
      if |predicted| == 0 then Err("index 0 is out of bounds")
      else if !RowsNonEmpty(predicted[0]) then Err("attempt to get argmax of an empty sequence")
      else Ok(DecodeSequence(predicted[0]))
  }

  /** A prediction succeeds exactly when the input is digits and the network returns a usable matrix. */
  lemma PredictMeaning(model: seq<Matrix> -> seq<Matrix>, s: string)
    ensures PredictInputFromOutput(model, s).Ok? <==>
      IsDigits(s) && |model(PrepareInput(s).value)| > 0 && RowsNonEmpty(model(PrepareInput(s).value)[0])
    ensures PredictInputFromOutput(model, s).Ok? ==>
      DecVal(PredictInputFromOutput(model, s).value) == DecVal(ArgMaxDigits(model(PrepareInput(s).value)[0]))
  { }

  function AsciiLower(c: char): char
  {
    if 'A' <= c <= 'Z' then (c as int + 32) as char else c
  }

  /**
   * output_sequence.lower() == "exit": each of the four characters is the
   * letter in either case (no other character lowers to one of them).
   */
  predicate IsExit(s: string)
  {
    |s| == 4 && s[0] in "eE" && s[1] in "xX" && s[2] in "iI" && s[3] in "tT"
  }

  lemma IsExitLower(s: string)
    ensures IsExit(s) <==> |s| == 4 && AsciiLower(s[0]) == 'e' && AsciiLower(s[1]) == 'x'
                           && AsciiLower(s[2]) == 'i' && AsciiLower(s[3]) == 't'
  { }

  /** str.isdigit(), on ASCII: non-empty and every character one of '0' to '9'. */
  predicate IsDigitInput(s: string)
  {
    |s| > 0 && IsDigits(s)
  }

  /** What one line of input produces in the loop (the loop ends on an exit line). */
  datatype Reply =
    | Invalid
    | Predicted(truncated: bool, padded: bool, input: Result<string>)

  /** The sequence actually sent to the network: the last PredictLength characters. */
  function Kept(s: string): (k: string)
    ensures |k| == if |s| > PredictLength then PredictLength else |s|
    ensures k == s[|s| - |k|..]
  {
    if |s| > PredictLength then s[|s| - PredictLength..] else s
  }

  function ReplyTo(model: seq<Matrix> -> seq<Matrix>, line: string): Reply
  {
    if !IsDigitInput(line) then Invalid
    else Predicted(|line| > PredictLength, |line| < PredictLength,
                   PredictInputFromOutput(model, Kept(line)))
  }

  /** Index of the first exit line, or the number of lines when there is none. */
  function FirstExit(lines: seq<string>): (k: nat)
    ensures k <= |lines|
    ensures k < |lines| ==> IsExit(lines[k])
    ensures forall i :: 0 <= i < k ==> !IsExit(lines[i])
  {
    if lines == [] then 0
    else if IsExit(lines[0]) then 0
    else 1 + FirstExit(lines[1..])
  }

  /**
   * The while-True loop of main over the lines the user types, one reply per
   * line up to the first exit line; exited tells whether an exit line was met
   * (without one, input() would raise at the end of input).
   */
  method Session(model: seq<Matrix> -> seq<Matrix>, lines: seq<string>) returns (replies: seq<Reply>, exited: bool)
    ensures exited <==> exists i :: 0 <= i < |lines| && IsExit(lines[i])
    ensures |replies| == FirstExit(lines)
    ensures forall i :: 0 <= i < |replies| ==> replies[i] == ReplyTo(model, lines[i])
  {
    replies := [];
    exited := false;
    var i := 0;
    while i < |lines|
      invariant 0 <= i <= |lines|
      invariant i <= FirstExit(lines)
      invariant replies == Replies(model, lines[..i])
      invariant !exited
    {
      var line := lines[i];
      if IsExit(line) {
        exited := true;
        break;
      }
      var reply := Respond(model, line);
      assert lines[..i + 1][..i] == lines[..i];
      replies := replies + [reply];
      i := i + 1;
    }
    RepliesMeaning(model, lines[..i]);
  }

  /** The replies to a run of non-exit lines, one per line. */
  function Replies(model: seq<Matrix> -> seq<Matrix>, lines: seq<string>): seq<Reply>
  {
    if lines == [] then [] else Replies(model, lines[..|lines| - 1]) + [ReplyTo(model, lines[|lines| - 1])]
  }

  lemma {:induction false} RepliesMeaning(model: seq<Matrix> -> seq<Matrix>, lines: seq<string>)
    ensures |Replies(model, lines)| == |lines|
    ensures forall i :: 0 <= i < |lines| ==> Replies(model, lines)[i] == ReplyTo(model, lines[i])
  {
    if lines != [] {
      var p := lines[..|lines| - 1];
      RepliesMeaning(model, p);
      forall i | 0 <= i < |p| ensures lines[i] == p[i] {}
    }
  }

  /** One round of the loop for a line that is not an exit line. */
  method Respond(model: seq<Matrix> -> seq<Matrix>, line: string) returns (reply: Reply)
    ensures reply == ReplyTo(model, line)
  {
    if !IsDigitInput(line) {
      return Invalid;
    }
    var sequence := line;
    var truncated := |sequence| > PredictLength;
    var padded := false;
    if truncated {
      sequence := sequence[|sequence| - PredictLength..];
    } else if |sequence| < PredictLength {
      padded := true;
    }
    var predicted := PredictInputFromOutput(model, sequence);
    reply := Predicted(truncated, padded, predicted);
  }

  /** Rejected input never reaches the network; accepted input is sent as its last 20 digits. */
  lemma ReplyMeaning(model: seq<Matrix> -> seq<Matrix>, line: string)
    ensures ReplyTo(model, line).Invalid? <==> !IsDigitInput(line)
    ensures ReplyTo(model, line).Predicted? ==>
      ReplyTo(model, line).input == PredictInputFromOutput(model, line[|line| - |Kept(line)|..])
      && |Kept(line)| == if |line| > PredictLength then PredictLength else |line|
    ensures ReplyTo(model, line).Predicted? ==>
      (ReplyTo(model, line).truncated <==> |line| > PredictLength)
  { }
}
