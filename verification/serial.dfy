/**
 The serial report: each bit of a pattern is sent as the ASCII digit
 `'0'` or `'1'` (the bit plus 48) and each line ends with a carriage return.
 */
module Serial {

  import opened Board
  import opened Wrappers

  const CarriageReturn: Byte := 13

  /** The byte sent for one bit: `bit + 48`. */
  function Digit(b: bool): (r: Byte)
    ensures r == 48 || r == 49
    ensures r == 49 <==> b
  {
    (if b then 1 else 0) + 48
  }

  /** The digits of `bits`, one byte per bit and nothing else. */
  function Digits(bits: seq<bool>): (line: seq<Byte>)
    ensures |line| == |bits|
  {
    if bits == [] then [] else [Digit(bits[0])] + Digits(bits[1..])
  }

  /** The i-th digit is the digit of the i-th bit. */
  lemma {:induction false} DigitsAt(bits: seq<bool>)
    ensures forall i :: 0 <= i < |bits| ==> Digits(bits)[i] == Digit(bits[i])
  {
    if bits != [] {
      DigitsAt(bits[1..]);
    }
  }

  lemma DigitsAppend(a: seq<bool>, b: seq<bool>)
    ensures Digits(a + b) == Digits(a) + Digits(b)
  {
    DigitsAt(a + b);
    DigitsAt(a);
    DigitsAt(b);
    var l := Digits(a + b);
    var r := Digits(a) + Digits(b);
    assert |l| == |r|;
    forall i | 0 <= i < |l|
      ensures l[i] == r[i]
    {
      if i < |a| {
        assert (a + b)[i] == a[i];
      } else {
        assert (a + b)[i] == b[i - |a|];
      }
    }
  }

  /** One line of the report: the digits followed by a carriage return. */
  function EncodeLine(bits: seq<bool>): (line: seq<Byte>)
    ensures |line| == |bits| + 1
    ensures line[|bits|] == CarriageReturn
  {
    Digits(bits) + [CarriageReturn]
  }

  /** A line holds exactly one byte per bit, 48 for a short flash and 49 for
      a long one, and then the carriage return. */
  lemma EncodeLineBytes(bits: seq<bool>)
    ensures forall i :: 0 <= i < |bits| ==> EncodeLine(bits)[i] == 48 + (if bits[i] then 1 else 0)
    ensures forall i :: 0 <= i < |bits| ==> EncodeLine(bits)[i] == 48 || EncodeLine(bits)[i] == 49
  {
    DigitsAt(bits);
  }

  /** Reads the digits of a line back into bits; fails on any other byte. */
  function DecodeDigits(digits: seq<Byte>): (r: Option<seq<bool>>)
    ensures r.Some? ==> |r.value| == |digits|
  {
    if digits == [] then Some([])
    else if digits[0] != 48 && digits[0] != 49 then None
    else match DecodeDigits(digits[1..])
      case None => None
      case Some(rest) => Some([digits[0] == 49] + rest)
  }

  /** Reads a line of the report back; fails unless it is digits followed by
      exactly one carriage return. */
  function DecodeLine(line: seq<Byte>): (r: Option<seq<bool>>)
    ensures r.Some? ==> |r.value| + 1 == |line| && line[|line| - 1] == CarriageReturn
  {
    if line == [] || line[|line| - 1] != CarriageReturn then None
    else DecodeDigits(line[..|line| - 1])
  }

  lemma {:induction false} DecodeDigitsOfDigits(bits: seq<bool>)
    ensures DecodeDigits(Digits(bits)) == Some(bits)
  {
    if bits != [] {
      assert Digits(bits)[1..] == Digits(bits[1..]);
      DecodeDigitsOfDigits(bits[1..]);
      assert [bits[0]] + bits[1..] == bits;
    }
  }

  lemma {:induction false} DigitsOfDecodeDigits(digits: seq<Byte>)
    requires DecodeDigits(digits).Some?
    ensures Digits(DecodeDigits(digits).value) == digits
  {
    if digits != [] {
      DigitsOfDecodeDigits(digits[1..]);
      var bits := DecodeDigits(digits).value;
      assert bits[1..] == DecodeDigits(digits[1..]).value;
      assert [digits[0]] + digits[1..] == digits;
    }
  }

  /** Every line the firmware sends reads back as the bits it was sent for. */
  lemma DecodeEncode(bits: seq<bool>)
    ensures DecodeLine(EncodeLine(bits)) == Some(bits)
  {
    assert EncodeLine(bits)[..|bits|] == Digits(bits);
    DecodeDigitsOfDigits(bits);
  }

  /** Every line that reads back is the line the firmware sends for its bits,
      so the report is unambiguous. */
  lemma EncodeDecode(line: seq<Byte>)
    requires DecodeLine(line).Some?
    ensures EncodeLine(DecodeLine(line).value) == line
  {
    DigitsOfDecodeDigits(line[..|line| - 1]);
    assert line[..|line| - 1] + [line[|line| - 1]] == line;
  }

  /** The ASCII bytes of a text made of characters below 256. */
  function Ascii(s: string): (r: seq<Byte>)
    requires forall i :: 0 <= i < |s| ==> s[i] as int < 256
    ensures |r| == |s|
    ensures forall i :: 0 <= i < |s| ==> r[i] == s[i] as int
  {
    seq(|s|, i requires 0 <= i < |s| => s[i] as int)
  }

  /** The alternating pattern is reported as the text "1010101010\r". */
  lemma AlternatingLine()
    ensures EncodeLine([true, false, true, false, true, false, true, false, true, false])
         == Ascii("1010101010\r")
  {
    EncodeLineBytes([true, false, true, false, true, false, true, false, true, false]);
  }
}
