/**
 * The standard base64 encoding of section 4 of RFC 4648 over byte strings, and its decoder.
 * `btoa` applies this encoding to the Latin-1 bytes of a string.
 */
module Base64 {
  import opened Results

  type byte = b: int | 0 <= b < 256

  /** A 6-bit group: one character of the encoded output. */
  type sextet = x: int | 0 <= x < 64

  /** The 64-character alphabet of Table 1 of RFC 4648, in value order. */
  const StandardAlphabet: string := Uppercase + Lowercase + Digits + "+/"
  const Uppercase: string := "ABCDEFGHIJKLMNOPQRSTUVWXYZ"
  const Lowercase: string := "abcdefghijklmnopqrstuvwxyz"
  const Digits: string := "0123456789"

  /** The padding character of section 3.2 of RFC 4648. */
  const Pad: char := '='

  /** The 6-bit value a character of the alphabet stands for; `None` for the pad and every other character. */
  function Value(c: char): (r: Option<sextet>)
    ensures r.Some? ==> c != Pad
  {
    if 'A' <= c <= 'Z' then Some(c as int - 'A' as int)
    else if 'a' <= c <= 'z' then Some(c as int - 'a' as int + 26)
    else if '0' <= c <= '9' then Some(c as int - '0' as int + 52)
    else if c == '+' then Some(62)
    else if c == '/' then Some(63)
    else None
  }

  /** `c` is one of the 64 characters of the alphabet. */
  predicate IsAlphabetChar(c: char)
  {
    Value(c).Some?
  }

  /** The character encoding the 6-bit value `x`. */
  function Char(x: sextet): (c: char)
    ensures Value(c) == Some(x)
  {
    if x < 26 then ('A' as int + x) as char
    else if x < 52 then ('a' as int + (x - 26)) as char
    else if x < 62 then ('0' as int + (x - 52)) as char
    else if x == 62 then '+'
    else '/'
  }

  /** `Char` is exactly the table of RFC 4648: the value-`x` entry of the alphabet. */
  lemma CharIsTableEntry(x: sextet)
    ensures Char(x) == StandardAlphabet[x]
  {
    if x < 26 {
      assert StandardAlphabet[x] == Uppercase[x];
      LetterEntry(Uppercase, 'A', x);
    } else if x < 52 {
      assert StandardAlphabet[x] == Lowercase[x - 26];
      LetterEntry(Lowercase, 'a', x - 26);
    } else if x < 62 {
      assert StandardAlphabet[x] == Digits[x - 52];
      DigitEntry(x - 52);
    }
  }

  /** Entry `i` of either letter row of the table is the `i`-th letter after `first`. */
  lemma LetterEntry(row: string, first: char, i: nat)
    requires (row, first) == (Uppercase, 'A') || (row, first) == (Lowercase, 'a')
    requires i < 26
    ensures row[i] == (first as int + i) as char
  {
  }

  /** Entry `i` of the digit row of the table is the digit `i`. */
  lemma DigitEntry(i: nat)
    requires i < 10
    ensures Digits[i] == ('0' as int + i) as char
  {
  }

  /** Decoding a character of the alphabet and encoding its value gives the character back. */
  lemma CharOfValue(c: char)
    requires IsAlphabetChar(c)
    ensures Char(Value(c).value) == c
  {
  }

  /** The number of pad characters that end the encoding of `n` bytes (section 4, final quantum cases). */
  function PadLength(n: nat): (k: nat)
    ensures k <= 2
    ensures (n + k) % 3 == 0
  {
    if n % 3 == 0 then 0 else 3 - n % 3
  }

  /** Four characters for a full 24-bit quantum of three bytes. */
  function EncodeQuantum(b0: byte, b1: byte, b2: byte): string
  {
    [Char(b0 / 4), Char(b0 % 4 * 16 + b1 / 16), Char(b1 % 16 * 4 + b2 / 64), Char(b2 % 64)]
  }

  /**
   * The base64 encoding of `bs`: a full quantum of four characters per three bytes, and a final
   * quantum of two characters and two pads for one leftover byte, or three characters and one pad for two.
   */
  function Encode(bs: seq<byte>): (r: string)
    ensures |r| == 4 * ((|bs| + 2) / 3)
    ensures forall i :: 0 <= i < |r| - PadLength(|bs|) ==> IsAlphabetChar(r[i])
    ensures forall i :: |r| - PadLength(|bs|) <= i < |r| ==> r[i] == Pad
    decreases |bs|
  {
    if |bs| == 0 then []
    else if |bs| == 1 then [Char(bs[0] / 4), Char(bs[0] % 4 * 16), Pad, Pad]
    else if |bs| == 2 then [Char(bs[0] / 4), Char(bs[0] % 4 * 16 + bs[1] / 16), Char(bs[1] % 16 * 4), Pad]
    else
      var q, t := EncodeQuantum(bs[0], bs[1], bs[2]), Encode(bs[3..]);
      QuantumArithmetic(|bs|);
      PrependQuantumShape(q, t, PadLength(|bs|));
      q + t
  }

  /** Three more bytes make one more quantum of four characters and leave the padding as it was. */
  lemma QuantumArithmetic(n: nat)
    requires n >= 3
    ensures 4 * ((n + 2) / 3) == 4 + 4 * ((n - 3 + 2) / 3)
    ensures PadLength(n) == PadLength(n - 3)
  {
    assert (n + 2) / 3 == (n - 3 + 2) / 3 + 1;
    assert n % 3 == (n - 3) % 3;
  }

  /** A full quantum in front of an encoding keeps its shape: alphabet characters, then the same pad run. */
  lemma PrependQuantumShape(q: string, t: string, k: nat)
    requires |q| == 4 && forall i :: 0 <= i < 4 ==> IsAlphabetChar(q[i])
    requires k <= |t|
    requires forall i :: 0 <= i < |t| - k ==> IsAlphabetChar(t[i])
    requires forall i :: |t| - k <= i < |t| ==> t[i] == Pad
    ensures forall i :: 0 <= i < |q + t| - k ==> IsAlphabetChar((q + t)[i])
    ensures forall i :: |q + t| - k <= i < |q + t| ==> (q + t)[i] == Pad
  {
    forall i | 0 <= i < |q + t|
      ensures i < |q + t| - k ==> IsAlphabetChar((q + t)[i])
      ensures i >= |q + t| - k ==> (q + t)[i] == Pad
    {
      if i >= 4 {
        assert (q + t)[i] == t[i - 4];
      }
    }
  }

  /** Why a string is not a base64 encoding. */
  datatype DecodeError = LengthNotMultipleOfFour | InvalidQuantum(offset: nat)

  /** The three bytes a full quantum of four 6-bit values carries. */
  function QuantumBytes(x0: sextet, x1: sextet, x2: sextet, x3: sextet): seq<byte>
  {
    [x0 * 4 + x1 / 16, x1 % 16 * 16 + x2 / 4, x2 % 4 * 64 + x3]
  }

  /** Decodes a quantum that is not the last one: four alphabet characters, no padding. */
  function DecodeQuantum(q: string, offset: nat): (r: Result<seq<byte>, DecodeError>)
    requires |q| == 4
  {
    match (Value(q[0]), Value(q[1]), Value(q[2]), Value(q[3]))
    case (Some(x0), Some(x1), Some(x2), Some(x3)) => Success(QuantumBytes(x0, x1, x2, x3))
    case _ => Failure(InvalidQuantum(offset))
  }

  /**
   * Decodes the last quantum, which may end in one or two pad characters. The bits of the last
   * character that no byte uses must be zero (section 3.5 of RFC 4648), so each byte sequence has
   * exactly one encoding that decodes.
   */
  function DecodeFinalQuantum(q: string, offset: nat): (r: Result<seq<byte>, DecodeError>)
    requires |q| == 4
  {
    match (Value(q[0]), Value(q[1]), Value(q[2]), Value(q[3]))
    case (Some(x0), Some(x1), Some(x2), Some(x3)) => Success(QuantumBytes(x0, x1, x2, x3))
    case (Some(x0), Some(x1), Some(x2), None) =>
      if q[3] == Pad && x2 % 4 == 0 then Success(QuantumBytes(x0, x1, x2, 0)[..2]) else Failure(InvalidQuantum(offset))
    case (Some(x0), Some(x1), None, None) =>
      if q[2] == Pad && q[3] == Pad && x1 % 16 == 0 then Success(QuantumBytes(x0, x1, 0, 0)[..1]) else Failure(InvalidQuantum(offset))
    case _ => Failure(InvalidQuantum(offset))
  }

  /** The bytes a base64 string encodes, or why it is not one; `offset` is the position of `s` in the whole input. */
  function DecodeFrom(s: string, offset: nat): (r: Result<seq<byte>, DecodeError>)
    decreases |s|
  {
    if |s| % 4 != 0 then Failure(LengthNotMultipleOfFour)
    else if |s| == 0 then Success([])
    else if |s| == 4 then DecodeFinalQuantum(s, offset)
    else match DecodeQuantum(s[..4], offset)
      case Failure(e) => Failure(e)
      case Success(head) =>
        match DecodeFrom(s[4..], offset + 4)
        case Failure(e) => Failure(e)
        case Success(tail) => Success(head + tail)
  }

  /** The bytes a base64 string encodes, or why it is not one. */
  function Decode(s: string): (r: Result<seq<byte>, DecodeError>)
  {
    DecodeFrom(s, 0)
  }

  /** The three bytes of a full quantum come back from its four characters. */
  lemma QuantumRoundTrip(b0: byte, b1: byte, b2: byte)
    ensures QuantumBytes(b0 / 4, b0 % 4 * 16 + b1 / 16, b1 % 16 * 4 + b2 / 64, b2 % 64) == [b0, b1, b2]
  {
    var x1, x2 := b0 % 4 * 16 + b1 / 16, b1 % 16 * 4 + b2 / 64;
    assert x1 / 16 == b0 % 4 && x1 % 16 == b1 / 16;
    assert x2 / 4 == b1 % 16 && x2 % 4 == b2 / 64;
  }

  /** A full quantum decodes to the three bytes it was encoded from. */
  lemma DecodeEncodeQuantum(b0: byte, b1: byte, b2: byte, offset: nat)
    ensures DecodeQuantum(EncodeQuantum(b0, b1, b2), offset) == Success([b0, b1, b2])
    ensures DecodeFinalQuantum(EncodeQuantum(b0, b1, b2), offset) == Success([b0, b1, b2])
  {
    var x0, x1, x2, x3 := b0 / 4, b0 % 4 * 16 + b1 / 16, b1 % 16 * 4 + b2 / 64, b2 % 64;
    var q := EncodeQuantum(b0, b1, b2);
    assert Value(q[0]) == Some(x0) && Value(q[1]) == Some(x1);
    assert Value(q[2]) == Some(x2) && Value(q[3]) == Some(x3);
    QuantumRoundTrip(b0, b1, b2);
  }

  /** A final quantum holding one or two bytes decodes to those bytes. */
  lemma DecodeShortFinal(bs: seq<byte>, offset: nat)
    requires 1 <= |bs| <= 2
    ensures DecodeFrom(Encode(bs), offset) == Success(bs)
  {
    if |bs| == 1 {
      assert QuantumBytes(bs[0] / 4, bs[0] % 4 * 16, 0, 0)[..1] == bs;
    } else {
      assert QuantumBytes(bs[0] / 4, bs[0] % 4 * 16 + bs[1] / 16, bs[1] % 16 * 4, 0)[..2] == bs;
    }
  }

  /** A leading full quantum decodes to its three bytes, followed by whatever the rest decodes to. */
  lemma DecodeLeadingQuantum(bs: seq<byte>, rest: string, offset: nat)
    requires |bs| == 3
    requires |rest| > 0
    ensures DecodeFrom(EncodeQuantum(bs[0], bs[1], bs[2]) + rest, offset) ==
      match DecodeFrom(rest, offset + 4)
      case Failure(e) => Failure(e)
      case Success(tail) => Success(bs + tail)
  {
    var q := EncodeQuantum(bs[0], bs[1], bs[2]);
    var s := q + rest;
    DecodeEncodeQuantum(bs[0], bs[1], bs[2], offset);
    assert [bs[0], bs[1], bs[2]] == bs;
    assert s[..4] == q;
    assert s[4..] == rest;
  }

  /** Round trip of section 4: decoding the encoding of any byte string yields that byte string. */
  lemma {:induction false} DecodeEncode(bs: seq<byte>, offset: nat)
    ensures DecodeFrom(Encode(bs), offset) == Success(bs)
    decreases |bs|
  {
    if |bs| == 0 {
    } else if |bs| <= 2 {
      DecodeShortFinal(bs, offset);
    } else if |bs| == 3 {
      DecodeEncodeQuantum(bs[0], bs[1], bs[2], offset);
      assert Encode(bs) == EncodeQuantum(bs[0], bs[1], bs[2]) + Encode(bs[3..]);
      assert bs[3..] == [];
      assert bs == [bs[0], bs[1], bs[2]];
    } else {
      DecodeEncode(bs[3..], offset + 4);
      DecodeLeadingQuantum(bs[..3], Encode(bs[3..]), offset);
      assert bs == bs[..3] + bs[3..];
    }
  }

  /** A full quantum of alphabet characters is the encoding of the three bytes it decodes to. */
  lemma EncodeQuantumBytes(x0: sextet, x1: sextet, x2: sextet, x3: sextet)
    ensures var b := QuantumBytes(x0, x1, x2, x3);
      EncodeQuantum(b[0], b[1], b[2]) == [Char(x0), Char(x1), Char(x2), Char(x3)]
  {
    var b := QuantumBytes(x0, x1, x2, x3);
    assert b[0] / 4 == x0 && b[0] % 4 == x1 / 16;
    assert b[1] / 16 == x1 % 16 && b[1] % 16 == x2 / 4;
    assert b[2] / 64 == x2 % 4 && b[2] % 64 == x3;
  }

  /** A final quantum with one pad and zero unused bits is the encoding of the two bytes it decodes to. */
  lemma EncodeTwoBytes(x0: sextet, x1: sextet, x2: sextet)
    requires x2 % 4 == 0
    ensures var b := QuantumBytes(x0, x1, x2, 0)[..2];
      Encode(b) == [Char(x0), Char(x1), Char(x2), Pad]
  {
    var b := QuantumBytes(x0, x1, x2, 0);
    assert b[0] / 4 == x0 && b[0] % 4 == x1 / 16;
    assert b[1] / 16 == x1 % 16 && b[1] % 16 * 4 == x2;
  }

  /** A final quantum with two pads and zero unused bits is the encoding of the byte it decodes to. */
  lemma EncodeOneByte(x0: sextet, x1: sextet)
    requires x1 % 16 == 0
    ensures var b := QuantumBytes(x0, x1, 0, 0)[..1];
      Encode(b) == [Char(x0), Char(x1), Pad, Pad]
  {
    var b := QuantumBytes(x0, x1, 0, 0);
    assert b[0] / 4 == x0 && b[0] % 4 * 16 == x1;
  }

  /** A last quantum that decodes is the encoding of what it decodes to. */
  lemma EncodeDecodeFinal(q: string, offset: nat)
    requires |q| == 4 && DecodeFinalQuantum(q, offset).Success?
    ensures q == Encode(DecodeFinalQuantum(q, offset).value)
  {
    var v0, v1, v2, v3 := Value(q[0]), Value(q[1]), Value(q[2]), Value(q[3]);
    assert v0.Some? && v1.Some?;
    CharOfValue(q[0]);
    CharOfValue(q[1]);
    if v2.Some? {
      CharOfValue(q[2]);
      if v3.Some? {
        CharOfValue(q[3]);
        var b := QuantumBytes(v0.value, v1.value, v2.value, v3.value);
        EncodeQuantumBytes(v0.value, v1.value, v2.value, v3.value);
        assert Encode(b) == EncodeQuantum(b[0], b[1], b[2]) + Encode(b[3..]);
        assert b[3..] == [];
      } else {
        EncodeTwoBytes(v0.value, v1.value, v2.value);
      }
    } else {
      EncodeOneByte(v0.value, v1.value);
    }
  }

  /** A leading quantum that decodes is the encoding of its three bytes. */
  lemma EncodeDecodeLeading(q: string, offset: nat)
    requires |q| == 4 && DecodeQuantum(q, offset).Success?
    ensures var b := DecodeQuantum(q, offset).value; |b| == 3 && q == EncodeQuantum(b[0], b[1], b[2])
  {
    var v0, v1, v2, v3 := Value(q[0]), Value(q[1]), Value(q[2]), Value(q[3]);
    CharOfValue(q[0]);
    CharOfValue(q[1]);
    CharOfValue(q[2]);
    CharOfValue(q[3]);
    EncodeQuantumBytes(v0.value, v1.value, v2.value, v3.value);
  }

  /**
   * The other round trip: a string that decodes is the encoding of its bytes. The decoder accepts
   * exactly one string per byte sequence, so an encoder is pinned down by decoding back.
   */
  lemma {:induction false} EncodeDecode(s: string, offset: nat)
    requires DecodeFrom(s, offset).Success?
    ensures s == Encode(DecodeFrom(s, offset).value)
    decreases |s|
  {
    if |s| == 0 {
    } else if |s| == 4 {
      EncodeDecodeFinal(s, offset);
    } else {
      var head := DecodeQuantum(s[..4], offset).value;
      var tail := DecodeFrom(s[4..], offset + 4).value;
      EncodeDecodeLeading(s[..4], offset);
      EncodeDecode(s[4..], offset + 4);
      var bs := head + tail;
      assert DecodeFrom(s, offset).value == bs;
      assert bs[..3] == head && bs[3..] == tail;
      assert Encode(bs) == EncodeQuantum(bs[0], bs[1], bs[2]) + Encode(bs[3..]);
      assert s == s[..4] + s[4..];
    }
  }

  /** The quantum for "foo". */
  lemma FooQuantum()
    ensures EncodeQuantum(102, 111, 111) == "Zm9v"
  {
    assert 102 / 4 == 25 && 102 % 4 * 16 + 111 / 16 == 38 && 111 % 16 * 4 + 111 / 64 == 61 && 111 % 64 == 47;
    assert Char(25) == 'Z' && Char(38) == 'm' && Char(61) == '9' && Char(47) == 'v';
  }

  /** The quantum for "bar". */
  lemma BarQuantum()
    ensures EncodeQuantum(98, 97, 114) == "YmFy"
  {
    assert 98 / 4 == 24 && 98 % 4 * 16 + 97 / 16 == 38 && 97 % 16 * 4 + 114 / 64 == 5 && 114 % 64 == 50;
    assert Char(24) == 'Y' && Char(38) == 'm' && Char(5) == 'F' && Char(50) == 'y';
  }

  /** The test vectors of section 10 of RFC 4648 for "", "f", "fo" and "foo". */
  lemma ShortTestVectors()
    ensures Encode([]) == ""
    ensures Encode([102]) == "Zg=="
    ensures Encode([102, 111]) == "Zm8="
    ensures Encode([102, 111, 111]) == "Zm9v"
  {
    assert [102, 111, 111][3..] == [];
    FooQuantum();
  }

  /** The test vectors of section 10 of RFC 4648 for "foob", "fooba" and "foobar": the "foo" quantum, then the rest. */
  lemma LongTestVectors()
    ensures Encode([102, 111, 111, 98]) == "Zm9vYg=="
    ensures Encode([102, 111, 111, 98, 97]) == "Zm9vYmE="
    ensures Encode([102, 111, 111, 98, 97, 114]) == "Zm9vYmFy"
  {
    FooQuantum();
    BarQuantum();
    assert [102, 111, 111, 98][3..] == [98];
    assert [102, 111, 111, 98, 97][3..] == [98, 97];
    assert [102, 111, 111, 98, 97, 114][3..] == [98, 97, 114];
    assert [98, 97, 114][3..] == [];
    assert Encode([98]) == "Yg==";
    assert Encode([98, 97]) == "YmE=";
    assert Encode([98, 97, 114]) == "YmFy";
  }

  /** The two characters outside letters and digits: 0xFB 0xFF encodes to "+/8=". */
  lemma SymbolTestVector()
    ensures Encode([0xFB, 0xFF]) == "+/8="
  {
  }
}
