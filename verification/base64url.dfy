/**
 * The URL- and filename-safe base64 variant of section 5 of RFC 4648 without padding, built the way
 * `createDraft` builds it: standard base64, then `+` to `-`, `/` to `_`, then trailing `=` removed.
 */
module Base64Url {
  import opened Results
  import opened Text
  import Base64

  type byte = Base64.byte

  /** `c` belongs to the alphabet of Table 2 of RFC 4648 (the pad excluded). */
  predicate IsUrlChar(c: char)
  {
    'A' <= c <= 'Z' || 'a' <= c <= 'z' || '0' <= c <= '9' || c == '-' || c == '_'
  }

  /** The length of the unpadded encoding of `n` bytes: four characters per full quantum, plus two or three for a partial one. */
  function UnpaddedLength(n: nat): nat
  {
    4 * (n / 3) + (if n % 3 == 0 then 0 else n % 3 + 1)
  }

  /** The unpadded length is the padded length of section 4 less the pad characters. */
  lemma UnpaddedLengthIsPaddedLessPad(n: nat)
    ensures UnpaddedLength(n) == 4 * ((n + 2) / 3) - Base64.PadLength(n)
  {
    var q, m := n / 3, n % 3;
    assert n == 3 * q + m;
    if m == 0 {
      assert (n + 2) / 3 == q;
    } else {
      assert (n + 2) / 3 == q + 1;
    }
  }

  /** The rewriting applied to a standard encoding: `+` becomes `-`, `/` becomes `_` (the alphabet of section 5 of RFC 4648), and the trailing pads are cut. */
  function FromStandard(e: string): (r: string)
    ensures |r| <= |e|
    ensures forall i :: 0 <= i < |r| ==> r[i] == (if e[i] == '+' then '-' else if e[i] == '/' then '_' else e[i])
    ensures forall i :: |r| <= i < |e| ==> e[i] == Base64.Pad
    ensures |r| == 0 || r[|r| - 1] != Base64.Pad
    ensures forall i :: 0 <= i < |r| ==> r[i] != '+' && r[i] != '/'
  {
    var u := ReplaceAll(ReplaceAll(e, '+', '-'), '/', '_');
    var r := StripTrailing(u, Base64.Pad);
    assert forall i :: 0 <= i < |r| ==> r[i] == u[i];
    r
  }

  /** The inverse character substitution: `-` back to `+`, `_` back to `/`. */
  function ToStandard(u: string): string
  {
    ReplaceAll(ReplaceAll(u, '-', '+'), '_', '/')
  }

  /** The standard encoding with its padding cut off, and the pad run that was cut. */
  lemma SplitPadding(bs: seq<byte>)
    ensures var e := Base64.Encode(bs); var k := Base64.PadLength(|bs|);
      k <= |e| && e == e[..|e| - k] + Repeat(Base64.Pad, k) &&
      (forall i :: 0 <= i < |e| - k ==> Base64.IsAlphabetChar(e[i])) &&
      (|e| - k == 0 || e[|e| - k - 1] != Base64.Pad)
  {
    var e := Base64.Encode(bs);
    var k := Base64.PadLength(|bs|);
    assert e == e[..|e| - k] + Repeat(Base64.Pad, k);
  }

  /** The substitutions send the alphabet of Table 1 onto that of Table 2, character for character. */
  lemma SubstituteAlphabet(p: string)
    requires forall i :: 0 <= i < |p| ==> Base64.IsAlphabetChar(p[i])
    ensures var u := ReplaceAll(ReplaceAll(p, '+', '-'), '/', '_');
      (forall i :: 0 <= i < |u| ==> IsUrlChar(u[i])) && ToStandard(u) == p
  {
    var u := ReplaceAll(ReplaceAll(p, '+', '-'), '/', '_');
    var back := ToStandard(u);
    forall i | 0 <= i < |p|
      ensures IsUrlChar(u[i]) && back[i] == p[i]
    {
      assert Base64.IsAlphabetChar(p[i]);
    }
  }

  /** The rewritten standard encoding of `bs` is the substituted unpadded part: the strip removes exactly the padding. */
  lemma FromStandardEncoding(bs: seq<byte>)
    ensures var e := Base64.Encode(bs); var k := Base64.PadLength(|bs|);
      k <= |e| &&
      var u := ReplaceAll(ReplaceAll(e[..|e| - k], '+', '-'), '/', '_');
      FromStandard(e) == u && ToStandard(u) == e[..|e| - k] && |u| == |e| - k &&
      (forall i :: 0 <= i < |u| ==> IsUrlChar(u[i]))
  {
    var e := Base64.Encode(bs);
    var k := Base64.PadLength(|bs|);
    SplitPadding(bs);
    FromStandardOfPadded(e[..|e| - k], k);
  }

  /** Alphabet text followed by `k` pads rewrites to the substituted text: the strip removes exactly the pads. */
  lemma FromStandardOfPadded(p: string, k: nat)
    requires forall i :: 0 <= i < |p| ==> Base64.IsAlphabetChar(p[i])
    ensures var u := ReplaceAll(ReplaceAll(p, '+', '-'), '/', '_');
      FromStandard(p + Repeat(Base64.Pad, k)) == u && ToStandard(u) == p && |u| == |p| &&
      (forall i :: 0 <= i < |u| ==> IsUrlChar(u[i]))
  {
    SubstituteAlphabet(p);
    var pads := Repeat(Base64.Pad, k);
    var u1 := ReplaceAll(p, '+', '-');
    var u := ReplaceAll(u1, '/', '_');
    ReplaceAllConcat(p, pads, '+', '-');
    ReplaceAllRepeat(Base64.Pad, k, '+', '-');
    ReplaceAllConcat(u1, pads, '/', '_');
    ReplaceAllRepeat(Base64.Pad, k, '/', '_');
    assert ReplaceAll(ReplaceAll(p + pads, '+', '-'), '/', '_') == u + pads;
    if |u| > 0 {
      assert IsUrlChar(u[|u| - 1]);
    }
    StripTrailingRepeat(u, Base64.Pad, k);
  }

  /** The unpadded URL-safe encoding of `bs`: what `createDraft` makes of `btoa`'s output. */
  function Encode(bs: seq<byte>): (r: string)
    ensures |r| == UnpaddedLength(|bs|)
    ensures forall i :: 0 <= i < |r| ==> IsUrlChar(r[i])
  {
    FromStandardEncoding(bs);
    UnpaddedLengthIsPaddedLessPad(|bs|);
    FromStandard(Base64.Encode(bs))
  }

  /** Why a string is not an unpadded URL-safe base64 encoding. */
  datatype DecodeError =
    | OutsideAlphabet
    | ImpossibleLength
    | Malformed(cause: Base64.DecodeError)

  /** Decodes an unpadded URL-safe string: restores the padding and the standard characters, then decodes as in section 4. */
  function Decode(u: string): (r: Result<seq<byte>, DecodeError>)
    ensures r.Success? ==> forall i :: 0 <= i < |u| ==> IsUrlChar(u[i])
  {
    if exists i :: 0 <= i < |u| && !IsUrlChar(u[i]) then Failure(OutsideAlphabet)
    else if |u| % 4 == 1 then Failure(ImpossibleLength)
    else match Base64.Decode(ToStandard(u) + Repeat(Base64.Pad, (4 - |u| % 4) % 4))
      case Failure(e) => Failure(Malformed(e))
      case Success(bs) => Success(bs)
  }

  /** Round trip: re-padding, undoing the substitutions and decoding yields the encoded bytes. */
  lemma DecodeEncode(bs: seq<byte>)
    ensures Decode(Encode(bs)) == Success(bs)
  {
    var e := Base64.Encode(bs);
    var k := Base64.PadLength(|bs|);
    SplitPadding(bs);
    FromStandardEncoding(bs);
    Base64.DecodeEncode(bs, 0);
    DecodeUnpadded(Encode(bs), e[..|e| - k], e, k, (|bs| + 2) / 3, bs);
  }

  /** An unpadded string `u` whose standard form is `p`, the pad-free part of an encoding `e` of `bs`, decodes to `bs`. */
  lemma DecodeUnpadded(u: string, p: string, e: string, k: nat, m: nat, bs: seq<byte>)
    requires k <= 2 && |e| == 4 * m
    requires e == p + Repeat(Base64.Pad, k)
    requires ToStandard(u) == p && |u| == |p|
    requires forall i :: 0 <= i < |u| ==> IsUrlChar(u[i])
    requires Base64.Decode(e) == Success(bs)
    ensures Decode(u) == Success(bs)
  {
    PadRestored(|u|, m, k);
    DecodeRepadded(u, k, bs);
  }

  /** Cutting `k <= 2` pads from a length divisible by four leaves a length the decoder re-pads by exactly `k`. */
  lemma PadRestored(len: nat, m: nat, k: nat)
    requires k <= 2 && len == 4 * m - k
    ensures len % 4 != 1
    ensures (4 - len % 4) % 4 == k
  {
    if k == 1 {
      assert len == 4 * (m - 1) + 3;
    } else if k == 2 {
      assert len == 4 * (m - 1) + 2;
    }
  }

  /** A URL-safe string whose re-padded standard form decodes to `bs` decodes to `bs`. */
  lemma DecodeRepadded(u: string, k: nat, bs: seq<byte>)
    requires forall i :: 0 <= i < |u| ==> IsUrlChar(u[i])
    requires |u| % 4 != 1 && (4 - |u| % 4) % 4 == k
    requires Base64.Decode(ToStandard(u) + Repeat(Base64.Pad, k)) == Success(bs)
    ensures Decode(u) == Success(bs)
  {
  }

  /** Undoing the substitutions on URL-safe text gives alphabet text, and substituting again gives the text back. */
  lemma ToStandardOfUrlText(u: string)
    requires forall i :: 0 <= i < |u| ==> IsUrlChar(u[i])
    ensures var p := ToStandard(u);
      (forall i :: 0 <= i < |p| ==> Base64.IsAlphabetChar(p[i])) &&
      ReplaceAll(ReplaceAll(p, '+', '-'), '/', '_') == u
  {
    var p := ToStandard(u);
    var w := ReplaceAll(ReplaceAll(p, '+', '-'), '/', '_');
    forall i | 0 <= i < |u|
      ensures Base64.IsAlphabetChar(p[i]) && w[i] == u[i]
    {
      assert IsUrlChar(u[i]);
    }
  }

  /**
   * The other round trip: text that decodes is the payload of its bytes. Each byte sequence has one
   * unpadded URL-safe encoding that decodes, so the payload is pinned down by decoding back.
   */
  lemma EncodeDecode(u: string)
    requires Decode(u).Success?
    ensures u == Encode(Decode(u).value)
  {
    var k := (4 - |u| % 4) % 4;
    var p := ToStandard(u);
    var e := p + Repeat(Base64.Pad, k);
    var bs := Decode(u).value;
    assert Base64.Decode(e) == Success(bs);
    Base64.EncodeDecode(e, 0);
    ToStandardOfUrlText(u);
    FromStandardOfPadded(p, k);
  }

  /** Distinct byte strings have distinct encodings. */
  lemma EncodeInjective(a: seq<byte>, b: seq<byte>)
    requires Encode(a) == Encode(b)
    ensures a == b
  {
    DecodeEncode(a);
    DecodeEncode(b);
  }

  /**
   * Removing the trailing run of pads drops only padding: a standard encoding has `=` in its last two positions at most,
   * and no `-` or `_` that the substitutions could confuse with a rewritten `+` or `/`.
   */
  lemma StandardEncodingShape(bs: seq<byte>)
    ensures var e := Base64.Encode(bs);
      (forall i :: 0 <= i < |e| && e[i] == Base64.Pad ==> |e| - 2 <= i) &&
      (forall i :: 0 <= i < |e| ==> e[i] != '-' && e[i] != '_')
  {
  }
}
