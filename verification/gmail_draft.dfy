/**
 * The draft payload `createDraft` builds before its request: a minimal message in the shape of
 * section 2.1 of RFC 5322 (header fields, an empty line, the body), passed through `btoa` and made
 * URL-safe. Also the request the payload travels in, and a decoder that recovers the content.
 */
module GmailDraft {
  import opened Results
  import opened Text
  import Base64
  import Base64Url

  type byte = Base64.byte

  const CRLF: string := "\r\n"

  /** A header field: its name, a colon and a space, then its body (section 2.2 of RFC 5322). */
  function Field(name: string, body: string): string
  {
    name + ": " + body
  }

  /** The four fixed header fields of the draft, without their line ends. */
  const FromField: string := Field("From", "me")
  const ToField: string := Field("To", "draft@draft.com")
  const SubjectField: string := Field("Subject", "Email Template Draft")
  const ContentTypeField: string := Field("Content-Type", "text/html; charset=utf-8")

  /** The header fields in the order the message lists them. */
  const HeaderFields: seq<string> := [FromField, ToField, SubjectField, ContentTypeField]

  /** Each field followed by CRLF, concatenated. */
  function Lines(fields: seq<string>): (r: string)
    ensures |fields| > 0 ==> |r| >= 2 && r[|r| - 2..] == CRLF
  {
    if |fields| == 0 then [] else Lines(fields[..|fields| - 1]) + fields[|fields| - 1] + CRLF
  }

  /** The header section of every draft: the four fields, each ending in CRLF. */
  const HeaderSection: string := Lines(HeaderFields)

  /** The header section spelled out field by field. */
  lemma HeaderSectionUnfolds()
    ensures HeaderSection == FromField + CRLF + ToField + CRLF + SubjectField + CRLF + ContentTypeField + CRLF
    ensures |HeaderSection| == 102
  {
    LinesOfFour(FromField, ToField, SubjectField, ContentTypeField);
  }

  /** `Lines` of four fields is each field followed by CRLF, in order. */
  lemma LinesOfFour(a: string, b: string, c: string, d: string)
    ensures Lines([a, b, c, d]) == a + CRLF + b + CRLF + c + CRLF + d + CRLF
  {
    var fs := [a, b, c, d];
    assert fs[..3] == [a, b, c] && [a, b, c][..2] == [a, b] && [a, b][..1] == [a] && [a][..0] == [];
    assert Lines([a]) == [] + a + CRLF;
    assert [] + a == a;
    assert Lines([a, b]) == Lines([a]) + b + CRLF;
    assert Lines([a, b, c]) == Lines([a, b]) + c + CRLF;
    assert Lines(fs) == Lines([a, b, c]) + d + CRLF;
  }

  /** The message handed to `btoa`: the header section, an empty line, then the content verbatim. */
  function Message(content: string): (m: string)
    ensures m == HeaderSection + CRLF + content
    ensures |m| == 104 + |content|
  {
    HeaderSectionUnfolds();
    FromField + CRLF +
    ToField + CRLF +
    SubjectField + CRLF +
    ContentTypeField + CRLF + CRLF +
    content
  }

  /** The empty line that separates header section from body: CRLF at the end of the last field, then CRLF. */
  const BlankLine: string := CRLF + CRLF

  /**
   * Splits a message at its first CRLF CRLF into the header section (keeping the CRLF that ends the
   * last field) and the body; `None` when there is no empty line.
   */
  function SplitMessage(m: string): (r: Option<(string, string)>)
    ensures r.Some? ==> r.value.0 + CRLF + r.value.1 == m
    ensures r.None? ==> forall j :: 0 <= j ==> !OccursAt(m, BlankLine, j)
  {
    match IndexOf(m, BlankLine)
    case None => None
    case Some(i) =>
      assert m[i..i + 4] == BlankLine;
      assert m == m[..i + 2] + CRLF + m[i + 4..] by {
        assert m[i + 2..i + 4] == m[i..i + 4][2..];
        assert m == m[..i + 2] + m[i + 2..i + 4] + m[i + 4..];
      }
      Some((m[..i + 2], m[i + 4..]))
  }

  /** Every character of `f` is printable US-ASCII, so in particular neither CR nor LF. */
  predicate Printable(f: string)
  {
    forall k :: 0 <= k < |f| ==> 0x20 <= f[k] as int <= 0x7E
  }

  /** A header field line without its line end: non-empty printable US-ASCII. */
  predicate IsFieldText(f: string)
  {
    |f| > 0 && Printable(f)
  }

  /** Printable text concatenated with printable text is printable. */
  lemma PrintableConcat(a: string, b: string)
    requires Printable(a) && Printable(b)
    ensures Printable(a + b)
  {
    forall k | 0 <= k < |a + b|
      ensures 0x20 <= (a + b)[k] as int <= 0x7E
    {
      if k >= |a| {
        assert (a + b)[k] == b[k - |a|];
      }
    }
  }

  /** A field with a printable name and body is field text. */
  lemma FieldOfPrintable(name: string, body: string)
    requires Printable(name) && Printable(body)
    ensures IsFieldText(Field(name, body))
  {
    PrintableConcat(name, ": ");
    PrintableConcat(name + ": ", body);
  }

  /** `s` has no line feed directly followed by a carriage return. */
  predicate NoLfCr(s: string)
  {
    forall k :: 0 <= k < |s| - 1 ==> !(s[k] == '\n' && s[k + 1] == '\r')
  }

  /** CRLF-terminated lines of field text never hold LF followed by CR: that pair only arises at an empty line. */
  lemma {:induction false} LinesNoLfCr(fields: seq<string>)
    requires forall i :: 0 <= i < |fields| ==> IsFieldText(fields[i])
    ensures NoLfCr(Lines(fields))
    ensures forall k :: 0 <= k < |Lines(fields)| ==> Lines(fields)[k] as int < 0x80
  {
    if |fields| > 0 {
      var init, f := fields[..|fields| - 1], fields[|fields| - 1];
      assert IsFieldText(f);
      LinesNoLfCr(init);
      var p := Lines(init);
      var l := Lines(fields);
      assert l == p + f + CRLF;
      forall k | 0 <= k < |l|
        ensures l[k] as int < 0x80
      {
        if k < |p| {
          assert l[k] == p[k];
        } else if k < |p| + |f| {
          assert l[k] == f[k - |p|];
        }
      }
      forall k | 0 <= k < |l| - 1
        ensures !(l[k] == '\n' && l[k + 1] == '\r')
      {
        if k + 1 < |p| {
          assert l[k] == p[k] && l[k + 1] == p[k + 1];
        } else if k + 1 == |p| {
          assert l[k + 1] == f[0];
        } else if k < |p| + |f| {
          assert l[k] == f[k - |p|];
        }
      }
    }
  }

  /** The four header fields are field text. */
  lemma HeaderFieldsAreText()
    ensures forall i :: 0 <= i < |HeaderFields| ==> IsFieldText(HeaderFields[i])
  {
    forall i | 0 <= i < |HeaderFields|
      ensures IsFieldText(HeaderFields[i])
    {
      FieldIsText(i);
    }
  }

  /** Each of the four fixed fields is printable US-ASCII. */
  lemma FieldIsText(i: nat)
    requires i < |HeaderFields|
    ensures IsFieldText(HeaderFields[i])
  {
    HeaderPartsPrintable();
    if i == 0 {
      FieldOfPrintable("From", "me");
    } else if i == 1 {
      FieldOfPrintable("To", "draft@draft.com");
    } else if i == 2 {
      FieldOfPrintable("Subject", "Email Template Draft");
    } else {
      FieldOfPrintable("Content-Type", "text/html; charset=utf-8");
    }
  }

  /** The names and bodies of the four fixed fields are printable US-ASCII. */
  lemma HeaderPartsPrintable()
    ensures Printable("From") && Printable("me") && Printable("To") && Printable("draft@draft.com")
    ensures Printable("Subject") && Printable("Email Template Draft")
    ensures Printable("Content-Type") && Printable("text/html; charset=utf-8")
  {
  }

  /** An empty line at `j` means a line feed at `j + 1` followed by a carriage return. */
  lemma BlankLineHasLfCr(s: string, j: nat)
    requires OccursAt(s, BlankLine, j)
    ensures s[j + 1] == '\n' && s[j + 2] == '\r'
  {
    assert s[j + 1] == s[j..j + 4][1];
    assert s[j + 2] == s[j..j + 4][2];
  }

  /** The first empty line of every draft message sits right after the Content-Type field. */
  lemma FirstBlankLine(content: string)
    ensures IndexOf(Message(content), BlankLine) == Some(|HeaderSection| - 2)
  {
    var m := Message(content);
    HeaderSectionUnfolds();
    var h := |HeaderSection|;
    assert m[h - 2..h + 2] == BlankLine;
    assert OccursAt(m, BlankLine, h - 2);
    HeaderFieldsAreText();
    LinesNoLfCr(HeaderFields);
    forall j: nat | j < h - 2
      ensures !OccursAt(m, BlankLine, j)
    {
      assert m[j + 1] == HeaderSection[j + 1] && m[j + 2] == HeaderSection[j + 2];
      assert !(HeaderSection[j + 1] == '\n' && HeaderSection[j + 2] == '\r');
      if OccursAt(m, BlankLine, j) {
        BlankLineHasLfCr(m, j);
        assert false;
      }
    }
    var r := IndexOf(m, BlankLine);
    assert r.Some? && r.value <= h - 2;
  }

  /** Splitting a draft message at its first empty line recovers the fixed header section and the content exactly. */
  lemma SplitMessageRecovers(content: string)
    ensures SplitMessage(Message(content)) == Some((HeaderSection, content))
  {
    var m := Message(content);
    FirstBlankLine(content);
    assert m[..|HeaderSection|] == HeaderSection;
    assert m[|HeaderSection| + 2..] == content;
  }

  /** Every code unit of `s` is at most 0xFF, so that `btoa` accepts it. */
  predicate IsLatin1(s: string)
  {
    forall i :: 0 <= i < |s| ==> s[i] as int <= 0xFF
  }

  /** The bytes `btoa` encodes: one per code unit, equal to it. */
  function Latin1Bytes(s: string): (bs: seq<byte>)
    requires IsLatin1(s)
    ensures |bs| == |s|
    ensures forall i :: 0 <= i < |s| ==> bs[i] == s[i] as int
  {
    if |s| == 0 then [] else [s[0] as int] + Latin1Bytes(s[1..])
  }

  /** The string of code units for `bs`, as `atob` returns it. */
  function Latin1String(bs: seq<byte>): (s: string)
    ensures |s| == |bs|
    ensures forall i :: 0 <= i < |bs| ==> s[i] as int == bs[i]
  {
    if |bs| == 0 then [] else [bs[0] as char] + Latin1String(bs[1..])
  }

  /** Reading back the bytes of a Latin-1 string gives the string. */
  lemma Latin1RoundTrip(s: string)
    requires IsLatin1(s)
    ensures Latin1String(Latin1Bytes(s)) == s
  {
    var t := Latin1String(Latin1Bytes(s));
    forall i | 0 <= i < |s|
      ensures t[i] == s[i]
    {
      assert t[i] as int == s[i] as int;
    }
  }

  /** The `DOMException` `btoa` throws for a code unit above 0xFF. */
  datatype DomException = InvalidCharacterError

  /** `btoa`: the standard base64 of the string's code units, or an exception if one exceeds 0xFF. */
  function Btoa(s: string): (r: Result<string, DomException>)
    ensures r.Failure? <==> exists i :: 0 <= i < |s| && s[i] as int > 0xFF
    ensures r.Success? ==> IsLatin1(s) && r.value == Base64.Encode(Latin1Bytes(s))
  {
    if IsLatin1(s) then Success(Base64.Encode(Latin1Bytes(s))) else Failure(InvalidCharacterError)
  }

  /** A draft message passes `btoa` exactly when its content does: the fixed text never fails. */
  lemma MessageLatin1(content: string)
    ensures IsLatin1(Message(content)) <==> IsLatin1(content)
  {
    var m := Message(content);
    HeaderSectionUnfolds();
    HeaderFieldsAreText();
    LinesNoLfCr(HeaderFields);
    if IsLatin1(content) {
      forall i | 0 <= i < |m|
        ensures m[i] as int <= 0xFF
      {
        if i >= 104 {
          assert m[i] == content[i - 104];
        }
      }
    } else {
      var i :| 0 <= i < |content| && content[i] as int > 0xFF;
      assert m[104 + i] == content[i];
    }
  }

  /** For content `btoa` accepts, the `raw` field is the unpadded URL-safe encoding of the message bytes. */
  lemma RawIsUrlEncoding(content: string)
    requires IsLatin1(content)
    ensures IsLatin1(Message(content))
    ensures Btoa(Message(content)) == Success(Base64.Encode(Latin1Bytes(Message(content))))
    ensures Base64Url.FromStandard(Btoa(Message(content)).value) == Base64Url.Encode(Latin1Bytes(Message(content)))
  {
    MessageLatin1(content);
  }

  /**
   * The `raw` field of the draft: `btoa` of the message, with `+` and `/` replaced and the trailing
   * pads cut. Fails, as `btoa` throws, when some code unit exceeds 0xFF.
   */
  function RawDraft(content: string): (r: Result<string, DomException>)
    ensures r.Failure? <==> exists i :: 0 <= i < |content| && content[i] as int > 0xFF
    ensures r.Success? ==> IsLatin1(Message(content)) && r.value == Base64Url.Encode(Latin1Bytes(Message(content)))
    ensures r.Success? ==> forall i :: 0 <= i < |r.value| ==> Base64Url.IsUrlChar(r.value[i])
    ensures r.Success? ==> |r.value| == Base64Url.UnpaddedLength(104 + |content|)
  {
    MessageLatin1(content);
    if IsLatin1(content) then
      RawIsUrlEncoding(content);
      var bs := Latin1Bytes(Message(content));
      assert |bs| == 104 + |content|;
      RawOf(Btoa(Message(content)))
    else
      RawOf(Btoa(Message(content)))
  }

  /** Lines 29-35 after `btoa`: the substitutions and the pad strip, or the exception passed on. */
  function RawOf(encoded: Result<string, DomException>): (r: Result<string, DomException>)
    ensures r.Failure? <==> encoded.Failure?
    ensures r.Failure? ==> r.error == encoded.error
    ensures r.Success? ==> |r.value| <= |encoded.value| && forall i :: 0 <= i < |r.value| ==> r.value[i] != '+' && r.value[i] != '/'
    ensures r.Success? ==> r.value == Base64Url.FromStandard(encoded.value)
  {
    match encoded
    case Failure(e) => Failure(e)
    case Success(e) => Success(Base64Url.FromStandard(e))
  }

  /** Why a `raw` string is not a draft built by `RawDraft`. */
  datatype ParseError = NotBase64Url | NoBlankLine | UnexpectedHeaders(headers: string)

  /** Recovers the content from a `raw` draft: decode, read the bytes as code units, split at the empty line, check the headers. */
  function ParseDraft(raw: string): (r: Result<string, ParseError>)
    ensures r.Success? ==> Base64Url.Decode(raw).Success? && Message(r.value) == Latin1String(Base64Url.Decode(raw).value)
  {
    match Base64Url.Decode(raw)
    case Failure(_) => Failure(NotBase64Url)
    case Success(bs) =>
      match SplitMessage(Latin1String(bs))
      case None => Failure(NoBlankLine)
      case Some((headers, body)) =>
        if headers == HeaderSection then Success(body)
        else Failure(UnexpectedHeaders(headers))
  }

  /** Round trip: the content of every draft `btoa` accepts comes back, byte for byte, from its `raw` field. */
  lemma ParseRawDraft(content: string)
    requires IsLatin1(content)
    ensures RawDraft(content).Success?
    ensures ParseDraft(RawDraft(content).value) == Success(content)
  {
    var m := Message(content);
    MessageLatin1(content);
    Base64Url.DecodeEncode(Latin1Bytes(m));
    Latin1RoundTrip(m);
    SplitMessageRecovers(content);
  }

  /**
   * The converse: a `raw` string that parses to some content is exactly the `raw` field built for
   * that content, so the draft payload has one valid form.
   */
  lemma ParsedDraftIsRaw(raw: string)
    requires ParseDraft(raw).Success?
    ensures RawDraft(ParseDraft(raw).value).Success?
    ensures raw == RawDraft(ParseDraft(raw).value).value
  {
    var content := ParseDraft(raw).value;
    var bs := Base64Url.Decode(raw).value;
    var m := Message(content);
    assert m == Latin1String(bs);
    BytesRoundTrip(bs);
    MessageLatin1(content);
    Base64Url.EncodeDecode(raw);
  }

  /** Bytes read as code units are Latin-1 text whose bytes are the bytes again. */
  lemma BytesRoundTrip(bs: seq<byte>)
    ensures IsLatin1(Latin1String(bs))
    ensures Latin1Bytes(Latin1String(bs)) == bs
  {
    var s := Latin1String(bs);
    assert forall i :: 0 <= i < |s| ==> s[i] as int == bs[i];
  }

  /** Distinct contents give distinct `raw` fields. */
  lemma RawDraftInjective(a: string, b: string)
    requires IsLatin1(a) && IsLatin1(b)
    requires RawDraft(a) == RawDraft(b)
    ensures a == b
  {
    ParseRawDraft(a);
    ParseRawDraft(b);
  }

  /** The drafts endpoint of the Gmail API. */
  const DraftsEndpoint: string := "https://gmail.googleapis.com/gmail/v1/users/me/drafts"

  /** The request `createDraft` would issue: method, URL, the two headers, and the `raw` field of its JSON body. */
  datatype DraftRequest = DraftRequest(
    httpMethod: string,
    url: string,
    authorization: string,
    contentType: string,
    raw: string)

  /**
   * The request for a draft, or the exception `btoa` throws before any request is made.
   * Sending it and reading the response are not part of this model.
   */
  function PrepareDraft(accessToken: string, content: string): (r: Result<DraftRequest, DomException>)
    ensures r.Failure? <==> !IsLatin1(content)
    ensures r.Success? ==> r.value.httpMethod == "POST" && r.value.url == DraftsEndpoint
    ensures r.Success? ==> r.value.authorization == "Bearer " + accessToken
    ensures r.Success? ==> r.value.contentType == "application/json"
    ensures r.Success? ==> ParseDraft(r.value.raw) == Success(content)
    ensures r.Success? ==> RawDraft(content).Success? && r.value.raw == RawDraft(content).value
  {
    match RawDraft(content)
    case Failure(e) => Failure(e)
    case Success(raw) =>
      ParseRawDraft(content);
      Success(DraftRequest("POST", DraftsEndpoint, "Bearer " + accessToken, "application/json", raw))
  }
}
