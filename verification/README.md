# Email template builder: draft payload, catalog, editor and upload filter

A Dafny model of the logic at the heart of a small email-template web application:

- **The Gmail draft payload** (`createDraft`). The page builds a minimal message: four fixed header
  fields, an empty line, then the template's HTML. It passes the message through `btoa`, swaps `+`
  for `-` and `/` for `_`, and cuts the trailing `=` pads. The result is the `raw` field of a POST to
  the drafts endpoint. The model takes `btoa` to be standard base64 (section 4 of RFC 4648) over the
  string's code units read as Latin-1 bytes. `btoa` throws when a code unit exceeds 0xFF. The
  substitutions give the URL-safe alphabet of section 5 of RFC 4648, without padding.
  The model proves that:
  - the payload is exactly the unpadded URL-safe encoding of the message bytes;
  - the draft request is failure-free exactly for Latin-1 content;
  - a decoder recovers the content from `raw`, so distinct contents give distinct payloads.
- **The template catalog** (ten fixed entries) and the gallery cards built from it. Each card links
  to `/editor/<id>`, and `parseInt` of that route segment gives back the entry's id. `parseInt`
  follows section 19.2.5 of ECMAScript with no radix: white space, sign, `0x`, digit prefix, NaN.
- **The editor page**:
  - the load effect, which finds the entry whose id `===` the parsed route id and fills the
    content with `<h1>name</h1><p>description</p>`;
  - Save, which only notifies;
  - Download, which offers `template.html` as `text/html` with the content verbatim;
  - the editor's `onChange`, which replaces the content.
- **The library upload card**: the first chosen file is kept only when its MIME type is exactly
  `text/html`, and Upload is enabled exactly when a file is kept.

Modules: `Results` (Option/Result), `Text` (character replacement, trailing strip, first
occurrence), `Base64` (section 4 of RFC 4648: encoding and a decoder), `Base64Url` (the
substitutions and the pad strip, plus a decoder), `GmailDraft`, `JsNumbers` (`parseInt` and the
decimal rendering of an id), `Templates`, `Editor`, `Library`.

Nothing here talks to a network or a browser. The access token and the content are parameters.
The request is a value describing the method, URL, headers and `raw` body field.

## Model

| member | source | states |
|---|---|---|
| Text.ReplaceAll | src/utils/gmailAuth.ts:35 | a global single-character replace keeps the length and changes exactly the positions that held the searched character |
| Text.ReplaceAllInverse | src/utils/gmailAuth.ts:35 | replacing `a` by a character `b` absent from the text is undone by replacing `b` by `a` |
| Text.StripTrailing | src/utils/gmailAuth.ts:35 | removing the trailing run of pads leaves a prefix, removes only pads, and leaves no pad at the end |
| Text.StripTrailingRepeat | src/utils/gmailAuth.ts:35 | stripping the pads from text followed by `k` pads gives back the text when it does not itself end in a pad |
| Base64.Char | src/utils/gmailAuth.ts:29 | each sextet's character decodes back to that sextet |
| Base64.CharIsTableEntry | src/utils/gmailAuth.ts:29 | the character of sextet `x` is entry `x` of the 64-character standard alphabet `A-Z a-z 0-9 + /` |
| Base64.PadLength | src/utils/gmailAuth.ts:29 | the pad count is at most two and brings the byte count up to a multiple of three |
| Base64.Encode | src/utils/gmailAuth.ts:29 | `btoa`'s output has length `4 * ceil(n / 3)`, holds alphabet characters only, and ends in exactly the pads that complete the last quantum |
| Base64.DecodeEncode | src/utils/gmailAuth.ts:29 | decoding the encoding of any byte sequence gives the bytes back |
| Base64.EncodeQuantumBytes | src/utils/gmailAuth.ts:29 | a full quantum of alphabet characters is the encoding of the three bytes it carries |
| Base64.EncodeTwoBytes | src/utils/gmailAuth.ts:29 | a final quantum with one pad and zero unused bits is the encoding of the two bytes it carries |
| Base64.EncodeOneByte | src/utils/gmailAuth.ts:29 | a final quantum with two pads and zero unused bits is the encoding of the byte it carries |
| Base64.EncodeDecodeFinal | src/utils/gmailAuth.ts:29 | a last quantum that decodes is the encoding of what it decodes to |
| Base64.EncodeDecodeLeading | src/utils/gmailAuth.ts:29 | a leading quantum that decodes carries three bytes and is their encoding |
| Base64.EncodeDecode | src/utils/gmailAuth.ts:29 | every string that decodes is the encoding of its bytes: the decoder insists on zero unused bits (section 3.5 of RFC 4648), so the encoding of each byte sequence is the only string that decodes to it |
| Base64.FooQuantum | src/utils/gmailAuth.ts:29 | the bytes of `foo` encode to the quantum `Zm9v` |
| Base64.BarQuantum | src/utils/gmailAuth.ts:29 | the bytes of `bar` encode to the quantum `YmFy` |
| Base64.ShortTestVectors | src/utils/gmailAuth.ts:29 | the test vectors of section 10 of RFC 4648 up to three bytes: `""`, `Zg==`, `Zm8=`, `Zm9v` |
| Base64.LongTestVectors | src/utils/gmailAuth.ts:29 | the test vectors of section 10 of RFC 4648 of four to six bytes: `Zm9vYg==`, `Zm9vYmE=`, `Zm9vYmFy` |
| Base64.SymbolTestVector | src/utils/gmailAuth.ts:29 | the bytes FB FF encode to `+/8=`, so both symbol characters and a pad occur |
| Base64Url.UnpaddedLengthIsPaddedLessPad | src/utils/gmailAuth.ts:35 | the unpadded length is the padded length less the pad count |
| Base64Url.SplitPadding | src/utils/gmailAuth.ts:29-35 | a standard encoding is its alphabet-only body followed by its pads, and the body does not end in a pad |
| Base64Url.SubstituteAlphabet | src/utils/gmailAuth.ts:35 | the two replacements map alphabet text to URL-safe text, and the reverse replacements restore it |
| Base64Url.FromStandard | src/utils/gmailAuth.ts:35 | the payload is no longer than the standard text; at every kept position `+` became `-`, `/` became `_` and every other character stayed; every removed position held a pad; the payload ends in no pad and holds no `+` or `/` |
| Base64Url.FromStandardOfPadded | src/utils/gmailAuth.ts:35 | alphabet text followed by any number of pads rewrites to the substituted text, which maps back to the original and holds URL-safe characters only |
| Base64Url.FromStandardEncoding | src/utils/gmailAuth.ts:35 | the replacements and the pad strip applied to a standard encoding give the substituted body with the pads removed |
| Base64Url.Encode | src/utils/gmailAuth.ts:29-35 | the payload holds only `A-Z a-z 0-9 - _` and its length is `4 * floor(n / 3)` plus 0, 2 or 3 for the remainder |
| Base64Url.Decode | src/utils/gmailAuth.ts:35 | a decoder for the payload accepts only URL-safe text |
| Base64Url.DecodeEncode | src/utils/gmailAuth.ts:29-35 | the unpadded URL-safe text decodes back to the bytes it encodes |
| Base64Url.DecodeUnpadded | src/utils/gmailAuth.ts:35 | restoring the stripped pads and the standard alphabet turns the payload back into the standard encoding |
| Base64Url.PadRestored | src/utils/gmailAuth.ts:35 | the stripped pad count can be read off the payload length, which is never 1 modulo 4 |
| Base64Url.DecodeRepadded | src/utils/gmailAuth.ts:35 | URL-safe text whose repadded standard form decodes to `bs` decodes to `bs` |
| Base64Url.ToStandardOfUrlText | src/utils/gmailAuth.ts:35 | undoing the substitutions on URL-safe text gives alphabet text, which the substitutions map back to the text |
| Base64Url.EncodeDecode | src/utils/gmailAuth.ts:29-35 | every URL-safe text that decodes is the payload of its bytes, so each byte sequence has exactly one payload that decodes to it |
| Base64Url.EncodeInjective | src/utils/gmailAuth.ts:29-35 | distinct byte sequences give distinct payloads |
| Base64Url.StandardEncodingShape | src/utils/gmailAuth.ts:35 | a standard encoding has pads only in its last two places and no `-` or `_`, so the three replacements never interfere |
| GmailDraft.Lines | src/utils/gmailAuth.ts:30-33 | a non-empty list of header lines ends in CRLF |
| GmailDraft.HeaderSectionUnfolds | src/utils/gmailAuth.ts:30-33 | the header section is the four fields `From: me`, `To: draft@draft.com`, `Subject: Email Template Draft`, `Content-Type: text/html; charset=utf-8`, each ending in CRLF, 102 characters in all |
| GmailDraft.LinesOfFour | src/utils/gmailAuth.ts:30-33 | four header lines are the fields in order, each followed by CRLF |
| GmailDraft.Message | src/utils/gmailAuth.ts:30-34 | the message is the header section, an empty line, then the content verbatim, 104 characters longer than the content |
| GmailDraft.FieldOfPrintable | src/utils/gmailAuth.ts:30-33 | a field `name: body` with printable name and body is printable field text |
| GmailDraft.HeaderFieldsAreText | src/utils/gmailAuth.ts:30-33 | each of the four fields is non-empty printable US-ASCII |
| GmailDraft.HeaderPartsPrintable | src/utils/gmailAuth.ts:30-33 | the names and bodies of the four fixed fields are printable US-ASCII |
| GmailDraft.FieldIsText | src/utils/gmailAuth.ts:30-33 | field `i` of the header is non-empty printable US-ASCII |
| GmailDraft.LinesNoLfCr | src/utils/gmailAuth.ts:30-33 | CRLF-terminated lines of field text are ASCII and never hold LF followed by CR |
| GmailDraft.FirstBlankLine | src/utils/gmailAuth.ts:33 | the first CRLF CRLF of a draft message is the one right after the Content-Type field, whatever the content |
| GmailDraft.SplitMessage | src/utils/gmailAuth.ts:30-34 | a split at the first empty line puts the message back together, and fails only when there is no empty line |
| GmailDraft.SplitMessageRecovers | src/utils/gmailAuth.ts:30-34 | splitting a draft message at its first empty line gives the fixed header section and the content exactly |
| GmailDraft.Latin1Bytes | src/utils/gmailAuth.ts:29 | `btoa` reads one byte per code unit, equal to it |
| GmailDraft.Latin1RoundTrip | src/utils/gmailAuth.ts:29 | reading the bytes back as code units gives the string |
| GmailDraft.Btoa | src/utils/gmailAuth.ts:29 | `btoa` throws exactly when some code unit exceeds 0xFF, and otherwise returns the standard base64 of the bytes |
| GmailDraft.MessageLatin1 | src/utils/gmailAuth.ts:29-34 | the draft message passes `btoa` exactly when the content does |
| GmailDraft.RawOf | src/utils/gmailAuth.ts:35 | the `raw` step fails exactly when `btoa` threw, with the same exception, and otherwise yields `btoa`'s output with `+` and `/` substituted and the pads cut, no longer than it and free of `+` and `/` |
| GmailDraft.RawIsUrlEncoding | src/utils/gmailAuth.ts:29-35 | for Latin-1 content, the substitutions and the pad strip applied to `btoa`'s output give the unpadded URL-safe encoding of the message |
| GmailDraft.RawDraft | src/utils/gmailAuth.ts:29-35 | `raw` fails exactly for content with a code unit above 0xFF; otherwise it is the unpadded URL-safe encoding of the message, URL-safe characters only, of the unpadded length of `104 + n` bytes |
| GmailDraft.ParseDraft | src/utils/gmailAuth.ts:29-35 | a content recovered from `raw` is one whose message is exactly the decoded bytes |
| GmailDraft.ParseRawDraft | src/utils/gmailAuth.ts:29-35 | the content of every draft `btoa` accepts comes back from its `raw` field |
| GmailDraft.BytesRoundTrip | src/utils/gmailAuth.ts:29 | bytes read as code units are Latin-1 text whose bytes are the bytes again |
| GmailDraft.ParsedDraftIsRaw | src/utils/gmailAuth.ts:29-35 | a `raw` string that parses to some content is exactly the `raw` field built for that content |
| GmailDraft.RawDraftInjective | src/utils/gmailAuth.ts:29-35 | distinct Latin-1 contents give distinct `raw` fields |
| GmailDraft.PrepareDraft | src/utils/gmailAuth.ts:28-48 | the request is a POST to the drafts endpoint with `Bearer <token>` and `application/json`; it fails exactly for non-Latin-1 content, and its `raw` field is exactly the payload of lines 29-35, which decodes back to the content |
| JsNumbers.TrimStart | src/pages/Editor.tsx:28 | `parseInt` removes a leading run of white space, all of it, and nothing else |
| JsNumbers.DigitPrefix | src/pages/Editor.tsx:28 | `parseInt` reads the longest prefix of digits of the radix |
| JsNumbers.SplitSign | src/pages/Editor.tsx:28 | the sign is -1 exactly when the text starts with `-`; a leading `-` or `+` is dropped and otherwise the text is kept whole |
| JsNumbers.SplitRadix | src/pages/Editor.tsx:28 | with no radix given, the radix is 16 exactly when the text starts with `0x` or `0X`, which is then dropped; otherwise it is 10 and the text is kept whole |
| JsNumbers.StrictEquals | src/pages/Editor.tsx:28 | `===` between numbers holds exactly when both are the same integer, so NaN equals nothing, itself included |
| JsNumbers.ParseInt | src/pages/Editor.tsx:28 | a number is read only from non-empty text |
| JsNumbers.NatToString | src/pages/Templates.tsx:108 | `${id}` of a natural is non-empty decimal text with no leading zero whose value is the id |
| JsNumbers.ParseIntOfNatToString | src/pages/Editor.tsx:28 | `parseInt` of the decimal rendering of `n`, followed by text that cannot extend the number, is `n` |
| Templates.CatalogNumbered | src/pages/Templates.tsx:5-76 | the catalog has ten entries with ids 1 to 10 in order, so its ids are distinct |
| Templates.CatalogFieldsNonEmpty | src/pages/Templates.tsx:5-76 | every entry has a non-empty name, description and category |
| Templates.NamesHaveNoMarkup | src/pages/Templates.tsx:5-76 | no catalog name holds `<` |
| Templates.PlainName | src/pages/Templates.tsx:8-71 | each of the ten names is free of `<` |
| Templates.EditorLink | src/pages/Templates.tsx:108 | a card's link is `/editor/` followed by the decimal rendering of the entry's id, which `parseInt` reads back as that id |
| Templates.CardOf | src/pages/Templates.tsx:91-110 | a card is keyed by the entry's id, shows its image with the name as alt text, its category, name and description, and links to `/editor/` plus the decimal id |
| Templates.Cards | src/pages/Templates.tsx:90-113 | the gallery shows one card per entry, in catalog order |
| Templates.CardLinksParseBack | src/pages/Templates.tsx:90-110 | every card is keyed by its entry's id and links to the editor with a route id that parses back to that id |
| Editor.Initial | src/pages/Editor.tsx:24-33 | the editor starts empty, and the load effect has not yet run for any route id |
| Editor.Matches | src/pages/Editor.tsx:28 | an entry matches a parsed route id exactly when the number is the entry's id, never NaN |
| Editor.Find | src/pages/Editor.tsx:28 | `find` returns nothing exactly when no entry's id `===` the number, and otherwise the first entry that matches |
| Editor.FindDistinct | src/pages/Editor.tsx:28 | with distinct ids, looking up an entry's own id finds that entry |
| Editor.FindNumbered | src/pages/Editor.tsx:28 | in a catalog numbered 1, 2, ..., lookup finds entry `n - 1` for `n` in range and nothing otherwise, NaN included |
| Editor.FindInCatalog | src/pages/Editor.tsx:28 | lookup in the catalog finds an entry exactly for the numbers 1 to 10 |
| Editor.InitialContent | src/pages/Editor.tsx:30 | the initial content starts with `<h1>`, ends with `</p>`, and is 16 characters longer than the name and description together |
| Editor.Load | src/pages/Editor.tsx:26-33 | a missing or empty route id, one that parses to NaN, or one no entry matches leaves the content alone; when some entry matches, the content becomes the initial content of the first match |
| Editor.LoadNumbered | src/pages/Editor.tsx:26-33 | a route id that parses to `i + 1` loads entry `i` of a numbered catalog |
| Editor.LoadFromLink | src/pages/Editor.tsx:26-33 | the editor link of entry `i` of a numbered catalog loads that entry |
| Editor.LoadFromNumberedCard | src/pages/Editor.tsx:26-33 | opening the editor from the card of entry `i` fills it with that entry's heading and paragraph |
| Editor.LoadOutsideCatalog | src/pages/Editor.tsx:26-33 | a route id that does not parse to a number from 1 to 10 leaves the content alone |
| Editor.ParseInitialContent | src/pages/Editor.tsx:30 | a split of content into heading and paragraph text puts the content back together |
| Editor.InitialContentRoundTrip | src/pages/Editor.tsx:30 | the initial content of an entry whose name holds no `<` splits back into its name and description |
| Editor.CatalogContentRoundTrip | src/pages/Editor.tsx:30 | the initial content of every catalog entry splits back into that entry's name and description |
| Editor.Save | src/pages/Editor.tsx:35-41 | saving keeps the content and shows the "Template Saved" notification |
| Editor.Download | src/pages/Editor.tsx:43-53 | the download is `template.html` of type `text/html` with the content verbatim |
| Editor.Edit | src/pages/Editor.tsx:74 | a change replaces the content with the editor's value and leaves the route id the effect last ran for |
| Editor.Step | src/pages/Editor.tsx:26-74 | a navigation records the route id; to the same id as before it changes nothing, and to a new id it runs the load effect for that id; Save and Download keep the state, Save notifies and Download delivers the content; a change sets the content and keeps the route id |
| Editor.Run | src/pages/Editor.tsx:26-74 | a sequence of page events yields one output per event: a notification exactly for each Save and a file exactly for each Download |
| Editor.ReadOnlyRunKeepsContent | src/pages/Editor.tsx:35-53 | saves and downloads never change the content, and every download among them delivers the content |
| Editor.LastChangeWins | src/pages/Editor.tsx:74 | after a change to `v`, any saves and downloads leave the content at `v` |
| Editor.NavigateRunsLoad | src/pages/Editor.tsx:26-33 | a navigation to a route id other than the last one runs the load effect for the new id |
| Editor.LoadFromCatalogCard | src/pages/Editor.tsx:26-33 | the route id of the card of catalog entry `i` loads that entry's heading and paragraph |
| Editor.OpenedFromCard | src/pages/Editor.tsx:26-33 | opening the editor at a card's route, before any route id was loaded, fills it with that card's entry |
| Editor.RevisitedRouteKeepsEdit | src/pages/Editor.tsx:26-33 | the load effect depends on the route id only, so navigating again to the same id keeps an edit made in between |
| Library.Initial | src/pages/Library.tsx:7 | nothing is selected at first, so Upload is disabled |
| Library.HandleFileUpload | src/pages/Library.tsx:9-14 | the first chosen file replaces the selection exactly when its type is `text/html`; otherwise nothing changes; a selection is never cleared |
| Library.UploadEnabled | src/pages/Library.tsx:35 | Upload is enabled exactly when a file is selected |
| Library.OnlyFirstFileCounts | src/pages/Library.tsx:10 | files chosen after the first have no effect |
| Library.LastAccepted | src/pages/Library.tsx:11 | an accepted file always has type `text/html` |
| Library.Run | src/pages/Library.tsx:9-14 | after any choices the selection is unchanged or is a file of type `text/html` |
| Library.RunSplit | src/pages/Library.tsx:9-14 | handling choices then one more is handling the one more after the choices |
| Library.RunSelectsLastAccepted | src/pages/Library.tsx:9-14 | after any choices the selection is the last accepted file, or the earlier selection when none was accepted |
| Library.UploadEnabledIffAccepted | src/pages/Library.tsx:35 | from the start, Upload is enabled exactly when some choice was accepted, and the selection is then of type `text/html` |
| Library.SelectionPersists | src/pages/Library.tsx:11-12 | once Upload is enabled it stays enabled |

## Left out

- The `fetch` call, its `response.ok` check and `response.json()` (src/utils/gmailAuth.ts:37-54): network I/O. `PrepareDraft` stops at the request value.
- `initGmailAuth` (src/utils/gmailAuth.ts:6-26): an OAuth popup and a window message listener, which is browser I/O.
- The character set: the header declares `charset=utf-8`, but `btoa` sends each code unit as one Latin-1 byte, and content with a code unit above 0xFF makes it throw. The model keeps `btoa`'s behaviour and does not model any UTF-8 encoding.
- JavaScript strings are sequences of UTF-16 code units; the model uses Dafny strings of Unicode scalar values. A character above 0xFFFF is two surrogate code units, both above 0xFF, so `btoa` rejects the same strings either way.
- JsNumbers.NatToString: gives plain decimal digits for every natural number. JavaScript renders numbers of 10^21 and above in exponent form, and integers above 2^53 are not exact doubles. Neither case arises for the ids 1 to 10.
- JsNumbers.ParseInt: its own contract only says that a number comes from non-empty text. Its meaning on the route ids the cards produce is stated by `ParseIntOfNatToString`. The value is an exact integer: the rounding of huge values to doubles and the sign of `-0` are not modelled, and neither matters for `===` against ids 1 to 10.
- The Blob, object URL and anchor click of `handleDownload` (src/pages/Editor.tsx:44-52): browser I/O. `Download` is the file that is offered.
- Toast rendering, the Quill toolbar, the Back button's `navigate(-1)`, and all JSX layout: user interface with no logic to model.
- The Upload button's click (src/pages/Library.tsx:35) has no handler, and the saved-templates list is a fixed placeholder, so neither has behaviour to model.
- `src/App.tsx` routing and `src/pages/Home.tsx`: navigation and static content only.
- `templates` is not exported from src/pages/Templates.tsx, although src/pages/Editor.tsx:8 imports it. The model treats it as the one catalog both pages share.
