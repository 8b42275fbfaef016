/** How the server reads its `image` argument (server.py): the prefix
    classification and data-URI parsing of `get_image_data`, which feeds the
    Gemini backend, and the cleaning and final-URL construction of
    `recognize_with_openai_compat`, which feeds the OpenAI-compatible one. */
module ImageInput {
  import opened Wrappers
  import opened Text

  /** The three shapes an image argument can take, told apart by prefix. */
  datatype InputKind = Url | DataUri | RawBase64

  /** The `(mime_type, base64_data)` pair handed to the Gemini backend. */
  datatype ImageData = ImageData(mimeType: string, data: string)

  /** The exceptions `get_image_data` can raise. */
  datatype InputError =
    | FetchFailed(reason: string)          // transport error or non-success HTTP status
    | NotEnoughValuesToUnpack(got: nat)   // `header, data = s.split(',', 1)` found no comma
    | IndexOutOfRange                      // `.split(':')[1]` on a header without ':'

  /** MIME type assumed for raw base64 input. */
  const DefaultMimeType := "image/jpeg"

  predicate HasUrlScheme(s: string) {
    "http://" <= s || "https://" <= s
  }

  /** Prefix classification: URL first, then data URI, and everything
      else is raw base64. Nothing is trimmed first. Each kind is recognised
      by its own prefix alone, whatever the order of the tests. */
  function Classify(s: string): (k: InputKind)
    ensures k == Url <==> HasUrlScheme(s)
    ensures k == DataUri <==> "data:" <= s
    ensures k == RawBase64 <==> !HasUrlScheme(s) && !("data:" <= s)
  {
    PrefixesDisjoint(s);
    if HasUrlScheme(s) then Url
    else if "data:" <= s then DataUri
    else RawBase64
  }

  /** No text starts both with a URL scheme and with `data:`. */
  lemma PrefixesDisjoint(s: string)
    ensures !(HasUrlScheme(s) && "data:" <= s)
  {
    if "data:" <= s {
      assert s[0] == 'd';
    }
  }

  /** What comes before the body of a base64 data URI. */
  function DataUriHead(mime: string): string {
    "data:" + mime + ";base64,"
  }

  /** A data URI with a base64 body: `data:<mime>;base64,<data>`. */
  function DataUriOf(mime: string, data: string): string {
    DataUriHead(mime) + data
  }

  /** `m` is the mime type written in a data-URI header: the run after
      `data:` that stops at the first ';' or ':' or at the end. */
  predicate IsMimeOf(header: string, m: string) {
    && 5 + |m| <= |header|
    && header[5..5 + |m|] == m
    && ';' !in m && ':' !in m
    && (5 + |m| == |header| || header[5 + |m|] == ';' || header[5 + |m|] == ':')
  }

  /** `header.split(';')[0].split(':')[1]`. For a header that starts with
      `data:` it never fails, and yields the mime type the header names. */
  function MimeOfHeader(header: string): (r: Result<string, InputError>)
    ensures "data:" <= header ==> r.Success? && IsMimeOf(header, r.value)
  {
    MimeOfDataHeader(header);
    var fields := Split(Split(header, ';')[0], ':');
    if |fields| < 2 then Failure(IndexOutOfRange) else Success(fields[1])
  }

  /** The text before the first ';' of a `data:` header still starts with `data:`. */
  lemma ParamsCutKeepsScheme(header: string)
    requires "data:" <= header
    ensures "data:" <= Split(header, ';')[0]
  {
    var h0 := Split(header, ';')[0];
    assert header[..5] == "data:";
    assert forall i :: 0 <= i < 5 ==> header[i] != ';';
    assert |h0| >= 5;
    assert h0[..5] == header[..5];
  }

  /** Splitting a `data:`-prefixed text at ':' cuts first right after `data`. */
  lemma SchemeColonIsFirst(h: string)
    requires "data:" <= h
    ensures Split(h, ':') == [h[..4]] + Split(h[5..], ':')
  {
    assert h[..5] == "data:";
    assert h[4] == ':';
    var k := Find(h, ':');
    assert k != -1;
    assert k == 4;
  }

  /** The first ':'-field of the text after `data:` sits right behind it. */
  lemma FieldAfterScheme(h: string, m: string)
    requires 5 <= |h| && m == Split(h[5..], ':')[0]
    ensures 5 + |m| <= |h| && h[5..5 + |m|] == m
    ensures ':' !in m && (5 + |m| == |h| || h[5 + |m|] == ':')
  {
    var t := h[5..];
    assert m in Split(t, ':');
    assert |m| <= |t| && m == t[..|m|];
    SuffixPrefix(h, 5, |m|);
    assert 5 + |m| < |h| ==> h[5 + |m|] == t[|m|];
  }

  /** The first `n` characters after position `k` are the slice from `k` to `k + n`. */
  lemma SuffixPrefix(h: string, k: nat, n: nat)
    requires k + n <= |h|
    ensures h[k..][..n] == h[k..k + n]
  {
  }

  /** A slice of a text without `c` has no `c` either. */
  lemma SliceAbsent(s: string, lo: int, hi: int, c: char)
    requires 0 <= lo <= hi <= |s| && c !in s
    ensures c !in s[lo..hi]
  {
    assert forall i :: lo <= i < hi ==> s[lo..hi][i - lo] == s[i];
  }

  /** The second ':'-field of a `data:`-prefixed text without ';' is the
      mime type it names. */
  lemma SecondField(h: string)
    requires "data:" <= h && ';' !in h
    ensures |Split(h, ':')| >= 2 && IsMimeOf(h, Split(h, ':')[1])
  {
    SchemeColonIsFirst(h);
    var m := Split(h[5..], ':')[0];
    FieldAfterScheme(h, m);
    SliceAbsent(h, 5, 5 + |m|, ';');
  }

  /** Cutting a header at its first ';' does not change the mime it names. */
  lemma MimeSurvivesParamsCut(header: string, h0: string, m: string)
    requires |h0| <= |header| && h0 == header[..|h0|]
    requires |h0| == |header| || header[|h0|] == ';'
    requires IsMimeOf(h0, m)
    ensures IsMimeOf(header, m)
  {
    assert header[5..5 + |m|] == h0[5..5 + |m|];
    if 5 + |m| < |h0| {
      assert header[5 + |m|] == h0[5 + |m|];
    }
  }

  /** The proof obligation of `MimeOfHeader` on a `data:` header: the text
      before the first ';' still starts with `data:`, so its ':'-split has a
      second field, and that field is the mime the header names. */
  lemma MimeOfDataHeader(header: string)
    ensures "data:" <= header ==>
      var fields := Split(Split(header, ';')[0], ':');
      |fields| >= 2 && IsMimeOf(header, fields[1])
  {
    if "data:" <= header {
      var h0 := Split(header, ';')[0];
      ParamsCutKeepsScheme(header);
      SecondField(h0);
      MimeSurvivesParamsCut(header, h0, Split(h0, ':')[1]);
    }
  }

  /** `d` is what the data URI `s` carries: `d.data` is everything after
      the first comma of `s`, and `d.mimeType` is the mime named by the
      header before it. */
  predicate IsDataUriParse(s: string, d: ImageData) {
    var k := |s| - |d.data| - 1;
    && 0 <= k
    && s[k] == ','
    && (forall i :: 0 <= i < k ==> s[i] != ',')
    && s[k + 1..] == d.data
    && IsMimeOf(s[..k], d.mimeType)
  }

  /** A header names at most one mime type. */
  lemma MimeUnique(header: string, m1: string, m2: string)
    requires IsMimeOf(header, m1) && IsMimeOf(header, m2)
    ensures m1 == m2
  {
    assert forall i :: 0 <= i < |m1| ==> header[5 + i] == m1[i];
    assert forall i :: 0 <= i < |m2| ==> header[5 + i] == m2[i];
    assert |m1| == |m2|;
  }

  /** A data URI carries at most one (mime, data) pair. */
  lemma DataUriParseUnique(s: string, d1: ImageData, d2: ImageData)
    requires IsDataUriParse(s, d1) && IsDataUriParse(s, d2)
    ensures d1 == d2
  {
    var k := |s| - |d1.data| - 1;
    assert |d1.data| == |d2.data|;
    MimeUnique(s[..k], d1.mimeType, d2.mimeType);
  }

  /** The data-URI branch of `get_image_data`:
      `header, data = s.split(',', 1)` and then the mime from the header. */
  function ParseDataUri(s: string): (r: Result<ImageData, InputError>)
    ensures ',' !in s ==> r == Failure(NotEnoughValuesToUnpack(1))
    ensures "data:" <= s && ',' in s ==> r.Success? && IsDataUriParse(s, r.value)
  {
    var parts := SplitOnce(s, ',');
    if |parts| != 2 then Failure(NotEnoughValuesToUnpack(|parts|))
    else
      var header, data := parts[0], parts[1];
      CommaCutKeepsScheme(s, header, data);
      var mime :- MimeOfHeader(header);
      CommaCut(s, header, data, mime);
      Success(ImageData(mime, data))
  }

  /** Cutting a data URI at its first comma keeps the `data:` prefix in the
      header. */
  lemma CommaCutKeepsScheme(s: string, header: string, data: string)
    requires s == header + [','] + data && ',' !in header
    ensures "data:" <= s ==> "data:" <= header
  {
    if "data:" <= s {
      assert s[..5] == "data:";
      assert forall i :: 0 <= i < 5 ==> s[i] != ',';
      assert s[|header|] == ',';
      assert |header| >= 5;
      assert header[..5] == s[..5];
    }
  }

  /** After a cut at the first comma, the data behind it together with the
      mime the header names is what the URI carries. */
  lemma CommaCut(s: string, header: string, data: string, mime: string)
    requires s == header + [','] + data && ',' !in header
    ensures IsMimeOf(header, mime) ==> IsDataUriParse(s, ImageData(mime, data))
  {
    assert forall i :: 0 <= i < |header| ==> s[i] == header[i];
    assert s[..|header|] == header;
    assert s[|header| + 1..] == data;
  }

  /** `get_image_data`: URLs go to `fetch` (the HTTP GET plus base64 of the
      body, not modelled here), data URIs are cut at their first comma, and
      anything else is passed through unchanged as JPEG. */
  function GetImageData(s: string, fetch: string -> Result<ImageData, string>): (r: Result<ImageData, InputError>)
    ensures Classify(s) == Url ==>
      (r.Success? <==> fetch(s).Success?) && (r.Success? ==> r.value == fetch(s).value)
    ensures Classify(s) == Url && fetch(s).Failure? ==> r == Failure(FetchFailed(fetch(s).error))
    ensures Classify(s) == RawBase64 ==> r == Success(ImageData(DefaultMimeType, s))
    ensures Classify(s) == DataUri && ',' !in s ==> r == Failure(NotEnoughValuesToUnpack(1))
    ensures Classify(s) == DataUri && ',' in s ==> r.Success? && IsDataUriParse(s, r.value)
  {
    match Classify(s)
    case Url =>
      (match fetch(s)
       case Success(d) => Success(d)
       case Failure(e) => Failure(FetchFailed(e)))
    case DataUri => ParseDataUri(s)
    case RawBase64 => Success(ImageData(DefaultMimeType, s))
  }

  /** `data:<mime>;base64,<data>` carries `mime` and `data`, for any mime
      type without ';', ':' or ','. */
  lemma DataUriOfParses(mime: string, data: string)
    requires ';' !in mime && ':' !in mime && ',' !in mime
    ensures IsDataUriParse(DataUriOf(mime, data), ImageData(mime, data))
  {
    var s := DataUriOf(mime, data);
    var header := "data:" + mime + ";base64";
    var k := |header|;
    assert s == header + [','] + data;
    assert forall i :: 0 <= i < |mime| ==> header[5 + i] == mime[i];
    assert forall i :: 0 <= i < k ==> s[i] == header[i];
    assert s[k + 1..] == data;
    assert s[..k] == header;
    assert IsMimeOf(header, mime);
  }

  /** Building `data:<mime>;base64,<data>` and parsing it back on the
      Gemini path gives the same mime and data, for any mime type without
      ';', ':' or ',', and any data, commas included. */
  lemma DataUriRoundTrip(mime: string, data: string, fetch: string -> Result<ImageData, string>)
    requires ';' !in mime && ':' !in mime && ',' !in mime
    ensures GetImageData(DataUriOf(mime, data), fetch) == Success(ImageData(mime, data))
  {
    var s := DataUriOf(mime, data);
    DataUriOfParses(mime, data);
    assert s[..5] == "data:";
    assert s[0] == 'd' && s[|s| - |data| - 1] == ',';
    DataUriParseUnique(s, GetImageData(s, fetch).value, ImageData(mime, data));
  }

  /** The characters `Clean` deletes are all white space; the characters
      that open a URL or data URI and end the JPEG data-URI prefix are not. */
  lemma SpaceFacts()
    ensures IsSpace('\n') && IsSpace('\r') && IsSpace(' ')
    ensures !IsSpace('h') && !IsSpace('d') && !IsSpace(',')
  {
  }

  /** Text `Clean` leaves as it is: no white space at either end, and no
      LF, CR or SPACE anywhere. */
  predicate Tidy(s: string) {
    && (s == [] || (!IsSpace(s[0]) && !IsSpace(s[|s| - 1])))
    && '\n' !in s && '\r' !in s && ' ' !in s
  }

  /** Tidy text followed by tidy text is tidy. */
  lemma TidyAppend(a: string, b: string)
    requires Tidy(a) && Tidy(b)
    ensures Tidy(a + b)
  {
    if a != [] && b != [] {
      assert (a + b)[0] == a[0];
      assert (a + b)[|a + b| - 1] == b[|b| - 1];
    } else if b == [] {
      assert a + b == a;
    } else {
      assert a + b == b;
    }
  }

  /** The cleaning of the OpenAI-compatible path:
      `s.strip().replace("\n", "").replace("\r", "").replace(" ", "")`. */
  function Clean(s: string): (r: string)
    ensures Tidy(r)
    ensures |r| <= |s|
  {
    var t := Strip(s);
    var noLf := Delete(t, '\n');
    var noCr := Delete(noLf, '\r');
    var r := Delete(noCr, ' ');
    DeleteKeepsAbsent(noLf, '\r', '\n');
    DeleteKeepsAbsent(noCr, ' ', '\n');
    DeleteKeepsAbsent(noCr, ' ', '\r');
    assert t != [] ==> r != [] && r[0] == t[0] && r[|r| - 1] == t[|t| - 1] by {
      SpaceFacts();
    }
    r
  }

  /** The three chained deletions of `Clean` are one removal of the set
      {LF, CR, SPACE} from the stripped input, order kept. */
  lemma CleanIsFilter(s: string)
    ensures Clean(s) == Filter(Strip(s), {'\n', '\r', ' '})
  {
    var t := Strip(s);
    DeleteIsFilter(t, '\n');
    DeleteAfterFilter(t, {'\n'}, '\r');
    DeleteAfterFilter(t, {'\n', '\r'}, ' ');
    assert {'\n'} + {'\r'} == {'\n', '\r'};
    assert {'\n', '\r'} + {' '} == {'\n', '\r', ' '};
  }

  /** Deleting a character that does not occur changes nothing. */
  lemma {:induction false} DeleteAbsent(s: string, c: char)
    requires c !in s
    ensures Delete(s, c) == s
  {
    if s != [] {
      var t := s[1..];
      assert s == [s[0]] + t;
      assert c !in t;
      DeleteAbsent(t, c);
      assert Delete(s, c) == [s[0]] + Delete(t, c);
    }
  }

  /** An input that is already tidy (no white space at the ends, no LF, CR
      or SPACE inside) comes out of `Clean` unchanged. */
  lemma CleanTidy(s: string)
    requires Tidy(s)
    ensures Clean(s) == s
  {
    TrimTrimmed(s, PythonSpace);
    DeleteAbsent(s, '\n');
    DeleteAbsent(s, '\r');
    DeleteAbsent(s, ' ');
  }

  /** Cleaning twice is cleaning once. */
  lemma CleanIdempotent(s: string)
    ensures Clean(Clean(s)) == Clean(s)
  {
    CleanTidy(Clean(s));
  }

  /** The default mime type has none of the characters data-URI parsing
      cuts at. */
  lemma JpegMimePlain()
    ensures ';' !in DefaultMimeType && ':' !in DefaultMimeType && ',' !in DefaultMimeType
  {
  }

  /** The JPEG data-URI head is tidy and reads as a data URI. */
  lemma JpegHeadTidy()
    ensures Tidy(DataUriHead(DefaultMimeType))
    ensures "data:" <= DataUriHead(DefaultMimeType)
  {
    var p := DataUriHead(DefaultMimeType);
    assert p == "data:image/jpeg;base64,";
    assert p[0] == 'd' && p[|p| - 1] == ',';
    assert forall i :: 0 <= i < |p| ==> p[i] != '\n' && p[i] != '\r' && p[i] != ' ';
    SpaceFacts();
  }

  /** Wrapping tidy text as a JPEG data URI gives tidy text again, and
      one that reads as a data URI. */
  lemma JpegWrapTidy(cleaned: string)
    requires Tidy(cleaned)
    ensures Classify(DataUriOf(DefaultMimeType, cleaned)) == DataUri
    ensures Clean(DataUriOf(DefaultMimeType, cleaned)) == DataUriOf(DefaultMimeType, cleaned)
  {
    var p := DataUriHead(DefaultMimeType);
    JpegHeadTidy();
    TidyAppend(p, cleaned);
    CleanTidy(p + cleaned);
    assert (p + cleaned)[..5] == p[..5];
    assert p[0] == 'd';
  }

  /** Cleaning ignores a strip done first. */
  lemma CleanAfterStrip(s: string)
    ensures Clean(Strip(s)) == Clean(s)
  {
    TrimIdempotent(s, PythonSpace);
  }

  /** The image URL sent to the OpenAI-compatible backend. The branch is
      chosen on the cleaned text, but a URL is sent as the merely stripped
      original, so spaces inside it survive; a data URI is sent cleaned;
      anything else is wrapped as a cleaned JPEG data URI. Once cleaned,
      the result carries exactly the cleaned input, behind the JPEG
      data-URI prefix in the raw case. */
  function FinalImageUrl(s: string): (r: string)
    ensures Clean(r) == if Classify(Clean(s)) == RawBase64 then DataUriOf(DefaultMimeType, Clean(s)) else Clean(s)
  {
    var cleaned := Clean(s);
    if HasUrlScheme(cleaned) then
      CleanAfterStrip(s);
      Strip(s)
    else if "data:" <= cleaned then
      CleanIdempotent(s);
      cleaned
    else
      JpegWrapTidy(cleaned);
      DataUriOf(DefaultMimeType, cleaned)
  }

  /** Which branch builds the final URL: the stripped original for a URL,
      the cleaned text for a data URI, a JPEG data URI otherwise. */
  lemma FinalImageUrlBranches(s: string)
    ensures Classify(Clean(s)) == Url ==> FinalImageUrl(s) == Strip(s)
    ensures Classify(Clean(s)) == DataUri ==> FinalImageUrl(s) == Clean(s)
    ensures Classify(Clean(s)) == RawBase64 ==> FinalImageUrl(s) == DataUriOf(DefaultMimeType, Clean(s))
  {
  }

  /** After cleaning, the final URL is never raw base64 any more: it always
      reads as a URL or as a data URI. */
  lemma FinalImageUrlNeverRaw(s: string)
    ensures Classify(Clean(FinalImageUrl(s))) != RawBase64
  {
    var cleaned := Clean(s);
    if Classify(cleaned) == RawBase64 {
      JpegWrapTidy(cleaned);
    }
  }

  /** For input the OpenAI path treats as raw base64, the data URI it builds
      reads back on the Gemini path as JPEG carrying the cleaned input. */
  lemma RawUrlReadsBack(s: string, fetch: string -> Result<ImageData, string>)
    requires Classify(Clean(s)) == RawBase64
    ensures GetImageData(FinalImageUrl(s), fetch) == Success(ImageData(DefaultMimeType, Clean(s)))
  {
    JpegMimePlain();
    DataUriRoundTrip(DefaultMimeType, Clean(s), fetch);
  }

  /** No trimming happens before classification: any leading white space
      makes the Gemini path treat even a URL as raw base64, unchanged. */
  lemma LeadingSpaceIsRaw(c: char, s: string, fetch: string -> Result<ImageData, string>)
    requires IsSpace(c)
    ensures Classify([c] + s) == RawBase64
    ensures GetImageData([c] + s, fetch) == Success(ImageData(DefaultMimeType, [c] + s))
  {
    assert ([c] + s)[0] == c;
  }

  /** A PNG data URI yields its mime and body. */
  lemma PngDataUriExample(fetch: string -> Result<ImageData, string>)
    ensures GetImageData("data:image/png;base64,AAAA", fetch) == Success(ImageData("image/png", "AAAA"))
  {
    assert "data:image/png;base64,AAAA" == DataUriOf("image/png", "AAAA");
    DataUriRoundTrip("image/png", "AAAA", fetch);
  }

  /** A data URI without a comma fails to unpack into header and body. */
  lemma NoCommaExample(fetch: string -> Result<ImageData, string>)
    ensures GetImageData("data:image/png;base64", fetch) == Failure(NotEnoughValuesToUnpack(1))
  {
    var s := "data:image/png;base64";
    assert s[..5] == "data:" && s[0] == 'd';
    assert ',' !in s;
  }

  /** URLs are recognised by scheme, and anything unrecognised is JPEG. */
  lemma UrlAndRawExamples(fetch: string -> Result<ImageData, string>)
    ensures Classify("https://x/y.png") == Url
    ensures GetImageData("AAAA", fetch) == Success(ImageData("image/jpeg", "AAAA"))
  {
    assert "https://x/y.png"[..8] == "https://";
    assert "AAAA"[0] == 'A';
  }

  /** One white-space character on each side is what `Strip` removes from
      text whose own ends are not white space. */
  lemma StripPadded(a: char, u: string, b: char)
    requires IsSpace(a) && IsSpace(b) && u != [] && !IsSpace(u[0]) && !IsSpace(u[|u| - 1])
    ensures Strip([a] + u + [b]) == u
  {
    var s := [a] + u + [b];
    assert s[0] == a && s[1] == u[0] && s[|s| - 1] == b && s[|s| - 2] == u[|u| - 1];
    assert SkipStart(s, PythonSpace, 0) == 1;
    assert SkipEnd(s, PythonSpace, 1, |s|) == |s| - 1;
    assert s[1..|s| - 1] == u;
  }

  /** Cleaning deletes the inner space of a URL whose only white space is
      one inner SPACE. */
  lemma CleanOfSpacedUrl(u: string, v: string)
    requires Tidy(u) && Tidy(v) && u != [] && v != []
    ensures Clean(u + " " + v) == u + v
  {
    var s := u + " " + v;
    assert s[0] == u[0] && s[|s| - 1] == v[|v| - 1];
    TrimTrimmed(s, PythonSpace);
    assert '\n' !in s && '\r' !in s by {
      assert forall i :: 0 <= i < |s| ==> s[i] in u || s[i] == ' ' || s[i] in v;
      SpaceFacts();
    }
    assert Strip(s) == s;
    DeleteAbsent(s, '\n');
    DeleteAbsent(s, '\r');
    assert Clean(s) == Delete(s, ' ');
    DeleteAppend(u + " ", v, ' ');
    DeleteAppend(u, " ", ' ');
    DeleteAbsent(u, ' ');
    DeleteAbsent(v, ' ');
    assert Delete(" ", ' ') == [];
    assert Delete(u + " ", ' ') == u;
  }

  /** The URL branch is chosen on the cleaned text but sends the stripped
      original, so a SPACE inside survives: `http://a b` is sent as is, and
      so is `ht tp://x`, which only the cleaned text reads as a URL. */
  lemma InnerSpaceSurvives(u: string, v: string)
    requires Tidy(u) && Tidy(v) && u != [] && v != []
    requires HasUrlScheme(u + v)
    ensures FinalImageUrl(u + " " + v) == u + " " + v
    ensures !HasUrlScheme(u + " " + v) && !("data:" <= u + " " + v) ==>
      Classify(FinalImageUrl(u + " " + v)) == RawBase64
  {
    var s := u + " " + v;
    CleanOfSpacedUrl(u, v);
    assert s[0] == u[0] && s[|s| - 1] == v[|v| - 1];
    TrimTrimmed(s, PythonSpace);
  }
}
