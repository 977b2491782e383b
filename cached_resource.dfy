/**
 * A cached HTTP response: status, content type, an ordered header list and a
 * body stored either gzipped or plain, with the content-negotiated copy of its
 * headers onto a servlet response.
 *
 * The servlet response is modelled as the sequence of `setHeader` / `addHeader`
 * calls it receives. The HTTP date parser is a parameter, and so are the
 * foreign gzip compressor and decompressor (see GZIPUtils).
 */
module CachedResources {
  import opened Common
  import GZIPUtils

  /** HttpServletResponse.SC_OK */
  const SC_OK := 200

  /** The header names the entry looks up. */
  const LAST_MODIFIED := "Last-Modified"
  const ETAG := "ETag"

  /** The marker a gzipped variant's entity tag carries before its closing quote. */
  const GZIP_ETAG_SUFFIX := "-gzip\""

  /**
   * A header as the cache stores it: a name and a value typed STRING, DATE
   * (milliseconds) or INT. `UnsupportedHeader` stands for any other type;
   * `rendered` is what its value's `toString()` gives.
   */
  datatype HttpHeader =
    | StringHeader(name: string, text: string)
    | DateHeader(name: string, millis: int)
    | IntHeader(name: string, number: int)
    | UnsupportedHeader(name: string, rendered: string)

  /** `header.value().toString()` */
  function ValueString(h: HttpHeader): string
  {
    match h
    case StringHeader(_, text) => text
    case DateHeader(_, millis) => DecimalString(millis)
    case IntHeader(_, number) => DecimalString(number)
    case UnsupportedHeader(_, rendered) => rendered
  }

  /** The immutable cache entry. `content` is `None` when the stored body is null. */
  datatype CachedResource = CachedResource(
    status: int,
    contentType: string,
    storeGzipped: bool,
    content: Option<seq<byte>>,
    headers: seq<HttpHeader>)

  // ---------------------------------------------------------------------------
  // Construction
  // ---------------------------------------------------------------------------

  /** Some header's value is the string "gzip" (whatever the header's name). */
  predicate MarksBodyGzipped(headers: seq<HttpHeader>)
  {
    exists i :: 0 <= i < |headers| && headers[i].StringHeader? && headers[i].text == "gzip"
  }

  /** `isBodyParameterGzipped`: scans the header collection; a null collection fails. */
  method IsBodyParameterGzipped(headers: Option<seq<HttpHeader>>) returns (r: Result<bool>)
    ensures headers.None? ==> r == Err(NullPointer)
    ensures headers.Some? ==> r == Ok(MarksBodyGzipped(headers.value))
  {
    if headers.None? {
      return Err(NullPointer);
    }
    var hs := headers.value;
    var i := 0;
    while i < |hs|
      invariant 0 <= i <= |hs|
      invariant forall j :: 0 <= j < i ==> !(hs[j].StringHeader? && hs[j].text == "gzip")
    {
      if hs[i].StringHeader? && hs[i].text == "gzip" {
        return Ok(true);
      }
      i := i + 1;
    }
    return Ok(false);
  }

  /**
   * The body `toStorableContent` keeps, for a non-null header list: as given
   * when storing gzipped and a header says "gzip"; compressed when storing
   * gzipped otherwise, the IOException of an already-gzipped body being
   * swallowed into a null content; rejected when storing plain although a
   * header says "gzip"; as given otherwise.
   */
  function StoredContent(body: Option<seq<byte>>, storeGzipped: bool, headers: seq<HttpHeader>,
                         deflate: seq<byte> -> seq<byte>): Result<Option<seq<byte>>>
  {
    if storeGzipped then
      if MarksBodyGzipped(headers) then Ok(body)
      else match GZIPUtils.Gzip(body, deflate)
        case Ok(compressed) => Ok(Some(compressed))
        case Err(e) => if e == IO then Ok(None) else Err(e)
    else if MarksBodyGzipped(headers) then Err(IllegalArgument)
    else Ok(body)
  }

  /** `toStorableContent` */
  method ToStorableContent(body: Option<seq<byte>>, storeGzipped: bool, headers: Option<seq<HttpHeader>>,
                           deflate: seq<byte> -> seq<byte>) returns (r: Result<Option<seq<byte>>>)
    ensures headers.None? ==> r == Err(NullPointer)
    ensures headers.Some? ==> r == StoredContent(body, storeGzipped, headers.value, deflate)
  {
    if storeGzipped {
      var marked :- IsBodyParameterGzipped(headers);
      if marked {
        return Ok(body);
      }
      var compressed := GZIPUtils.Gzip(body, deflate);
      if compressed.Err? {
        // only the IOException is caught (and logged); the content stays null
        return if compressed.error == IO then Ok(None) else Err(compressed.error);
      }
      return Ok(Some(compressed.value));
    } else {
      var marked :- IsBodyParameterGzipped(headers);
      if marked {
        return Err(IllegalArgument);
      }
      return Ok(body);
    }
  }

  /** The constructor: copies the headers in order and stores the body as `toStorableContent` decides. */
  method New(status: int, contentType: string, body: Option<seq<byte>>, storeGzipped: bool,
             headers: Option<seq<HttpHeader>>, deflate: seq<byte> -> seq<byte>) returns (r: Result<CachedResource>)
    ensures headers.None? ==> r == Err(NullPointer)
    ensures headers.Some? ==>
      match StoredContent(body, storeGzipped, headers.value, deflate)
      case Ok(content) => r == Ok(CachedResource(status, contentType, storeGzipped, content, headers.value))
      case Err(e) => r == Err(e)
  {
    var hs: seq<HttpHeader> := [];
    if headers.Some? {
      hs := hs + headers.value;  // this._headers.addAll(headers)
    }
    var content :- ToStorableContent(body, storeGzipped, headers, deflate);
    assert headers.Some? ==> hs == headers.value;
    return Ok(CachedResource(status, contentType, storeGzipped, content, hs));
  }

  /** Construction fails exactly when the header list is null, when a plain entry is given a body a header marks as gzip, or when a body to compress is null. */
  lemma ConstructionFailures(body: Option<seq<byte>>, storeGzipped: bool, headers: seq<HttpHeader>,
                             deflate: seq<byte> -> seq<byte>)
    ensures StoredContent(body, storeGzipped, headers, deflate).Err? <==>
      (!storeGzipped && MarksBodyGzipped(headers)) ||
      (storeGzipped && !MarksBodyGzipped(headers) && body.None?)
    ensures !storeGzipped && MarksBodyGzipped(headers) ==>
      StoredContent(body, storeGzipped, headers, deflate) == Err(IllegalArgument)
  {
  }

  // ---------------------------------------------------------------------------
  // Body accessors
  // ---------------------------------------------------------------------------

  /** `getGzippedBody`: the stored bytes when stored gzipped, else null. */
  function GetGzippedBody(c: CachedResource): (r: Option<seq<byte>>)
    ensures c.storeGzipped ==> r == c.content
    ensures !c.storeGzipped ==> r.None?
  {
    if c.storeGzipped then c.content else None
  }

  /** What `getUngzippedBody` returns: the stored bytes unchanged when stored plain, else their decompression. */
  function UngzippedBody(c: CachedResource, inflate: seq<byte> -> seq<GZIPUtils.ReadOutcome>): Result<Option<seq<byte>>>
  {
    if !c.storeGzipped then Ok(c.content)
    else match c.content
      case None => Err(NullPointer)
      case Some(stored) =>
        var inflated := GZIPUtils.Inflated(inflate(stored));
        if inflated.Ok? then Ok(Some(inflated.value)) else Err(inflated.error)
  }

  /** `getUngzippedBody` */
  method GetUngzippedBody(c: CachedResource, inflate: seq<byte> -> seq<GZIPUtils.ReadOutcome>)
    returns (r: Result<Option<seq<byte>>>)
    requires c.storeGzipped && c.content.Some? ==> GZIPUtils.ChunksFit(inflate(c.content.value))
    ensures r == UngzippedBody(c, inflate)
    ensures !c.storeGzipped ==> r == Ok(c.content)
  {
    if c.storeGzipped {
      var inflated := GZIPUtils.Ungzip(c.content, inflate);
      if inflated.Err? {
        return Err(inflated.error);
      }
      return Ok(Some(inflated.value));
    } else {
      return Ok(c.content);
    }
  }

  /** `hasGzippedBody` */
  predicate HasGzippedBody(c: CachedResource)
  {
    c.storeGzipped && c.content.Some?
  }

  /** `hasUngzippedBody` */
  predicate HasUngzippedBody(c: CachedResource)
  {
    !c.storeGzipped && c.content.Some?
  }

  /** At most one representation is present, and each `has*Body` agrees with its accessor. */
  lemma BodyRepresentations(c: CachedResource, inflate: seq<byte> -> seq<GZIPUtils.ReadOutcome>)
    ensures !(HasGzippedBody(c) && HasUngzippedBody(c))
    ensures HasGzippedBody(c) <==> GetGzippedBody(c).Some?
    ensures HasUngzippedBody(c) <==> !c.storeGzipped && UngzippedBody(c, inflate) != Ok(None)
  {
  }

  /**
   * Storage choice: an entry stored plain hands back the body it was given;
   * an entry stored gzipped from an unmarked body holds the compressor's
   * output; an already-gzipped body that was to be compressed leaves the
   * entry with no body at all.
   */
  lemma {:induction false} StorageChoice(status: int, contentType: string, body: Option<seq<byte>>,
                                         storeGzipped: bool, headers: seq<HttpHeader>,
                                         deflate: seq<byte> -> seq<byte>,
                                         inflate: seq<byte> -> seq<GZIPUtils.ReadOutcome>)
    requires StoredContent(body, storeGzipped, headers, deflate).Ok?
    ensures var c := CachedResource(status, contentType, storeGzipped,
                                    StoredContent(body, storeGzipped, headers, deflate).value, headers);
      && (!storeGzipped ==> UngzippedBody(c, inflate) == Ok(body) && GetGzippedBody(c).None?)
      && (storeGzipped && MarksBodyGzipped(headers) ==> GetGzippedBody(c) == body)
      && (storeGzipped && !MarksBodyGzipped(headers) && !GZIPUtils.IsGzipped(body) ==>
            GetGzippedBody(c) == Some(deflate(body.value)))
      && (storeGzipped && !MarksBodyGzipped(headers) && GZIPUtils.IsGzipped(body) ==>
            !HasGzippedBody(c) && !HasUngzippedBody(c))
  {
    if storeGzipped && !MarksBodyGzipped(headers) {
      assert body.Some?;
    }
  }

  // ---------------------------------------------------------------------------
  // Validators
  // ---------------------------------------------------------------------------

  /** `isOK` */
  predicate IsOK(c: CachedResource)
  {
    c.status == SC_OK
  }

  /** Whether a header's name is `target`, ignoring case or not. */
  predicate NameMatches(h: HttpHeader, target: string, ignoreCase: bool)
  {
    if ignoreCase then EqualsIgnoreCase(h.name, target) else h.name == target
  }

  /** The index of the first header named `target`, or -1 when none is. */
  function FirstNamed(hs: seq<HttpHeader>, target: string, ignoreCase: bool): (i: int)
    ensures -1 <= i < |hs|
    ensures i == -1 <==> forall j :: 0 <= j < |hs| ==> !NameMatches(hs[j], target, ignoreCase)
    ensures 0 <= i ==> NameMatches(hs[i], target, ignoreCase)
    ensures 0 <= i ==> forall j :: 0 <= j < i ==> !NameMatches(hs[j], target, ignoreCase)
  {
    if hs == [] then -1
    else if NameMatches(hs[0], target, ignoreCase) then 0
    else
      var j := FirstNamed(hs[1..], target, ignoreCase);
      if j == -1 then -1 else j + 1
  }

  /** The date a Last-Modified header carries: its value for DATE, the parsed text for STRING. */
  function LastModifiedOf(h: HttpHeader, parseDate: string -> int): Result<int>
  {
    match h
    case StringHeader(_, text) => Ok(parseDate(text))
    case DateHeader(_, millis) => Ok(millis)
    case _ => Err(IllegalArgument)
  }

  /** `getLastModified`: the date of the first header named Last-Modified (any case), or -1. */
  method GetLastModified(c: CachedResource, parseDate: string -> int) returns (r: Result<int>)
    ensures var i := FirstNamed(c.headers, LAST_MODIFIED, true);
      r == if i == -1 then Ok(-1) else LastModifiedOf(c.headers[i], parseDate)
  {
    var i := 0;
    while i < |c.headers|
      invariant 0 <= i <= |c.headers|
      invariant forall j :: 0 <= j < i ==> !NameMatches(c.headers[j], LAST_MODIFIED, true)
    {
      var h := c.headers[i];
      if EqualsIgnoreCase(LAST_MODIFIED, h.name) {
        assert FirstNamed(c.headers, LAST_MODIFIED, true) == i;
        match h
        case StringHeader(_, text) => return Ok(parseDate(text));
        case DateHeader(_, millis) => return Ok(millis);
        case _ => return Err(IllegalArgument);
      }
      i := i + 1;
    }
    return Ok(-1);
  }

  /** `getETag`: the value of the first header named exactly "ETag", or null. */
  method GetETag(c: CachedResource) returns (r: Option<string>)
    ensures var i := FirstNamed(c.headers, ETAG, false);
      r == if i == -1 then None else Some(ValueString(c.headers[i]))
  {
    var i := 0;
    while i < |c.headers|
      invariant 0 <= i <= |c.headers|
      invariant forall j :: 0 <= j < i ==> !NameMatches(c.headers[j], ETAG, false)
    {
      if c.headers[i].name == ETAG {
        assert FirstNamed(c.headers, ETAG, false) == i;
        return Some(ValueString(c.headers[i]));
      }
      i := i + 1;
    }
    return None;
  }

  // ---------------------------------------------------------------------------
  // Entity-tag variants
  // ---------------------------------------------------------------------------

  /**
   * The value adjustment `copyHeadersTo` applies to a repeated ETag header,
   * as written: serving plain, a value ending in `-gzip"` loses EVERY
   * occurrence of `-gzip"` (closing quote included); serving gzipped, a value
   * not ending in it has its last character replaced by `-gzip"` (an empty
   * value makes `substring(0, -1)` throw).
   */
  function AdjustETag(value: string, gzipped: bool): (r: Result<string>)
    ensures r.Err? <==> gzipped && value == []
    ensures gzipped && r.Ok? ==> EndsWith(r.value, GZIP_ETAG_SUFFIX)
    ensures !gzipped && !EndsWith(value, GZIP_ETAG_SUFFIX) ==> r == Ok(value)
    ensures var stem := |value| - |GZIP_ETAG_SUFFIX|;
      !gzipped && EndsWith(value, GZIP_ETAG_SUFFIX) && !Contains(value[..stem], GZIP_ETAG_SUFFIX) ==> r == Ok(value[..stem])
    ensures gzipped && EndsWith(value, GZIP_ETAG_SUFFIX) ==> r == Ok(value)
    ensures gzipped && !EndsWith(value, GZIP_ETAG_SUFFIX) && value != [] ==>
      r.Ok? && value[..|value| - 1] <= r.value && |r.value| == |value| - 1 + |GZIP_ETAG_SUFFIX|
  {
    if !gzipped && EndsWith(value, GZIP_ETAG_SUFFIX) then
      var stem := value[..|value| - |GZIP_ETAG_SUFFIX|];
      assert value == stem + GZIP_ETAG_SUFFIX;
      StripFinalMarker(stem);
      Ok(ReplaceAll(value, GZIP_ETAG_SUFFIX, ""))
    else if gzipped && !EndsWith(value, GZIP_ETAG_SUFFIX) then
      if |value| == 0 then Err(IndexOutOfBounds)
      else Ok(value[..|value| - 1] + GZIP_ETAG_SUFFIX)
    else Ok(value)
  }

  /** As written, serving plain strips the marker together with the closing quote of the tag. */
  lemma AdjustETagStripLosesQuote()
    ensures AdjustETag("\"abc-gzip\"", false) == Ok("\"abc")
  {
    assert EndsWith("\"abc-gzip\"", GZIP_ETAG_SUFFIX);
    StripSuffixExample();
  }

  /** Serving gzipped again, the damaged tag loses its last real character to the marker. */
  lemma AdjustETagRetagsDamaged()
    ensures AdjustETag("\"abc", true) == Ok("\"ab-gzip\"")
  {
    assert !EndsWith("\"abc", GZIP_ETAG_SUFFIX);
    assert "\"abc"[..3] == "\"ab";
    assert "\"ab" + GZIP_ETAG_SUFFIX == "\"ab-gzip\"";
    assert AdjustETag("\"abc", true) == Ok("\"abc"[..3] + GZIP_ETAG_SUFFIX);
  }

  /** So, as written, the two variants of a tag do not toggle back: plain then gzipped turns "abc-gzip" into "ab-gzip". */
  lemma AdjustETagDoesNotToggle()
    ensures AdjustETag(AdjustETag("\"abc-gzip\"", false).value, true) == Ok("\"ab-gzip\"")
    ensures AdjustETag(AdjustETag("\"abc-gzip\"", false).value, true) != Ok("\"abc-gzip\"")
  {
    AdjustETagStripLosesQuote();
    AdjustETagRetagsDamaged();
    assert "\"ab-gzip\""[3] != "\"abc-gzip\""[3];
  }

  /** `replace("-gzip\"", "")` on the tagged value drops the marker together with the closing quote. */
  lemma StripSuffixExample()
    ensures ReplaceAll("\"abc-gzip\"", GZIP_ETAG_SUFFIX, "") == "\"abc"
  {
    var p := "\"abc";
    assert p + GZIP_ETAG_SUFFIX == "\"abc-gzip\"";
    StripOnlyMarker(p);
  }

  /** The marker alone is replaced by nothing. */
  lemma StripWholeSuffix()
    ensures ReplaceAll(GZIP_ETAG_SUFFIX, GZIP_ETAG_SUFFIX, "") == ""
  {
    assert GZIP_ETAG_SUFFIX[|GZIP_ETAG_SUFFIX|..] == [];
    assert GZIP_ETAG_SUFFIX[..|GZIP_ETAG_SUFFIX|] == GZIP_ETAG_SUFFIX;
  }

  /** Before a final marker, text holding no '-' is kept and the marker removed. */
  lemma StripOnlyMarker(p: string)
    requires forall k :: 0 <= k < |p| ==> p[k] != '-'
    ensures ReplaceAll(p + GZIP_ETAG_SUFFIX, GZIP_ETAG_SUFFIX, "") == p
  {
    MissingCharNotContained(p, GZIP_ETAG_SUFFIX, 0);
    StripFinalMarker(p);
  }

  /**
   * Text holding no marker, followed by the marker, loses exactly that
   * marker: no occurrence can straddle the two, since '-' appears in the
   * marker only at its start.
   */
  lemma {:induction false} StripFinalMarker(p: string)
    ensures !Contains(p, GZIP_ETAG_SUFFIX) ==> ReplaceAll(p + GZIP_ETAG_SUFFIX, GZIP_ETAG_SUFFIX, "") == p
    decreases |p|
  {
    if !Contains(p, GZIP_ETAG_SUFFIX) {
      if p == [] {
        assert p + GZIP_ETAG_SUFFIX == GZIP_ETAG_SUFFIX;
        StripWholeSuffix();
      } else {
        var s := p + GZIP_ETAG_SUFFIX;
        MarkerNotStraddled(p);
        ReplaceAllSkip(s, GZIP_ETAG_SUFFIX, "");
        assert s[1..] == p[1..] + GZIP_ETAG_SUFFIX;
        NotContainedInTail(p, GZIP_ETAG_SUFFIX);
        StripFinalMarker(p[1..]);
        assert [p[0]] + p[1..] == p;
      }
    }
  }

  /** Non-empty text without the marker, followed by the marker, does not start with it. */
  lemma MarkerNotStraddled(p: string)
    requires p != [] && !Contains(p, GZIP_ETAG_SUFFIX)
    ensures !OccursAt(p + GZIP_ETAG_SUFFIX, GZIP_ETAG_SUFFIX, 0)
  {
    var s := p + GZIP_ETAG_SUFFIX;
    if |p| >= |GZIP_ETAG_SUFFIX| {
      assert s[..6] == p[..6];
      assert !OccursAt(p, GZIP_ETAG_SUFFIX, 0);
    } else {
      assert s[..6][|p|] == '-' != GZIP_ETAG_SUFFIX[|p|];
    }
  }

  /**
   * The adjustment evidently intended: the marker is added before, and
   * removed from in front of, the closing delimiter, which stays.
   */
  function AdjustETagFixed(value: string, gzipped: bool): (r: Result<string>)
    ensures r.Err? <==> gzipped && value == []
    ensures gzipped && r.Ok? ==> EndsWith(r.value, GZIP_ETAG_SUFFIX)
    ensures !gzipped && EndsWith(value, GZIP_ETAG_SUFFIX) ==> r.Ok? && |r.value| == |value| - 5 && EndsWith(r.value, "\"")
  {
    if !gzipped && EndsWith(value, GZIP_ETAG_SUFFIX) then
      Ok(value[..|value| - |GZIP_ETAG_SUFFIX|] + "\"")
    else if gzipped && !EndsWith(value, GZIP_ETAG_SUFFIX) then
      if |value| == 0 then Err(IndexOutOfBounds)
      else Ok(value[..|value| - 1] + GZIP_ETAG_SUFFIX)
    else Ok(value)
  }

  /** With the fixed adjustment, tagging a quoted plain tag and stripping it again gives the tag back. */
  lemma TagThenStrip(value: string)
    requires EndsWith(value, "\"") && !EndsWith(value, GZIP_ETAG_SUFFIX)
    ensures AdjustETagFixed(AdjustETagFixed(value, true).value, false) == Ok(value)
  {
    var n := |value|;
    var tagged := value[..n - 1] + GZIP_ETAG_SUFFIX;
    assert AdjustETagFixed(value, true) == Ok(tagged);
    assert tagged[n - 1..] == GZIP_ETAG_SUFFIX;
    assert tagged[..n - 1] == value[..n - 1];
    assert value[..n - 1] + "\"" == value by {
      assert value[n - 1..] == "\"";
    }
  }

  /** With the fixed adjustment, stripping a gzip tag and tagging it again gives the tag back. */
  lemma StripThenTag(value: string)
    requires EndsWith(value, GZIP_ETAG_SUFFIX)
    requires !EndsWith(AdjustETagFixed(value, false).value, GZIP_ETAG_SUFFIX)
    ensures AdjustETagFixed(AdjustETagFixed(value, false).value, true) == Ok(value)
  {
    var n := |value|;
    var stem := value[..n - 6];
    var plain := stem + "\"";
    assert AdjustETagFixed(value, false) == Ok(plain);
    assert plain[..|plain| - 1] == stem;
    assert stem + GZIP_ETAG_SUFFIX == value by {
      assert value[n - 6..] == GZIP_ETAG_SUFFIX;
    }
  }

  // ---------------------------------------------------------------------------
  // copyHeadersTo
  // ---------------------------------------------------------------------------

  /** The value of one call on the response: setHeader / setDateHeader / setIntHeader and their add forms. */
  datatype HeaderValue = TextValue(text: string) | DateValue(millis: int) | IntValue(number: int)

  /** One call on the servlet response. */
  datatype Event = SetHeader(name: string, value: HeaderValue) | AddHeader(name: string, value: HeaderValue)

  /** The calls made, and the exception that stopped the copy if one did. */
  datatype Emission = Emission(events: seq<Event>, failure: Option<Exception>)

  /** Whether `name` is "etag" ignoring case. */
  predicate IsETagName(name: string)
  {
    EqualsIgnoreCase("etag", name)
  }

  /** The value a header is SET with (its first occurrence): always as stored. */
  function SetValue(h: HttpHeader): HeaderValue
    requires !h.UnsupportedHeader?
  {
    match h
    case StringHeader(_, text) => TextValue(text)
    case DateHeader(_, millis) => DateValue(millis)
    case IntHeader(_, number) => IntValue(number)
  }

  /**
   * The value a header is ADDED with (a later occurrence): an ETag's text is
   * adjusted for the variant, by the adjustment as written (`AdjustETag`) or,
   * when `corrected`, by the corrected one (`AdjustETagFixed`).
   */
  function AddValue(h: HttpHeader, gzipped: bool, corrected: bool): Result<HeaderValue>
    requires !h.UnsupportedHeader?
  {
    match h
    case StringHeader(name, text) =>
      if IsETagName(name) then
        var adjusted :- if corrected then AdjustETagFixed(text, gzipped) else AdjustETag(text, gzipped);
        Ok(TextValue(adjusted))
      else Ok(TextValue(text))
    case DateHeader(_, millis) => Ok(DateValue(millis))
    case IntHeader(_, number) => Ok(IntValue(number))
  }

  /** One iteration of `copyHeadersTo`, given the (lower-cased) names already set. */
  function EmitOne(h: HttpHeader, gzipped: bool, corrected: bool, seen: set<string>): Result<(Event, set<string>)>
  {
    if h.UnsupportedHeader? then Err(IllegalArgument)
    else if ToLower(h.name) in seen then
      var v :- AddValue(h, gzipped, corrected);
      Ok((AddHeader(h.name, v), seen))
    else Ok((SetHeader(h.name, SetValue(h)), seen + {ToLower(h.name)}))
  }

  /**
   * The calls `copyHeadersTo` makes for a header list, in list order, with
   * the ETag adjustment as written, or the corrected one when `corrected`.
   */
  function Emit(hs: seq<HttpHeader>, gzipped: bool, corrected: bool, seen: set<string>): Emission
    decreases |hs|
  {
    if hs == [] then Emission([], None)
    else match EmitOne(hs[0], gzipped, corrected, seen)
      case Err(e) => Emission([], Some(e))
      case Ok(step) =>
        var rest := Emit(hs[1..], gzipped, corrected, step.1);
        Emission([step.0] + rest.events, rest.failure)
  }

  /** `prefix` followed by the calls of `e`. */
  function After(prefix: seq<Event>, e: Emission): Emission
  {
    Emission(prefix + e.events, e.failure)
  }

  /** One iteration of `copyHeadersTo`'s loop: the call made for `header`, and the names set so far. */
  method CopyHeader(header: HttpHeader, gzipped: bool, setHeaders: set<string>)
    returns (r: Result<(Event, set<string>)>)
    ensures r == EmitOne(header, gzipped, false, setHeaders)
  {
    var name := header.name;
    match header {
      case StringHeader(_, text) =>
        if ToLower(name) in setHeaders {
          var value := text;
          if IsETagName(name) {
            value :- AdjustETag(value, gzipped);
          }
          return Ok((AddHeader(name, TextValue(value)), setHeaders));
        }
        return Ok((SetHeader(name, TextValue(text)), setHeaders + {ToLower(name)}));
      case DateHeader(_, millis) =>
        if ToLower(name) in setHeaders {
          return Ok((AddHeader(name, DateValue(millis)), setHeaders));
        }
        return Ok((SetHeader(name, DateValue(millis)), setHeaders + {ToLower(name)}));
      case IntHeader(_, number) =>
        if ToLower(name) in setHeaders {
          return Ok((AddHeader(name, IntValue(number)), setHeaders));
        }
        return Ok((SetHeader(name, IntValue(number)), setHeaders + {ToLower(name)}));
      case UnsupportedHeader(_, _) =>
        return Err(IllegalArgument);
    }
  }

  /**
   * `copyHeadersTo`: a case-insensitive set of names already set decides, for
   * each header in order, between a set call (first occurrence) and an add
   * call (every later one); an unsupported type stops the copy with an
   * IllegalArgumentException after the calls already made.
   */
  method CopyHeadersTo(c: CachedResource, gzipped: bool) returns (events: seq<Event>, failure: Option<Exception>)
    ensures Emission(events, failure) == Emit(c.headers, gzipped, false, {})
  {
    var setHeaders: set<string> := {};
    events := [];
    var i := 0;
    assert c.headers[i..] == c.headers;
    while i < |c.headers|
      invariant 0 <= i <= |c.headers|
      invariant After(events, Emit(c.headers[i..], gzipped, false, setHeaders)) == Emit(c.headers, gzipped, false, {})
    {
      var step := CopyHeader(c.headers[i], gzipped, setHeaders);
      if step.Err? {
        assert Emit(c.headers[i..], gzipped, false, setHeaders) == Emission([], Some(step.error));
        assert events + [] == events;
        return events, Some(step.error);
      }
      assert c.headers[i..][1..] == c.headers[i + 1..];
      assert events + ([step.value.0] + Emit(c.headers[i + 1..], gzipped, false, step.value.1).events)
          == (events + [step.value.0]) + Emit(c.headers[i + 1..], gzipped, false, step.value.1).events;
      events := events + [step.value.0];
      setHeaders := step.value.1;
      i := i + 1;
    }
    assert c.headers[i..] == [];
    assert events + [] == events;
    return events, None;
  }

  /** Header `i` is the first of its name (ignoring case), none of the names in `seen` counting as earlier. */
  predicate FirstOfName(hs: seq<HttpHeader>, i: int, seen: set<string>)
    requires 0 <= i < |hs|
  {
    ToLower(hs[i].name) !in seen && forall j :: 0 <= j < i ==> ToLower(hs[j].name) != ToLower(hs[i].name)
  }

  /**
   * A copy that completes makes exactly one call per header, in list order,
   * under the header's own name: a set call with the stored value for the
   * first occurrence of a name, an add call for every later one, whose
   * value is adjusted only for an ETag.
   */
  lemma {:induction false} EmitCallPerHeader(hs: seq<HttpHeader>, gzipped: bool, corrected: bool, seen: set<string>)
    requires Emit(hs, gzipped, corrected, seen).failure.None?
    ensures var events := Emit(hs, gzipped, corrected, seen).events;
      && |events| == |hs|
      && forall i :: 0 <= i < |hs| ==>
           && !hs[i].UnsupportedHeader?
           && events[i].name == hs[i].name
           && (events[i].SetHeader? <==> FirstOfName(hs, i, seen))
           && (events[i].SetHeader? ==> events[i].value == SetValue(hs[i]))
           && (events[i].AddHeader? ==> AddValue(hs[i], gzipped, corrected) == Ok(events[i].value))
    decreases |hs|
  {
    if hs != [] {
      var step := EmitOne(hs[0], gzipped, corrected, seen).value;
      var seen' := step.1;
      assert seen' == seen + {ToLower(hs[0].name)};
      EmitCallPerHeader(hs[1..], gzipped, corrected, seen');
      var events := Emit(hs, gzipped, corrected, seen).events;
      var rest := Emit(hs[1..], gzipped, corrected, seen').events;
      assert events == [step.0] + rest;
      forall i | 0 <= i < |hs|
        ensures !hs[i].UnsupportedHeader?
        ensures events[i].name == hs[i].name
        ensures events[i].SetHeader? <==> FirstOfName(hs, i, seen)
        ensures events[i].SetHeader? ==> events[i].value == SetValue(hs[i])
        ensures events[i].AddHeader? ==> AddValue(hs[i], gzipped, corrected) == Ok(events[i].value)
      {
        if i > 0 {
          assert hs[1..][i - 1] == hs[i];
          assert events[i] == rest[i - 1];
          assert FirstOfName(hs[1..], i - 1, seen') <==> FirstOfName(hs, i, seen) by {
            forall j | 0 <= j < i - 1 ensures hs[1..][j] == hs[j + 1] { }
          }
        }
      }
    }
  }

  /** The copy completes when every header has a supported type and no repeated ETag needs an empty value adjusted. */
  lemma {:induction false} EmitCompletes(hs: seq<HttpHeader>, gzipped: bool, corrected: bool, seen: set<string>)
    requires forall i :: 0 <= i < |hs| ==> !hs[i].UnsupportedHeader?
    requires gzipped ==> forall i :: 0 <= i < |hs| && hs[i].StringHeader? && IsETagName(hs[i].name) ==> hs[i].text != []
    ensures Emit(hs, gzipped, corrected, seen).failure.None?
    decreases |hs|
  {
    if hs != [] {
      assert EmitOne(hs[0], gzipped, corrected, seen).Ok?;
      EmitCompletes(hs[1..], gzipped, corrected, EmitOne(hs[0], gzipped, corrected, seen).value.1);
    }
  }

  /** A header of an unsupported type makes the copy fail, after the calls for the headers before the failing one. */
  lemma {:induction false} EmitFailsOnUnsupported(hs: seq<HttpHeader>, gzipped: bool, corrected: bool, seen: set<string>, k: nat)
    requires k < |hs| && hs[k].UnsupportedHeader?
    ensures Emit(hs, gzipped, corrected, seen).failure.Some?
    ensures |Emit(hs, gzipped, corrected, seen).events| <= k
    decreases |hs|
  {
    if k > 0 && EmitOne(hs[0], gzipped, corrected, seen).Ok? {
      EmitFailsOnUnsupported(hs[1..], gzipped, corrected, EmitOne(hs[0], gzipped, corrected, seen).value.1, k - 1);
    }
  }

  /** Two headers of the same name: one set call with the first value, then one add call with the second. */
  lemma RepeatedHeaderSetThenAdd(gzipped: bool, corrected: bool)
    ensures Emit([StringHeader("X-A", "1"), StringHeader("X-A", "2")], gzipped, corrected, {})
         == Emission([SetHeader("X-A", TextValue("1")), AddHeader("X-A", TextValue("2"))], None)
  {
    var hs := [StringHeader("X-A", "1"), StringHeader("X-A", "2")];
    assert !IsETagName("X-A") by { assert ToLower("X-A")[0] == 'x'; }
    assert hs[1..][1..] == [];
  }

  /** A lone ETag is set verbatim, whatever variant is served: only repeated ETags are adjusted. */
  lemma FirstETagVerbatim(value: string, gzipped: bool, corrected: bool)
    ensures Emit([StringHeader(ETAG, value)], gzipped, corrected, {})
         == Emission([SetHeader(ETAG, TextValue(value))], None)
  {
    assert [StringHeader(ETAG, value)][1..] == [];
  }

  /**
   * A repeated ETag copied for the uncompressed variant: the copy as written
   * adds the tag without its closing quote.
   */
  lemma RepeatedETagCopied()
    ensures Emit([StringHeader(ETAG, "\"x\""), StringHeader(ETAG, "\"abc-gzip\"")], false, false, {})
         == Emission([SetHeader(ETAG, TextValue("\"x\"")), AddHeader(ETAG, TextValue("\"abc"))], None)
  {
    AdjustETagStripLosesQuote();
    RepeatedETagSteps("\"x\"", "\"abc-gzip\"", false, "\"abc");
  }

  /** The same copy with the corrected adjustment adds the original tag. */
  lemma RepeatedETagCopiedFixed()
    ensures Emit([StringHeader(ETAG, "\"x\""), StringHeader(ETAG, "\"abc-gzip\"")], false, true, {})
         == Emission([SetHeader(ETAG, TextValue("\"x\"")), AddHeader(ETAG, TextValue("\"abc\""))], None)
  {
    assert EndsWith("\"abc-gzip\"", GZIP_ETAG_SUFFIX);
    assert "\"abc-gzip\""[..4] + "\"" == "\"abc\"";
    RepeatedETagSteps("\"x\"", "\"abc-gzip\"", true, "\"abc\"");
  }

  /** "ETag" is the ETag name: folded, it reads "etag". */
  lemma ETagNameFolds()
    ensures ToLower(ETAG) == "etag" && IsETagName(ETAG)
  {
    assert ToLower(ETAG) == "etag";
    assert ToLower("etag") == "etag";
  }

  /** The two calls made for two ETags: the first is set, the second added with its adjusted text. */
  lemma RepeatedETagSteps(first: string, second: string, corrected: bool, added: string)
    requires (if corrected then AdjustETagFixed(second, false) else AdjustETag(second, false)) == Ok(added)
    ensures Emit([StringHeader(ETAG, first), StringHeader(ETAG, second)], false, corrected, {})
         == Emission([SetHeader(ETAG, TextValue(first)), AddHeader(ETAG, TextValue(added))], None)
  {
    var hs := [StringHeader(ETAG, first), StringHeader(ETAG, second)];
    var seen := {ToLower(ETAG)};
    ETagNameFolds();
    assert ToLower(hs[0].name) !in {};
    assert SetValue(hs[0]) == TextValue(first);
    assert {} + {ToLower(hs[0].name)} == seen;
    assert EmitOne(hs[0], false, corrected, {}) == Ok((SetHeader(ETAG, TextValue(first)), seen));
    assert AddValue(hs[1], false, corrected) == Ok(TextValue(added));
    assert hs[1..][1..] == [];
    assert Emit(hs[1..], false, corrected, seen) == Emission([AddHeader(ETAG, TextValue(added))], None);
  }
}
