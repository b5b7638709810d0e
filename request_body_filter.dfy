/**
 * RequestBodyFilter: captures what the later filters need from an http or
 * https request. It stores the query parameters (first value of each, URL
 * decoded) and, unless the content type is absent or one of the streaming
 * types, the body text; a buffered body is then republished with a length
 * header that matches it.
 */
module RequestBodyFilter {
  import opened Wrappers
  import opened Text
  import opened Headers
  import Utf8
  import UrlDecoder
  import Ex = Exchange

  type Byte = Utf8.Byte

  const MultipartFormData := "multipart/form-data"
  const OctetStream := "application/octet-stream"
  const TextPlain := "text/plain"

  /** The media types whose bodies are left unread. */
  const UnbufferedMediaTypes: set<string> := {MultipartFormData, OctetStream, TextPlain}

  // ---- query parameters ----

  /** getURLDecoder: the value decoded as UTF-8; when the decoder throws (a
      malformed escape, or a null value) the value itself. */
  function DecodeOrRaw(value: Option<string>): (r: Option<string>)
    ensures value.None? <==> r.None?
    ensures r.Some? ==> |r.value| <= |value.value|
  {
    if value.None? then None
    else
      match UrlDecoder.Decode(value.value)
      case Some(decoded) => Some(decoded)
      case None => value
  }

  /** A malformed value is kept as it is rather than aborting the capture. */
  lemma DecodeOrRawFallsBack(value: string)
    requires UrlDecoder.Decode(value).None?
    ensures DecodeOrRaw(Some(value)) == Some(value)
    ensures exists i :: 0 <= i < |value| && value[i] == '%'
  {
    UrlDecoder.DecodeFailsOnlyAtEscape(value);
  }

  /** A value sent as the percent escapes of its UTF-8 bytes is captured as the
      original text, and a value with no escapes and no '+' as itself. */
  lemma DecodeOrRawRecovers(t: string)
    ensures DecodeOrRaw(Some(UrlDecoder.PercentEncode(Utf8.Encode(t)))) == Some(t)
    ensures (forall i :: 0 <= i < |t| ==> t[i] != '%' && t[i] != '+') ==> DecodeOrRaw(Some(t)) == Some(t)
  {
    UrlDecoder.DecodePercentEncoded(t);
    if forall i :: 0 <= i < |t| ==> t[i] != '%' && t[i] != '+' {
      UrlDecoder.DecodePlain(t);
    }
  }

  /** toSingleValueMap followed by getURLDecoder: every key that has a value is
      sent to its first value, decoded. */
  function CapturedParams(query: map<string, seq<Option<string>>>): map<string, Option<string>> {
    map k | k in query && |query[k]| > 0 :: DecodeOrRaw(query[k][0])
  }

  /** The `forEach` that fills the parameter map one key at a time. */
  method DecodeQueryParams(query: map<string, seq<Option<string>>>) returns (params: map<string, Option<string>>)
    ensures params == CapturedParams(query)
  {
    params := map[];
    var pending := query.Keys;
    while pending != {}
      invariant pending <= query.Keys
      invariant forall k :: k in params <==> k in query && k !in pending && |query[k]| > 0
      invariant forall k :: k in params ==> params[k] == DecodeOrRaw(query[k][0])
      decreases |pending|
    {
      var k :| k in pending;
      var values := query[k];
      if |values| > 0 {
        params := params[k := DecodeOrRaw(values[0])];
      }
      pending := pending - {k};
    }
  }

  /** The captured map holds exactly the keys with a value, and the value captured
      for a key is its first value: later values of the same key are ignored. */
  lemma CapturedParamsFirstValue(query: map<string, seq<Option<string>>>, k: string, t: string,
                                 later: seq<Option<string>>)
    requires k in query && query[k] == [Some(UrlDecoder.PercentEncode(Utf8.Encode(t)))] + later
    ensures k in CapturedParams(query) && CapturedParams(query)[k] == Some(t)
    ensures CapturedParams(query).Keys == set k | k in query && |query[k]| > 0
  {
    DecodeOrRawRecovers(t);
  }

  // ---- content type ----

  /** The text before the first ';'. */
  function BeforeSemicolon(s: string): (r: string)
    ensures r <= s
    ensures forall i :: 0 <= i < |r| ==> r[i] != ';'
    ensures |r| == |s| || s[|r|] == ';'
    decreases |s|
  {
    if s == [] || s[0] == ';' then [] else [s[0]] + BeforeSemicolon(s[1..])
  }

  /** `s.split(";")[0]`: split drops trailing empty pieces, so when `s` is made of
      ';' only there is no first piece and the indexing throws (None). */
  function FirstPiece(s: string): (r: Option<string>)
    ensures r.None? <==> |s| > 0 && forall i :: 0 <= i < |s| ==> s[i] == ';'
    ensures r.Some? ==> r.value == BeforeSemicolon(s)
  {
    if |s| > 0 && forall i :: 0 <= i < |s| ==> s[i] == ';' then None else Some(BeforeSemicolon(s))
  }

  datatype BodyHandling = NotBuffered | SplitFault | Buffered

  /** Lines 80-88: no content type, or a streaming media type, leaves the body
      unread; anything else is buffered. */
  function Classify(contentType: Option<string>): BodyHandling {
    if contentType.None? || |contentType.value| == 0 then NotBuffered
    else
      match FirstPiece(contentType.value)
      case None => SplitFault
      case Some(piece) => if Lower(piece) in UnbufferedMediaTypes then NotBuffered else Buffered
  }

  /** The body is buffered exactly when the content type is present and non-empty,
      has text other than ';', and its media type, lower-cased, is none of the
      streaming types. */
  lemma ClassifyBuffered(contentType: Option<string>)
    ensures Classify(contentType) == Buffered <==>
              contentType.Some? && |contentType.value| > 0
              && (exists i :: 0 <= i < |contentType.value| && contentType.value[i] != ';')
              && Lower(BeforeSemicolon(contentType.value)) !in UnbufferedMediaTypes
  {
  }

  /** Parameters after the media type do not change the decision. */
  lemma {:induction false} BeforeSemicolonOfParams(t: string, params: string)
    requires forall i :: 0 <= i < |t| ==> t[i] != ';'
    ensures BeforeSemicolon(t + ";" + params) == t
    decreases |t|
  {
    if t == [] {
      assert (t + ";" + params)[0] == ';';
    } else {
      assert (t + ";" + params)[1..] == t[1..] + ";" + params;
      BeforeSemicolonOfParams(t[1..], params);
      assert [t[0]] + t[1..] == t;
    }
  }

  lemma ClassifyIgnoresParams(t: string, params: string)
    requires |t| > 0 && forall i :: 0 <= i < |t| ==> t[i] != ';'
    ensures Classify(Some(t + ";" + params)) == Classify(Some(t))
  {
    var s := t + ";" + params;
    BeforeSemicolonOfParams(t, params);
    assert s[0] != ';';
    assert BeforeSemicolon(t) == t;
  }

  /** The media type compares without regard to case. */
  lemma ClassifyIgnoresCase(t: string)
    ensures Classify(Some(Lower(t))) == Classify(Some(t))
  {
    var u := Lower(t);
    assert forall i :: 0 <= i < |t| ==> (u[i] == ';' <==> t[i] == ';');
    LowerBeforeSemicolon(t);
    LowerIdempotent(BeforeSemicolon(t));
  }

  lemma {:induction false} LowerBeforeSemicolon(t: string)
    ensures BeforeSemicolon(Lower(t)) == Lower(BeforeSemicolon(t))
    decreases |t|
  {
    if t != [] {
      assert Lower(t)[1..] == Lower(t[1..]);
      LowerBeforeSemicolon(t[1..]);
      if t[0] != ';' {
        assert Lower([t[0]] + BeforeSemicolon(t[1..])) == [AsciiLower(t[0])] + Lower(BeforeSemicolon(t[1..]));
      }
    } else {
      assert Lower(t) == [];
    }
  }

  lemma LowerIdempotent(t: string)
    ensures Lower(Lower(t)) == Lower(t)
  {
  }

  // ---- the republished request ----

  /** The body text as the String reader decodes it, and the bytes written back. */
  function BodyText(body: seq<Byte>): string {
    Utf8.Decode(body)
  }

  function RepublishedBody(body: seq<Byte>): (r: seq<Byte>) {
    Utf8.Encode(BodyText(body))
  }

  /** The decorated request's headers: the original headers with Content-Length
      set to the republished length when it is positive, and Transfer-Encoding:
      chunked otherwise. */
  function RepublishedHeaders(headers: Fields, body: seq<Byte>): Fields {
    WithLength(headers, LengthRule(|RepublishedBody(body)|))
  }

  /** A well-formed UTF-8 body is republished byte for byte, and its Content-Length
      reads back as its size; an empty body is announced as chunked. */
  lemma RepublishedRequest(headers: Fields, text: string)
    ensures RepublishedBody(Utf8.Encode(text)) == Utf8.Encode(text)
    ensures |text| > 0 ==> GetFirst(RepublishedHeaders(headers, Utf8.Encode(text)), ContentLengthHeader).Some?
    ensures |text| > 0 ==>
      ParseInt(GetFirst(RepublishedHeaders(headers, Utf8.Encode(text)), ContentLengthHeader).value)
        == Some(|Utf8.Encode(text)|)
    ensures |text| == 0 ==>
      GetFirst(RepublishedHeaders(headers, Utf8.Encode(text)), TransferEncodingHeader) == Some("chunked")
  {
    Utf8.DecodeEncode(text);
    WithLengthReadsBack(headers, |Utf8.Encode(text)|);
    if |text| > 0 {
      assert |Utf8.EncodeChar(text[0])| >= 1;
      assert |Utf8.Encode(text)| > 0;
    } else {
      assert Utf8.Encode(text) == [];
    }
  }

  // ---- the filter acting on the exchange ----

  datatype FilterResult = Continue | Failed

  /** RequestBodyFilter.filter. The chain continues with the exchange unchanged for
      a non-http scheme; otherwise the parameters are stored first, and then the
      body is stored and republished when it is buffered. The split failure of a
      content type made of ';' only escapes the filter. */
  method Filter(ex: Ex.Exchange) returns (r: FilterResult)
    modifies ex
    ensures var req := old(ex.request);
            var contentType := GetFirst(req.headers, ContentTypeHeader);
            var withParams := if |req.queryParams| > 0
                              then old(ex.attributes)[Ex.UrlParamsAttribute := Ex.Params(CapturedParams(req.queryParams))]
                              else old(ex.attributes);
            && (!Ex.IsHttp(req.scheme) ==> r == Continue && ex.attributes == old(ex.attributes) && ex.request == req)
            && (Ex.IsHttp(req.scheme) && Classify(contentType) != Buffered ==>
                  r == (if Classify(contentType) == SplitFault then Failed else Continue)
                  && ex.attributes == withParams && ex.request == req)
            && (Ex.IsHttp(req.scheme) && Classify(contentType) == Buffered ==>
                  r == Continue
                  && ex.attributes == (if |req.body| > 0 then withParams[Ex.BodyAttribute := Ex.Text(BodyText(req.body))]
                                       else withParams)
                  && ex.request == req.(headers := RepublishedHeaders(req.headers, req.body),
                                        body := RepublishedBody(req.body)))
    ensures ex.status == old(ex.status) && ex.responseHeaders == old(ex.responseHeaders)
    ensures ex.response == old(ex.response)
  {
    var req := ex.request;
    if !Ex.IsHttp(req.scheme) {
      return Continue;
    }
    var contentType := GetFirst(req.headers, ContentTypeHeader);
    if |req.queryParams| > 0 {
      var params := DecodeQueryParams(req.queryParams);
      ex.PutAttribute(Ex.UrlParamsAttribute, Ex.Params(params));
    }
    match Classify(contentType)
    case NotBuffered =>
      r := Continue;
    case SplitFault =>
      r := Failed;
    case Buffered =>
      var text := BodyText(req.body);
      if |req.body| > 0 {
        ex.PutAttribute(Ex.BodyAttribute, Ex.Text(text));
      }
      ex.request := req.(headers := RepublishedHeaders(req.headers, req.body), body := Utf8.Encode(text));
      r := Continue;
  }

  /** Ordered.getOrder: capture runs at -10. */
  function GetOrder(): int {
    -10
  }
}
