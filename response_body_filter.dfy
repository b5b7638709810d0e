/**
 * ResponseBodyFilter: rewrites successful JSON responses. The body is joined
 * into one buffer, decompressed with the codec the exchange calls for, passed
 * through the masking service when the caller has masking rules for the API,
 * compressed again with the same codec, and written as a single buffer with a
 * matching length header. gzip and brotli are left abstract: each is a
 * function that may fail.
 */
module ResponseBodyFilter {
  import opened Wrappers
  import opened Text
  import opened Headers
  import opened Dto
  import opened Cache
  import Utf8
  import Ex = Exchange

  type Byte = Utf8.Byte

  const MaskRulesSuffix := "_ApiDataMaskRules"
  const TokenHeader := "WeAppAuthorization"
  const AcceptEncodingHeader := "Accept-Encoding"
  const ContentEncodingHeader := "content-encoding"
  const JsonMediaType := "application/json"
  const Ok := 200
  const BufferSize := 256

  // ---- the gate ----

  datatype Gate = GateFault | Bypass | Apply

  /** Line 78 and line 83. The status is the resolved HttpStatus, null when the
      code is unset or not a standard one, and `getStatusCode().equals` then throws. */
  function GateOf(status: Option<int>, isFlux: bool, originalContentType: Option<string>): Gate {
    if status.None? then GateFault
    else if status.value == Ok && isFlux && !IsBlank(originalContentType)
            && Contains(originalContentType.value, JsonMediaType) then Apply
    else Bypass
  }

  /** The body is transformed exactly when the status is 200, the body is a Flux,
      and the original content type mentions application/json. */
  lemma GateIff(status: Option<int>, isFlux: bool, originalContentType: Option<string>)
    ensures GateOf(status, isFlux, originalContentType) == Apply
        <==> status == Some(Ok) && isFlux && originalContentType.Some?
             && Contains(originalContentType.value, JsonMediaType)
  {
    if originalContentType.Some? && Contains(originalContentType.value, JsonMediaType) {
      ContainsIsNotBlank(originalContentType.value, JsonMediaType);
    }
  }

  // ---- codec selection ----

  datatype Codec = Brotli | Gzip | Identity

  /** Lines 99 and 116, and again 159 and 169: brotli when the response says
      `content-encoding: br`; otherwise gzip when the request accepts gzip;
      otherwise plain UTF-8. */
  function SelectCodec(contentEncoding: Option<string>, acceptEncoding: Option<string>): Codec {
    if !IsBlank(contentEncoding) && contentEncoding.value == "br" then Brotli
    else if !IsBlank(acceptEncoding) && Contains(acceptEncoding.value, "gzip") then Gzip
    else Identity
  }

  /** Brotli exactly for the encoding "br", gzip exactly when that is not the case
      and Accept-Encoding contains "gzip". */
  lemma SelectCodecIff(contentEncoding: Option<string>, acceptEncoding: Option<string>)
    ensures SelectCodec(contentEncoding, acceptEncoding) == Brotli <==> contentEncoding == Some("br")
    ensures SelectCodec(contentEncoding, acceptEncoding) == Gzip
        <==> contentEncoding != Some("br") && acceptEncoding.Some? && Contains(acceptEncoding.value, "gzip")
  {
    if contentEncoding == Some("br") {
      assert !IsWhitespace(contentEncoding.value[0]);
    }
    if acceptEncoding.Some? && Contains(acceptEncoding.value, "gzip") {
      ContainsIsNotBlank(acceptEncoding.value, "gzip");
    }
  }

  /** A text that contains a piece starting with a non-blank character is not blank. */
  lemma ContainsIsNotBlank(s: string, sub: string)
    requires |sub| > 0 && !IsWhitespace(sub[0]) && Contains(s, sub)
    ensures !IsBlank(Some(s))
  {
    ContainsIffOccurs(s, sub);
    var i :| 0 <= i <= |s| && sub <= s[i..];
    assert s[i] == sub[0];
  }

  // ---- the codecs, abstract ----

  /** What brotli4j's Decoder.decompress gives: a DONE status with the data, another
      status, or an IOException. */
  datatype BrotliResult = Done(data: seq<Byte>) | NotDone | DecodeError

  /** GZIPInputStream.read(buffer) returns between 1 and 256 bytes, or throws. */
  type Chunk = s: seq<Byte> | 0 < |s| <= 256 witness [0]

  datatype Read = Data(bytes: Chunk) | ReadError

  /** A GZIPInputStream: its constructor rejects a bad header, or it yields the results of its reads up
      to the end of the stream. */
  datatype GzipStream = BadHeader | Stream(steps: seq<Read>)

  datatype Codecs = Codecs(
    brotliDecompress: seq<Byte> -> BrotliResult,
    brotliCompress: seq<Byte> -> Option<seq<Byte>>,
    gunzip: seq<Byte> -> GzipStream,
    gzip: seq<Byte> -> seq<Byte>)

  // ---- uncompress and compress ----

  /** The bytes the read loop collects: every chunk up to the end of the stream or
      up to the first read that throws. */
  function ReadUntilEnd(steps: seq<Read>): seq<Byte>
    decreases |steps|
  {
    if steps == [] || steps[0].ReadError? then [] else steps[0].bytes + ReadUntilEnd(steps[1..])
  }

  /** uncompress: null for empty input, no bytes for a bad header, otherwise what
      the read loop collected. */
  function Inflated(bytes: seq<Byte>, gunzip: seq<Byte> -> GzipStream): (r: Option<seq<Byte>>)
    ensures r.None? <==> |bytes| == 0
    ensures |bytes| > 0 && gunzip(bytes) == BadHeader ==> r == Some([])
  {
    if |bytes| == 0 then None
    else
      match gunzip(bytes)
      case BadHeader => Some([])
      case Stream(steps) => Some(ReadUntilEnd(steps))
  }

  /** uncompress: the `while` loop that reads into a 256-byte buffer and appends
      what each read delivered. */
  method Uncompress(bytes: seq<Byte>, gunzip: seq<Byte> -> GzipStream) returns (r: Option<seq<Byte>>)
    ensures r == Inflated(bytes, gunzip)
  {
    if |bytes| == 0 {
      return None;
    }
    var out: seq<Byte> := [];
    var stream := gunzip(bytes);
    if stream.Stream? {
      var steps := stream.steps;
      var buffer := new Byte[BufferSize];
      var i := 0;
      while i < |steps| && steps[i].Data?
        invariant 0 <= i <= |steps|
        invariant out + ReadUntilEnd(steps[i..]) == ReadUntilEnd(steps)
        decreases |steps| - i
      {
        var chunk := steps[i].bytes;
        var n := |chunk|;
        forall j | 0 <= j < n {
          buffer[j] := chunk[j];
        }
        assert buffer[..n] == chunk;
        assert steps[i..][1..] == steps[i + 1..];
        out := out + buffer[..n];
        i := i + 1;
      }
      assert ReadUntilEnd(steps[i..]) == [];
      assert out + [] == out;
    }
    return Some(out);
  }

  /** The bytes of read results none of which threw, in order. */
  function Concat(steps: seq<Read>): seq<Byte>
    requires forall k :: 0 <= k < |steps| ==> steps[k].Data?
    decreases |steps|
  {
    if steps == [] then [] else steps[0].bytes + Concat(steps[1..])
  }

  lemma {:induction false} ReadUntilEndAppend(good: seq<Read>, tail: seq<Read>)
    requires forall k :: 0 <= k < |good| ==> good[k].Data?
    ensures ReadUntilEnd(good + tail) == Concat(good) + ReadUntilEnd(tail)
    decreases |good|
  {
    if good == [] {
      assert good + tail == tail;
    } else {
      assert (good + tail)[1..] == good[1..] + tail;
      ReadUntilEndAppend(good[1..], tail);
    }
  }

  /** A read that throws ends the loop: uncompress returns the bytes read before it. */
  lemma InflatedPartial(bytes: seq<Byte>, gunzip: seq<Byte> -> GzipStream, good: seq<Read>, rest: seq<Read>)
    requires |bytes| > 0
    requires forall k :: 0 <= k < |good| ==> good[k].Data?
    requires gunzip(bytes) == Stream(good + [ReadError] + rest)
    ensures Inflated(bytes, gunzip) == Some(Concat(good))
  {
    ReadUntilEndAppend(good, [ReadError] + rest);
    assert good + [ReadError] + rest == good + ([ReadError] + rest);
    assert Concat(good) + [] == Concat(good);
  }

  /** A stream read to its end gives all its bytes. */
  lemma InflatedComplete(bytes: seq<Byte>, gunzip: seq<Byte> -> GzipStream, good: seq<Read>)
    requires |bytes| > 0
    requires forall k :: 0 <= k < |good| ==> good[k].Data?
    requires gunzip(bytes) == Stream(good)
    ensures Inflated(bytes, gunzip) == Some(Concat(good))
  {
    ReadUntilEndAppend(good, []);
    assert good + [] == good;
    assert Concat(good) + [] == Concat(good);
  }

  /** compress: null for null or empty text, otherwise the gzip form of its UTF-8 bytes. */
  function Compress(s: Option<string>, gzip: seq<Byte> -> seq<Byte>): (r: Option<seq<Byte>>)
    ensures r.None? <==> s.None? || |s.value| == 0
  {
    if s.None? || |s.value| == 0 then None else Some(gzip(Utf8.Encode(s.value)))
  }

  /** When gzip and gunzip are inverse, uncompress undoes compress: the UTF-8
      bytes of any non-empty text come back. */
  lemma CompressThenUncompress(s: string, codecs: Codecs)
    requires GzipInverts(codecs)
    requires |s| > 0
    ensures Compress(Some(s), codecs.gzip).Some?
    ensures Inflated(Compress(Some(s), codecs.gzip).value, codecs.gunzip) == Some(Utf8.Encode(s))
  {
    assert |Utf8.EncodeChar(s[0])| >= 1;
    assert |Utf8.Encode(s)| > 0;
    assert |codecs.gzip(Utf8.Encode(s))| > 0;
  }

  // ---- decoding, masking, encoding ----

  /** What the text `s` is after lines 97-122: a text, null, or the
      NullPointerException of `new String(null, UTF_8)` when uncompress gives null.
      brotli's `new String(data)` uses the platform charset, taken to be UTF-8. */
  datatype Decoded = Text(s: string) | NullText | DecodeThrew

  function DecodeBody(codec: Codec, content: seq<Byte>, codecs: Codecs): Decoded {
    match codec
    case Brotli =>
      (match codecs.brotliDecompress(content)
       case Done(data) => Text(Utf8.Decode(data))
       case _ => NullText)
    case Gzip =>
      (match Inflated(content, codecs.gunzip)
       case None => DecodeThrew
       case Some(plain) => Text(Utf8.Decode(plain)))
    case Identity => Text(Utf8.Decode(content))
  }

  /** The cache key of the caller's masking rules; a null token is spelled "null". */
  function MaskRulesKey(token: Option<string>): string {
    JavaString(token) + MaskRulesSuffix
  }

  /** The rules of a list, in order and with repeats, whose apiId equals `apiId`:
      what `filter(..).collect(toList())` keeps when nothing throws. */
  function Keep(rules: seq<Option<ApiRule>>, apiId: Option<string>): seq<ApiRule>
    decreases |rules|
  {
    if rules == [] then []
    else if rules[|rules| - 1].Some? && rules[|rules| - 1].value.apiId == apiId
    then Keep(rules[..|rules| - 1], apiId) + [rules[|rules| - 1].value]
    else Keep(rules[..|rules| - 1], apiId)
  }

  /** Keeping distributes over concatenation. */
  lemma {:induction false} KeepAppend(a: seq<Option<ApiRule>>, b: seq<Option<ApiRule>>, apiId: Option<string>)
    ensures Keep(a + b, apiId) == Keep(a, apiId) + Keep(b, apiId)
    decreases |b|
  {
    if b == [] {
      assert a + b == a;
    } else {
      assert (a + b)[..|a + b| - 1] == a + b[..|b| - 1];
      assert (a + b)[|a + b| - 1] == b[|b| - 1];
      KeepAppend(a, b[..|b| - 1], apiId);
    }
  }

  /** Line 142: the rules whose apiId equals the recorded apiId, in order. The
      comparison `p.getApiId().equals(apiId)` is exact, and throws on a null rule
      or a rule with a null apiId anywhere in the list. */
  function RulesFor(rules: seq<Option<ApiRule>>, apiId: Option<string>): (r: Option<seq<ApiRule>>)
    ensures r.None? <==> exists i :: 0 <= i < |rules| && (rules[i].None? || rules[i].value.apiId.None?)
    ensures r.Some? ==> forall x :: x in r.value ==> x.apiId == apiId && Some(x) in rules
    ensures r.Some? ==> forall i :: 0 <= i < |rules| && rules[i].Some? && rules[i].value.apiId == apiId ==>
                                      rules[i].value in r.value
    ensures r.Some? ==> r.value == Keep(rules, apiId)
    decreases |rules|
  {
    if rules == [] then Some([])
    else if rules[0].None? || rules[0].value.apiId.None? then None
    else
      match RulesFor(rules[1..], apiId)
      case None => None
      case Some(rest) =>
        assert rules == [rules[0]] + rules[1..];
        KeepAppend([rules[0]], rules[1..], apiId);
        assert [rules[0]][..0] == [];
        Some((if rules[0].value.apiId == apiId then [rules[0].value] else []) + rest)
  }

  datatype Masking = Unmasked | Masked(request: MaskRequest) | MaskFault

  /** Lines 137-149, for a non-blank text `s`. */
  function MaskStep(s: string, token: Option<string>, apiId: Option<string>, cache: Snapshot,
                    parseRules: string -> Parse<seq<Option<ApiRule>>>): Masking {
    match cache.Get(MaskRulesKey(token))
    case None => Unmasked
    case Some(text) =>
      match parseRules(text)
      case Malformed => MaskFault
      case Null => MaskFault
      case Parsed(rs) =>
        match RulesFor(rs, apiId)
        case None => MaskFault
        case Some(rules) => if |rules| == 0 then Unmasked else Masked(MaskRequest(s, rules))
  }

  /** The masker is asked exactly when the caller's rule list exists, parses, and has
      rules for the recorded apiId; it is asked about the text itself, with exactly
      the rules for that apiId. */
  lemma MaskStepIff(s: string, token: Option<string>, apiId: Option<string>, cache: Snapshot,
                    parseRules: string -> Parse<seq<Option<ApiRule>>>)
    ensures var m := MaskStep(s, token, apiId, cache, parseRules);
            && (m.Masked? <==>
                  cache.Get(MaskRulesKey(token)).Some?
                  && parseRules(cache.Get(MaskRulesKey(token)).value).Parsed?
                  && var rules := RulesFor(parseRules(cache.Get(MaskRulesKey(token)).value).value, apiId);
                     rules.Some? && |rules.value| > 0)
            && (m.Masked? ==> m.request.value == s && |m.request.apiRules| > 0
                              && forall x :: x in m.request.apiRules ==> x.apiId == apiId)
            && (m.Masked? ==>
                  m.request.apiRules == RulesFor(parseRules(cache.Get(MaskRulesKey(token)).value).value, apiId).value)
            && (cache.Get(MaskRulesKey(token)).None? ==> m == Unmasked)
  {
  }

  /** What `uppedContent` is after lines 155-175: null when brotli's encoder throws. */
  function EncodeBody(codec: Codec, s: string, codecs: Codecs): Option<seq<Byte>> {
    match codec
    case Brotli => codecs.brotliCompress(Utf8.Encode(s))
    case Gzip => Compress(Some(s), codecs.gzip)
    case Identity => Some(Utf8.Encode(s))
  }

  /** What the filter needs from the exchange, read before the body arrives. */
  datatype Context = Context(
    contentEncoding: Option<string>,
    acceptEncoding: Option<string>,
    token: Option<string>,
    apiId: Option<string>)

  /** The services behind the filter: the cache, the codecs, the rule parser and
      the masking client. */
  datatype Env = Env(
    cache: Snapshot,
    codecs: Codecs,
    parseRules: string -> Parse<seq<Option<ApiRule>>>,
    masker: MaskRequest -> string)

  datatype Output = Rewritten(bytes: seq<Byte>, length: LengthHeader) | Fault

  /** The body of the `map` at lines 85-185 on the joined content. A null or blank
      text reaches `uppedContent.length` with `uppedContent` null, which throws. */
  function Transform(content: seq<Byte>, ctx: Context, env: Env): Output {
    var codec := SelectCodec(ctx.contentEncoding, ctx.acceptEncoding);
    match DecodeBody(codec, content, env.codecs)
    case DecodeThrew => Fault
    case NullText => Fault
    case Text(decoded) =>
      if IsBlank(Some(decoded)) then Fault
      else
        match MaskStep(decoded, ctx.token, ctx.apiId, env.cache, env.parseRules)
        case MaskFault => Fault
        case Unmasked => Reencode(codec, decoded, env.codecs)
        case Masked(request) => Reencode(codec, env.masker(request), env.codecs)
  }

  function Reencode(codec: Codec, s: string, codecs: Codecs): Output {
    if IsBlank(Some(s)) then Fault
    else
      match EncodeBody(codec, s, codecs)
      case None => Fault
      case Some(bytes) => Rewritten(bytes, LengthRule(|bytes|))
  }

  /** All buffers of the body, joined. */
  function Join(buffers: seq<seq<Byte>>): seq<Byte>
    decreases |buffers|
  {
    if buffers == [] then [] else buffers[0] + Join(buffers[1..])
  }

  datatype WriteOutcome = AsIs | EmptyBody | Written(bytes: seq<Byte>, length: LengthHeader) | WriteFault

  /** writeWith. Past the gate, `buffer()` of a body with no chunks completes without
      emitting, so `map` never runs: the response is still written, as an empty
      body with its headers untouched. */
  function WriteWithOutcome(status: Option<int>, isFlux: bool, originalContentType: Option<string>,
                            buffers: seq<seq<Byte>>, ctx: Context, env: Env): WriteOutcome {
    match GateOf(status, isFlux, originalContentType)
    case GateFault => WriteFault
    case Bypass => AsIs
    case Apply =>
      if |buffers| == 0 then EmptyBody
      else
        match Transform(Join(buffers), ctx, env)
        case Fault => WriteFault
        case Rewritten(bytes, length) => Written(bytes, length)
  }

  // ---- properties of the transform ----

  /** A rewritten body always announces its own length: Content-Length exactly
      when it is non-empty. */
  lemma RewrittenLength(content: seq<Byte>, ctx: Context, env: Env)
    ensures var o := Transform(content, ctx, env);
            o.Rewritten? ==> o.length == LengthRule(|o.bytes|)
                             && (o.length.ContentLength? <==> |o.bytes| > 0)
  {
  }

  /** A failed brotli decompression, a gzip body that is empty or has a bad header,
      and an empty body all leave no text, and the filter then fails. */
  lemma NoTextFails(content: seq<Byte>, ctx: Context, env: Env)
    ensures var codec := SelectCodec(ctx.contentEncoding, ctx.acceptEncoding);
            (codec == Brotli && !env.codecs.brotliDecompress(content).Done?) ==> Transform(content, ctx, env) == Fault
    ensures var codec := SelectCodec(ctx.contentEncoding, ctx.acceptEncoding);
            (codec == Gzip && (|content| == 0 || env.codecs.gunzip(content) == BadHeader)) ==>
              Transform(content, ctx, env) == Fault
    ensures |content| == 0 && SelectCodec(ctx.contentEncoding, ctx.acceptEncoding) == Identity ==>
              Transform(content, ctx, env) == Fault
  {
  }

  /** Without masking rules for the caller, an uncompressed JSON body that is
      well-formed UTF-8 and not blank is written back byte for byte, with its
      length. */
  lemma PlainBodyPassesThrough(text: string, ctx: Context, env: Env)
    requires SelectCodec(ctx.contentEncoding, ctx.acceptEncoding) == Identity
    requires !IsBlank(Some(text))
    requires env.cache.Get(MaskRulesKey(ctx.token)).None?
    ensures Transform(Utf8.Encode(text), ctx, env) == Rewritten(Utf8.Encode(text), LengthRule(|Utf8.Encode(text)|))
  {
    Utf8.DecodeEncode(text);
  }

  /** gzip is undone and redone: when gzip and gunzip are inverse, a gzip body of
      non-blank text without masking rules is written back as the same bytes. */
  ghost predicate GzipInverts(codecs: Codecs) {
    forall b: seq<Byte> {:trigger codecs.gzip(b)} :: |b| > 0 ==>
      |codecs.gzip(b)| > 0 && codecs.gunzip(codecs.gzip(b)).Stream?
      && ReadUntilEnd(codecs.gunzip(codecs.gzip(b)).steps) == b
  }

  lemma GzipBodyPassesThrough(text: string, ctx: Context, env: Env)
    requires SelectCodec(ctx.contentEncoding, ctx.acceptEncoding) == Gzip
    requires GzipInverts(env.codecs)
    requires !IsBlank(Some(text))
    requires env.cache.Get(MaskRulesKey(ctx.token)).None?
    ensures var body := env.codecs.gzip(Utf8.Encode(text));
            Transform(body, ctx, env) == Rewritten(body, LengthRule(|body|))
  {
    var plain := Utf8.Encode(text);
    assert |text| > 0;
    assert |Utf8.EncodeChar(text[0])| >= 1;
    assert |plain| > 0;
    var body := env.codecs.gzip(plain);
    assert Inflated(body, env.codecs.gunzip) == Some(plain);
    Utf8.DecodeEncode(text);
  }

  /** When the masker is asked, its answer replaces the text: without compression
      the body written is the UTF-8 form of the answer, provided it is not blank. */
  lemma MaskedTextIsWritten(text: string, ctx: Context, env: Env, rules: seq<ApiRule>)
    requires SelectCodec(ctx.contentEncoding, ctx.acceptEncoding) == Identity
    requires !IsBlank(Some(text))
    requires MaskStep(text, ctx.token, ctx.apiId, env.cache, env.parseRules) == Masked(MaskRequest(text, rules))
    ensures var answer := env.masker(MaskRequest(text, rules));
            Transform(Utf8.Encode(text), ctx, env)
              == if IsBlank(Some(answer)) then Fault
                 else Rewritten(Utf8.Encode(answer), LengthRule(|Utf8.Encode(answer)|))
  {
    Utf8.DecodeEncode(text);
  }

  /** A masking rule list that does not parse, or holds a null rule or a rule with
      a null apiId, makes the filter fail. */
  lemma BadRulesFail(content: seq<Byte>, ctx: Context, env: Env, decoded: string)
    requires DecodeBody(SelectCodec(ctx.contentEncoding, ctx.acceptEncoding), content, env.codecs) == Text(decoded)
    requires !IsBlank(Some(decoded))
    requires env.cache.Get(MaskRulesKey(ctx.token)).Some?
    requires var p := env.parseRules(env.cache.Get(MaskRulesKey(ctx.token)).value);
             !p.Parsed? || exists i :: 0 <= i < |p.value| && (p.value[i].None? || p.value[i].value.apiId.None?)
    ensures Transform(content, ctx, env) == Fault
  {
  }

  // ---- the decorated response acting on the exchange ----

  /** The context as the filter reads it from the exchange. */
  function ContextOf(request: Ex.Request, attributes: map<string, Ex.Attr>, responseHeaders: Fields): Context {
    Context(GetFirst(responseHeaders, ContentEncodingHeader), GetFirst(request.headers, AcceptEncodingHeader),
            GetFirst(request.headers, TokenHeader), Ex.TextAttribute(attributes, Ex.ApiIdAttribute))
  }

  /** Lines 97-122: the decompression step of `writeWith`, with the read loop of
      `uncompress` on the gzip branch; it computes what `DecodeBody` describes. */
  method DecodeContent(codec: Codec, content: seq<Byte>, codecs: Codecs) returns (d: Decoded)
    ensures d == DecodeBody(codec, content, codecs)
  {
    if codec == Brotli {
      var b := codecs.brotliDecompress(content);
      d := if b.Done? then Text(Utf8.Decode(b.data)) else NullText;
    } else if codec == Gzip {
      var plain := Uncompress(content, codecs.gunzip);
      d := if plain.None? then DecodeThrew else Text(Utf8.Decode(plain.value));
    } else {
      d := Text(Utf8.Decode(content));
    }
  }

  /** The `map` at lines 85-185 on the joined content: the locals `s` and
      `uppedContent` reassigned step by step, as `Transform` describes. */
  method TransformContent(content: seq<Byte>, ctx: Context, env: Env) returns (output: Output)
    ensures output == Transform(content, ctx, env)
  {
    var codec := SelectCodec(ctx.contentEncoding, ctx.acceptEncoding);

    // lines 97-122
    var decoded := DecodeContent(codec, content, env.codecs);
    if decoded.DecodeThrew? {
      return Fault;
    }
    var s: Option<string> := if decoded.NullText? then None else Some(decoded.s);

    // lines 135-151
    if !IsBlank(s) {
      var step := MaskStep(s.value, ctx.token, ctx.apiId, env.cache, env.parseRules);
      if step.MaskFault? {
        return Fault;
      }
      if step.Masked? {
        s := Some(env.masker(step.request));
      }
    }

    // lines 155-175
    var upped: Option<seq<Byte>> := None;
    if !IsBlank(s) {
      upped := EncodeBody(codec, s.value, env.codecs);
    }

    if upped.None? {
      return Fault;
    }
    var bytes := upped.value;
    output := Rewritten(bytes, LengthRule(|bytes|));
  }

  /** The decorated response's writeWith, acting on the exchange. A rewritten
      body is written as one buffer after the length header is set; a body that
      is not transformed is written as it came. */
  method WriteWith(ex: Ex.Exchange, isFlux: bool, buffers: seq<seq<Byte>>, env: Env) returns (outcome: WriteOutcome)
    modifies ex
    ensures outcome == WriteWithOutcome(old(ex.status), isFlux,
                                        Ex.TextAttribute(old(ex.attributes), Ex.OriginalContentTypeAttribute),
                                        buffers, ContextOf(old(ex.request), old(ex.attributes), old(ex.responseHeaders)), env)
    ensures outcome.AsIs? ==> ex.response == Ex.Buffers(buffers) && ex.responseHeaders == old(ex.responseHeaders)
    ensures outcome.Written? ==>
              ex.response == Ex.Buffers([outcome.bytes])
              && ex.responseHeaders == WithLength(old(ex.responseHeaders), outcome.length)
    ensures outcome.EmptyBody? ==> ex.response == Ex.Buffers([]) && ex.responseHeaders == old(ex.responseHeaders)
    ensures outcome.WriteFault? ==>
              ex.response == old(ex.response) && ex.responseHeaders == old(ex.responseHeaders)
    ensures ex.request == old(ex.request) && ex.attributes == old(ex.attributes) && ex.status == old(ex.status)
  {
    var ctx := ContextOf(ex.request, ex.attributes, ex.responseHeaders);
    var gate := GateOf(ex.status, isFlux, Ex.TextAttribute(ex.attributes, Ex.OriginalContentTypeAttribute));
    if gate.GateFault? {
      return WriteFault;
    }
    if gate.Bypass? {
      ex.response := Ex.Buffers(buffers);
      return AsIs;
    }
    if |buffers| == 0 {
      ex.response := Ex.Buffers([]);
      return EmptyBody;
    }
    var output := TransformContent(Join(buffers), ctx, env);
    if output.Fault? {
      return WriteFault;
    }
    var upped := output.bytes;
    // lines 176-184
    var length := LengthRule(|upped|);
    ex.responseHeaders := WithLength(ex.responseHeaders, length);
    ex.response := Ex.Buffers([upped]);
    outcome := Written(upped, length);
  }

  /** Ordered.getOrder: -2, so that the decorator is in place before the response
      is written by NettyWriteResponseFilter at -1. */
  function GetOrder(): int {
    -2
  }

  const NettyWriteResponseFilterOrder := -1
}
