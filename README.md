# Xygateway filters and route repository, modelled in Dafny

This project models the core of the Xygateway API gateway, a Spring Cloud Gateway
application. It covers the three global filters, the client of the masking service,
and the route repository backed by the Nacos configuration store:

- **RequestBodyFilter** (order -10). For http and https requests it stores the query
  parameters: the first value of each key, URL-decoded as UTF-8, or the raw value when
  decoding throws. Unless the Content-Type is absent, empty, or one of
  multipart/form-data, application/octet-stream and text/plain, it also stores the
  body text. The body is then republished with `Content-Length` set to its size, or
  `Transfer-Encoding: chunked` when it is empty.
- **AuthAndLoginFilter** (order -9). This is the gate.
  - The API is looked up by path and by the effective method. That is the HTTP method,
    or the `method` of a JSON-RPC body when the body names one.
  - Without the cached API catalog the request is refused with "请初始化文档!".
  - When a catalog entry matches, the `WeAppAuthorization` token must be a live session
    key, else the message is "请登陆后再访问!". The entry's apiId is then recorded on
    the exchange.
  - When a permission entry matches, the caller's permission list (read under
    `token + "_PermissionApis"`) must contain that entry's apiId, compared ignoring
    case. Otherwise the message is "无访问权限!".
  - Any exception gives "系统繁忙，请稍后再试!".
  - Every refusal sets status 401, adds `Content-Type: application/json;charset=UTF-8`
    and writes `{id:"1", code:500, message}`.
- **ResponseBodyFilter** (order -2, before NettyWriteResponseFilter at -1). It handles a
  Flux body of a 200 response whose original content type contains `application/json`.
  - The chunks are joined.
  - The body is decompressed: with brotli when `content-encoding` is `br`, else with gzip
    when the request's `Accept-Encoding` contains `gzip`, else read as plain UTF-8.
  - It is passed through the masking service when the caller has masking rules for the
    recorded apiId.
  - It is compressed again with the same codec and written as one buffer with a
    matching length header.
- **DataMaskUtil**. It discovers a healthy instance of the `datamask` service and builds
  `http://ip:port/api/datamask/masking`. It posts a JSON-RPC envelope holding exactly
  one parameter and returns the `result`. It fails open: the original text is returned
  whenever there is no instance or the call fails.
- **NacosRouteDefinitionRepository**.
  - The constructor registers one listener on the route document.
  - A notification publishes one refresh event and nothing else.
  - A load fetches the document with a 5000 ms bound and parses it. Null or empty
    content gives no routes, and so does an error of the configuration store.
  - `save` and `delete` do nothing.

## How the model is built

Modules, one per file:

- `Wrappers`: the `Option` type.
- `Text`: Java's `isBlank`, `equalsIgnoreCase`, `contains`, decimal rendering and
  `Integer.parseInt` on the values used here.
- `Utf8`: UTF-8 encoding, and decoding in which malformed bytes become U+FFFD.
- `Search`: a stream's `filter(..).findFirst()` whose predicate may throw.
- `Headers`: an ordered, case-insensitive header list, and the Content-Length or
  chunked rule shared by both body filters.
- `Dto`: the DTOs.
- `Cache`: the Redis snapshot.
- `UrlDecoder`: `java.net.URLDecoder`.
- `Exchange`: the mutable exchange, as a class.
- One module per core file.
- `Pipeline`: how the filters meet.

The decisions are pure functions. Lemmas state what the source promises about them.
The parts that change state are methods proved against those functions:

- storing attributes and writing the error response;
- the `forEach` that fills the query-parameter map;
- the locals `s` and `uppedContent` of `writeWith`, with its decompression step;
- the 256-byte read loop of `uncompress`;
- the route repository's constructor, listener and load.

External services become parameters:

- Redis is a snapshot, a map of values plus the set of live keys.
- Each fastjson parse is a function giving `Malformed` (it throws), `Null` or
  `Parsed(value)`.
- gzip and brotli are functions that may fail.
- Discovery, the HTTP client and the clock are fields of a `MaskEnv`.
- The Nacos configuration service is a class holding the documents, whether the store
  can be reached, and the listeners and fetches it has seen.

Exceptions are modelled as results, not as crashes:

- A `NullPointerException` the code would raise is an explicit `Fault` or
  `WriteFault` outcome, for instance writing an empty or blank response body.
- So is the `split(";")[0]` failure on a Content-Type made only of `;`.

Behaviour of the code worth knowing:

- Exceptions escape the filters in some cases:
  - a blank or undecodable response text reaches `uppedContent.length` with
    `uppedContent` null;
  - a malformed route document makes `parseArray` throw out of `getRouteDefinitions`;
  - a null parsed list makes `Flux.fromIterable` throw.
- After a failed decompression `s` is null, nothing is masked or compressed, and
  `writeWith` throws at `uppedContent.length`.
- A 200 JSON response with no body chunks is written as an empty body with its
  headers untouched: `buffer()` emits nothing, so the rewrite never runs.
- The republished request announces the length of the re-encoded text, which is not
  always the original length. A body that is not well-formed UTF-8 is re-encoded
  with U+FFFD in place of the bad bytes.

## Model

| member | source | states |
|---|---|---|
| AuthAndLoginFilter.Decide | src/main/java/com/simmed/apigateway/filter/AuthAndLoginFilter.java:50-151 | the whole gate as a decision: a non-http/https scheme is skipped, otherwise the checks run on the path, the effective method and the `WeAppAuthorization` token |
| AuthAndLoginFilter.EffectiveMethod | src/main/java/com/simmed/apigateway/filter/AuthAndLoginFilter.java:61-76 | the HTTP method, replaced by the body's `method` when the captured body is non-blank, parses to a non-null object, and names a non-blank method; a parse failure is swallowed |
| AuthAndLoginFilter.Checks | src/main/java/com/simmed/apigateway/filter/AuthAndLoginFilter.java:82-148 | the catalog stage (absent catalog refuses with "请初始化文档!", a parse failure or a throwing predicate is "系统繁忙，请稍后再试!"), then the login stage on the first match, then the permission stage |
| AuthAndLoginFilter.PermissionStage | src/main/java/com/simmed/apigateway/filter/AuthAndLoginFilter.java:120-143 | an absent permission catalog is the empty list; on the first matching entry the caller's list under `token + "_PermissionApis"` must exist and hold the apiId ignoring case, else "无访问权限!"; an exception is "系统繁忙，请稍后再试!" |
| AuthAndLoginFilter.PermissionKey | src/main/java/com/simmed/apigateway/filter/AuthAndLoginFilter.java:132 | the permission key is the token followed by "_PermissionApis", with a null token spelled "null" |
| AuthAndLoginFilter.GetOrder | src/main/java/com/simmed/apigateway/filter/AuthAndLoginFilter.java:153-156 | the gate's order is -9 |
| AuthAndLoginFilter.NonHttpIsSkipped | src/main/java/com/simmed/apigateway/filter/AuthAndLoginFilter.java:56-59 | a scheme other than http/https is forwarded with nothing recorded, and the answer is the same for every cache and every parser (nothing is looked up) |
| AuthAndLoginFilter.EffectiveMethodOrigin | src/main/java/com/simmed/apigateway/filter/AuthAndLoginFilter.java:62-76 | the effective method is the HTTP method, or the non-blank `method` of a body that parses; a blank body or one that fails to parse keeps the HTTP method |
| AuthAndLoginFilter.TunnelledMethod | src/main/java/com/simmed/apigateway/filter/AuthAndLoginFilter.java:62-76 | the gate answers a JSON-RPC body exactly as it answers the same request sent with the effective method and no body |
| AuthAndLoginFilter.Matches | src/main/java/com/simmed/apigateway/filter/AuthAndLoginFilter.java:95 | the filter predicate holds if and only if the entry's path and apiName equal the path and method ignoring case; it throws if and only if the entry or its path is null, or the path matches and the apiName is null |
| Search.FindFirst | src/main/java/com/simmed/apigateway/filter/AuthAndLoginFilter.java:95-98 | `filter(..).findFirst()`: the result is the first element the predicate accepts with every earlier element rejected, or the first element on which it throws; it is absent if and only if every element is rejected |
| Text.EqualsIgnoreCaseIsEquivalence | src/main/java/com/simmed/apigateway/filter/AuthAndLoginFilter.java:136 | `equalsIgnoreCase` is reflexive, symmetric and transitive |
| AuthAndLoginFilter.MissingCatalogIff | src/main/java/com/simmed/apigateway/filter/AuthAndLoginFilter.java:84-91 | an http request is refused with "请初始化文档!" if and only if the catalog entry is absent, whatever the path or token |
| AuthAndLoginFilter.LoginStage | src/main/java/com/simmed/apigateway/filter/AuthAndLoginFilter.java:106-118 | when a catalog entry matches, the refusal is "请登陆后再访问!" if and only if the token is blank or not a live key; the entry's apiId is recorded if and only if the session is live and the apiId is not null |
| AuthAndLoginFilter.RecordedOnlyOnLogin | src/main/java/com/simmed/apigateway/filter/AuthAndLoginFilter.java:106-118 | an apiId is recorded only for an http request whose catalog parsed, whose first match carries that apiId, and whose non-blank token is a live key |
| AuthAndLoginFilter.AbsentPermissionCatalogForwards | src/main/java/com/simmed/apigateway/filter/AuthAndLoginFilter.java:120-125 | an absent permission catalog is an empty list: the permission stage forwards |
| AuthAndLoginFilter.Grants | src/main/java/com/simmed/apigateway/filter/AuthAndLoginFilter.java:136 | the predicate over the permission list holds if and only if the element equals the apiId ignoring case, and throws if and only if the element is null |
| AuthAndLoginFilter.PermissionStageIff | src/main/java/com/simmed/apigateway/filter/AuthAndLoginFilter.java:131-143 | with a matching permission entry, a missing `token + "_PermissionApis"` list refuses with "无访问权限!"; a list without nulls forwards if and only if some element equals the entry's apiId ignoring case |
| AuthAndLoginFilter.GrantingAdmits | src/main/java/com/simmed/apigateway/filter/AuthAndLoginFilter.java:131-138 | appending the matched entry's apiId to a permission list without nulls lets the request through |
| Search.FindFirstAppendHit | src/main/java/com/simmed/apigateway/filter/AuthAndLoginFilter.java:136 | an accepted element appended to a list whose elements never throw is found |
| AuthAndLoginFilter.PermissionStageMessages | src/main/java/com/simmed/apigateway/filter/AuthAndLoginFilter.java:120-143 | the permission stage keeps what the login stage recorded, and either forwards or refuses with "无访问权限!" or "系统繁忙，请稍后再试!" |
| AuthAndLoginFilter.RejectionMessages | src/main/java/com/simmed/apigateway/filter/AuthAndLoginFilter.java:82-148 | every refusal carries one of the four fixed messages |
| AuthAndLoginFilter.AuthError | src/main/java/com/simmed/apigateway/filter/AuthAndLoginFilter.java:165-181 | the status becomes 401; `Content-Type: application/json;charset=UTF-8` is added; the body is the envelope {"1", 500, message}; the request and attributes are untouched |
| AuthAndLoginFilter.Filter | src/main/java/com/simmed/apigateway/filter/AuthAndLoginFilter.java:50-151 | the exchange after the gate: the recorded apiId is stored under `cachedRequestApiId`; a refusal sets 401, appends one `Content-Type: application/json;charset=UTF-8` field to the old headers and writes the error envelope; a pass leaves the response untouched |
| Exchange.TextAttribute | src/main/java/com/simmed/apigateway/filter/AuthAndLoginFilter.java:65 | a String attribute is read back if and only if it is stored as text |
| Exchange.Exchange.PutAttribute | src/main/java/com/simmed/apigateway/filter/AuthAndLoginFilter.java:117 | the attribute map is updated at one key and nothing else changes |
| RequestBodyFilter.CapturedParams | src/main/java/com/simmed/apigateway/filter/RequestBodyFilter.java:68-73 | the captured map: each key with at least one value, sent to its first value decoded by `getURLDecoder` |
| RequestBodyFilter.Classify | src/main/java/com/simmed/apigateway/filter/RequestBodyFilter.java:79-88 | no Content-Type or an empty one is not buffered; `split(";")[0]` on all-';' text throws; otherwise the lower-cased media type decides, with the three streaming types not buffered |
| RequestBodyFilter.RepublishedBody | src/main/java/com/simmed/apigateway/filter/RequestBodyFilter.java:90-95 | the republished body is the UTF-8 encoding of the body text the String reader decoded |
| RequestBodyFilter.RepublishedHeaders | src/main/java/com/simmed/apigateway/filter/RequestBodyFilter.java:102-115 | the decorated request's headers: the originals with Content-Length set to the republished length when positive, and `Transfer-Encoding: chunked` otherwise |
| RequestBodyFilter.GetOrder | src/main/java/com/simmed/apigateway/filter/RequestBodyFilter.java:128-131 | the capture filter's order is -10 |
| RequestBodyFilter.DecodeOrRaw | src/main/java/com/simmed/apigateway/filter/RequestBodyFilter.java:139-146 | a null value stays null, and a decoded value is never longer than the raw one |
| RequestBodyFilter.DecodeOrRawFallsBack | src/main/java/com/simmed/apigateway/filter/RequestBodyFilter.java:139-146 | when decoding throws, the raw value is kept, and the value holds a '%' |
| RequestBodyFilter.DecodeOrRawRecovers | src/main/java/com/simmed/apigateway/filter/RequestBodyFilter.java:139-146 | a value sent as the percent escapes of its UTF-8 bytes is captured as the original text; a value with neither '%' nor '+' is captured unchanged |
| UrlDecoder.Decode | src/main/java/com/simmed/apigateway/filter/RequestBodyFilter.java:141 | URLDecoder.decode never makes a value longer |
| UrlDecoder.DecodePlain | src/main/java/com/simmed/apigateway/filter/RequestBodyFilter.java:141 | text with neither '%' nor '+' decodes to itself |
| UrlDecoder.DecodeFailsOnlyAtEscape | src/main/java/com/simmed/apigateway/filter/RequestBodyFilter.java:141 | decoding throws only on a value that holds a '%' |
| UrlDecoder.DecodePercentEncoded | src/main/java/com/simmed/apigateway/filter/RequestBodyFilter.java:141 | round trip: percent-encoding the UTF-8 bytes of any text and decoding gives the text back |
| UrlDecoder.DecodePlainPrefix | src/main/java/com/simmed/apigateway/filter/RequestBodyFilter.java:141 | plain text in front is copied, and the rest is decoded on its own |
| UrlDecoder.DecodeEscapeExample | src/main/java/com/simmed/apigateway/filter/RequestBodyFilter.java:141 | the escape "%20" decodes to a space: "%20world" gives " world" |
| UrlDecoder.DecodePlusExample | src/main/java/com/simmed/apigateway/filter/RequestBodyFilter.java:141 | "a+b" decodes to "a b" |
| UrlDecoder.DecodeTruncatedExample | src/main/java/com/simmed/apigateway/filter/RequestBodyFilter.java:141 | "100%" makes the decoder throw |
| RequestBodyFilter.DecodeQueryParams | src/main/java/com/simmed/apigateway/filter/RequestBodyFilter.java:68-73 | the `forEach` loop builds exactly the map that sends every key with a value to its first value, decoded |
| RequestBodyFilter.CapturedParamsFirstValue | src/main/java/com/simmed/apigateway/filter/RequestBodyFilter.java:70 | the captured map has exactly the keys with a value; a key is captured with its first value decoded, and later values are ignored |
| RequestBodyFilter.BeforeSemicolon | src/main/java/com/simmed/apigateway/filter/RequestBodyFilter.java:85 | the media type is the longest prefix without ';', and it ends at a ';' or at the end of the text |
| RequestBodyFilter.FirstPiece | src/main/java/com/simmed/apigateway/filter/RequestBodyFilter.java:85 | `split(";")[0]` throws if and only if the text is non-empty and made of ';' only; otherwise it is the text before the first ';' |
| RequestBodyFilter.ClassifyBuffered | src/main/java/com/simmed/apigateway/filter/RequestBodyFilter.java:80-88 | the body is buffered if and only if the content type is present, non-empty, and not all ';', and its lower-cased media type is none of the three streaming types |
| RequestBodyFilter.ClassifyIgnoresParams | src/main/java/com/simmed/apigateway/filter/RequestBodyFilter.java:85-86 | parameters after the media type do not change the decision |
| RequestBodyFilter.ClassifyIgnoresCase | src/main/java/com/simmed/apigateway/filter/RequestBodyFilter.java:85-86 | the decision does not depend on letter case |
| RequestBodyFilter.LowerBeforeSemicolon | src/main/java/com/simmed/apigateway/filter/RequestBodyFilter.java:85 | cutting at ';' and lower-casing commute |
| RequestBodyFilter.LowerIdempotent | src/main/java/com/simmed/apigateway/filter/RequestBodyFilter.java:85 | lower-casing twice is lower-casing once |
| Headers.GetFirst | src/main/java/com/simmed/apigateway/filter/RequestBodyFilter.java:65 | HttpHeaders.getFirst: the first value of the header named, with names compared ignoring case, or null |
| Headers.Set | src/main/java/com/simmed/apigateway/filter/RequestBodyFilter.java:112 | HttpHeaders.set: every value of the header is dropped and the one value set is appended |
| Headers.Add | src/main/java/com/simmed/apigateway/filter/AuthAndLoginFilter.java:167 | HttpHeaders.add: the value is appended after the values the header already has |
| Headers.WithLength | src/main/java/com/simmed/apigateway/filter/RequestBodyFilter.java:108-113 | setContentLength for a Content-Length rule, or set("Transfer-Encoding", "chunked") |
| Headers.LengthRule | src/main/java/com/simmed/apigateway/filter/RequestBodyFilter.java:105-114 | Content-Length is chosen only for a positive length and carries that length; chunked only for a length at most 0 |
| Headers.WithLengthReadsBack | src/main/java/com/simmed/apigateway/filter/RequestBodyFilter.java:105-114 | the header written for a positive length parses back to that length; otherwise `Transfer-Encoding` reads "chunked" |
| RequestBodyFilter.RepublishedRequest | src/main/java/com/simmed/apigateway/filter/RequestBodyFilter.java:90-114 | a well-formed UTF-8 body is republished byte for byte with a Content-Length that reads back as its size; an empty body is announced as chunked |
| Utf8.DecodeEncode | src/main/java/com/simmed/apigateway/filter/RequestBodyFilter.java:90 | decoding the UTF-8 bytes of a text gives the text back |
| Utf8.StrayByteIsReplaced | src/main/java/com/simmed/apigateway/filter/ResponseBodyFilter.java:120 | a stray continuation byte is decoded as U+FFFD |
| RequestBodyFilter.Filter | src/main/java/com/simmed/apigateway/filter/RequestBodyFilter.java:52-126 | the exchange after capture: unchanged for a non-http scheme; the parameters stored first; the split failure reported; a buffered body stored when non-empty and republished with its length header |
| Pipeline.FilterOrder | src/main/java/com/simmed/apigateway/filter/AuthAndLoginFilter.java:153-156 | capture (-10) runs before the gate (-9), which runs before the response decorator (-2), which is in place before NettyWriteResponseFilter (-1) |
| Pipeline.Inbound | src/main/java/com/simmed/apigateway/filter/RequestBodyFilter.java:100-125 | capture, then the gate: a non-http request passes untouched; a split failure stops the chain before the gate; for a buffered non-empty body, the gate decides on the republished request and the body text captured |
| ResponseBodyFilter.GateOf | src/main/java/com/simmed/apigateway/filter/ResponseBodyFilter.java:78-83 | the gate: an unresolved status throws; status 200, a Flux body and a non-blank original content type containing "application/json" apply the rewrite; anything else bypasses it |
| ResponseBodyFilter.SelectCodec | src/main/java/com/simmed/apigateway/filter/ResponseBodyFilter.java:99-122 | the codec: brotli for `content-encoding` "br", else gzip when Accept-Encoding contains "gzip", else plain UTF-8; the same choice is made again at lines 159-174 |
| ResponseBodyFilter.DecodeBody | src/main/java/com/simmed/apigateway/filter/ResponseBodyFilter.java:97-122 | the text after decompression: brotli data on DONE and null otherwise; gzip through `uncompress`, where an empty body makes `new String(null)` throw; plain UTF-8 otherwise |
| ResponseBodyFilter.ReadUntilEnd | src/main/java/com/simmed/apigateway/filter/ResponseBodyFilter.java:223-228 | the bytes the read loop collects: every chunk up to the end of the stream, or up to the first read that throws |
| ResponseBodyFilter.MaskStep | src/main/java/com/simmed/apigateway/filter/ResponseBodyFilter.java:135-151 | no `token + "_ApiDataMaskRules"` entry leaves the text; an entry that does not parse, or a throwing filter, fails; non-empty rules for the apiId ask the masker about the text with those rules |
| ResponseBodyFilter.EncodeBody | src/main/java/com/simmed/apigateway/filter/ResponseBodyFilter.java:155-175 | re-encoding with the codec chosen for decoding: brotli of the text's bytes or null when it throws, gzip through `compress`, or plain UTF-8 bytes |
| ResponseBodyFilter.Transform | src/main/java/com/simmed/apigateway/filter/ResponseBodyFilter.java:85-185 | the rewrite of the joined content: decode, mask when rules apply, re-encode; a null or blank text fails at `uppedContent.length`; a result carries its length header |
| ResponseBodyFilter.WriteWithOutcome | src/main/java/com/simmed/apigateway/filter/ResponseBodyFilter.java:76-190 | the outcome of writeWith: a throwing gate fails, a bypassed body is written as it came, a body with no chunks is written empty, and otherwise the transform of the joined chunks is written or fails |
| ResponseBodyFilter.GetOrder | src/main/java/com/simmed/apigateway/filter/ResponseBodyFilter.java:196-199 | the response filter's order is -2 |
| ResponseBodyFilter.GateIff | src/main/java/com/simmed/apigateway/filter/ResponseBodyFilter.java:78-83 | the body is transformed if and only if the status is 200, the body is a Flux, and the original content type contains "application/json" |
| ResponseBodyFilter.SelectCodecIff | src/main/java/com/simmed/apigateway/filter/ResponseBodyFilter.java:99-122 | brotli if and only if `content-encoding` is exactly "br"; gzip if and only if it is not and Accept-Encoding contains "gzip" |
| ResponseBodyFilter.ContainsIsNotBlank | src/main/java/com/simmed/apigateway/filter/ResponseBodyFilter.java:83 | a text containing a piece that starts with a non-blank character is not blank |
| ResponseBodyFilter.Inflated | src/main/java/com/simmed/apigateway/filter/ResponseBodyFilter.java:215-233 | uncompress gives null if and only if the input is empty, and no bytes when the gzip header is rejected |
| ResponseBodyFilter.Uncompress | src/main/java/com/simmed/apigateway/filter/ResponseBodyFilter.java:215-233 | the 256-byte read loop collects exactly the bytes `Inflated` describes |
| ResponseBodyFilter.ReadUntilEndAppend | src/main/java/com/simmed/apigateway/filter/ResponseBodyFilter.java:225-227 | the loop's bytes over reads that succeed, followed by more reads, are their concatenation followed by what the rest yields |
| ResponseBodyFilter.InflatedPartial | src/main/java/com/simmed/apigateway/filter/ResponseBodyFilter.java:221-232 | a read that throws ends the loop: the bytes read before it are returned |
| ResponseBodyFilter.InflatedComplete | src/main/java/com/simmed/apigateway/filter/ResponseBodyFilter.java:223-227 | a stream read to its end gives all its bytes in order |
| ResponseBodyFilter.Compress | src/main/java/com/simmed/apigateway/filter/ResponseBodyFilter.java:236-239 | compress gives null if and only if the text is null or empty |
| ResponseBodyFilter.CompressThenUncompress | src/main/java/com/simmed/apigateway/filter/ResponseBodyFilter.java:236-251 | when gzip and gunzip are inverse, uncompress undoes compress on any non-empty text |
| ResponseBodyFilter.RulesFor | src/main/java/com/simmed/apigateway/filter/ResponseBodyFilter.java:142 | the filter throws if and only if some rule or its apiId is null; otherwise it keeps exactly the rules whose apiId equals the recorded one, in list order and with repeats, as the in-order filter `Keep` does |
| ResponseBodyFilter.MaskStepIff | src/main/java/com/simmed/apigateway/filter/ResponseBodyFilter.java:135-151 | the masker is asked if and only if the `token + "_ApiDataMaskRules"` entry exists, parses, and has rules for the apiId; it is asked about the text itself with the whole filtered list `RulesFor` gives; with no entry nothing is masked |
| ResponseBodyFilter.BadRulesFail | src/main/java/com/simmed/apigateway/filter/ResponseBodyFilter.java:140-142 | a rule list that does not parse, or holds a null rule or a null apiId, makes the transform fail |
| ResponseBodyFilter.NoTextFails | src/main/java/com/simmed/apigateway/filter/ResponseBodyFilter.java:97-176 | a brotli result other than DONE, an empty or badly headed gzip body, or an empty plain body leaves no text, and the transform fails at the length step |
| ResponseBodyFilter.RewrittenLength | src/main/java/com/simmed/apigateway/filter/ResponseBodyFilter.java:176-180 | a rewritten body announces a Content-Length if and only if it is non-empty, and chunked otherwise |
| ResponseBodyFilter.PlainBodyPassesThrough | src/main/java/com/simmed/apigateway/filter/ResponseBodyFilter.java:85-184 | with no masking rules, a non-blank uncompressed UTF-8 JSON body is written back byte for byte with its length |
| ResponseBodyFilter.GzipBodyPassesThrough | src/main/java/com/simmed/apigateway/filter/ResponseBodyFilter.java:116-170 | with no masking rules and inverse gzip codecs, a gzip body is written back as the same bytes |
| ResponseBodyFilter.MaskedTextIsWritten | src/main/java/com/simmed/apigateway/filter/ResponseBodyFilter.java:143-172 | when the masker is asked, its answer replaces the text, and the body written is the answer's UTF-8 bytes, or a failure when the answer is blank |
| ResponseBodyFilter.DecodeContent | src/main/java/com/simmed/apigateway/filter/ResponseBodyFilter.java:97-122 | the decompression step computes `DecodeBody`: brotli text only on DONE, gzip through the `uncompress` loop (an empty body throws), plain UTF-8 otherwise |
| ResponseBodyFilter.TransformContent | src/main/java/com/simmed/apigateway/filter/ResponseBodyFilter.java:85-185 | reassigning `s` and `uppedContent` step by step gives exactly `Transform`: decode, mask when rules apply, re-encode with the same codec, and fail when the text is null or blank |
| ResponseBodyFilter.WriteWith | src/main/java/com/simmed/apigateway/filter/ResponseBodyFilter.java:76-190 | the outcome is the one `WriteWithOutcome` gives: a body that bypasses the transform is written unchanged; a body with no chunks is written empty with the headers untouched; a rewritten body is written as one buffer with its length header; on failure nothing is written |
| Pipeline.UnreachableMaskerKeepsBody | src/main/java/com/simmed/apigateway/filter/ResponseBodyFilter.java:143-148 | end to end, when the masking service has no healthy instance, a readable uncompressed JSON body is written back unchanged even when the caller has rules |
| Pipeline.MaskedBodyIsTextOrAnswer | src/main/java/com/simmed/apigateway/filter/ResponseBodyFilter.java:147 | when masking is asked for, the body written is the original text or the result the service answered with |
| DataMaskUtil.GetUrl | src/main/java/com/simmed/apigateway/utils/DataMaskUtil.java:31-47 | the URL is "" when discovery throws, finds nothing, or finds an unhealthy instance; otherwise it is not blank |
| DataMaskUtil.LastColon | src/main/java/com/simmed/apigateway/utils/DataMaskUtil.java:44 | the position found holds the last ':' of the text; none is found if and only if there is no ':' |
| DataMaskUtil.IntToStringHasNoColon | src/main/java/com/simmed/apigateway/utils/DataMaskUtil.java:44 | a port rendered with `%d` holds no ':' |
| DataMaskUtil.LastColonOfJoin | src/main/java/com/simmed/apigateway/utils/DataMaskUtil.java:44 | in `host + ":" + digits`, the last ':' is the separator |
| DataMaskUtil.Envelope | src/main/java/com/simmed/apigateway/utils/DataMaskUtil.java:54-56 | the envelope built: the current time in milliseconds as id, jsonrpc "2.0", method "execDatamaskByApiRule", and the one-element parameter list holding the request |
| DataMaskUtil.Call | src/main/java/com/simmed/apigateway/utils/DataMaskUtil.java:57-60 | the one POST: to the discovered URL, with the JSON content type and the envelope as body |
| DataMaskUtil.ExecDatamaskByApiRule | src/main/java/com/simmed/apigateway/utils/DataMaskUtil.java:49-67 | a blank URL returns the value; otherwise the POST's result, and the value on a transport error, a null body or a null result |
| DataMaskUtil.GetUrlRoundTrip | src/main/java/com/simmed/apigateway/utils/DataMaskUtil.java:44 | the URL of a healthy instance is "http://" + ip + ":" + port + "/api/datamask/masking": the ip and port read back out of it, for any ip text |
| Text.IntToStringRoundTrip | src/main/java/com/simmed/apigateway/dto/RpcRequest.java:14 | a number rendered in decimal parses back to itself |
| DataMaskUtil.EnvelopeShape | src/main/java/com/simmed/apigateway/utils/DataMaskUtil.java:54-56 | the envelope has method "execDatamaskByApiRule", jsonrpc "2.0", an id that reads back as the current time, and exactly the one request as params |
| DataMaskUtil.NoInstanceNoCall | src/main/java/com/simmed/apigateway/utils/DataMaskUtil.java:50-53 | without a usable instance the original value is returned and the HTTP client is not used |
| DataMaskUtil.OnlyTheEnvelopeIsPosted | src/main/java/com/simmed/apigateway/utils/DataMaskUtil.java:54-60 | the answer depends on the HTTP client only through the one POST, which goes to the instance URL with the JSON content type and the envelope |
| DataMaskUtil.FailOpen | src/main/java/com/simmed/apigateway/utils/DataMaskUtil.java:59-66 | the answer is the original value, or the result of a response that came back from a usable instance |
| DataMaskUtil.ErrorFieldIgnored | src/main/java/com/simmed/apigateway/utils/DataMaskUtil.java:61 | the answer is the result when there is one and the original value otherwise; the `error` field is never consulted |
| NacosRouteDefinitionRepository.GetListByStr | src/main/java/com/simmed/apigateway/config/NacosRouteDefinitionRepository.java:86-91 | null or empty content is an empty list without parsing; other content is what `parseArray` gives |
| NacosRouteDefinitionRepository.LoadRoutes | src/main/java/com/simmed/apigateway/config/NacosRouteDefinitionRepository.java:41-51 | a load: a store exception gives no routes; otherwise `getListByStr` of the content, where a parse exception or a null list escapes |
| NacosRouteDefinitionRepository.LoadIsEmptyIff | src/main/java/com/simmed/apigateway/config/NacosRouteDefinitionRepository.java:41-51 | a load gives no routes if and only if the store fails, the document is null or empty, or it parses to an empty list |
| NacosRouteDefinitionRepository.LoadKeepsDocumentOrder | src/main/java/com/simmed/apigateway/config/NacosRouteDefinitionRepository.java:45-46 | a non-empty document gives the parsed routes in the document's order |
| NacosRouteDefinitionRepository.LoadFaultIff | src/main/java/com/simmed/apigateway/config/NacosRouteDefinitionRepository.java:47-50 | a load fails if and only if a non-empty document does not parse to a list: only the store's exception is turned into no routes |
| NacosRouteDefinitionRepository.EmptyContentIsNotParsed | src/main/java/com/simmed/apigateway/config/NacosRouteDefinitionRepository.java:86-90 | with a store error or empty content, every parser gives the same empty load |
| NacosRouteDefinitionRepository.ConfigService.AddListener | src/main/java/com/simmed/apigateway/config/NacosRouteDefinitionRepository.java:56-73 | a listener for the (dataId, group) pair is appended, or the registration is refused and nothing changes |
| NacosRouteDefinitionRepository.ConfigService.GetConfig | src/main/java/com/simmed/apigateway/config/NacosRouteDefinitionRepository.java:43-44 | the document or null, or a store error when unreachable; the fetch is recorded with its bound |
| NacosRouteDefinitionRepository.Repository.constructor | src/main/java/com/simmed/apigateway/config/NacosRouteDefinitionRepository.java:33-38 | the collaborators are stored and exactly one listener for the route document is registered; a refused registration does not stop construction |
| NacosRouteDefinitionRepository.EventPublisher.PublishEvent | src/main/java/com/simmed/apigateway/config/NacosRouteDefinitionRepository.java:67 | the event is appended to what was published |
| NacosRouteDefinitionRepository.Repository.ReceiveConfigInfo | src/main/java/com/simmed/apigateway/config/NacosRouteDefinitionRepository.java:65-68 | a notification publishes exactly one refresh event; the pushed text is not read and the configuration is untouched |
| NacosRouteDefinitionRepository.Repository.GetRouteDefinitions | src/main/java/com/simmed/apigateway/config/NacosRouteDefinitionRepository.java:41-51 | one fetch of (dataId, group) bounded by 5000 ms, and the load of what came back |
| NacosRouteDefinitionRepository.Repository.Save | src/main/java/com/simmed/apigateway/config/NacosRouteDefinitionRepository.java:76-78 | answers null and changes nothing |
| NacosRouteDefinitionRepository.Repository.Delete | src/main/java/com/simmed/apigateway/config/NacosRouteDefinitionRepository.java:81-83 | answers null and changes nothing |

## Left out

- Reactor and WebFlux plumbing: Mono/Flux, the decorators, `CachedBodyOutputMessage` and buffer release. These are asynchronous I/O. Each filter is one synchronous step on the exchange.
- Concurrency: concurrent requests, and the route locator's swap of the route table. This is framework code.
- Logging and tracer tags have no bearing on outcomes and are not modelled.
- fastjson parsing and serialisation are abstract parse functions.
  - The query-parameter JSON document is stored as the map itself, so fastjson dropping null values is not modelled.
  - The error envelope is stored as its three fields, not as JSON text.
- Redis (`RedisUtil` is not part of this model) is a snapshot of values and live keys. A Redis failure is not modelled.
- gzip and brotli are abstract functions.
  - `Brotli4jLoader.ensureAvailability` errors are not modelled.
  - A GZIPOutputStream IOException on an in-memory stream cannot happen and is not modelled.
- Character sets.
  - Only UTF-8 is modelled, for request bodies and for the platform default charset of the brotli paths.
  - The JDK decoders' exact replacement granularity for malformed UTF-8 is not modelled. Each malformed byte, or each maximal well-formed prefix, becomes one U+FFFD.
- Text.Lower and Text.EqualsIgnoreCase fold ASCII letters only. Java's `toLowerCase` and `equalsIgnoreCase` also fold other scripts.
- UrlDecoder.HexValue accepts ASCII hexadecimal digits only. `Character.digit` and `Integer.parseInt` also accept other Unicode digits.
- Text.IsWhitespace treats U+180E as non-blank. That is Java 9 and later; Java 8 counts it as whitespace.
- DataMaskUtil.GetUrl renders the port with `%d` in ASCII digits: it assumes a default locale whose digits are ASCII.
- Attributes are read as text. A non-String attribute would raise ClassCastException; that case is not modelled.
- The request's query parameters are a map from each key to its list of values. Spring's `toSingleValueMap` with an empty value list is taken to skip the key.
- RequestBodyFilter.RepublishedHeaders takes the republished Content-Length to be the length of the UTF-8 encoding of the body text. It assumes the encoder writer sets up `CachedBodyOutputMessage`'s headers this way.
- Route definitions are passed through as opaque records. Nulls inside the parsed route list are not modelled.
- DynamicRouteConfig, GatewayConfig, Configure, RestTemplateConfiguration and NamingServiceConfiguration are wiring and are not modelled. The data id and group are parameters of the repository.
- The DTO flags `loginCheck`, `rpcCheck` and `isOpen` are never consulted by the code and are carried as data only.
