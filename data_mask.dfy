/**
 * DataMaskUtil: the client of the masking service. It discovers one healthy
 * instance of the "datamask" service, posts a JSON-RPC style request with the
 * text and its rules, and returns the service's result. It fails open: without
 * an instance, or on any failure of the call, the original text is returned.
 */
module DataMaskUtil {
  import opened Wrappers
  import opened Text
  import opened Dto

  const DataId := "datamask"
  const ServiceUrl := "/api/datamask/masking"
  const RpcMethod := "execDatamaskByApiRule"
  const JsonRpcVersion := "2.0"
  const JsonContentType := "application/json"
  const UrlScheme := "http://"

  /** A discovered service instance. */
  datatype Instance = Instance(ip: Option<string>, port: int, healthy: bool)

  /** selectOneHealthyInstance: it throws, or returns an instance or null. */
  datatype Discovery = DiscoveryThrew | Selected(instance: Option<Instance>)

  predicate IsUsable(d: Discovery) {
    d.Selected? && d.instance.Some? && d.instance.value.healthy
  }

  /** getUrl: `String.format("http://%s:%d%s", ip, port, serviceUrl)` for a healthy
      instance, and "" otherwise. */
  function GetUrl(d: Discovery): (url: string)
    ensures !IsUsable(d) ==> url == ""
    ensures IsUsable(d) ==> !IsBlank(Some(url))
  {
    if IsUsable(d) then
      var url := UrlScheme + JavaString(d.instance.value.ip) + ":" + IntToString(d.instance.value.port) + ServiceUrl;
      assert url[0] == 'h';
      url
    else ""
  }

  // ---- reading the address back out of the URL ----

  /** The position of the last ':' of `s`. */
  function LastColon(s: string): (r: Option<nat>)
    ensures r.Some? ==> r.value < |s| && s[r.value] == ':' && forall j :: r.value < j < |s| ==> s[j] != ':'
    ensures r.None? ==> forall j :: 0 <= j < |s| ==> s[j] != ':'
    decreases |s|
  {
    if s == [] then None
    else if s[|s| - 1] == ':' then Some(|s| - 1)
    else LastColon(s[..|s| - 1])
  }

  /** The host and port of a masking-service URL. */
  function HostPortOf(url: string): Option<(string, int)> {
    if |url| < |UrlScheme| + |ServiceUrl| || url[..|UrlScheme|] != UrlScheme
       || url[|url| - |ServiceUrl|..] != ServiceUrl then None
    else
      var middle := url[|UrlScheme|..|url| - |ServiceUrl|];
      match LastColon(middle)
      case None => None
      case Some(i) =>
        match ParseInt(middle[i + 1..])
        case None => None
        case Some(port) => Some((middle[..i], port))
  }

  lemma IntToStringHasNoColon(n: int)
    ensures forall j :: 0 <= j < |IntToString(n)| ==> IntToString(n)[j] != ':'
  {
    if n < 0 {
      assert IntToString(n) == "-" + NatToString(-n);
    }
  }

  lemma {:induction false} LastColonOfJoin(host: string, digits: string)
    requires forall j :: 0 <= j < |digits| ==> digits[j] != ':'
    ensures LastColon(host + ":" + digits) == Some(|host|)
    decreases |digits|
  {
    var s := host + ":" + digits;
    if digits == [] {
      assert s[|s| - 1] == ':';
    } else {
      var shorter := digits[..|digits| - 1];
      assert s[|s| - 1] == digits[|digits| - 1];
      assert s[..|s| - 1] == host + ":" + shorter;
      LastColonOfJoin(host, shorter);
    }
  }

  /** The URL names the discovered instance: its address and port read back out
      of it, for any address text — even one holding ':' itself. */
  lemma GetUrlRoundTrip(ip: string, port: int)
    ensures HostPortOf(GetUrl(Selected(Some(Instance(Some(ip), port, true))))) == Some((ip, port))
  {
    var digits := IntToString(port);
    var url := GetUrl(Selected(Some(Instance(Some(ip), port, true))));
    var middle := ip + ":" + digits;
    assert url == UrlScheme + middle + ServiceUrl;
    assert url[..|UrlScheme|] == UrlScheme;
    assert url[|url| - |ServiceUrl|..] == ServiceUrl;
    assert url[|UrlScheme|..|url| - |ServiceUrl|] == middle;
    IntToStringHasNoColon(port);
    LastColonOfJoin(ip, digits);
    assert middle[|ip| + 1..] == digits;
    assert middle[..|ip|] == ip;
    IntToStringRoundTrip(port);
  }

  // ---- the call ----

  /** The HTTP exchange the client performs: the POST it sends and what comes back. */
  datatype HttpPost = HttpPost(url: string, contentType: string, body: RpcRequest)

  datatype HttpOutcome = TransportError | Response(body: Option<RpcResponse>)

  /** The naming service, the configured group, the clock and the HTTP client. */
  datatype MaskEnv = MaskEnv(
    group: string,
    select: (string, string) -> Discovery,
    nowMillis: int,
    post: HttpPost -> HttpOutcome)

  /** RpcRequest.builder().method(rpcMethod).params(list).build(): the id is the
      current time in milliseconds as text and jsonrpc is "2.0". */
  function Envelope(request: MaskRequest, nowMillis: int): RpcRequest {
    RpcRequest(IntToString(nowMillis), JsonRpcVersion, RpcMethod, [request])
  }

  function Call(request: MaskRequest, env: MaskEnv): HttpPost {
    HttpPost(GetUrl(env.select(DataId, env.group)), JsonContentType, Envelope(request, env.nowMillis))
  }

  /** execDatamaskByApiRule. `getResult().toString()` on a null body or a null
      result throws, and the handler answers with the original text. */
  function ExecDatamaskByApiRule(request: MaskRequest, env: MaskEnv): string {
    var url := GetUrl(env.select(DataId, env.group));
    if IsBlank(Some(url)) then request.value
    else
      match env.post(Call(request, env))
      case TransportError => request.value
      case Response(None) => request.value
      case Response(Some(answer)) => if answer.result.None? then request.value else answer.result.value
  }

  // ---- properties ----

  /** The envelope carries the method, version 2.0, the time it was built, and
      exactly the one request. */
  lemma EnvelopeShape(request: MaskRequest, nowMillis: int)
    ensures var e := Envelope(request, nowMillis);
            e.methodName == "execDatamaskByApiRule" && e.jsonrpc == "2.0"
            && |e.params| == 1 && e.params[0] == request
            && ParseInt(e.id) == Some(nowMillis)
  {
    IntToStringRoundTrip(nowMillis);
  }

  /** The result is the service's result when one comes back, and the original
      text in every other case. */
  lemma FailOpen(request: MaskRequest, env: MaskEnv)
    ensures var r := ExecDatamaskByApiRule(request, env);
            r == request.value
            || (IsUsable(env.select(DataId, env.group))
                && env.post(Call(request, env)).Response? && env.post(Call(request, env)).body.Some?
                && env.post(Call(request, env)).body.value.result == Some(r))
  {
  }

  /** Without a usable instance no request is sent: the answer is the original
      text whatever the HTTP client would do. */
  lemma NoInstanceNoCall(request: MaskRequest, env: MaskEnv, post': HttpPost -> HttpOutcome)
    requires !IsUsable(env.select(DataId, env.group))
    ensures ExecDatamaskByApiRule(request, env) == request.value
    ensures ExecDatamaskByApiRule(request, env) == ExecDatamaskByApiRule(request, env.(post := post'))
  {
  }

  /** A usable instance is always called, at its URL, with the JSON content type and
      the envelope: the answer depends on the HTTP client only through that one call. */
  lemma OnlyTheEnvelopeIsPosted(request: MaskRequest, env: MaskEnv, post': HttpPost -> HttpOutcome)
    requires post'(Call(request, env)) == env.post(Call(request, env))
    ensures ExecDatamaskByApiRule(request, env) == ExecDatamaskByApiRule(request, env.(post := post'))
    ensures IsUsable(env.select(DataId, env.group)) ==>
              Call(request, env).url == GetUrl(env.select(DataId, env.group)) != ""
              && Call(request, env).contentType == JsonContentType
              && Call(request, env).body == Envelope(request, env.nowMillis)
  {
    assert Call(request, env.(post := post')) == Call(request, env);
  }

  /** The `error` field of the answer is not consulted: an answer that differs
      only in it gives the same text. */
  lemma ErrorFieldIgnored(request: MaskRequest, env: MaskEnv, answer: RpcResponse, error: Option<string>,
                          post': HttpPost -> HttpOutcome)
    requires IsUsable(env.select(DataId, env.group))
    requires env.post(Call(request, env)) == Response(Some(answer))
    requires post'(Call(request, env)) == Response(Some(answer.(error := error)))
    ensures ExecDatamaskByApiRule(request, env.(post := post')) == ExecDatamaskByApiRule(request, env)
    ensures ExecDatamaskByApiRule(request, env) == if answer.result.Some? then answer.result.value else request.value
  {
    assert Call(request, env.(post := post')) == Call(request, env);
  }
}
