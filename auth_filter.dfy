/**
 * AuthAndLoginFilter: the gateway's login and permission gate. For an http or
 * https request it finds the API the request addresses in the cached API
 * catalog, demands a live session token for it, and then checks the caller's
 * permission list when the API is in the permission catalog. Every refusal is
 * answered with status 401 and a small JSON envelope.
 */
module AuthAndLoginFilter {
  import opened Wrappers
  import opened Text
  import opened Search
  import opened Headers
  import opened Dto
  import opened Cache
  import Ex = Exchange

  const CatalogKey := "SIMMED_GatewayApi_CheckList"
  const PermissionCatalogKey := "SIMMED_GatewayApi_PermissionList"
  const PermissionKeySuffix := "_PermissionApis"
  const TokenHeader := "WeAppAuthorization"

  const NotInitialised := "请初始化文档!"
  const NotLoggedIn := "请登陆后再访问!"
  const NoPermission := "无访问权限!"
  const Busy := "系统繁忙，请稍后再试!"

  const ErrorId := "1"
  const ErrorCode := 500
  const Unauthorized := 401
  const JsonUtf8 := "application/json;charset=UTF-8"

  /** The JSON-RPC style body a client may send; only `method` is consulted. */
  datatype RequestData = RequestData(id: Option<string>, jsonrpc: Option<string>, methodName: Option<string>)

  /** The error envelope. */
  datatype ReturnData = ReturnData(id: string, code: int, message: string)

  /** The three fastjson parses the gate performs. */
  datatype Parsers = Parsers(
    requestData: string -> Parse<RequestData>,
    apis: string -> Parse<seq<Option<GatewayApi>>>,
    grants: string -> Parse<seq<Option<string>>>)

  datatype Verdict = Skipped | Forward | Reject(message: string)

  /** The verdict, and the apiId the gate stores as a request attribute, if any. */
  datatype Outcome = Outcome(recorded: Option<string>, verdict: Verdict)

  /** The method the API is looked up by: the `method` of a JSON-RPC body when
      the captured body is non-blank, parses, and names a non-blank method;
      otherwise the HTTP method. A body that does not parse is tolerated. */
  function EffectiveMethod(httpMethod: string, body: Option<string>, parse: string -> Parse<RequestData>): string {
    if IsBlank(body) then httpMethod
    else
      match parse(body.value)
      case Parsed(d) => if IsBlank(d.methodName) then httpMethod else d.methodName.value
      case _ => httpMethod
  }

  /** The stream predicate `x.getPath().equalsIgnoreCase(path) && x.getApiName()
      .equalsIgnoreCase(method)`: a null entry, a null path, or a null apiName
      reached after a matching path, throws. */
  function Matches(path: string, m: string, x: Option<GatewayApi>): (r: Probe)
    ensures r == Hit <==> x.Some? && x.value.path.Some? && EqualsIgnoreCase(x.value.path.value, path)
                          && x.value.apiName.Some? && EqualsIgnoreCase(x.value.apiName.value, m)
    ensures r == Fault <==> x.None? || x.value.path.None?
                            || (EqualsIgnoreCase(x.value.path.value, path) && x.value.apiName.None?)
  {
    if x.None? || x.value.path.None? then Fault
    else if !EqualsIgnoreCase(x.value.path.value, path) then Miss
    else if x.value.apiName.None? then Fault
    else if EqualsIgnoreCase(x.value.apiName.value, m) then Hit else Miss
  }

  /** The stream predicate `x.equalsIgnoreCase(apiId)` over a permission list. */
  function Grants(apiId: Option<string>, x: Option<string>): (r: Probe)
    ensures r == Fault <==> x.None?
    ensures r == Hit <==> x.Some? && apiId.Some? && EqualsIgnoreCase(x.value, apiId.value)
  {
    if x.None? then Fault
    else if apiId.Some? && EqualsIgnoreCase(x.value, apiId.value) then Hit else Miss
  }

  /** The cache key of a caller's permission list: Java concatenation, so a null
      token gives "null_PermissionApis". */
  function PermissionKey(token: Option<string>): string {
    JavaString(token) + PermissionKeySuffix
  }

  /** The permission stage, lines 120-143; `recorded` is what the login stage stored. */
  function PermissionStage(path: string, m: string, token: Option<string>, cache: Snapshot,
                           parsers: Parsers, recorded: Option<string>): Outcome
  {
    var catalog := if cache.Get(PermissionCatalogKey).None? then Parsed([])
                   else parsers.apis(cache.Get(PermissionCatalogKey).value);
    match catalog
    case Malformed => Outcome(recorded, Reject(Busy))
    case Null => Outcome(recorded, Reject(Busy))
    case Parsed(perApis) =>
      match FindFirst(perApis, x => Matches(path, m, x))
      case Threw(_) => Outcome(recorded, Reject(Busy))
      case Absent => Outcome(recorded, Forward)
      case At(_, perApi) =>
        match cache.Get(PermissionKey(token))
        case None => Outcome(recorded, Reject(NoPermission))
        case Some(text) =>
          match parsers.grants(text)
          case Malformed => Outcome(recorded, Reject(Busy))
          case Null => Outcome(recorded, Reject(Busy))
          case Parsed(grants) =>
            match FindFirst(grants, x => Grants(perApi.value.apiId, x))
            case Threw(_) => Outcome(recorded, Reject(Busy))
            case At(_, _) => Outcome(recorded, Forward)
            case Absent => Outcome(recorded, Reject(NoPermission))
  }

  /** The catalog and login stages, lines 82-118, followed by the permission stage.
      Storing a null apiId in the exchange's concurrent attribute map throws. */
  function Checks(path: string, m: string, token: Option<string>, cache: Snapshot, parsers: Parsers): Outcome {
    match cache.Get(CatalogKey)
    case None => Outcome(None, Reject(NotInitialised))
    case Some(text) =>
      match parsers.apis(text)
      case Malformed => Outcome(None, Reject(Busy))
      case Null => Outcome(None, Reject(Busy))
      case Parsed(apis) =>
        match FindFirst(apis, x => Matches(path, m, x))
        case Threw(_) => Outcome(None, Reject(Busy))
        case Absent => PermissionStage(path, m, token, cache, parsers, None)
        case At(_, api) =>
          if IsBlank(token) || !cache.HasKey(token.value) then Outcome(None, Reject(NotLoggedIn))
          else if api.value.apiId.None? then Outcome(None, Reject(Busy))
          else PermissionStage(path, m, token, cache, parsers, api.value.apiId)
  }

  /** AuthAndLoginFilter.filter as a decision: what it stores and what it answers. */
  function Decide(request: Ex.Request, body: Option<string>, cache: Snapshot, parsers: Parsers): Outcome {
    if !Ex.IsHttp(request.scheme) then Outcome(None, Skipped)
    else
      var m := EffectiveMethod(request.httpMethod, body, parsers.requestData);
      Checks(request.path, m, GetFirst(request.headers, TokenHeader), cache, parsers)
  }

  /** The four fixed refusal messages. */
  predicate IsGateMessage(message: string) {
    message == NotInitialised || message == NotLoggedIn || message == NoPermission || message == Busy
  }

  // ---- properties of the decision ----

  /** A request that is neither http nor https is forwarded and nothing is
      stored, whatever the cache holds: the cache is never consulted. */
  lemma NonHttpIsSkipped(request: Ex.Request, body: Option<string>, cache: Snapshot, cache': Snapshot,
                         parsers: Parsers, parsers': Parsers)
    requires !Ex.IsHttp(request.scheme)
    ensures Decide(request, body, cache, parsers) == Outcome(None, Skipped)
    ensures Decide(request, body, cache, parsers) == Decide(request, body, cache', parsers')
  {
  }

  /** The effective method is the HTTP method except when the body names a
      non-blank method; a blank body or a body that does not parse keeps the
      HTTP method. */
  lemma EffectiveMethodOrigin(httpMethod: string, body: Option<string>, parse: string -> Parse<RequestData>)
    ensures var m := EffectiveMethod(httpMethod, body, parse);
            m == httpMethod
            || (body.Some? && parse(body.value).Parsed? && parse(body.value).value.methodName == Some(m)
                && !IsBlank(Some(m)))
    ensures IsBlank(body) ==> EffectiveMethod(httpMethod, body, parse) == httpMethod
    ensures body.Some? && !parse(body.value).Parsed? ==> EffectiveMethod(httpMethod, body, parse) == httpMethod
  {
  }

  /** Tunnelling: a JSON-RPC body's method makes the gate answer exactly as it
      would for a request sent with that HTTP method and no captured body. */
  lemma TunnelledMethod(request: Ex.Request, body: Option<string>, cache: Snapshot, parsers: Parsers)
    requires Ex.IsHttp(request.scheme)
    ensures var m := EffectiveMethod(request.httpMethod, body, parsers.requestData);
            Decide(request, body, cache, parsers) == Decide(request.(httpMethod := m), None, cache, parsers)
  {
  }

  /** The permission stage never answers "not initialised" nor "not logged in". */
  lemma PermissionStageMessages(path: string, m: string, token: Option<string>, cache: Snapshot,
                                parsers: Parsers, recorded: Option<string>)
    ensures var o := PermissionStage(path, m, token, cache, parsers, recorded);
            o.recorded == recorded
            && (o.verdict.Forward? || o.verdict == Reject(NoPermission) || o.verdict == Reject(Busy))
  {
  }

  /** Without the API catalog every http request is refused with "please initialise
      the documentation", and that message is given for no other reason. */
  lemma MissingCatalogIff(request: Ex.Request, body: Option<string>, cache: Snapshot, parsers: Parsers)
    requires Ex.IsHttp(request.scheme)
    ensures Decide(request, body, cache, parsers).verdict == Reject(NotInitialised)
        <==> cache.Get(CatalogKey).None?
  {
    var m := EffectiveMethod(request.httpMethod, body, parsers.requestData);
    var token := GetFirst(request.headers, TokenHeader);
    PermissionStageMessages(request.path, m, token, cache, parsers, None);
    if cache.Get(CatalogKey).Some? && parsers.apis(cache.Get(CatalogKey).value).Parsed? {
      var apis := parsers.apis(cache.Get(CatalogKey).value).value;
      var found := FindFirst(apis, x => Matches(request.path, m, x));
      if found.At? && found.item.value.apiId.Some? {
        PermissionStageMessages(request.path, m, token, cache, parsers, found.item.value.apiId);
      }
    }
  }

  /** The login stage: when the catalog parses and an entry matches, the request is
      refused with "please log in" exactly when the token is blank or not a live
      session key; otherwise the entry's apiId is recorded, and a null apiId is a
      failure. */
  lemma LoginStage(path: string, m: string, token: Option<string>, cache: Snapshot, parsers: Parsers,
                   apis: seq<Option<GatewayApi>>)
    requires cache.Get(CatalogKey).Some? && parsers.apis(cache.Get(CatalogKey).value) == Parsed(apis)
    requires FindFirst(apis, x => Matches(path, m, x)).At?
    ensures var api := FindFirst(apis, x => Matches(path, m, x)).item;
            var o := Checks(path, m, token, cache, parsers);
            && (o.verdict == Reject(NotLoggedIn) <==> IsBlank(token) || !cache.HasKey(token.value))
            && (o.recorded.Some? <==> !IsBlank(token) && cache.HasKey(token.value) && api.value.apiId.Some?)
            && (o.recorded.Some? ==> o.recorded == api.value.apiId)
  {
    var api := FindFirst(apis, x => Matches(path, m, x)).item;
    if !IsBlank(token) && cache.HasKey(token.value) && api.value.apiId.Some? {
      PermissionStageMessages(path, m, token, cache, parsers, api.value.apiId);
    }
  }

  /** An apiId is recorded only when a catalog entry matched and the session is live. */
  lemma RecordedOnlyOnLogin(request: Ex.Request, body: Option<string>, cache: Snapshot, parsers: Parsers)
    ensures var o := Decide(request, body, cache, parsers);
            o.recorded.Some? ==>
              Ex.IsHttp(request.scheme) && cache.Get(CatalogKey).Some?
              && parsers.apis(cache.Get(CatalogKey).value).Parsed?
              && var m := EffectiveMethod(request.httpMethod, body, parsers.requestData);
                 var found := FindFirst(parsers.apis(cache.Get(CatalogKey).value).value, x => Matches(request.path, m, x));
                 var token := GetFirst(request.headers, TokenHeader);
                 found.At? && found.item.Some? && found.item.value.apiId == o.recorded
                 && token.Some? && !IsBlank(token) && cache.HasKey(token.value)
  {
    if Ex.IsHttp(request.scheme) {
      var m := EffectiveMethod(request.httpMethod, body, parsers.requestData);
      var token := GetFirst(request.headers, TokenHeader);
      PermissionStageMessages(request.path, m, token, cache, parsers, None);
      if cache.Get(CatalogKey).Some? && parsers.apis(cache.Get(CatalogKey).value).Parsed? {
        var apis := parsers.apis(cache.Get(CatalogKey).value).value;
        var found := FindFirst(apis, x => Matches(request.path, m, x));
        if found.At? && found.item.value.apiId.Some? {
          PermissionStageMessages(request.path, m, token, cache, parsers, found.item.value.apiId);
        }
      }
    }
  }

  /** An absent permission catalog means no permission gating: the stage forwards. */
  lemma AbsentPermissionCatalogForwards(path: string, m: string, token: Option<string>, cache: Snapshot,
                                        parsers: Parsers, recorded: Option<string>)
    requires cache.Get(PermissionCatalogKey).None?
    ensures PermissionStage(path, m, token, cache, parsers, recorded) == Outcome(recorded, Forward)
  {
  }

  /** When a permission entry matches, the caller's list is read under
      token + "_PermissionApis": a missing list is refused, and a list without
      nulls lets the request through exactly when it holds the entry's apiId
      ignoring case. */
  lemma PermissionStageIff(path: string, m: string, token: Option<string>, cache: Snapshot,
                           parsers: Parsers, recorded: Option<string>, perApis: seq<Option<GatewayApi>>)
    requires (if cache.Get(PermissionCatalogKey).None? then Parsed([])
              else parsers.apis(cache.Get(PermissionCatalogKey).value)) == Parsed(perApis)
    requires FindFirst(perApis, x => Matches(path, m, x)).At?
    ensures var perApi := FindFirst(perApis, x => Matches(path, m, x)).item;
            var o := PermissionStage(path, m, token, cache, parsers, recorded);
            && (cache.Get(PermissionKey(token)).None? ==> o.verdict == Reject(NoPermission))
            && (cache.Get(PermissionKey(token)).Some?
                && parsers.grants(cache.Get(PermissionKey(token)).value).Parsed?
                && (forall j :: 0 <= j < |parsers.grants(cache.Get(PermissionKey(token)).value).value| ==>
                      parsers.grants(cache.Get(PermissionKey(token)).value).value[j].Some?)
                ==> (o.verdict == Forward <==>
                      exists j :: 0 <= j < |parsers.grants(cache.Get(PermissionKey(token)).value).value|
                        && Grants(perApi.value.apiId, parsers.grants(cache.Get(PermissionKey(token)).value).value[j]) == Hit))
  {
    var perApi := FindFirst(perApis, x => Matches(path, m, x)).item;
    if cache.Get(PermissionKey(token)).Some? && parsers.grants(cache.Get(PermissionKey(token)).value).Parsed? {
      var grants := parsers.grants(cache.Get(PermissionKey(token)).value).value;
      var found := FindFirst(grants, x => Grants(perApi.value.apiId, x));
      if found.Absent? {
        forall j | 0 <= j < |grants| ensures Grants(perApi.value.apiId, grants[j]) != Hit {
          assert (x => Grants(perApi.value.apiId, x))(grants[j]) == Miss;
        }
      }
    }
  }

  /** Granting the apiId: appending it to a permission list without nulls lets
      a request whose permission entry matched through the permission stage. */
  lemma GrantingAdmits(path: string, m: string, token: Option<string>, cache: Snapshot, parsers: Parsers,
                       recorded: Option<string>, perApis: seq<Option<GatewayApi>>, grants: seq<Option<string>>)
    requires (if cache.Get(PermissionCatalogKey).None? then Parsed([])
              else parsers.apis(cache.Get(PermissionCatalogKey).value)) == Parsed(perApis)
    requires FindFirst(perApis, x => Matches(path, m, x)).At?
    requires FindFirst(perApis, x => Matches(path, m, x)).item.value.apiId.Some?
    requires forall j :: 0 <= j < |grants| ==> grants[j].Some?
    requires cache.Get(PermissionKey(token)).Some?
    requires parsers.grants(cache.Get(PermissionKey(token)).value)
          == Parsed(grants + [FindFirst(perApis, x => Matches(path, m, x)).item.value.apiId])
    ensures PermissionStage(path, m, token, cache, parsers, recorded) == Outcome(recorded, Forward)
  {
    var apiId := FindFirst(perApis, x => Matches(path, m, x)).item.value.apiId;
    var p := x => Grants(apiId, x);
    EqualsIgnoreCaseIsEquivalence(apiId.value, apiId.value, apiId.value);
    assert p(apiId) == Hit;
    FindFirstAppendHit(grants, apiId, p);
  }

  /** Every refusal carries one of the four fixed messages. */
  lemma RejectionMessages(request: Ex.Request, body: Option<string>, cache: Snapshot, parsers: Parsers)
    ensures var o := Decide(request, body, cache, parsers);
            o.verdict.Reject? ==> IsGateMessage(o.verdict.message)
  {
    if Ex.IsHttp(request.scheme) {
      var m := EffectiveMethod(request.httpMethod, body, parsers.requestData);
      var token := GetFirst(request.headers, TokenHeader);
      PermissionStageMessages(request.path, m, token, cache, parsers, None);
      if cache.Get(CatalogKey).Some? && parsers.apis(cache.Get(CatalogKey).value).Parsed? {
        var apis := parsers.apis(cache.Get(CatalogKey).value).value;
        var found := FindFirst(apis, x => Matches(request.path, m, x));
        if found.At? && found.item.value.apiId.Some? {
          PermissionStageMessages(request.path, m, token, cache, parsers, found.item.value.apiId);
        }
      }
    }
  }

  // ---- the filter acting on the exchange ----

  /** authError: status 401, a JSON content type, and the envelope {id, 500, message}. */
  method AuthError(ex: Ex.Exchange, message: string)
    modifies ex
    ensures ex.status == Some(Unauthorized)
    ensures ex.responseHeaders == Add(old(ex.responseHeaders), ContentTypeHeader, JsonUtf8)
    ensures ex.response == Ex.ErrorEnvelope(ErrorId, ErrorCode, message)
    ensures ex.request == old(ex.request) && ex.attributes == old(ex.attributes)
  {
    ex.status := Some(Unauthorized);
    ex.responseHeaders := Add(ex.responseHeaders, ContentTypeHeader, JsonUtf8);
    var data := ReturnData(ErrorId, ErrorCode, message);
    ex.response := Ex.ErrorEnvelope(data.id, data.code, data.message);
  }

  /** AuthAndLoginFilter.filter: records the apiId, then either passes the
      exchange down the chain (`forwarded`) or writes the error response. */
  method Filter(ex: Ex.Exchange, cache: Snapshot, parsers: Parsers) returns (forwarded: bool)
    modifies ex
    ensures var o := Decide(old(ex.request), Ex.TextAttribute(old(ex.attributes), Ex.BodyAttribute), cache, parsers);
            && forwarded == !o.verdict.Reject?
            && ex.attributes == (if o.recorded.Some? then old(ex.attributes)[Ex.ApiIdAttribute := Ex.Text(o.recorded.value)]
                                 else old(ex.attributes))
            && (o.verdict.Reject? ==>
                  ex.status == Some(Unauthorized)
                  && ex.responseHeaders == Add(old(ex.responseHeaders), ContentTypeHeader, JsonUtf8)
                  && GetFirst(ex.responseHeaders, ContentTypeHeader) ==
                       (if GetFirst(old(ex.responseHeaders), ContentTypeHeader).Some?
                        then GetFirst(old(ex.responseHeaders), ContentTypeHeader) else Some(JsonUtf8))
                  && ex.response == Ex.ErrorEnvelope(ErrorId, ErrorCode, o.verdict.message))
            && (!o.verdict.Reject? ==>
                  ex.status == old(ex.status) && ex.responseHeaders == old(ex.responseHeaders)
                  && ex.response == old(ex.response))
    ensures ex.request == old(ex.request)
  {
    var o := Decide(ex.request, Ex.TextAttribute(ex.attributes, Ex.BodyAttribute), cache, parsers);
    if o.recorded.Some? {
      ex.PutAttribute(Ex.ApiIdAttribute, Ex.Text(o.recorded.value));
    }
    if o.verdict.Reject? {
      var before := ex.responseHeaders;
      AuthError(ex, o.verdict.message);
      AddValues(before, ContentTypeHeader, JsonUtf8, ContentTypeHeader);
      GetFirstIsFirstValue(before, ContentTypeHeader);
      GetFirstIsFirstValue(ex.responseHeaders, ContentTypeHeader);
      EqualsIgnoreCaseIsEquivalence(ContentTypeHeader, ContentTypeHeader, ContentTypeHeader);
      forwarded := false;
    } else {
      forwarded := true;
    }
  }

  /** Ordered.getOrder: the gate runs at -9. */
  function GetOrder(): int {
    -9
  }
}
