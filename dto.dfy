/**
 * The records the filters exchange with the cache, the masking service and
 * the configuration store. A Java field that may be null is an Option.
 */
module Dto {
  import opened Wrappers

  /** What a fastjson parse of a text gives: the text is malformed (the parser
      throws), it denotes null, or it denotes a value. */
  datatype Parse<T> = Malformed | Null | Parsed(value: T)

  /** GatewayApiDto: one entry of the API catalog or of the permission catalog.
      Only path, apiName and apiId are ever consulted. */
  datatype GatewayApi = GatewayApi(
    apiId: Option<string>,
    apiName: Option<string>,
    loginCheck: Option<int>,
    rpcCheck: Option<int>,
    isOpen: Option<int>,
    serviceName: Option<string>,
    serviceGroup: Option<string>,
    serviceIsOpen: Option<int>,
    moduleName: Option<string>,
    moduleIsOpen: Option<int>,
    path: Option<string>)

  /** ApiRuleDto: one masking rule of a principal for one API. */
  datatype ApiRule = ApiRule(
    apiId: Option<string>,
    fieldName: Option<string>,
    ruleId: Option<int>,
    userId: Option<string>,
    appId: Option<string>,
    appType: Option<string>)

  /** ExecDatamaskByApiRuleRequest: the text to mask and the rules to apply to it. */
  datatype MaskRequest = MaskRequest(value: string, apiRules: seq<ApiRule>)

  /** RpcRequest: the JSON-RPC style envelope posted to the masking service. */
  datatype RpcRequest = RpcRequest(id: string, jsonrpc: string, methodName: string, params: seq<MaskRequest>)

  /** RpcResponse: `result` is held as the text its toString gives; `error` as a
      description. `code` and `message` are the two extra fields some backends send. */
  datatype RpcResponse = RpcResponse(
    id: Option<string>,
    jsonrpc: Option<string>,
    error: Option<string>,
    result: Option<string>,
    code: Option<string>,
    message: Option<string>)
}
