/**
 * How the pieces meet in the gateway: the order of the global filters, the
 * request capture feeding the auth gate, and the masking client behind the
 * response filter.
 */
module Pipeline {
  import opened Wrappers
  import opened Text
  import opened Headers
  import opened Dto
  import opened Cache
  import Utf8
  import Ex = Exchange
  import RequestBodyFilter
  import AuthAndLoginFilter
  import ResponseBodyFilter
  import DataMaskUtil

  /** Lower orders run first: capture (-10), then the gate (-9), then the response
      decorator (-2), which is in place before NettyWriteResponseFilter (-1) writes. */
  lemma FilterOrder()
    ensures RequestBodyFilter.GetOrder() < AuthAndLoginFilter.GetOrder()
    ensures AuthAndLoginFilter.GetOrder() < ResponseBodyFilter.GetOrder()
    ensures ResponseBodyFilter.GetOrder() < ResponseBodyFilter.NettyWriteResponseFilterOrder
  {
  }

  /** The inbound half of the chain: the capture filter, then, when it did not
      fail, the gate. The gate reads the body text the capture stored, and looks
      up the token in the republished request. */
  method Inbound(ex: Ex.Exchange, cache: Snapshot, parsers: AuthAndLoginFilter.Parsers) returns (forwarded: bool)
    modifies ex
    ensures !Ex.IsHttp(old(ex.request).scheme) ==>
              forwarded && ex.request == old(ex.request) && ex.attributes == old(ex.attributes)
              && ex.status == old(ex.status) && ex.responseHeaders == old(ex.responseHeaders)
              && ex.response == old(ex.response)
    ensures var req := old(ex.request);
            Ex.IsHttp(req.scheme)
            && RequestBodyFilter.Classify(GetFirst(req.headers, ContentTypeHeader)) == RequestBodyFilter.SplitFault ==>
              !forwarded && ex.status == old(ex.status) && ex.response == old(ex.response)
    ensures var req := old(ex.request);
            Ex.IsHttp(req.scheme)
            && RequestBodyFilter.Classify(GetFirst(req.headers, ContentTypeHeader)) == RequestBodyFilter.Buffered
            && |req.body| > 0 ==>
              ex.request == req.(headers := RequestBodyFilter.RepublishedHeaders(req.headers, req.body),
                                 body := RequestBodyFilter.RepublishedBody(req.body))
              && forwarded == !AuthAndLoginFilter.Decide(ex.request, Some(RequestBodyFilter.BodyText(req.body)),
                                                        cache, parsers).verdict.Reject?
  {
    var captured := RequestBodyFilter.Filter(ex);
    if captured == RequestBodyFilter.Failed {
      return false;
    }
    forwarded := AuthAndLoginFilter.Filter(ex, cache, parsers);
  }

  /** The response filter's masker is the masking client. */
  ghost predicate MasksThrough(env: ResponseBodyFilter.Env, client: DataMaskUtil.MaskEnv) {
    forall r :: env.masker(r) == DataMaskUtil.ExecDatamaskByApiRule(r, client)
  }

  /** Masking fails open end to end: when the masking service has no healthy
      instance, an uncompressed JSON body is written back unchanged even though the
      caller has rules for the API, as long as those rules can be read. */
  lemma UnreachableMaskerKeepsBody(text: string, ctx: ResponseBodyFilter.Context, env: ResponseBodyFilter.Env,
                                   client: DataMaskUtil.MaskEnv)
    requires MasksThrough(env, client)
    requires !DataMaskUtil.IsUsable(client.select(DataMaskUtil.DataId, client.group))
    requires ResponseBodyFilter.SelectCodec(ctx.contentEncoding, ctx.acceptEncoding) == ResponseBodyFilter.Identity
    requires !IsBlank(Some(text))
    requires !ResponseBodyFilter.MaskStep(text, ctx.token, ctx.apiId, env.cache, env.parseRules).MaskFault?
    ensures ResponseBodyFilter.Transform(Utf8.Encode(text), ctx, env)
            == ResponseBodyFilter.Rewritten(Utf8.Encode(text), LengthRule(|Utf8.Encode(text)|))
  {
    Utf8.DecodeEncode(text);
    var step := ResponseBodyFilter.MaskStep(text, ctx.token, ctx.apiId, env.cache, env.parseRules);
    if step.Masked? {
      ResponseBodyFilter.MaskStepIff(text, ctx.token, ctx.apiId, env.cache, env.parseRules);
      DataMaskUtil.NoInstanceNoCall(step.request, client, client.post);
      assert env.masker(step.request) == text;
    }
  }

  /** With rules for the API, the body written is either the original text or
      the result the masking service answered with: nothing else can reach the
      response. */
  lemma MaskedBodyIsTextOrAnswer(text: string, ctx: ResponseBodyFilter.Context, env: ResponseBodyFilter.Env,
                                 client: DataMaskUtil.MaskEnv, rules: seq<ApiRule>)
    requires MasksThrough(env, client)
    requires ResponseBodyFilter.SelectCodec(ctx.contentEncoding, ctx.acceptEncoding) == ResponseBodyFilter.Identity
    requires !IsBlank(Some(text))
    requires ResponseBodyFilter.MaskStep(text, ctx.token, ctx.apiId, env.cache, env.parseRules)
             == ResponseBodyFilter.Masked(MaskRequest(text, rules))
    ensures var o := ResponseBodyFilter.Transform(Utf8.Encode(text), ctx, env);
            var reply := client.post(DataMaskUtil.Call(MaskRequest(text, rules), client));
            o == ResponseBodyFilter.Rewritten(Utf8.Encode(text), LengthRule(|Utf8.Encode(text)|))
            || (reply.Response? && reply.body.Some? && reply.body.value.result.Some?
                && o == if IsBlank(reply.body.value.result) then ResponseBodyFilter.Fault
                        else ResponseBodyFilter.Rewritten(Utf8.Encode(reply.body.value.result.value),
                                                          LengthRule(|Utf8.Encode(reply.body.value.result.value)|)))
  {
    ResponseBodyFilter.MaskedTextIsWritten(text, ctx, env, rules);
    DataMaskUtil.FailOpen(MaskRequest(text, rules), client);
  }
}
