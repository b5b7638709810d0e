/**
 * The parts of a ServerWebExchange the filters read and write: the request,
 * the per-request attribute map, and the response's status, headers and body.
 */
module Exchange {
  import opened Wrappers
  import opened Headers
  import Utf8

  type Byte = Utf8.Byte

  /** Attribute keys shared by the filters. */
  const BodyAttribute := "cachedRequestBodyObject"
  const UrlParamsAttribute := "cachedRequestUrlObject"
  const ApiIdAttribute := "cachedRequestApiId"
  /** ServerWebExchangeUtils.ORIGINAL_RESPONSE_CONTENT_TYPE_ATTR, set by the routing filter. */
  const OriginalContentTypeAttribute := "original_response_content_type"

  /** An attribute value: a text, or the captured query-parameter map. */
  datatype Attr = Text(text: string) | Params(params: map<string, Option<string>>)

  /** The request as the filters see it. A query parameter may have several values,
      each of which may be null (a key given without "="). */
  datatype Request = Request(
    scheme: Option<string>,
    path: string,
    httpMethod: string,
    headers: Fields,
    queryParams: map<string, seq<Option<string>>>,
    body: seq<Byte>)

  /** What has been written as the response body: nothing yet, the JSON error
      envelope {id, code, message}, or a sequence of data buffers. */
  datatype ResponseBody = Unwritten | ErrorEnvelope(id: string, code: int, message: string) | Buffers(buffers: seq<seq<Byte>>)

  /** The scheme gate of both request filters: only http and https are handled. */
  predicate IsHttp(scheme: Option<string>) {
    scheme == Some("http") || scheme == Some("https")
  }

  /** exchange.getAttribute(key) read as a String. */
  function TextAttribute(attributes: map<string, Attr>, key: string): (r: Option<string>)
    ensures r.Some? <==> key in attributes && attributes[key].Text?
    ensures r.Some? ==> attributes[key] == Text(r.value)
  {
    if key in attributes && attributes[key].Text? then Some(attributes[key].text) else None
  }

  class Exchange {
    var request: Request
    var attributes: map<string, Attr>
    var status: Option<int>
    var responseHeaders: Fields
    var response: ResponseBody

    constructor (request: Request, attributes: map<string, Attr>, status: Option<int>, responseHeaders: Fields)
      ensures this.request == request && this.attributes == attributes
      ensures this.status == status && this.responseHeaders == responseHeaders
      ensures response == Unwritten
    {
      this.request := request;
      this.attributes := attributes;
      this.status := status;
      this.responseHeaders := responseHeaders;
      response := Unwritten;
    }

    /** exchange.getAttributes().put(key, value). */
    method PutAttribute(key: string, value: Attr)
      modifies this
      ensures attributes == old(attributes)[key := value]
      ensures request == old(request) && status == old(status)
      ensures responseHeaders == old(responseHeaders) && response == old(response)
    {
      attributes := attributes[key := value];
    }
  }
}
