/**
 * HTTP headers as Spring's HttpHeaders keeps them: an ordered list of
 * (name, value) fields whose names compare ignoring case.
 */
module Headers {
  import opened Wrappers
  import opened Text

  datatype Field = Field(name: string, value: string)

  type Fields = seq<Field>

  const ContentLengthHeader := "Content-Length"
  const TransferEncodingHeader := "Transfer-Encoding"
  const ContentTypeHeader := "Content-Type"

  /** HttpHeaders.getFirst: the first value given for `name`, or null. */
  function GetFirst(h: Fields, name: string): Option<string>
    decreases |h|
  {
    if h == [] then None
    else if EqualsIgnoreCase(h[0].name, name) then Some(h[0].value)
    else GetFirst(h[1..], name)
  }

  /** Every value given for `name`, in order. */
  function Values(h: Fields, name: string): seq<string>
    decreases |h|
  {
    if h == [] then []
    else (if EqualsIgnoreCase(h[0].name, name) then [h[0].value] else []) + Values(h[1..], name)
  }

  function Remove(h: Fields, name: string): (r: Fields)
    ensures |r| <= |h|
    decreases |h|
  {
    if h == [] then []
    else if EqualsIgnoreCase(h[0].name, name) then Remove(h[1..], name)
    else [h[0]] + Remove(h[1..], name)
  }

  /** HttpHeaders.set: `value` becomes the only value of `name`. */
  function Set(h: Fields, name: string, value: string): Fields {
    Remove(h, name) + [Field(name, value)]
  }

  /** HttpHeaders.add: `value` is appended after any values `name` already has. */
  function Add(h: Fields, name: string, value: string): Fields {
    h + [Field(name, value)]
  }

  lemma {:induction false} ValuesAppend(a: Fields, b: Fields, name: string)
    ensures Values(a + b, name) == Values(a, name) + Values(b, name)
    decreases |a|
  {
    if a != [] {
      assert (a + b)[1..] == a[1..] + b;
      ValuesAppend(a[1..], b, name);
    } else {
      assert a + b == b;
    }
  }

  lemma {:induction false} ValuesRemove(h: Fields, name: string, other: string)
    ensures Values(Remove(h, name), other)
         == if EqualsIgnoreCase(other, name) then [] else Values(h, other)
    decreases |h|
  {
    if h != [] {
      ValuesRemove(h[1..], name, other);
      EqualsIgnoreCaseIsEquivalence(h[0].name, name, other);
      EqualsIgnoreCaseIsEquivalence(h[0].name, other, name);
      EqualsIgnoreCaseIsEquivalence(other, name, h[0].name);
      if !EqualsIgnoreCase(h[0].name, name) {
        ValuesAppend([h[0]], Remove(h[1..], name), other);
      }
    }
  }

  lemma {:induction false} GetFirstIsFirstValue(h: Fields, name: string)
    ensures GetFirst(h, name) == if Values(h, name) == [] then None else Some(Values(h, name)[0])
    decreases |h|
  {
    if h != [] {
      GetFirstIsFirstValue(h[1..], name);
    }
  }

  /** After `set`, the header has exactly the value set, and every other header
      keeps the values it had. */
  lemma SetValues(h: Fields, name: string, value: string, other: string)
    ensures Values(Set(h, name, value), other)
         == if EqualsIgnoreCase(other, name) then [value] else Values(h, other)
    ensures GetFirst(Set(h, name, value), other)
         == if EqualsIgnoreCase(other, name) then Some(value) else GetFirst(h, other)
  {
    ValuesAppend(Remove(h, name), [Field(name, value)], other);
    ValuesRemove(h, name, other);
    EqualsIgnoreCaseIsEquivalence(name, other, name);
    EqualsIgnoreCaseIsEquivalence(other, name, other);
    GetFirstIsFirstValue(Set(h, name, value), other);
    GetFirstIsFirstValue(h, other);
  }

  /** After `add`, the header's earlier values come first, then the added one. */
  lemma AddValues(h: Fields, name: string, value: string, other: string)
    ensures Values(Add(h, name, value), other)
         == Values(h, other) + if EqualsIgnoreCase(name, other) then [value] else []
  {
    ValuesAppend(h, [Field(name, value)], other);
  }

  // ---- the length rule shared by the request and response filters ----

  /** What a rewritten body announces about its length. */
  datatype LengthHeader = ContentLength(length: nat) | Chunked

  /** A positive length is announced with Content-Length; anything else with
      Transfer-Encoding: chunked, so no zero or negative Content-Length is set. */
  function LengthRule(length: int): (r: LengthHeader)
    ensures r.ContentLength? ==> r.length == length > 0
    ensures r.Chunked? ==> length <= 0
  {
    if length > 0 then ContentLength(length) else Chunked
  }

  /** HttpHeaders.setContentLength, or set("Transfer-Encoding", "chunked"). */
  function WithLength(h: Fields, rule: LengthHeader): Fields {
    match rule
    case ContentLength(n) => Set(h, ContentLengthHeader, IntToString(n))
    case Chunked => Set(h, TransferEncodingHeader, "chunked")
  }

  /** The header written for a positive length reads back as that length;
      otherwise the body is announced as chunked. */
  lemma WithLengthReadsBack(h: Fields, length: int)
    ensures length > 0 ==> GetFirst(WithLength(h, LengthRule(length)), ContentLengthHeader).Some?
    ensures length > 0 ==>
      ParseInt(GetFirst(WithLength(h, LengthRule(length)), ContentLengthHeader).value) == Some(length)
    ensures length <= 0 ==> GetFirst(WithLength(h, LengthRule(length)), TransferEncodingHeader) == Some("chunked")
  {
    EqualsIgnoreCaseIsEquivalence(ContentLengthHeader, ContentLengthHeader, ContentLengthHeader);
    EqualsIgnoreCaseIsEquivalence(TransferEncodingHeader, TransferEncodingHeader, TransferEncodingHeader);
    if length > 0 {
      SetValues(h, ContentLengthHeader, IntToString(length), ContentLengthHeader);
      IntToStringRoundTrip(length);
    } else {
      SetValues(h, TransferEncodingHeader, "chunked", TransferEncodingHeader);
    }
  }
}
