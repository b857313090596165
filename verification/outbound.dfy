/** `response`: an interaction response turned into the HTTP response the
    worker returns. `serde_json::to_string` is not modelled; it is the
    `serialize` parameter. */
module Outbound {
  import opened Wrappers
  import Ascii
  import Http

  const ContentType := "Content-Type"
  const Json := "application/json"
  const SerializeFailureText := "failed to serialize " + "interaction response"

  /** `Content-Type` is a valid header name and `application/json` a valid
      value, so setting the header cannot be refused. */
  lemma JsonContentTypeIsValid()
    ensures Http.IsToken(ContentType) && Http.IsFieldValue(Json)
  {
    assert forall i :: 0 <= i < |ContentType| ==> 'A' <= ContentType[i] <= 'z' || ContentType[i] == '-';
  }

  /** The library's `Content-Type` is the runtime's `content-type` in
      another spelling, so setting it replaces the default text type. */
  lemma ContentTypeReplacesDefault()
    ensures Ascii.ToLowercase(ContentType) == Http.ContentTypeName
  {
    Http.CapitalisedContentType();
  }

  /** `response`: 200 with the JSON text as body and `Content-Type:
      application/json` when the payload serializes, otherwise 500 with a
      fixed text, which keeps the runtime's default text type. */
  function Response<R>(payload: R, serialize: R -> Option<string>): (r: Http.HttpResponse)
    ensures r.status == 200 <==> serialize(payload).Some?
    ensures serialize(payload).Some? ==> r.body == serialize(payload).value
    ensures serialize(payload).Some? ==> Http.Header(r, ContentType) == Some(Json)
    ensures serialize(payload).Some? ==>
      forall name :: Ascii.ToLowercase(name) != Ascii.ToLowercase(ContentType) ==> Http.Header(r, name).None?
    ensures serialize(payload).None? ==> r.status == 500 && r.body == SerializeFailureText
    ensures serialize(payload).None? ==> forall name ::
      Http.Header(r, name) == (if Ascii.ToLowercase(name) == Http.ContentTypeName then Some(Http.TextPlain) else None)
  {
    match serialize(payload)
    case None => Http.Error(SerializeFailureText, 500).value
    case Some(json) =>
      JsonContentTypeIsValid();
      ContentTypeReplacesDefault();
      Http.SetHeader(Http.Ok(json), ContentType, Json).value
  }

  /** The header is found under any spelling of its name. */
  lemma ContentTypeFoundCaseInsensitively<R>(payload: R, serialize: R -> Option<string>, name: string)
    requires serialize(payload).Some?
    requires Ascii.ToLowercase(name) == Ascii.ToLowercase(ContentType)
    ensures Http.Header(Response(payload, serialize), name) == Some(Json)
  {
    JsonContentTypeIsValid();
  }
}
