/** The slice of the Workers runtime's `Response` that the library touches:
    a status code, a text body and a header store whose names compare without
    regard to ASCII case. The runtime itself is not part of this model. */
module Http {
  import opened Wrappers
  import Ascii

  /** Headers are keyed by their lower-cased name. */
  datatype HttpResponse = HttpResponse(status: nat, body: string, headers: map<string, string>)

  /** The value stored for `name`, compared without regard to ASCII case. */
  function Header(r: HttpResponse, name: string): Option<string> {
    var key := Ascii.ToLowercase(name);
    if key in r.headers then Some(r.headers[key]) else None
  }

  /** The name under which `Response::ok` stores the content type of its
      text body, and that content type. */
  const ContentTypeName := "content-type"
  const TextPlain := "text/plain; " + "charset=utf-8"

  lemma ContentTypeNameIsToken()
    ensures IsToken(ContentTypeName)
  {
    var n := ContentTypeName;
    assert forall i :: 0 <= i < |n| ==> 'a' <= n[i] <= 'z' || n[i] == '-';
  }

  lemma TextPlainIsFieldValue()
    ensures IsFieldValue(TextPlain)
  {
    assert forall i :: 0 <= i < |TextPlain| ==> ' ' <= TextPlain[i] <= 'z';
  }

  lemma ContentTypeNameIsLowercase()
    ensures Ascii.ToLowercase(ContentTypeName) == ContentTypeName
  {
    var n := ContentTypeName;
    var l := Ascii.ToLowercase(n);
    forall i | 0 <= i < |n| ensures l[i] == n[i] {
      assert !Ascii.IsUpper(n[i]);
    }
  }

  /** `Content-Type`, in the capitalised spelling, names the same header. */
  lemma CapitalisedContentType()
    ensures Ascii.ToLowercase("Content-Type") == ContentTypeName
  {
  }

  /** The default header is a valid one, already in lower case, so setting it
      cannot be refused. */
  lemma DefaultContentTypeIsValid()
    ensures IsToken(ContentTypeName) && IsFieldValue(TextPlain)
    ensures Ascii.ToLowercase(ContentTypeName) == ContentTypeName
  {
    ContentTypeNameIsToken();
    TextPlainIsFieldValue();
    ContentTypeNameIsLowercase();
  }

  /** `Response::ok`: a 200 response carrying `body`, whose only header is
      the default `content-type` of a UTF-8 text body. The runtime sets that
      header with `Headers::set`, which cannot refuse it. */
  function Ok(body: string): (r: HttpResponse)
    ensures r.status == 200 && r.body == body
    ensures forall name ::
      Header(r, name) == (if Ascii.ToLowercase(name) == ContentTypeName then Some(TextPlain) else None)
  {
    DefaultContentTypeIsValid();
    SetHeader(HttpResponse(200, body, map[]), ContentTypeName, TextPlain).value
  }

  /** `Response::error`: the text response of `Response::ok` with an error
      status instead; a status outside 400..=599 is refused. */
  function Error(message: string, status: int): (r: Option<HttpResponse>)
    ensures r.Some? <==> 400 <= status <= 599
    ensures r.Some? ==> r.value.status == status && r.value.body == message
    ensures r.Some? ==> forall name ::
      Header(r.value, name) == (if Ascii.ToLowercase(name) == ContentTypeName then Some(TextPlain) else None)
  {
    if 400 <= status <= 599 then Some(Ok(message).(status := status)) else None
  }

  /** `tchar` of section 3.2.6 of RFC 7230. */
  predicate IsTokenChar(c: char) {
    || 'a' <= c <= 'z' || 'A' <= c <= 'Z' || '0' <= c <= '9'
    || c in "!#$%&'*+-.^_`|~"
  }

  /** A header name: a non-empty token (section 3.2 of RFC 7230), which is
      also the Fetch standard's header-name rule. */
  predicate IsToken(name: string) {
    |name| > 0 && forall i :: 0 <= i < |name| ==> IsTokenChar(name[i])
  }

  /** A header value as the Fetch standard's header-value check accepts it:
      no NUL, CR or LF. This is looser than the `field-value` grammar of
      section 3.2 of RFC 7230. */
  predicate IsFieldValue(value: string) {
    forall i :: 0 <= i < |value| ==> value[i] !in "\0\r\n"
  }

  /** `Headers::set` on the response: replaces any value stored under `name`
      (in any letter case); an invalid name or value is refused. */
  function SetHeader(r: HttpResponse, name: string, value: string): (r': Option<HttpResponse>)
    ensures r'.Some? <==> IsToken(name) && IsFieldValue(value)
    ensures r'.Some? ==> r'.value.status == r.status && r'.value.body == r.body
    ensures r'.Some? ==> forall other :: Ascii.ToLowercase(other) == Ascii.ToLowercase(name) ==> Header(r'.value, other) == Some(value)
    ensures r'.Some? ==> forall other :: Ascii.ToLowercase(other) != Ascii.ToLowercase(name) ==> Header(r'.value, other) == Header(r, other)
  {
    if IsToken(name) && IsFieldValue(value) then
      Some(r.(headers := r.headers[Ascii.ToLowercase(name) := value]))
    else None
  }
}
