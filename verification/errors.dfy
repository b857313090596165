/** The library's error taxonomy: the names of the two required headers, the
    kinds of `ProcessRequestError`, its accessors, its `Display` text and the
    HTTP response built from it. */
module Errors {
  import opened Wrappers
  import opened Bytes
  import Utf8
  import Hex
  import Ascii
  import Http

  /** A required request header. */
  datatype HeaderName = Signature | Timestamp {

    /** The header's name on the wire: the `x-signature-` family, followed
        by the signature scheme or by `timestamp`. It is lower case (the
        runtime's header store compares names without regard to case) and a
        valid header token; `NameIsLowercaseToken` states both. */
    function Name(): (r: string)
      ensures |r| > 12 && r[..12] == "x-signature-"
      ensures r[12..] == (if this.Signature? then "ed25519" else "timestamp")
    {
      match this
      case Signature => "x-signature-ed25519"
      case Timestamp => "x-signature-timestamp"
    }
  }

  /** Lower-case letters, digits and `-`. */
  predicate IsLowerTokenChar(c: char) {
    'a' <= c <= 'z' || '0' <= c <= '9' || c == '-'
  }

  /** Both names are lower case, so the runtime's case-insensitive header
      store finds them under any spelling, and both are valid header tokens,
      so the lookups by these names cannot be refused. */
  lemma NameIsLowercaseToken(h: HeaderName)
    ensures Ascii.ToLowercase(h.Name()) == h.Name()
    ensures Http.IsToken(h.Name())
  {
    var n := h.Name();
    assert forall i :: 0 <= i < |n| ==> IsLowerTokenChar(n[i]) by {
      if h.Signature? {
        assert n == "x-signature-ed25519";
      } else {
        assert n == "x-signature-timestamp";
      }
    }
    Ascii.LowercaseOfLower(n);
  }

  /** The two header names differ, so the two lookups read different headers. */
  lemma NameInjective(a: HeaderName, b: HeaderName)
    ensures a.Name() == b.Name() <==> a == b
  {
    assert |Signature.Name()| != |Timestamp.Name()|;
  }

  /** Kind of a `ProcessRequestError`. */
  datatype ErrorType =
    | ChunkingBody
    | DeserializingInteraction(body: seq<byte>)
    | FromHex
    | InvalidPublicKey
    | InvalidSignature
    | MissingHeader(header: HeaderName)
    | RouteIncorrect(httpMethod: string, path: string)

  /** The underlying error a `ProcessRequestError` wraps, as an opaque token
      naming the component that raised it; only the hex decoder's reason is
      modelled in detail. */
  datatype Cause =
    | SignatureParseFailed
    | HexFailed(reason: Hex.FromHexError)
    | PointDecodingFailed
    | BodyReadFailed
    | VerificationFailed
    | JsonFailed

  /** A failed request: the kind and, when a component raised it, the
      underlying error. */
  datatype ProcessRequestError = ProcessRequestError(kind: ErrorType, source: Option<Cause>)

  /** `ProcessRequestError::kind`: the kind the error was built with, so that
      the kind and the source together rebuild the error. */
  function Kind(e: ProcessRequestError): (r: ErrorType)
    ensures ProcessRequestError(r, e.source) == e
  {
    e.kind
  }

  /** `ProcessRequestError::into_source`: the source the error was built
      with; with the kind it rebuilds the error. */
  function IntoSource(e: ProcessRequestError): (r: Option<Cause>)
    ensures ProcessRequestError(e.kind, r) == e
  {
    e.source
  }

  /** `ProcessRequestError::into_parts` as written: the kind, but never the
      source, so the parts rebuild the error only when it had no source. */
  function IntoParts(e: ProcessRequestError): (r: (ErrorType, Option<Cause>))
    ensures r.0 == Kind(e)
    ensures r.1 == None
    ensures ProcessRequestError(r.0, r.1) == e <==> IntoSource(e) == None
  {
    (e.kind, None)
  }

  /** `ProcessRequestError::into_parts` as its documentation describes it: the
      kind and the source, from which the error can be rebuilt. */
  function IntoPartsAsDocumented(e: ProcessRequestError): (r: (ErrorType, Option<Cause>))
    ensures r.0 == Kind(e) && r.1 == IntoSource(e)
    ensures ProcessRequestError(r.0, r.1) == e
  {
    (e.kind, e.source)
  }

  /** The accessors hand back exactly what the error was built with. */
  lemma AccessorsReturnStoredFields(kind: ErrorType, source: Option<Cause>)
    ensures Kind(ProcessRequestError(kind, source)) == kind
    ensures IntoSource(ProcessRequestError(kind, source)) == source
    ensures IntoParts(ProcessRequestError(kind, source)).0 == kind
  {
  }

  /** `into_parts` as written loses the source of every error that has one,
      while `into_source` keeps it. */
  lemma IntoPartsDropsSource(e: ProcessRequestError)
    requires e.source.Some?
    ensures IntoParts(e).1 == None
    ensures IntoParts(e).1 != IntoSource(e)
    ensures IntoPartsAsDocumented(e).1 == IntoSource(e)
  {
  }

  // The texts are assembled from short literals, which the verifier reads
  // character by character more readily than one long literal.
  const FailedTo := "failed to "
  const ChunkingBodyText := FailedTo + "chunk request body"
  const DeserializingPrefix := FailedTo + "deserialize " + "request body as interaction: "
  const FromHexText := FailedTo + "register public key"
  const InvalidPublicKeyText := "public key is invalid"
  const InvalidSignatureText := "signature is invalid"
  const HeaderPrefix := "header '"
  const HeaderSuffix := "' is invalid"
  const RoutePrefix := "route of the request ('"
  const RouteSuffix := "') is not 'post /'"

  /** `Display for ProcessRequestError`: one fixed text per kind. A body that
      is not UTF-8 is shown with Rust's `Debug` formatting, which `debugBody`
      stands for. */
  function Display(kind: ErrorType, debugBody: seq<byte> -> string): (r: string)
    ensures kind.ChunkingBody? ==> r == ChunkingBodyText
    ensures kind.FromHex? ==> r == FromHexText
    ensures kind.InvalidPublicKey? ==> r == InvalidPublicKeyText
    ensures kind.InvalidSignature? ==> r == InvalidSignatureText
    ensures kind.MissingHeader? ==> r == HeaderPrefix + kind.header.Name() + HeaderSuffix
    ensures kind.RouteIncorrect? ==>
      r == RoutePrefix + Ascii.ToLowercase(kind.httpMethod) + " " + kind.path + RouteSuffix
    ensures kind.DeserializingInteraction? ==>
      forall text :: Utf8.Encode(text) == kind.body ==> r == DeserializingPrefix + text
    ensures kind.DeserializingInteraction? && Utf8.Decode(kind.body).None? ==>
      r == DeserializingPrefix + debugBody(kind.body)
  {
    match kind
    case ChunkingBody => ChunkingBodyText
    case DeserializingInteraction(body) =>
      Utf8.DecodeOfEncoding(body);
      DeserializingPrefix +
        (match Utf8.Decode(body)
         case Some(text) => text
         case None => debugBody(body))
    case FromHex => FromHexText
    case InvalidPublicKey => InvalidPublicKeyText
    case InvalidSignature => InvalidSignatureText
    case MissingHeader(header) => HeaderPrefix + header.Name() + HeaderSuffix
    case RouteIncorrect(httpMethod, path) =>
      RoutePrefix + Ascii.ToLowercase(httpMethod) + " " + path + RouteSuffix
  }

  /** `ProcessRequestError::response`: status 401 (Unauthorized) exactly for
      an invalid signature, 500 for every other kind, the `Display` text as
      body. Both statuses are in the range `Response::error` accepts, so its
      `expect` cannot fail. */
  function ErrorResponse(e: ProcessRequestError, debugBody: seq<byte> -> string): (r: Http.HttpResponse)
    ensures r.status == 401 <==> e.kind.InvalidSignature?
    ensures r.status == 500 <==> !e.kind.InvalidSignature?
    ensures r.body == Display(e.kind, debugBody)
  {
    var status := if e.kind.InvalidSignature? then 401 else 500;
    Http.Error(Display(e.kind, debugBody), status).value
  }

  /** The kinds a reader of the text can tell apart: one per variant, with
      the two missing headers apart. */
  datatype KindTag =
    | ChunkingBodyTag
    | DeserializingTag
    | FromHexTag
    | InvalidPublicKeyTag
    | InvalidSignatureTag
    | MissingHeaderTag(header: HeaderName)
    | RouteIncorrectTag

  /** The variant of a kind, without its payload except the header. */
  function Tag(kind: ErrorType): KindTag {
    match kind
    case ChunkingBody => ChunkingBodyTag
    case DeserializingInteraction(_) => DeserializingTag
    case FromHex => FromHexTag
    case InvalidPublicKey => InvalidPublicKeyTag
    case InvalidSignature => InvalidSignatureTag
    case MissingHeader(header) => MissingHeaderTag(header)
    case RouteIncorrect(_, _) => RouteIncorrectTag
  }

  predicate StartsWith(s: string, prefix: string) {
    |prefix| <= |s| && s[..|prefix|] == prefix
  }

  predicate EndsWith(s: string, suffix: string) {
    |suffix| <= |s| && s[|s| - |suffix|..] == suffix
  }

  /** Reads the kind back from a `Display` text by matching it against the
      fixed texts, the deserialization prefix and the route frame. */
  function KindOfText(text: string): Option<KindTag> {
    if text == ChunkingBodyText then Some(ChunkingBodyTag)
    else if StartsWith(text, DeserializingPrefix) then Some(DeserializingTag)
    else if text == FromHexText then Some(FromHexTag)
    else if text == InvalidPublicKeyText then Some(InvalidPublicKeyTag)
    else if text == InvalidSignatureText then Some(InvalidSignatureTag)
    else if text == HeaderPrefix + Signature.Name() + HeaderSuffix then Some(MissingHeaderTag(Signature))
    else if text == HeaderPrefix + Timestamp.Name() + HeaderSuffix then Some(MissingHeaderTag(Timestamp))
    else if StartsWith(text, RoutePrefix) && EndsWith(text, RouteSuffix) then Some(RouteIncorrectTag)
    else None
  }

  /** Whatever follows the prefix, a deserialization text reads back as such. */
  lemma DeserializingTextKind(shown: string)
    ensures KindOfText(DeserializingPrefix + shown) == Some(DeserializingTag)
  {
    var t := DeserializingPrefix + shown;
    assert t[..|DeserializingPrefix|] == DeserializingPrefix;
    assert |ChunkingBodyText| < |DeserializingPrefix| <= |t|;
  }

  /** Each missing-header text reads back as that header's. */
  lemma MissingHeaderTextKind(h: HeaderName)
    ensures KindOfText(HeaderPrefix + h.Name() + HeaderSuffix) == Some(MissingHeaderTag(h))
  {
    var t := HeaderPrefix + h.Name() + HeaderSuffix;
    assert |t| < |DeserializingPrefix|;
    assert |t| != |ChunkingBodyText| && |t| != |FromHexText|;
    NameInjective(h, Signature);
  }

  /** Whatever method and path it names, a route text reads back as such. */
  lemma RouteTextKind(middle: string)
    ensures KindOfText(RoutePrefix + middle + RouteSuffix) == Some(RouteIncorrectTag)
  {
    var t := RoutePrefix + middle + RouteSuffix;
    assert t[..|RoutePrefix|] == RoutePrefix;
    assert t[|t| - |RouteSuffix|..] == RouteSuffix;
    assert !StartsWith(t, DeserializingPrefix) by {
      assert t[0] == RoutePrefix[0] != DeserializingPrefix[0];
    }
    assert t[0] == RoutePrefix[0] != HeaderPrefix[0];
    assert (HeaderPrefix + Timestamp.Name() + HeaderSuffix)[0] == HeaderPrefix[0];
    assert (HeaderPrefix + Signature.Name() + HeaderSuffix)[0] == HeaderPrefix[0];
    assert |t| > |ChunkingBodyText| && |t| > |FromHexText|;
  }

  /** Each fixed text reads back as its own kind; the four differ in length,
      and each is shorter than the deserialization prefix. */
  lemma FixedTextKinds()
    ensures KindOfText(ChunkingBodyText) == Some(ChunkingBodyTag)
    ensures KindOfText(FromHexText) == Some(FromHexTag)
    ensures KindOfText(InvalidPublicKeyText) == Some(InvalidPublicKeyTag)
    ensures KindOfText(InvalidSignatureText) == Some(InvalidSignatureTag)
  {
    assert |InvalidSignatureText| < |InvalidPublicKeyText| < |ChunkingBodyText| < |FromHexText| < |DeserializingPrefix|;
  }

  /** The `Display` text of a deserialization error reads back as such. */
  lemma DeserializingDisplayKind(kind: ErrorType, debugBody: seq<byte> -> string)
    requires kind.DeserializingInteraction?
    ensures KindOfText(Display(kind, debugBody)) == Some(DeserializingTag)
  {
    var body := kind.body;
    var shown := if Utf8.Decode(body).Some? then Utf8.Decode(body).value else debugBody(body);
    assert Display(kind, debugBody) == DeserializingPrefix + shown;
    DeserializingTextKind(shown);
  }

  /** The `Display` text of a route error reads back as such. */
  lemma RouteDisplayKind(kind: ErrorType, debugBody: seq<byte> -> string)
    requires kind.RouteIncorrect?
    ensures KindOfText(Display(kind, debugBody)) == Some(RouteIncorrectTag)
  {
    var middle := Ascii.ToLowercase(kind.httpMethod) + " " + kind.path;
    assert Display(kind, debugBody) == RoutePrefix + middle + RouteSuffix;
    RouteTextKind(middle);
  }

  /** Every `Display` text names its kind: reading it back gives the kind
      that produced it. */
  lemma DisplayDeterminesKind(kind: ErrorType, debugBody: seq<byte> -> string)
    ensures KindOfText(Display(kind, debugBody)) == Some(Tag(kind))
  {
    match kind
    case DeserializingInteraction(_) =>
      DeserializingDisplayKind(kind, debugBody);
    case MissingHeader(h) =>
      MissingHeaderTextKind(h);
    case RouteIncorrect(_, _) =>
      RouteDisplayKind(kind, debugBody);
    case _ =>
      FixedTextKinds();
  }

  /** Hence two errors with the same text are of the same kind. */
  lemma SameTextSameKind(a: ErrorType, b: ErrorType, debugBody: seq<byte> -> string)
    requires Display(a, debugBody) == Display(b, debugBody)
    ensures Tag(a) == Tag(b)
    ensures a.MissingHeader? ==> b == a
  {
    DisplayDeterminesKind(a, debugBody);
    DisplayDeterminesKind(b, debugBody);
  }
}
