/** `request`: the check an inbound Discord interaction request must pass
    before its body is trusted. The request must be `POST /`, carry the
    timestamp and signature headers, be signed with Ed25519 over the timestamp
    followed by the body under the application's public key, and its body must
    deserialize as an interaction. Every step that fails ends the check with
    one error kind.

    The cryptography and JSON are not modelled: signature parsing, point
    decoding (section 5.1.3 of RFC 8032), verification (section 5.1.7 of
    RFC 8032) and deserialization are fields of an `Oracles` value, and the
    model states only how their answers are routed. */
module Inbound {
  import opened Wrappers
  import opened Bytes
  import Utf8
  import Hex
  import opened Errors

  /** What the check reads of a request: its method (by its upper-case name)
      and path, the values of the two headers if present, and the body, or
      `None` when reading the body fails. */
  datatype InboundRequest = InboundRequest(
    httpMethod: string,
    path: string,
    timestamp: Option<string>,
    signature: Option<string>,
    body: Option<seq<byte>>)

  /** Length in bytes of an Ed25519 signature (section 5.1.6 of RFC 8032). */
  const SignatureLength: nat := 64

  type SignatureBytes = b: seq<byte> | |b| == SignatureLength witness seq(64, _ => 0)

  /** A public key that decoded to a curve point, known by its encoding. */
  datatype VerifyingKey = VerifyingKey(encoding: Hex.PublicKeyBytes)

  /** The foreign operations the check relies on. */
  datatype Oracles<I> = Oracles(
    /** `str::parse::<Signature>` on the signature header. */
    parseSignature: string -> Option<SignatureBytes>,
    /** `PublicKey::from_bytes`: point decoding of the key. */
    keyFromBytes: Hex.PublicKeyBytes -> Option<VerifyingKey>,
    /** `PublicKey::verify` of a message and signature. */
    verify: (VerifyingKey, seq<byte>, SignatureBytes) -> bool,
    /** `serde_json::from_slice::<Interaction>`. */
    deserialize: seq<byte> -> Option<I>)

  const Post := "POST"
  const Root := "/"

  /** The message the signature covers: the timestamp header's bytes followed
      by the body, with nothing between them. */
  function SignedMessage(timestamp: string, body: seq<byte>): (m: seq<byte>)
    ensures |m| == |Utf8.Encode(timestamp)| + |body|
    ensures m[..|Utf8.Encode(timestamp)|] == Utf8.Encode(timestamp)
    ensures m[|Utf8.Encode(timestamp)|..] == body
  {
    Utf8.Encode(timestamp) + body
  }

  /** `request`: the interaction the request carries, or the error of the
      first check it fails. */
  function Request<I>(req: InboundRequest, publicKey: string, o: Oracles<I>): (r: Result<I, ProcessRequestError>)
    ensures (r.Err? && r.error.kind.RouteIncorrect?) <==> !(req.httpMethod == Post && req.path == Root)
    ensures r.Err? && r.error.kind.RouteIncorrect? ==>
      r.error == ProcessRequestError(RouteIncorrect(req.httpMethod, req.path), None)
    ensures r.Ok? ==> req.body.Some? && o.deserialize(req.body.value) == Some(r.value)
    ensures r.Err? && r.error.kind.DeserializingInteraction? ==>
      req.body.Some? && r.error.kind.body == req.body.value && o.deserialize(req.body.value).None?
  {
    if req.httpMethod != Post || req.path != Root then
      Err(ProcessRequestError(RouteIncorrect(req.httpMethod, req.path), None))
    else
      var timestamp :- req.timestamp.OkOr(ProcessRequestError(MissingHeader(Timestamp), None));
      var signatureHeader :- req.signature.OkOr(ProcessRequestError(MissingHeader(Signature), None));
      var signature :- o.parseSignature(signatureHeader)
        .OkOr(ProcessRequestError(InvalidSignature, Some(SignatureParseFailed)));
      var keyBytes :- Hex.DecodePublicKey(publicKey)
        .MapErr(reason => ProcessRequestError(FromHex, Some(HexFailed(reason))));
      var key :- o.keyFromBytes(keyBytes)
        .OkOr(ProcessRequestError(InvalidPublicKey, Some(PointDecodingFailed)));
      var body :- req.body.OkOr(ProcessRequestError(ChunkingBody, Some(BodyReadFailed)));
      if !o.verify(key, SignedMessage(timestamp, body), signature) then
        Err(ProcessRequestError(InvalidSignature, Some(VerificationFailed)))
      else
        o.deserialize(body).OkOr(ProcessRequestError(DeserializingInteraction(body), Some(JsonFailed)))
  }
}
