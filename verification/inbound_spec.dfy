/** A declarative account of `request`: the checks as a list of stages, each
    with its own pass condition, and the error each reports. The lemmas relate
    the pipeline to it and state the ordering guarantees callers rely on. */
module InboundSpec {
  import opened Wrappers
  import opened Bytes
  import Utf8
  import Hex
  import opened Errors
  import opened Inbound

  /** The checks, in the order `request` performs them. */
  datatype Stage =
    | Route
    | TimestampHeader
    | SignatureHeader
    | SignatureParse
    | KeyHex
    | KeyPoint
    | BodyRead
    | Verification
    | Deserialization
  {
    function Rank(): nat {
      match this
      case Route => 0
      case TimestampHeader => 1
      case SignatureHeader => 2
      case SignatureParse => 3
      case KeyHex => 4
      case KeyPoint => 5
      case BodyRead => 6
      case Verification => 7
      case Deserialization => 8
    }
  }

  /** The inputs every stage from `Verification` on needs are all available. */
  ghost predicate InputsAvailable<I>(req: InboundRequest, key: string, o: Oracles<I>) {
    && req.timestamp.Some?
    && req.signature.Some?
    && o.parseSignature(req.signature.value).Some?
    && Hex.DecodePublicKey(key).Ok?
    && o.keyFromBytes(Hex.DecodePublicKey(key).value).Some?
    && req.body.Some?
  }

  /** The condition stage `s` checks, stated on the raw inputs. */
  ghost predicate Passes<I>(s: Stage, req: InboundRequest, key: string, o: Oracles<I>) {
    match s
    case Route => req.httpMethod == Post && req.path == Root
    case TimestampHeader => req.timestamp.Some?
    case SignatureHeader => req.signature.Some?
    case SignatureParse => req.signature.Some? && o.parseSignature(req.signature.value).Some?
    case KeyHex => Hex.DecodePublicKey(key).Ok?
    case KeyPoint => Hex.DecodePublicKey(key).Ok? && o.keyFromBytes(Hex.DecodePublicKey(key).value).Some?
    case BodyRead => req.body.Some?
    case Verification =>
      && InputsAvailable(req, key, o)
      && o.verify(
           o.keyFromBytes(Hex.DecodePublicKey(key).value).value,
           SignedMessage(req.timestamp.value, req.body.value),
           o.parseSignature(req.signature.value).value)
    case Deserialization => req.body.Some? && o.deserialize(req.body.value).Some?
  }

  /** Every stage ranked before `s` passes. */
  ghost predicate PassesBefore<I>(s: Stage, req: InboundRequest, key: string, o: Oracles<I>) {
    && (s.Rank() > 0 ==> Passes(Route, req, key, o))
    && (s.Rank() > 1 ==> Passes(TimestampHeader, req, key, o))
    && (s.Rank() > 2 ==> Passes(SignatureHeader, req, key, o))
    && (s.Rank() > 3 ==> Passes(SignatureParse, req, key, o))
    && (s.Rank() > 4 ==> Passes(KeyHex, req, key, o))
    && (s.Rank() > 5 ==> Passes(KeyPoint, req, key, o))
    && (s.Rank() > 6 ==> Passes(BodyRead, req, key, o))
    && (s.Rank() > 7 ==> Passes(Verification, req, key, o))
  }

  /** `s` is the first stage that fails. */
  ghost predicate FailsAt<I>(s: Stage, req: InboundRequest, key: string, o: Oracles<I>) {
    PassesBefore(s, req, key, o) && !Passes(s, req, key, o)
  }

  /** Every stage passes. */
  ghost predicate AllPass<I>(req: InboundRequest, key: string, o: Oracles<I>) {
    PassesBefore(Deserialization, req, key, o) && Passes(Deserialization, req, key, o)
  }

  /** The error each stage reports, with the underlying cause it wraps. */
  ghost function FailureOf<I>(s: Stage, req: InboundRequest, key: string, o: Oracles<I>): ProcessRequestError
    requires FailsAt(s, req, key, o)
  {
    match s
    case Route => ProcessRequestError(RouteIncorrect(req.httpMethod, req.path), None)
    case TimestampHeader => ProcessRequestError(MissingHeader(Timestamp), None)
    case SignatureHeader => ProcessRequestError(MissingHeader(Signature), None)
    case SignatureParse => ProcessRequestError(InvalidSignature, Some(SignatureParseFailed))
    case KeyHex => ProcessRequestError(FromHex, Some(HexFailed(Hex.DecodePublicKey(key).error)))
    case KeyPoint => ProcessRequestError(InvalidPublicKey, Some(PointDecodingFailed))
    case BodyRead => ProcessRequestError(ChunkingBody, Some(BodyReadFailed))
    case Verification => ProcessRequestError(InvalidSignature, Some(VerificationFailed))
    case Deserialization => ProcessRequestError(DeserializingInteraction(req.body.value), Some(JsonFailed))
  }

  /** `request` agrees with the stages: it succeeds exactly when every stage
      passes, with the deserialized body, and otherwise reports the error of
      the stage that fails first. */
  lemma RequestFollowsStages<I>(req: InboundRequest, key: string, o: Oracles<I>)
    ensures Request(req, key, o).Ok? <==> AllPass(req, key, o)
    ensures AllPass(req, key, o) ==> Request(req, key, o) == Ok(o.deserialize(req.body.value).value)
    ensures forall s :: FailsAt(s, req, key, o) ==> Request(req, key, o) == Err(FailureOf(s, req, key, o))
  {
  }

  /** Whenever some stage fails, a first failing stage exists. */
  lemma FirstFailureExists<I>(req: InboundRequest, key: string, o: Oracles<I>)
    requires !AllPass(req, key, o)
    ensures exists s :: FailsAt(s, req, key, o)
  {
    if !Passes(Route, req, key, o) { assert FailsAt(Route, req, key, o); }
    else if !Passes(TimestampHeader, req, key, o) { assert FailsAt(TimestampHeader, req, key, o); }
    else if !Passes(SignatureHeader, req, key, o) { assert FailsAt(SignatureHeader, req, key, o); }
    else if !Passes(SignatureParse, req, key, o) { assert FailsAt(SignatureParse, req, key, o); }
    else if !Passes(KeyHex, req, key, o) { assert FailsAt(KeyHex, req, key, o); }
    else if !Passes(KeyPoint, req, key, o) { assert FailsAt(KeyPoint, req, key, o); }
    else if !Passes(BodyRead, req, key, o) { assert FailsAt(BodyRead, req, key, o); }
    else if !Passes(Verification, req, key, o) { assert FailsAt(Verification, req, key, o); }
    else { assert FailsAt(Deserialization, req, key, o); }
  }

  /** At most one stage is the first to fail. */
  lemma FirstFailureUnique<I>(s: Stage, t: Stage, req: InboundRequest, key: string, o: Oracles<I>)
    requires FailsAt(s, req, key, o) && FailsAt(t, req, key, o)
    ensures s == t
  {
  }

  /** Each error kind is reported exactly when its stage is the first to fail;
      `InvalidSignature` is shared by the signature parse and the verification. */
  lemma ErrorKindIff<I>(req: InboundRequest, key: string, o: Oracles<I>)
    ensures (Request(req, key, o).Err? && Request(req, key, o).error.kind.RouteIncorrect?)
      <==> FailsAt(Route, req, key, o)
    ensures (Request(req, key, o).Err? && Request(req, key, o).error.kind == MissingHeader(Timestamp))
      <==> FailsAt(TimestampHeader, req, key, o)
    ensures (Request(req, key, o).Err? && Request(req, key, o).error.kind == MissingHeader(Signature))
      <==> FailsAt(SignatureHeader, req, key, o)
    ensures (Request(req, key, o).Err? && Request(req, key, o).error.kind.InvalidSignature?)
      <==> FailsAt(SignatureParse, req, key, o) || FailsAt(Verification, req, key, o)
    ensures (Request(req, key, o).Err? && Request(req, key, o).error.kind.FromHex?)
      <==> FailsAt(KeyHex, req, key, o)
    ensures (Request(req, key, o).Err? && Request(req, key, o).error.kind.InvalidPublicKey?)
      <==> FailsAt(KeyPoint, req, key, o)
    ensures (Request(req, key, o).Err? && Request(req, key, o).error.kind.ChunkingBody?)
      <==> FailsAt(BodyRead, req, key, o)
    ensures (Request(req, key, o).Err? && Request(req, key, o).error.kind.DeserializingInteraction?)
      <==> FailsAt(Deserialization, req, key, o)
  {
    RequestFollowsStages(req, key, o);
    if !AllPass(req, key, o) {
      FirstFailureExists(req, key, o);
      var s :| FailsAt(s, req, key, o);
      forall t | FailsAt(t, req, key, o) ensures t == s {
        FirstFailureUnique(s, t, req, key, o);
      }
    }
  }

  /** A request that is not `POST /` is refused as `RouteIncorrect` carrying
      its method and path, whatever its headers and body, whatever the key,
      and without any foreign operation being consulted. */
  lemma RouteCheckedFirst<I>(req: InboundRequest, key: string, o: Oracles<I>,
                             other: InboundRequest, otherKey: string, otherOracles: Oracles<I>)
    requires !(req.httpMethod == Post && req.path == Root)
    requires other.httpMethod == req.httpMethod && other.path == req.path
    ensures Request(req, key, o) == Err(ProcessRequestError(RouteIncorrect(req.httpMethod, req.path), None))
    ensures Request(other, otherKey, otherOracles) == Request(req, key, o)
  {
  }

  /** On the right route, a missing timestamp header is reported as such
      whether or not the signature header is present. */
  lemma MissingTimestampReportedFirst<I>(req: InboundRequest, key: string, o: Oracles<I>)
    requires req.httpMethod == Post && req.path == Root
    requires req.timestamp.None?
    ensures Request(req, key, o) == Err(ProcessRequestError(MissingHeader(Timestamp), None))
    ensures Request(req.(signature := None), key, o) == Request(req, key, o)
  {
  }

  /** A missing signature header is reported only once the timestamp header
      is found. */
  lemma MissingSignatureReportedSecond<I>(req: InboundRequest, key: string, o: Oracles<I>)
    requires req.httpMethod == Post && req.path == Root
    requires req.signature.None?
    ensures Request(req, key, o) == Err(ProcessRequestError(MissingHeader(
      if req.timestamp.Some? then Signature else Timestamp), None))
  {
  }

  /** A signature header that does not parse is reported as `InvalidSignature`
      before the key is looked at and before the body is read: no key and no
      body can change the outcome. */
  lemma UnparsableSignatureReportedBeforeKey<I>(req: InboundRequest, key: string, o: Oracles<I>,
                                                otherKey: string, otherBody: Option<seq<byte>>)
    requires FailsAt(SignatureParse, req, key, o)
    ensures Request(req, key, o) == Err(ProcessRequestError(InvalidSignature, Some(SignatureParseFailed)))
    ensures Request(req.(body := otherBody), otherKey, o) == Request(req, key, o)
  {
  }

  /** Whatever fails before the body stage (route, headers, signature, either
      key check) is decided without the body: the outcome is the same for any
      body, including one that cannot be read. */
  lemma BodyNotReadBeforeBodyStage<I>(s: Stage, req: InboundRequest, key: string, o: Oracles<I>,
                                      otherBody: Option<seq<byte>>)
    requires s.Rank() < BodyRead.Rank() && FailsAt(s, req, key, o)
    ensures Request(req.(body := otherBody), key, o) == Request(req, key, o)
    ensures Request(req, key, o).Err?
    ensures !Request(req, key, o).error.kind.ChunkingBody?
  {
    var other := req.(body := otherBody);
    assert PassesBefore(s, other, key, o) && !Passes(s, other, key, o) by {
      assert forall t: Stage :: t.Rank() < BodyRead.Rank() ==>
        (Passes(t, other, key, o) <==> Passes(t, req, key, o));
    }
    RequestFollowsStages(req, key, o);
    RequestFollowsStages(other, key, o);
  }

  /** A key that is not 64 hex digits is reported as `FromHex` with the hex
      decoder's reason, and one that decodes to an invalid point as
      `InvalidPublicKey`, once the headers and the signature are accepted. */
  lemma KeyFailures<I>(req: InboundRequest, key: string, o: Oracles<I>)
    requires PassesBefore(KeyHex, req, key, o)
    ensures Hex.DecodePublicKey(key).Err? ==>
      Request(req, key, o) == Err(ProcessRequestError(FromHex, Some(HexFailed(Hex.DecodePublicKey(key).error))))
    ensures Hex.DecodePublicKey(key).Ok? && o.keyFromBytes(Hex.DecodePublicKey(key).value).None? ==>
      Request(req, key, o) == Err(ProcessRequestError(InvalidPublicKey, Some(PointDecodingFailed)))
  {
  }

  /** Once the key is accepted, a body that cannot be read is `ChunkingBody`. */
  lemma BodyReadFailure<I>(req: InboundRequest, key: string, o: Oracles<I>)
    requires PassesBefore(BodyRead, req, key, o)
    requires req.body.None?
    ensures Request(req, key, o) == Err(ProcessRequestError(ChunkingBody, Some(BodyReadFailed)))
  {
  }

  /** Verification is asked about one question only: the parsed key, the
      timestamp's bytes followed by the body, and the parsed signature. Two
      verifiers that agree on that question give the same outcome. */
  lemma VerifierAskedAboutSignedMessage<I>(req: InboundRequest, key: string, o: Oracles<I>, o': Oracles<I>)
    requires o'.parseSignature == o.parseSignature && o'.keyFromBytes == o.keyFromBytes
    requires o'.deserialize == o.deserialize
    requires InputsAvailable(req, key, o) ==>
      var k := o.keyFromBytes(Hex.DecodePublicKey(key).value).value;
      var m := SignedMessage(req.timestamp.value, req.body.value);
      var sig := o.parseSignature(req.signature.value).value;
      o'.verify(k, m, sig) == o.verify(k, m, sig)
    ensures Request(req, key, o') == Request(req, key, o)
  {
  }

  /** A request signed over its timestamp and body passes verification: the
      outcome is the interaction, or `DeserializingInteraction` with the body
      when it does not deserialize. */
  lemma SignedRequestPassesVerification<I>(req: InboundRequest, key: string, o: Oracles<I>)
    requires PassesBefore(Verification, req, key, o)
    requires o.verify(o.keyFromBytes(Hex.DecodePublicKey(key).value).value,
                      SignedMessage(req.timestamp.value, req.body.value),
                      o.parseSignature(req.signature.value).value)
    ensures o.deserialize(req.body.value).Some? ==>
      Request(req, key, o) == Ok(o.deserialize(req.body.value).value)
    ensures o.deserialize(req.body.value).None? ==>
      Request(req, key, o) == Err(ProcessRequestError(DeserializingInteraction(req.body.value), Some(JsonFailed)))
  {
  }

  /** A signature that does not verify is `InvalidSignature`. */
  lemma UnverifiedSignatureRejected<I>(req: InboundRequest, key: string, o: Oracles<I>)
    requires FailsAt(Verification, req, key, o)
    ensures Request(req, key, o) == Err(ProcessRequestError(InvalidSignature, Some(VerificationFailed)))
  {
  }

  /** Changing the body changes the signed message. */
  lemma SignedMessageFixesBody(timestamp: string, body: seq<byte>, body': seq<byte>)
    ensures SignedMessage(timestamp, body) == SignedMessage(timestamp, body') <==> body == body'
  {
    if SignedMessage(timestamp, body) == SignedMessage(timestamp, body') {
      var n := |Utf8.Encode(timestamp)|;
      assert body == SignedMessage(timestamp, body)[n..];
    }
  }

  /** Changing the timestamp changes the signed message: distinct strings
      have distinct UTF-8 bytes. */
  lemma SignedMessageFixesTimestamp(timestamp: string, timestamp': string, body: seq<byte>)
    ensures SignedMessage(timestamp, body) == SignedMessage(timestamp', body) <==> timestamp == timestamp'
  {
    if SignedMessage(timestamp, body) == SignedMessage(timestamp', body) {
      var m := SignedMessage(timestamp, body);
      assert Utf8.Encode(timestamp) == m[..|m| - |body|] == Utf8.Encode(timestamp');
      Utf8.EncodeInjective(timestamp, timestamp');
    }
  }

  /** With no delimiter, the message alone does not say where the timestamp
      ends: for every timestamp, body and non-empty string moved from the
      body's front onto the timestamp's end, the two requests differ and yet
      the verifier is asked about the same bytes. */
  lemma SignedMessageHasNoDelimiter(timestamp: string, moved: string, body: seq<byte>)
    ensures SignedMessage(timestamp + moved, body) == SignedMessage(timestamp, Utf8.Encode(moved) + body)
    ensures |moved| > 0 ==> timestamp + moved != timestamp && Utf8.Encode(moved) + body != body
  {
    Utf8.EncodeConcatThen(timestamp, moved, body);
    if |moved| > 0 {
      assert |timestamp + moved| > |timestamp|;
      assert |Utf8.Encode(moved) + body| > |body|;
    }
  }
}
