# twilight-cloudflare-workers, modelled in Dafny

This project models the library `twilight-cloudflare-workers` (`src/lib.rs`). The library
verifies that an inbound Discord interaction request was really sent by Discord, and turns
an interaction response into a Worker response.

The model covers three parts of the library:

- **`request`** (`Inbound.Request`). The request must be `POST /`. It must carry the
  `x-signature-timestamp` and `x-signature-ed25519` headers, and the signature header must
  parse as a signature. The application's public key must be 64 hex digits, and they must
  decode to a valid curve point. The body must be readable. The signature must verify over
  the timestamp's bytes followed by the body. Finally the body must deserialize as an
  interaction. The first check that fails ends the call with one `ProcessRequestErrorType`.
- **`ProcessRequestError`** (`Errors`). This covers its kinds, the accessors, the `Display`
  text of each kind, and `response()`. `response()` gives 401 for `InvalidSignature` and
  500 for every other kind.
- **`response`** (`Outbound.Response`). A payload that serializes gives 200, the JSON text as
  body, and `Content-Type: application/json`. A payload that does not serialize gives 500 and
  a fixed text.

The foreign operations are parameters with no body of their own in the model:

- parsing the signature header;
- Ed25519 point decoding (section 5.1.3 of RFC 8032);
- Ed25519 verification (section 5.1.7 of RFC 8032);
- `serde_json` deserialization and serialization.

`Inbound.Oracles` bundles the first three with deserialization. `Outbound.Response` takes
serialization as its `serialize` argument. The model states only how the answers of these
operations are routed.

Three steps are modelled concretely:

- **Hex decoding of the key** (module `Hex`). This is Base16, section 8 of RFC 4648, with
  the `hex` crate's order of checks: odd length, then wrong length, then the first invalid
  digit.
- **UTF-8 encoding** (module `Utf8`, RFC 3629). This gives the bytes of the timestamp and of
  the key.
- **UTF-8 validation** (module `Utf8`). The `Display` text uses it to decide whether the body
  is shown as text.

The model is organised as these modules:

| module | contents |
|---|---|
| `Wrappers` | `Option`, and `Result` with `:-` |
| `Bytes` | bytes |
| `Utf8` | UTF-8 encoding and decoding |
| `Hex` | key decoding |
| `Ascii` | `to_ascii_lowercase` |
| `Http` | the Worker response and its header store |
| `Errors` | the error type |
| `Inbound` | the request check |
| `InboundSpec` | a stage-by-stage reference description of the check, and the lemmas relating the check to it |
| `Outbound` | the response builder |

The kind for a key that is not valid hex is `FromHex` (src/lib.rs:184), and its text is
"failed to register public key" (src/lib.rs:139).

## Model

| member | source | states |
|---|---|---|
| `Errors.HeaderName.Name` | src/lib.rs:72-77 | The signature header is `x-signature-ed25519` and the timestamp header is `x-signature-timestamp`: both in the `x-signature-` family, then the scheme or `timestamp`. |
| `Errors.NameIsLowercaseToken` | src/lib.rs:72-77 | Both header names are lower case, so the case-insensitive header store finds them under any spelling. Both are valid header tokens, so the `expect("header name is valid")` on each lookup cannot fail. |
| `Errors.NameInjective` | src/lib.rs:72-77 | The signature and timestamp headers have different names. |
| `Errors.Kind` | src/lib.rs:88-91 | `kind()` is the kind the error was built with: with the stored source it rebuilds the error. |
| `Errors.IntoSource` | src/lib.rs:94-97 | `into_source()` is the source the error was built with: with the stored kind it rebuilds the error. |
| `Errors.IntoParts` | src/lib.rs:100-104 | `into_parts()` as written returns `kind()` and `None`, so its parts rebuild the error exactly when the error had no source. |
| `Errors.AccessorsReturnStoredFields` | src/lib.rs:88-98 | `kind()` and `into_source()` return the kind and source the error was built with. |
| `Errors.IntoPartsDropsSource` | src/lib.rs:100-104 | `into_parts()` as written returns the stored kind and `None`. It loses a source that `into_source()` would return. |
| `Errors.IntoPartsAsDocumented` | src/lib.rs:100-104 | `into_parts()` as documented returns the kind and the source, and the error can be rebuilt from them. |
| `Errors.Display` | src/lib.rs:123-163 | Each kind writes its fixed text. `MissingHeader` names the header. `RouteIncorrect` shows the lower-cased method and the path. `DeserializingInteraction` shows the body as the text it encodes when it is UTF-8, and its `Debug` form otherwise. |
| `Errors.DisplayDeterminesKind` | src/lib.rs:123-163 | The kind can be read back from every `Display` text, by matching it against the fixed texts, the deserialization prefix and the route frame. For `MissingHeader` the header can be read back too. |
| `Errors.FixedTextKinds` | src/lib.rs:126-146 | The four fixed texts (chunking, public key registration, invalid key, invalid signature) each read back as their own kind. |
| `Errors.DeserializingDisplayKind` | src/lib.rs:129-137 | The `Display` text of every deserialization error, UTF-8 body or not, reads back as a deserialization error. |
| `Errors.RouteDisplayKind` | src/lib.rs:154-160 | The `Display` text of every route error reads back as a route error. |
| `Errors.DeserializingTextKind` | src/lib.rs:129-137 | Whatever the body shows as, a deserialization text reads back as a deserialization error. |
| `Errors.MissingHeaderTextKind` | src/lib.rs:149-153 | Each missing-header text reads back as that header's. |
| `Errors.RouteTextKind` | src/lib.rs:154-160 | Whatever method and path it names, a route text reads back as a route error. |
| `Errors.SameTextSameKind` | src/lib.rs:123-163 | Two errors with equal texts are of the same kind. |
| `Errors.ErrorResponse` | src/lib.rs:106-120 | The status is 401 exactly when the kind is `InvalidSignature`, and 500 for every other kind. The body is the `Display` text. Both statuses are accepted by `Response::error`, so its `expect` cannot fail. |
| `Inbound.SignedMessage` | src/lib.rs:315-316 | The signed message is the timestamp header's bytes followed by the body, with nothing in between. |
| `Inbound.Request` | src/lib.rs:251-330 | `RouteIncorrect` is returned exactly when the route is not `POST /`, and it carries the observed method and path. A success is the deserialized body. `DeserializingInteraction` holds exactly the body that was read. |
| `InboundSpec.RequestFollowsStages` | src/lib.rs:255-330 | `request` succeeds exactly when every stage of the reference description passes, and it returns the deserialized body. Otherwise it returns the error of the first stage that fails, together with that stage's cause. |
| `InboundSpec.FirstFailureExists` | src/lib.rs:255-330 | When some stage fails, there is a first failing stage. |
| `InboundSpec.FirstFailureUnique` | src/lib.rs:255-330 | At most one stage is the first to fail. |
| `InboundSpec.ErrorKindIff` | src/lib.rs:219-250 | Each documented error kind is returned if and only if its stage is the first to fail. `InvalidSignature` comes from either the signature parse or the verification. |
| `InboundSpec.RouteCheckedFirst` | src/lib.rs:255-265 | A request that is not `POST /` gives `RouteIncorrect{method, path}` whatever its headers, body, key and oracles. |
| `InboundSpec.MissingTimestampReportedFirst` | src/lib.rs:267-277 | On the right route, a missing timestamp header gives `MissingHeader{Timestamp}` whether or not the signature header is present. |
| `InboundSpec.MissingSignatureReportedSecond` | src/lib.rs:279-288 | A missing signature header gives `MissingHeader{Signature}` only when the timestamp header is present. |
| `InboundSpec.UnparsableSignatureReportedBeforeKey` | src/lib.rs:290-295 | A signature header that does not parse gives `InvalidSignature`, and no key and no body can change that. |
| `InboundSpec.KeyFailures` | src/lib.rs:297-306 | A key that is not 32-byte hex gives `FromHex` with the decoder's reason. Hex that decodes to an invalid point gives `InvalidPublicKey`. |
| `InboundSpec.BodyNotReadBeforeBodyStage` | src/lib.rs:255-313 | When a stage before the body read fails, the outcome is the same for every body, including one that cannot be read, and it is never `ChunkingBody`. |
| `InboundSpec.BodyReadFailure` | src/lib.rs:308-313 | Once the key is accepted, a body that cannot be read gives `ChunkingBody`. |
| `InboundSpec.VerifierAskedAboutSignedMessage` | src/lib.rs:315-323 | Verification is consulted only on the parsed key, the timestamp bytes followed by the body, and the parsed signature. Verifiers that agree there give the same outcome. |
| `InboundSpec.UnverifiedSignatureRejected` | src/lib.rs:318-323 | A signature that does not verify gives `InvalidSignature`. |
| `InboundSpec.SignedRequestPassesVerification` | src/lib.rs:318-330 | A correctly signed request gives the interaction, or `DeserializingInteraction` with its body when the body does not deserialize. |
| `InboundSpec.SignedMessageFixesBody` | src/lib.rs:316 | For a fixed timestamp, two signed messages are equal exactly when the bodies are equal. |
| `InboundSpec.SignedMessageFixesTimestamp` | src/lib.rs:316 | For a fixed body, two signed messages are equal exactly when the timestamps are equal. |
| `InboundSpec.SignedMessageHasNoDelimiter` | src/lib.rs:316 | For every timestamp, body and string, moving the string from the body's front onto the timestamp's end gives the same signed message. When the string is non-empty, both fields differ. |
| `Utf8.EncodeConcat` | src/lib.rs:316 | A string is encoded one character after another, with nothing between them, so the encoding of a concatenation is the concatenation of the encodings. |
| `Hex.DecodePairs` | src/lib.rs:297 | Digit pairs decode exactly when every digit is hex. Each byte is the high digit times 16 plus the low digit. An error names the first invalid digit, as the character of that byte, and its position. |
| `Hex.DecodeArray` | src/lib.rs:297 | Decoding to an `n`-byte array reports odd length first, then a length other than `2n`, and succeeds exactly on `2n` hex digits. |
| `Hex.DecodePublicKey` | src/lib.rs:297 | The key string is decoded through its UTF-8 bytes into 32 bytes. The result is the 32-byte decoding, with the same bytes on success and the same error on failure. |
| `Hex.DecodePairsOfEncoded` | src/lib.rs:297 | Decoding the lower-case encoding of any bytes gives them back. |
| `Hex.PublicKeyAccepted` | src/lib.rs:297 | The key is accepted exactly when it is 64 hex digits. |
| `Hex.DecodeArrayOfEncoded` | src/lib.rs:297 | Any bytes, hex-encoded and decoded again, come back unchanged. |
| `Hex.EncodeOfDecodedArray` | src/lib.rs:297 | An accepted key string is the hex encoding of the decoded bytes, up to letter case. |
| `Utf8.DecodeEncode` | src/lib.rs:132 | `str::from_utf8` accepts the bytes of every string and returns that string. |
| `Utf8.EncodeDecode` | src/lib.rs:132 | Bytes that `str::from_utf8` accepts are exactly the encoding of the text it returns. |
| `Utf8.EncodeInjective` | src/lib.rs:316 | Distinct timestamps have distinct bytes. |
| `Ascii.ToLowercase` | src/lib.rs:154 | Lower-casing keeps the length, changes only `A`-`Z` (each by 0x20), and leaves no upper-case letter. |
| `Http.Ok` | src/lib.rs:345 | `Response::ok` builds a 200 response with the given text. Its only header is the default `content-type: text/plain; charset=utf-8`, found under any spelling of the name. |
| `Http.DefaultContentTypeIsValid` | src/lib.rs:345 | The default `content-type: text/plain; charset=utf-8` is a valid lower-case header, so `Response::ok` cannot be refused when it sets it, and the `expect` on line 345 cannot fail. |
| `Http.Error` | src/lib.rs:119 | `Response::error` builds a response with the given status and text exactly when the status is in 400..=599. Like `Response::ok`, its only header is the default text content type. |
| `Http.SetHeader` | src/lib.rs:346-349 | Setting a header stores the value under every spelling of the name and leaves all other headers unchanged. An invalid name or value is refused. |
| `Outbound.JsonContentTypeIsValid` | src/lib.rs:346-349 | `Content-Type: application/json` is a valid header, so the `expect` on setting it cannot fail. |
| `Outbound.ContentTypeReplacesDefault` | src/lib.rs:345-349 | The library's `Content-Type` names the same header as the default `content-type` of `Response::ok`, so setting it replaces the default. |
| `Outbound.Response` | src/lib.rs:339-352 | A payload that serializes gives 200 with the JSON text as body and `Content-Type: application/json`, and no other header, because the JSON type replaces the default text type. A payload that does not serialize gives 500 with "failed to serialize interaction response", and only the default text content type. |
| `Outbound.ContentTypeFoundCaseInsensitively` | src/lib.rs:346-349 | The JSON content type is found under any spelling of `Content-Type`. |

## Left out

- Ed25519 itself is not modelled: signature-string parsing, point decoding (section 5.1.3 of RFC 8032) and verification (section 5.1.7 of RFC 8032). They are oracle parameters, so unforgeability and the round trip from a real key pair are not modelled. `InboundSpec.SignedRequestPassesVerification` states that round trip under the assumption that the verifier accepts.
- `serde_json` and the `Interaction` / `InteractionResponse` schemas are not modelled. They are `Option`-returning parameters, and no round trip between serialization and deserialization is assumed.
- The `worker` crate's `Request` is not part of this model. The method is its upper-case name, which the route check compares with `POST`. Header lookup is already done: the record holds each header's value or `None`. The asynchronous `req.bytes().await` is an `Option<seq<byte>>` input, with `None` for a read that fails.
- The `worker` crate's `Response` is reduced to a status, a text body and a lower-cased header map. The crate is not part of this model. `Http.Ok` and `Http.Error` give the one default header the published crate sets, `content-type: text/plain; charset=utf-8`. Headers the runtime adds when it sends the response are not modelled.
- `Http.SetHeader`: a name must be a token (section 3.2 of RFC 7230, as the Fetch standard requires). A value is checked as the Fetch standard checks it, for no NUL, CR or LF. That is looser than the `field-value` grammar of section 3.2 of RFC 7230. The runtime's trimming of whitespace around values is not modelled.
- The deprecated `process` alias (src/lib.rs:212-217) is not modelled, because it only delegates to `request`.
- `Error::source` and the boxed source errors (src/lib.rs:165-171) are not modelled. A source is an opaque `Cause` token naming the failing component. Only the hex decoder's reason is detailed.
- `Debug` formatting of a body that is not UTF-8 (src/lib.rs:135) is the `debugBody` parameter of `Errors.Display`.
- Determinism of `request` needs no lemma, because it is a Dafny function. Likewise, exactly one of payload and error is returned because the result is a `Result`.
- The hex crate is not part of this model. Its decoding is written after section 8 of RFC 4648 and the crate's order of checks.

## Findings

| source | as written | input that shows it | evidently intended | confidence | as-written member | corrected member |
|---|---|---|---|---|---|---|
| src/lib.rs:100-104 | `into_parts` returns `(self.kind, None)` | any error that has a source, e.g. the `InvalidSignature` from a failed verification | `(self.kind, self.source)`, as the doc-comment on line 100 says | not executed; the code contradicts its own doc-comment | `Errors.IntoPartsDropsSource` | `Errors.IntoPartsAsDocumented` |
