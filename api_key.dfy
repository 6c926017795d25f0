/**
 * The `ApiKey` request guard: it classifies a request by its `x-api-key`
 * header. No header gives `Failure(Unauthorized, MissingKey)`; a header that is
 * not base64 gives `Failure(Unauthorized, InvalidKey)`; a header that is
 * base64 gives `Success` with the decoded text, whatever it says (the key is
 * not compared with any secret). The decoded octets are turned into text with
 * `str::from_utf8(..).unwrap()`, so octets that are not UTF-8 make the guard
 * panic: the model makes that an outcome of its own, `Panicked`.
 */
module ApiKeyGuard {
  import opened Wrappers
  import opened Http
  import Base64
  import Utf8

  datatype ApiKey = ApiKey(value: string)

  datatype ApiKeyError = MissingKey | InvalidKey

  /** Rocket's request outcome, plus the panic `unwrap` raises. */
  datatype Outcome =
    | Success(key: ApiKey)
    | Failure(status: Status, error: ApiKeyError)
    | Forward
    | Panicked

  const KeyHeader := "x-api-key"

  /** `FromRequest::from_request` for `ApiKey`. */
  function FromRequest(headers: seq<Header>): (o: Outcome)
    ensures !o.Forward?
    ensures o.Failure? ==> o.status == Unauthorized
    ensures o.Failure? && o.error == MissingKey <==> GetOne(headers, KeyHeader).None?
    ensures o.Success? ==> GetOne(headers, KeyHeader).Some?
  {
    match GetOne(headers, KeyHeader)
    case Some(s) => (
      match Base64.Decode(s)
      case Some(decoded) => (
        match Utf8.Decode(decoded)
        case Some(text) => Success(ApiKey(text))
        case None => Panicked)
      case None => Failure(Unauthorized, InvalidKey))
    case None => Failure(Unauthorized, MissingKey)
  }

  /** A request without the header is refused as `MissingKey`. */
  lemma MissingKeyRefused(headers: seq<Header>)
    requires forall i :: 0 <= i < |headers| ==> !NameEq(headers[i].name, KeyHeader)
    ensures FromRequest(headers) == Failure(Unauthorized, MissingKey)
  {
  }

  /** A header that is not base64 is refused as `InvalidKey`, and nothing else is. */
  lemma InvalidKeyIffNotBase64(headers: seq<Header>)
    ensures FromRequest(headers) == Failure(Unauthorized, InvalidKey) <==>
            GetOne(headers, KeyHeader).Some? && Base64.Decode(GetOne(headers, KeyHeader).value).None?
  {
  }

  /** Base64 that does not decode to UTF-8 makes `unwrap` panic. */
  lemma PanicIffNotUtf8(headers: seq<Header>)
    ensures FromRequest(headers) == Panicked <==>
            GetOne(headers, KeyHeader).Some? &&
            Base64.Decode(GetOne(headers, KeyHeader).value).Some? &&
            Utf8.Decode(Base64.Decode(GetOne(headers, KeyHeader).value).value).None?
  {
  }

  /**
   * The guard accepts a request exactly when its first `x-api-key` header is
   * the base64 encoding of the key's UTF-8 octets, and then hands that key on.
   */
  lemma SuccessIffEncodedKey(headers: seq<Header>, k: string)
    ensures FromRequest(headers) == Success(ApiKey(k)) <==>
            GetOne(headers, KeyHeader) == Some(Base64.Encode(Utf8.Encode(k)))
  {
    var h := GetOne(headers, KeyHeader);
    if FromRequest(headers) == Success(ApiKey(k)) {
      var octets := Base64.Decode(h.value).value;
      Base64.EncodeDecode(h.value);
      Utf8.EncodeDecode(octets);
    }
    if h == Some(Base64.Encode(Utf8.Encode(k))) {
      Base64.DecodeEncode(Utf8.Encode(k));
      Utf8.DecodeEncode(k);
    }
  }

  /** Later `x-api-key` headers do not change the outcome. */
  lemma FirstHeaderDecides(headers: seq<Header>, more: seq<Header>)
    requires GetOne(headers, KeyHeader).Some?
    ensures FromRequest(headers + more) == FromRequest(headers)
  {
    GetOneFirstOnly(headers, more, KeyHeader);
  }

  /** Without a key there is nothing to accept. */
  lemma NoKeyIsMissing()
    ensures FromRequest([]) == Failure(Unauthorized, MissingKey)
  {
  }

  /** `c2VjcmV` is not base64, so it is refused as `InvalidKey`. */
  lemma TruncatedKeyIsInvalid()
    ensures FromRequest([Header(KeyHeader, "c2VjcmV")]) == Failure(Unauthorized, InvalidKey)
  {
    Base64.TruncatedSecretRejected();
  }

  /** The encoding of `secret` is accepted, and the key handed on is `secret`. */
  lemma EncodedSecretAccepted()
    ensures FromRequest([Header(KeyHeader, Base64.Encode(Utf8.Encode("secret")))]) == Success(ApiKey("secret"))
  {
    SuccessIffEncodedKey([Header(KeyHeader, Base64.Encode(Utf8.Encode("secret")))], "secret");
  }
}
