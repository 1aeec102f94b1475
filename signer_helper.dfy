/** RSASigner's `RSAHelper`: sign the UTF-8 bytes of a payload with an
    imported private key and render the signature as base64 or hex text. */
module SignerHelper {
  import opened Runtime
  import opened Text
  import opened Hex
  import opened Crypto
  import Base64

  const SignFailure := "Failed to sign payload: "
  const ImportFailure := "Failed to import RSA private key: "

  /** Two upper-case digits, high nibble first. */
  function UpperPair(b: byte): string
  {
    [UpperDigit(b as int / 16), UpperDigit(b as int % 16)]
  }

  /** `BitConverter.ToString(bytes)`: upper-case digit pairs joined by '-'. */
  function BitConverterToString(b: seq<byte>): (r: string)
    ensures |b| > 0 ==> |r| == 3 * |b| - 1
  {
    if |b| == 0 then []
    else if |b| == 1 then UpperPair(b[0])
    else UpperPair(b[0]) + "-" + BitConverterToString(b[1..])
  }

  /** `BitConverter.ToString(signature).Replace("-", "").ToLower()` */
  function HexEncode(signature: seq<byte>): string
  {
    ToLower(Without(BitConverterToString(signature), {'-'}))
  }

  lemma UpperPairLowered(b: byte)
    ensures ToLower(UpperPair(b)) == LowerPair(b)
  {
  }

  /** The expression chain renders each byte as two lower-case digits with
      nothing in between. */
  lemma {:induction false} HexEncodeIsLowerHex(b: seq<byte>)
    ensures HexEncode(b) == LowerHex(b)
  {
    if |b| == 0 {
    } else if |b| == 1 {
      WithoutNothing(UpperPair(b[0]), {'-'});
      UpperPairLowered(b[0]);
      assert LowerHex(b) == LowerPair(b[0]) + LowerHex([]);
    } else {
      var rest := BitConverterToString(b[1..]);
      WithoutConcat(UpperPair(b[0]) + "-", rest, {'-'});
      WithoutConcat(UpperPair(b[0]), "-", {'-'});
      WithoutNothing(UpperPair(b[0]), {'-'});
      assert Without(BitConverterToString(b), {'-'}) == UpperPair(b[0]) + Without(rest, {'-'});
      ToLowerConcat(UpperPair(b[0]), Without(rest, {'-'}));
      UpperPairLowered(b[0]);
      HexEncodeIsLowerHex(b[1..]);
    }
  }

  /** The `switch (encoding.ToLower())` that renders the signature. */
  function EncodeSignature(signature: seq<byte>, encoding: string): (r: Result<string>)
    ensures r.Ok? <==> IsEncodingName(ToLower(encoding))
    ensures r.Err? ==> r.error == ArgumentException("Unsupported encoding: " + encoding)
    ensures ToLower(encoding) == "base64" ==> r == Ok(Base64.Encode(signature)) && |r.value| == 4 * ((|signature| + 2) / 3)
    ensures ToLower(encoding) == "hex" ==> r == Ok(LowerHex(signature)) && |r.value| == 2 * |signature|
  {
    var token := ToLower(encoding);
    if token == "base64" then Base64.EncodedLength(signature); Ok(Base64.Encode(signature))
    else if token == "hex" then HexEncodeIsLowerHex(signature); Ok(HexEncode(signature))
    else Err(ArgumentException("Unsupported encoding: " + encoding))
  }

  /** `ImportRSAPrivateKey`: a failed import is rethrown with its own prefix. */
  function ImportRSAPrivateKey(rsa: Primitives, privateKeyPem: string): (r: Result<RsaKey>)
    ensures rsa.importFromPem(privateKeyPem).Ok? ==> r == rsa.importFromPem(privateKeyPem)
    ensures rsa.importFromPem(privateKeyPem).Err? ==>
      r == Err(Rethrow(ImportFailure, rsa.importFromPem(privateKeyPem).error))
  {
    match rsa.importFromPem(privateKeyPem)
    case Ok(key) => Ok(key)
    case Err(ex) => Err(Rethrow(ImportFailure, ex))
  }

  /** The signature bytes: import, then sign the UTF-8 bytes of the payload.
      Both `SignPayload` and `SignPayloadWithEncoding` run these steps inside
      their `try`. */
  function SignBytes(rsa: Primitives, payload: string, privateKeyPem: string): Result<seq<byte>>
  {
    match ImportRSAPrivateKey(rsa, privateKeyPem)
    case Err(ex) => Err(ex)
    case Ok(key) => rsa.signData(key, rsa.utf8(payload))
  }

  /** `SignPayload`: sign and render as base64; every failure is rethrown
      as an InvalidOperationException. */
  function SignPayload(rsa: Primitives, payload: string, privateKeyPem: string): (r: Result<string>)
    ensures r.Err? ==> r.error.InvalidOperationException? && r.error.message == SignFailure + r.error.inner.message
    ensures r.Ok? <==> SignBytes(rsa, payload, privateKeyPem).Ok?
    ensures r.Ok? ==> |r.value| == 4 * ((|SignBytes(rsa, payload, privateKeyPem).value| + 2) / 3)
    ensures r.Ok? ==> r.value == Base64.Encode(SignBytes(rsa, payload, privateKeyPem).value)
  {
    match SignBytes(rsa, payload, privateKeyPem)
    case Err(ex) => Err(Rethrow(SignFailure, ex))
    case Ok(signature) => Base64.EncodedLength(signature); Ok(Base64.Encode(signature))
  }

  /** `SignPayloadWithEncoding`: sign, then render in the requested encoding.
      The encoding token is only looked at after signing succeeded, and an
      unsupported token is rethrown like every other failure. */
  function SignPayloadWithEncoding(rsa: Primitives, payload: string, privateKeyPem: string, encoding: string): (r: Result<string>)
    ensures r.Err? ==> r.error.InvalidOperationException? && r.error.message == SignFailure + r.error.inner.message
    ensures r.Ok? <==> SignBytes(rsa, payload, privateKeyPem).Ok? && IsEncodingName(ToLower(encoding))
    ensures r.Ok? ==> r == EncodeSignature(SignBytes(rsa, payload, privateKeyPem).value, encoding)
    ensures SignBytes(rsa, payload, privateKeyPem).Err? ==> r == Err(Rethrow(SignFailure, SignBytes(rsa, payload, privateKeyPem).error))
    ensures SignBytes(rsa, payload, privateKeyPem).Ok? && !IsEncodingName(ToLower(encoding)) ==>
      r == Err(Rethrow(SignFailure, ArgumentException("Unsupported encoding: " + encoding)))
  {
    match SignBytes(rsa, payload, privateKeyPem)
    case Err(ex) => Err(Rethrow(SignFailure, ex))
    case Ok(signature) =>
      match EncodeSignature(signature, encoding)
      case Err(ex) => Err(Rethrow(SignFailure, ex))
      case Ok(text) => Ok(text)
  }

  /** A failed key import escapes wrapped twice: once by the import helper,
      once by the signing method. */
  lemma ImportFailureWrappedTwice(rsa: Primitives, payload: string, privateKeyPem: string, encoding: string)
    requires rsa.importFromPem(privateKeyPem).Err?
    ensures var ex := rsa.importFromPem(privateKeyPem).error;
      SignPayloadWithEncoding(rsa, payload, privateKeyPem, encoding) == Err(Rethrow(SignFailure, Rethrow(ImportFailure, ex)))
      && SignPayload(rsa, payload, privateKeyPem) == Err(Rethrow(SignFailure, Rethrow(ImportFailure, ex)))
  {
  }

  /** `SignPayload` is `SignPayloadWithEncoding` with "base64". */
  lemma SignPayloadIsBase64(rsa: Primitives, payload: string, privateKeyPem: string)
    ensures SignPayload(rsa, payload, privateKeyPem) == SignPayloadWithEncoding(rsa, payload, privateKeyPem, "base64")
  {
    assert ToLower("base64") == "base64";
  }

  /** What is signed is the UTF-8 encoding of the payload and nothing else:
      two payloads with the same bytes give the same outcome. */
  lemma SignDependsOnlyOnPayloadBytes(rsa: Primitives, p1: string, p2: string, privateKeyPem: string, encoding: string)
    requires rsa.utf8(p1) == rsa.utf8(p2)
    ensures SignPayloadWithEncoding(rsa, p1, privateKeyPem, encoding) == SignPayloadWithEncoding(rsa, p2, privateKeyPem, encoding)
    ensures SignPayload(rsa, p1, privateKeyPem) == SignPayload(rsa, p2, privateKeyPem)
  {
  }
}
