/** RSAVerifier's `RSAHelper`: decode the signature text, then ask the RSA
    primitive whether it is a valid signature of the payload's UTF-8 bytes. */
module VerifierHelper {
  import opened Runtime
  import opened Text
  import opened Hex
  import opened Crypto
  import Base64

  const VerifyFailure := "Failed to verify signature: "
  const ImportFailure := "Failed to import RSA public key: "
  const OddLength := "Hex string must have an even number of characters"
  /** The text of `Convert.ToByte`'s own FormatException is not modelled. */
  const NoDigits := "Could not parse the hex digit pair."

  /** `Convert.ToByte(pair, 16)` on a two-character string. The parser skips
      a leading '+' sign (a '-' cannot occur: it was stripped) and then
      needs every remaining character to be a hex digit of either case. */
  function ToByteBase16(hi: char, lo: char): (r: Result<byte>)
    ensures r.Ok? <==> IsHexDigit(lo) && (IsHexDigit(hi) || hi == '+')
    ensures IsHexDigit(hi) && IsHexDigit(lo) ==> r == Ok((16 * DigitValue(hi) + DigitValue(lo)) as byte)
    ensures r.Err? ==> r.error == FormatException(NoDigits)
  {
    if hi == '+' && IsHexDigit(lo) then Ok(DigitValue(lo) as byte)
    else if IsHexDigit(hi) && IsHexDigit(lo) then Ok((16 * DigitValue(hi) + DigitValue(lo)) as byte)
    else Err(FormatException(NoDigits))
  }

  const Separators: set<char> := {' ', '-'}

  /** `hex.Replace(" ", "").Replace("-", "")`: the text without spaces and hyphens. */
  function StripSeparators(hex: string): (r: string)
    ensures r == Without(hex, Separators)
  {
    WithoutTwice(hex, {' '}, {'-'});
    assert {' '} + {'-'} == Separators;
    Without(Without(hex, {' '}), {'-'})
  }

  /** The digit pair at positions 2k and 2k+1 parses. */
  predicate PairParses(s: string, k: nat)
    requires 2 * k + 1 < |s|
  {
    ToByteBase16(s[2 * k], s[2 * k + 1]).Ok?
  }

  function PairValue(s: string, k: nat): byte
    requires 2 * k + 1 < |s| && PairParses(s, k)
  {
    ToByteBase16(s[2 * k], s[2 * k + 1]).value
  }

  /** What `HexStringToBytes` computes: fail on odd length after stripping,
      fail on the first pair that does not parse, and otherwise byte k is
      the value of pair k. */
  function HexToBytes(hex: string): (r: Result<seq<byte>>)
  {
    DecodePairs(StripSeparators(hex))
  }

  /** The decoding of the stripped text. */
  function DecodePairs(s: string): Result<seq<byte>>
  {
    if |s| % 2 != 0 then Err(ArgumentException(OddLength))
    else if forall k :: 0 <= k < |s| / 2 ==> PairParses(s, k) then
      Ok(seq(|s| / 2, k requires 0 <= k < |s| / 2 => PairValue(s, k)))
    else Err(FormatException(NoDigits))
  }

  /** Inserting a space or a hyphen anywhere never changes the outcome. */
  lemma SeparatorIgnored(a: string, b: string, c: char)
    requires c == ' ' || c == '-'
    ensures HexToBytes(a + [c] + b) == HexToBytes(a + b)
  {
    WithoutInsert(a, b, c, Separators);
    assert StripSeparators(a + [c] + b) == StripSeparators(a + b);
  }

  /** A stripped text of odd length fails with an ArgumentException and
      yields no bytes. */
  lemma OddLengthRejected(hex: string)
    requires |StripSeparators(hex)| % 2 == 1
    ensures HexToBytes(hex) == Err(ArgumentException(OddLength))
  {
  }

  /** Any character other than a hex digit, '+', a space or a hyphen makes
      decoding fail: tab and newline are not stripped. */
  lemma ForeignCharRejected(hex: string, c: char)
    requires c in hex && !IsHexDigit(c) && c !in {' ', '-', '+'}
    ensures HexToBytes(hex).Err?
  {
    var s := StripSeparators(hex);
    WithoutMembers(hex, Separators);
    assert c in s;
    var j :| 0 <= j < |s| && s[j] == c;
    if |s| % 2 == 0 {
      var k := j / 2;
      assert 2 * k + 1 < |s|;
      assert !PairParses(s, k);
    }
  }

  /** On success byte k is the value of the digit pair at 2k, 2k+1 of the
      stripped text, in either case. */
  lemma DecodedBytes(hex: string, k: nat)
    requires HexToBytes(hex).Ok? && k < |HexToBytes(hex).value|
    ensures var s := StripSeparators(hex);
      && |HexToBytes(hex).value| == |s| / 2
      && 2 * k + 1 < |s|
      && (IsHexDigit(s[2 * k]) || s[2 * k] == '+') && IsHexDigit(s[2 * k + 1])
      && HexToBytes(hex).value[k] as int == if s[2 * k] == '+' then DigitValue(s[2 * k + 1])
                                            else 16 * DigitValue(s[2 * k]) + DigitValue(s[2 * k + 1])
  {
    var s := StripSeparators(hex);
    assert PairParses(s, k);
  }

  /** A two-character text "+d" is accepted and read as the single digit d,
      because `Convert.ToByte` takes a leading sign. */
  lemma PlusSignAccepted(d: char)
    requires IsHexDigit(d)
    ensures HexToBytes(['+', d]) == Ok([DigitValue(d) as byte])
  {
    var s := ['+', d];
    WithoutNothing(s, Separators);
    assert PairParses(s, 0) && PairValue(s, 0) == DigitValue(d) as byte;
    AllPairsParse(s, [DigitValue(d) as byte]);
  }

  /** When every pair of the stripped text parses, the result holds their values. */
  lemma AllPairsParse(hex: string, b: seq<byte>)
    requires var s := StripSeparators(hex);
      |s| == 2 * |b| && forall k :: 0 <= k < |b| ==> PairParses(s, k) && PairValue(s, k) == b[k]
    ensures HexToBytes(hex) == Ok(b)
  {
    var s := StripSeparators(hex);
    assert HexToBytes(hex).Ok?;
    assert HexToBytes(hex).value == b;
  }

  /** Lower-case, separator-free hex decodes back to its bytes. */
  lemma DecodesLowerHex(b: seq<byte>)
    ensures HexToBytes(LowerHex(b)) == Ok(b)
  {
    var s := LowerHex(b);
    LowerHexAlphabet(b);
    WithoutNothing(s, Separators);
    forall k | 0 <= k < |b|
      ensures PairParses(s, k) && PairValue(s, k) == b[k]
    {
      LowerHexAt(b, k);
    }
    AllPairsParse(s, b);
  }

  lemma LowerCharPair(hi: char, lo: char)
    ensures ToByteBase16(LowerChar(hi), LowerChar(lo)) == ToByteBase16(hi, lo)
  {
  }

  lemma {:induction false} LowerKeepsSeparators(s: string, c: char)
    requires c == ' ' || c == '-'
    ensures Without(ToLower(s), {c}) == ToLower(Without(s, {c}))
  {
    if s != [] {
      ToLowerConcat([s[0]], s[1..]);
      assert s == [s[0]] + s[1..];
      WithoutConcat(ToLower([s[0]]), ToLower(s[1..]), {c});
      WithoutConcat([s[0]], s[1..], {c});
      ToLowerConcat(Without([s[0]], {c}), Without(s[1..], {c}));
      LowerKeepsSeparators(s[1..], c);
    }
  }

  /** Decoding does not depend on the case of the text. */
  lemma CaseIgnored(hex: string)
    ensures HexToBytes(ToLower(hex)) == HexToBytes(hex)
  {
    LowerKeepsSeparators(hex, ' ');
    LowerKeepsSeparators(Without(hex, {' '}), '-');
    assert StripSeparators(ToLower(hex)) == ToLower(StripSeparators(hex));
    PairsCaseIgnored(StripSeparators(hex));
  }

  lemma PairsCaseIgnored(s: string)
    ensures DecodePairs(ToLower(s)) == DecodePairs(s)
  {
    var t := ToLower(s);
    forall k | 0 <= k < |s| / 2
      ensures PairParses(t, k) == PairParses(s, k)
      ensures PairParses(s, k) ==> PairValue(t, k) == PairValue(s, k)
    {
      LowerCharPair(s[2 * k], s[2 * k + 1]);
    }
    if |s| % 2 == 0 && DecodePairs(s).Ok? {
      assert DecodePairs(t).Ok?;
      assert DecodePairs(t).value == DecodePairs(s).value;
    } else if |s| % 2 == 0 {
      var k :| 0 <= k < |s| / 2 && !PairParses(s, k);
      assert !PairParses(t, k);
    }
  }

  /** `HexStringToBytes`: allocate the byte array and fill it two characters
      at a time. */
  method HexStringToBytes(hex: string) returns (r: Result<seq<byte>>)
    ensures r == HexToBytes(hex)
  {
    var s := StripSeparators(hex);
    if |s| % 2 != 0 {
      return Err(ArgumentException(OddLength));
    }
    var bytes := new byte[|s| / 2];
    var i := 0;
    while i < |s|
      invariant 0 <= i <= |s| && i % 2 == 0
      invariant forall k :: 0 <= k < i / 2 ==> PairParses(s, k) && bytes[k] == PairValue(s, k)
    {
      var b := ToByteBase16(s[i], s[i + 1]);
      if b.Err? {
        assert !PairParses(s, i / 2);
        return Err(b.error);
      }
      bytes[i / 2] := b.value;
      i := i + 2;
    }
    assert bytes[..] == seq(|s| / 2, k requires 0 <= k < |s| / 2 => PairValue(s, k));
    return Ok(bytes[..]);
  }

  /** `DecodeSignature`: the `switch (encoding.ToLower())` choosing a decoder. */
  function DecodeSignature(signature: string, encoding: string): (r: Result<seq<byte>>)
    ensures ToLower(encoding) == "base64" ==> r == Base64.Decode(signature)
    ensures ToLower(encoding) == "hex" ==> r == HexToBytes(signature)
    ensures !IsEncodingName(ToLower(encoding)) ==> r == Err(ArgumentException("Unsupported encoding: " + encoding))
  {
    var token := ToLower(encoding);
    if token == "base64" then Base64.Decode(signature)
    else if token == "hex" then HexToBytes(signature)
    else Err(ArgumentException("Unsupported encoding: " + encoding))
  }

  /** `ImportRSAPublicKey`: a failed import is rethrown with its own prefix. */
  function ImportRSAPublicKey(rsa: Primitives, publicKeyPem: string): (r: Result<RsaKey>)
    ensures rsa.importFromPem(publicKeyPem).Ok? ==> r == rsa.importFromPem(publicKeyPem)
    ensures rsa.importFromPem(publicKeyPem).Err? ==>
      r == Err(Rethrow(ImportFailure, rsa.importFromPem(publicKeyPem).error))
  {
    match rsa.importFromPem(publicKeyPem)
    case Ok(key) => Ok(key)
    case Err(ex) => Err(Rethrow(ImportFailure, ex))
  }

  /** The steps inside `VerifySignature`'s `try`: import the key, take the
      payload's UTF-8 bytes, decode the signature, ask `VerifyData`. */
  function VerifyBody(rsa: Primitives, payload: string, signature: string, publicKeyPem: string, encoding: string): Result<bool>
  {
    match ImportRSAPublicKey(rsa, publicKeyPem)
    case Err(ex) => Err(ex)
    case Ok(key) =>
      var payloadBytes := rsa.utf8(payload);
      match DecodeSignature(signature, encoding)
      case Err(ex) => Err(ex)
      case Ok(signatureBytes) => rsa.verifyData(key, payloadBytes, signatureBytes)
  }

  /** `VerifySignature`: the verdict of `VerifyData` on the payload's UTF-8
      bytes and the decoded signature; every failure, including a malformed
      signature text or an unsupported encoding, escapes as an
      InvalidOperationException and never as `false`. */
  function VerifySignature(rsa: Primitives, payload: string, signature: string, publicKeyPem: string, encoding: string): (r: Result<bool>)
    ensures r.Err? ==> r.error.InvalidOperationException? && r.error.message == VerifyFailure + r.error.inner.message
    ensures r.Ok? <==>
      && rsa.importFromPem(publicKeyPem).Ok?
      && DecodeSignature(signature, encoding).Ok?
      && rsa.verifyData(rsa.importFromPem(publicKeyPem).value, rsa.utf8(payload), DecodeSignature(signature, encoding).value).Ok?
    ensures r.Ok? ==>
      r.value == rsa.verifyData(rsa.importFromPem(publicKeyPem).value, rsa.utf8(payload), DecodeSignature(signature, encoding).value).value
    ensures (&& rsa.importFromPem(publicKeyPem).Ok?
             && DecodeSignature(signature, encoding).Ok?
             && rsa.verifyData(rsa.importFromPem(publicKeyPem).value, rsa.utf8(payload), DecodeSignature(signature, encoding).value).Err?)
      ==> r == Err(Rethrow(VerifyFailure,
        rsa.verifyData(rsa.importFromPem(publicKeyPem).value, rsa.utf8(payload), DecodeSignature(signature, encoding).value).error))
  {
    match VerifyBody(rsa, payload, signature, publicKeyPem, encoding)
    case Err(ex) => Err(Rethrow(VerifyFailure, ex))
    case Ok(valid) => Ok(valid)
  }

  /** A failed public-key import escapes wrapped twice: once by the import
      helper, once by `VerifySignature`. */
  lemma ImportFailureWrappedTwice(rsa: Primitives, payload: string, signature: string, publicKeyPem: string, encoding: string)
    requires rsa.importFromPem(publicKeyPem).Err?
    ensures VerifySignature(rsa, payload, signature, publicKeyPem, encoding)
      == Err(Rethrow(VerifyFailure, Rethrow(ImportFailure, rsa.importFromPem(publicKeyPem).error)))
  {
  }

  /** A malformed signature text is reported as the decoder's exception
      wrapped in an InvalidOperationException, never as a FormatException
      and never as `false`. */
  lemma MalformedSignatureIsRethrown(rsa: Primitives, payload: string, signature: string, publicKeyPem: string, encoding: string)
    requires rsa.importFromPem(publicKeyPem).Ok?
    requires DecodeSignature(signature, encoding).Err?
    ensures VerifySignature(rsa, payload, signature, publicKeyPem, encoding)
      == Err(Rethrow(VerifyFailure, DecodeSignature(signature, encoding).error))
  {
  }
}
