/** How the two tools fit together: the signature text the signer writes is
    what the verifier reads back. Nothing here is about RSA itself; the
    verdict stays whatever `VerifyData` answers. */
module SignVerify {
  import opened Runtime
  import opened Text
  import opened Hex
  import opened Crypto
  import Base64
  import SignerHelper
  import VerifierHelper

  /** The verifier's decoder inverts the signer's encoder for every
      supported encoding token, in any letter case. */
  lemma EncodedSignatureDecodes(b: seq<byte>, encoding: string)
    requires IsEncodingName(ToLower(encoding))
    ensures VerifierHelper.DecodeSignature(SignerHelper.EncodeSignature(b, encoding).value, encoding) == Ok(b)
  {
    if ToLower(encoding) == "hex" {
      VerifierHelper.DecodesLowerHex(b);
    } else {
      Base64.RoundTrip(b);
    }
  }

  /** Signing a payload and verifying the text produced, with the same
      encoding token, hands `VerifyData` exactly the payload's UTF-8 bytes
      and exactly the bytes `SignData` produced, and reports its answer. */
  lemma SignThenVerify(rsa: Primitives, payload: string, privateKeyPem: string, publicKeyPem: string, encoding: string)
    requires SignerHelper.SignPayloadWithEncoding(rsa, payload, privateKeyPem, encoding).Ok?
    requires rsa.importFromPem(publicKeyPem).Ok?
    ensures var text := SignerHelper.SignPayloadWithEncoding(rsa, payload, privateKeyPem, encoding).value;
      var verdict := rsa.verifyData(rsa.importFromPem(publicKeyPem).value, rsa.utf8(payload),
                                    SignerHelper.SignBytes(rsa, payload, privateKeyPem).value);
      var r := VerifierHelper.VerifySignature(rsa, payload, text, publicKeyPem, encoding);
      (r.Ok? <==> verdict.Ok?) && (r.Ok? ==> r.value == verdict.value)
  {
    EncodedSignatureDecodes(SignerHelper.SignBytes(rsa, payload, privateKeyPem).value, encoding);
  }

  /** `SignPayload`'s base64 text decodes back to the signature bytes. */
  lemma SignPayloadDecodes(rsa: Primitives, payload: string, privateKeyPem: string)
    requires SignerHelper.SignPayload(rsa, payload, privateKeyPem).Ok?
    ensures VerifierHelper.DecodeSignature(SignerHelper.SignPayload(rsa, payload, privateKeyPem).value, "base64")
      == Ok(SignerHelper.SignBytes(rsa, payload, privateKeyPem).value)
  {
    SignerHelper.SignPayloadIsBase64(rsa, payload, privateKeyPem);
    assert ToLower("base64") == "base64";
    EncodedSignatureDecodes(SignerHelper.SignBytes(rsa, payload, privateKeyPem).value, "base64");
  }

  /** The verifier also reads hex in `BitConverter.ToString` form (upper
      case, '-' between pairs), the text the signer builds before removing
      the dashes and lowering the case. */
  lemma DecodesBitConverterText(b: seq<byte>)
    ensures VerifierHelper.HexToBytes(SignerHelper.BitConverterToString(b)) == Ok(b)
  {
    var t := SignerHelper.BitConverterToString(b);
    var d := Without(t, {'-'});
    WithoutTwice(t, {'-'}, VerifierHelper.Separators);
    assert {'-'} + VerifierHelper.Separators == VerifierHelper.Separators;
    assert VerifierHelper.StripSeparators(d) == VerifierHelper.StripSeparators(t);
    VerifierHelper.CaseIgnored(d);
    SignerHelper.HexEncodeIsLowerHex(b);
    VerifierHelper.DecodesLowerHex(b);
  }
}
