/** The foreign primitives both helpers call: PEM key import, RSA signing and
    verification with SHA-256 and RSASSA-PKCS1-v1_5 (section 8.2 of RFC 8017),
    and UTF-8 encoding. None of them is modelled; each is a parameter, so
    every statement about the helpers holds whatever they compute. */
module Crypto {
  import opened Runtime

  /** The key material an RSA object holds after a successful import. */
  datatype RsaKey = RsaKey(material: seq<byte>)

  datatype Primitives = Primitives(
    /** `rsa.ImportFromPem(pem)`: the key, or the exception it throws. */
    importFromPem: string -> Result<RsaKey>,
    /** `rsa.SignData(data, HashAlgorithmName.SHA256, RSASignaturePadding.Pkcs1)`. */
    signData: (RsaKey, seq<byte>) -> Result<seq<byte>>,
    /** `rsa.VerifyData(data, signature, HashAlgorithmName.SHA256, RSASignaturePadding.Pkcs1)`. */
    verifyData: (RsaKey, seq<byte>, seq<byte>) -> Result<bool>,
    /** `Encoding.UTF8.GetBytes(text)`. */
    utf8: string -> seq<byte>)
}
