# RSA API request signer and verifier — a Dafny model

Two command-line tools sign and verify API request payloads with RSA
(RSASSA-PKCS1-v1_5 over SHA-256, section 8.2 of RFC 8017). `RSASigner` signs
the UTF-8 bytes of a payload with a PEM private key and prints the signature as
base64 or lower-case hex. `RSAVerifier` decodes such a signature text and asks
the RSA library whether it matches the payload under a PEM public key.

This project models the logic around the cryptography:

- **The signature text codec.**
  - The signer's hex rendering is `BitConverter.ToString(...).Replace("-", "").ToLower()`.
  - The verifier's hex reader is `HexStringToBytes`. It strips `' '` and `'-'`, rejects odd length, and reads digit pairs with `Convert.ToByte(pair, 16)`.
  - Base64 is an own codec per section 4 of RFC 4648.
  - The encoding token switches in `SignPayloadWithEncoding` and `DecodeSignature`.
- **The control flow of signing and verifying**, with RSA and UTF-8 as
  parameters. It covers which bytes are signed, which are verified, and how
  every failure is rethrown as an `InvalidOperationException`.
- **`ExtractKeyFromPem`**, the PEM body extractor. Both helpers carry an
  identical copy, modelled once.
- **The two option parsers**, `VerifierOptions.ParseArguments` and
  `SignerOptions.ParseArguments`, with their `ValidateOptions`.

Modules:

| module | file | contents |
|---|---|---|
| `Runtime` | runtime.dfy | bytes, `Option`, `Result`, the .NET exception kinds, and the three outcomes of a parser. |
| `Text` | text.dfy | `ToLower`. `Without`, the model of `Replace(x, "")`. `IndexOf`. |
| `Hex` | hex.dfy | Hex digits, and `LowerHex`, the reference lower-case hex rendering. |
| `Base64` | base64.dfy | Encoder and strict decoder, with the round trip. |
| `Crypto` | crypto.dfy | The foreign primitives as function-valued parameters. |
| `Pem` | pem.dfy | `ExtractKeyFromPem`. |
| `SignerHelper` | signer_helper.dfy | The signer's `RSAHelper`. |
| `VerifierHelper` | verifier_helper.dfy | The verifier's `RSAHelper`. `HexStringToBytes` is an array-filling loop, proved equal to the function `HexToBytes`. |
| `SignerArgs` | signer_args.dfy | `SignerOptions`. |
| `VerifierArgs` | verifier_args.dfy | `VerifierOptions`. |
| `SignVerify` | sign_verify.dfy | How the signer's output and the verifier's input fit together. |

Each options class keeps the source's form:

- It is a Dafny `class` with the source's properties as fields.
- `ParseArguments` is a loop that assigns them case by case and consumes a flag's value with an extra `i := i + 1`.
- The loop is proved against `ParseFrom`, a step-by-step function over the
  arguments. The invariant is `Parse(args) == ParseFrom(args, i, options.Values())`.
- The "help" flags print the usage text and end the process with exit code 0.
  The model reports this as the `HelpShown` outcome.

Two facts about the code's error handling shape the model:

- **Every verification failure becomes one exception kind.**
  `VerifySignature` (RSAVerifier/RSAHelper.cs:28-31) catches every exception
  and rethrows it as an `InvalidOperationException` whose message starts
  "Failed to verify signature: ". A key that does not import, a malformed
  signature text and a library failure therefore all escape the same way, and
  the verifier's `FormatException` handler (exit code 4, "Invalid signature
  format") in `Program.cs` is never reached.
- **The encoding token is looked at last.** `SignPayloadWithEncoding`
  (RSASigner/RSAHelper.cs:39-53) imports the key and signs before it switches
  on the token. An unsupported token is then thrown as an `ArgumentException`
  and rethrown with the "Failed to sign payload: " prefix. The command-line
  parser rejects such tokens earlier, so only direct callers of the helper
  see this order.

## Model

Some members are the direct models of source lines but carry no contract of
their own. The rows of the lemmas and methods that state their properties are
listed next to each:

- `Runtime.Rethrow` models every `catch` block that rethrows a caught exception as an `InvalidOperationException` with a prefixed message and the original as inner exception (RSASigner/RSAHelper.cs:26-29, 57-60, 70-73; RSAVerifier/RSAHelper.cs:28-31, 70-73). Its rows are `SignerHelper.ImportFailureWrappedTwice`, `VerifierHelper.ImportFailureWrappedTwice` and the failure clauses of the sign and verify functions.
- `SignerHelper.HexEncode` models RSASigner/RSAHelper.cs:51. Its row is `SignerHelper.HexEncodeIsLowerHex`.
- `SignerHelper.SignBytes` models RSASigner/RSAHelper.cs:17-21 and 39-43, the import-and-sign steps shared by both sign methods. Its rows are `SignerHelper.SignPayload`, `SignerHelper.SignPayloadWithEncoding` and `SignerHelper.SignDependsOnlyOnPayloadBytes`.
- `VerifierHelper.HexToBytes` models RSAVerifier/RSAHelper.cs:50-59, and `VerifierHelper.DecodePairs` models lines 52-59 of it. Their rows are `VerifierHelper.HexStringToBytes`, `OddLengthRejected`, `ForeignCharRejected`, `DecodedBytes`, `SeparatorIgnored`, `CaseIgnored`, `PairsCaseIgnored` and `DecodesLowerHex`.
- `VerifierHelper.VerifyBody` models the `try` body RSAVerifier/RSAHelper.cs:13-25. Its rows are `VerifierHelper.VerifySignature`, `ImportFailureWrappedTwice` and `MalformedSignatureIsRethrown`.
- `VerifierArgs.ParseFrom` and `VerifierArgs.Assign` model the loop and the `switch` cases of RSAVerifier/VerifierOptions.cs:18-68. `SignerArgs.ParseFrom` and `SignerArgs.Assign` do the same for RSASigner/SignerOptions.cs:17-60. Their rows are each parser's `ParseArguments` and the lemmas from `FlagPositions` to `UnknownFlagRejected`.

| member | source | states |
|---|---|---|
| Text.ToLower | RSAVerifier/RSAHelper.cs:36 | The lower-cased text has the same length, and each character is the lower-case form of the one at the same position. |
| Text.WithoutMembers | RSAVerifier/RSAHelper.cs:50 | `Replace(x, "")` keeps exactly the characters not removed: a character is in the result iff it is in the input and not removed. |
| Text.WithoutConcat | RSAVerifier/RSAHelper.cs:50 | Removing characters from a concatenation is removing them from each part. |
| Text.WithoutTwice | RSAVerifier/RSAHelper.cs:50 | Two `Replace` removals in a row remove the union of the two character sets. |
| Text.IndexOf | RSAVerifier/RSAHelper.cs:81-85 | The result is -1 or an index at or after the start where the pattern occurs. |
| Text.IndexOfFirst | RSAVerifier/RSAHelper.cs:81-85 | The pattern occurs nowhere between the start and the result (nowhere after the start at all when the result is -1): `IndexOf` finds the first occurrence. |
| Text.IndexOfFinds | RSAVerifier/RSAHelper.cs:81-85 | When the pattern occurs at k and nowhere between the start and k, `IndexOf` returns k. |
| Text.WithoutInsert | RSAVerifier/RSAHelper.cs:50 | Inserting a removed character anywhere in the input does not change the `Replace` result. |
| Hex.LowerHex | RSASigner/RSAHelper.cs:51 | Lower-case hex of n bytes has 2·n characters. |
| Hex.LowerHexAt | RSASigner/RSAHelper.cs:51 | Characters 2k and 2k+1 are the lower-case digits of the high and low nibble of byte k. |
| Hex.LowerHexAlphabet | RSASigner/RSAHelper.cs:51 | Every character of the hex rendering is in [0-9a-f]. |
| Base64.EncodedLength | RSASigner/RSAHelper.cs:23 | Base64 of n bytes has 4·⌈n/3⌉ characters. |
| Base64.EncodeAlphabet | RSASigner/RSAHelper.cs:23 | Every character of the encoding is from the base64 alphabet or '='. |
| Base64.Decode | RSAVerifier/RSAHelper.cs:39 | Decoding fails exactly with a FormatException, and it fails on every text whose length is not a multiple of four. |
| Base64.DecodeGroupsError | RSAVerifier/RSAHelper.cs:39 | Every failure while decoding the groups of four is the one FormatException. |
| Base64.RoundTrip | RSAVerifier/RSAHelper.cs:39 | Decoding the encoder's output gives back the original bytes. |
| Pem.StripLayout | RSASigner/RSAHelper.cs:88-92 | The four chained `Replace` calls remove exactly the '\n', '\r', ' ' and '\t' characters. |
| Pem.ExtractKeyFromPem | RSAVerifier/RSAHelper.cs:76-93 | The result is null when the header occurs nowhere. A non-null result contains no '\n', '\r', ' ' or '\t'. |
| Pem.ExtractKeyFromPemBody | RSASigner/RSAHelper.cs:81-92 | Given the first header and the first footer after it, the result is the text between the end of that header and the footer, with layout characters removed. |
| Pem.ExtractKeyFromPemNoFooter | RSAVerifier/RSAHelper.cs:81-86 | With a header but no footer after the first header, the result is null. |
| SignerHelper.BitConverterToString | RSASigner/RSAHelper.cs:51 | `BitConverter.ToString` of n > 0 bytes has 3·n − 1 characters: upper-case pairs joined by '-'. |
| SignerHelper.HexEncodeIsLowerHex | RSASigner/RSAHelper.cs:51 | The chain `ToString`, then `Replace("-", "")`, then `ToLower` equals the reference lower-case hex rendering of the bytes. |
| SignerHelper.EncodeSignature | RSASigner/RSAHelper.cs:46-54 | The switch succeeds iff the token, lower-cased, is "base64" or "hex". "base64" gives the base64 text and "hex" the lower-case hex, each with its length. Any other token fails with ArgumentException("Unsupported encoding: " + token). |
| SignerHelper.ImportRSAPrivateKey | RSASigner/RSAHelper.cs:63-74 | A successful import returns the key. A failed one is rethrown as an InvalidOperationException with the "Failed to import RSA private key: " prefix, wrapping the original. |
| SignerHelper.SignPayload | RSASigner/RSAHelper.cs:10-30 | Succeeds iff import and signing succeed. The result is then the base64 encoding of the signed bytes, of length 4·⌈n/3⌉. Every failure is an InvalidOperationException with the "Failed to sign payload: " prefix. |
| SignerHelper.SignPayloadWithEncoding | RSASigner/RSAHelper.cs:32-61 | Succeeds iff import and signing succeed and the token is supported. The text is then the switch's rendering of the signed bytes. An import or signing failure is rethrown with the sign prefix. After a successful sign, an unsupported token escapes as the sign prefix wrapped around ArgumentException("Unsupported encoding: " + token). Every escaping exception is an InvalidOperationException. |
| SignerHelper.ImportFailureWrappedTwice | RSASigner/RSAHelper.cs:57-73 | A failed key import escapes from both sign methods wrapped twice: first with the import prefix, then with the sign prefix. |
| SignerHelper.SignPayloadIsBase64 | RSASigner/RSAHelper.cs:20-49 | `SignPayload(p, k)` equals `SignPayloadWithEncoding(p, k, "base64")`. |
| SignerHelper.SignDependsOnlyOnPayloadBytes | RSASigner/RSAHelper.cs:42-43 | Two payloads with the same UTF-8 bytes give the same outcome from both sign methods. |
| VerifierHelper.ToByteBase16 | RSAVerifier/RSAHelper.cs:58 | `Convert.ToByte(pair, 16)` succeeds iff the low character is a hex digit and the high one is a hex digit or '+'. Two digits give 16·high + low. A failure is a FormatException. |
| VerifierHelper.StripSeparators | RSAVerifier/RSAHelper.cs:50 | Removing ' ' and then '-' removes exactly the characters ' ' and '-'. |
| VerifierHelper.SeparatorIgnored | RSAVerifier/RSAHelper.cs:50 | Inserting a space or a hyphen anywhere never changes the outcome of `HexStringToBytes`. |
| VerifierHelper.OddLengthRejected | RSAVerifier/RSAHelper.cs:52-53 | A stripped text of odd length fails with ArgumentException("Hex string must have an even number of characters"). |
| VerifierHelper.ForeignCharRejected | RSAVerifier/RSAHelper.cs:55-59 | Any character other than a hex digit, ' ', '-' or '+' makes decoding fail. Tab and newline are among them. |
| VerifierHelper.DecodedBytes | RSAVerifier/RSAHelper.cs:55-59 | On success the output has stripped-length/2 bytes. Byte k is the value of the pair at 2k, 2k+1, with digits in either case. |
| VerifierHelper.PlusSignAccepted | RSAVerifier/RSAHelper.cs:58 | The two-character text "+d" is accepted and read as the single digit d. |
| VerifierHelper.DecodesLowerHex | RSAVerifier/RSAHelper.cs:47-61 | Lower-case, separator-free hex decodes back to exactly its bytes. This includes the empty text, which decodes to no bytes. |
| VerifierHelper.CaseIgnored | RSAVerifier/RSAHelper.cs:58 | Lower-casing the hex text never changes the decoder's outcome. |
| VerifierHelper.PairsCaseIgnored | RSAVerifier/RSAHelper.cs:52-59 | Lower-casing separator-free text never changes the outcome of the even-length check and the pair-by-pair conversion. |
| VerifierHelper.HexStringToBytes | RSAVerifier/RSAHelper.cs:47-61 | The array-filling loop returns exactly what `HexToBytes` specifies: success or failure, and every byte. |
| VerifierHelper.DecodeSignature | RSAVerifier/RSAHelper.cs:34-45 | The token is matched case-insensitively. "base64" gives the base64 decoder's result and "hex" gives `HexStringToBytes`'. Any other token fails with ArgumentException("Unsupported encoding: " + token). |
| VerifierHelper.ImportRSAPublicKey | RSAVerifier/RSAHelper.cs:63-74 | A successful import returns the key. A failed one is rethrown with the "Failed to import RSA public key: " prefix. |
| VerifierHelper.VerifySignature | RSAVerifier/RSAHelper.cs:9-32 | Succeeds iff import, signature decoding and `VerifyData` succeed. The verdict is `VerifyData`'s answer on the payload's UTF-8 bytes and the decoded signature. Every failure escapes as an InvalidOperationException with the "Failed to verify signature: " prefix, never as `false`. A `VerifyData` failure is that prefix wrapped around `VerifyData`'s own exception. |
| VerifierHelper.ImportFailureWrappedTwice | RSAVerifier/RSAHelper.cs:9-31 | A failed public-key import escapes from `VerifySignature` wrapped twice: first with the import prefix, then with the verify prefix. |
| VerifierHelper.MalformedSignatureIsRethrown | RSAVerifier/RSAHelper.cs:22-31 | A signature text that does not decode is reported as the decoder's exception inside the verify wrapper, not as a FormatException. |
| VerifierArgs.Validate | RSAVerifier/VerifierOptions.cs:74-84 | Validation passes iff payload, signature and key paths are all non-null and non-empty. Any failure is an ArgumentException. |
| VerifierArgs.VerifierOptions.constructor | RSAVerifier/VerifierOptions.cs:7-12 | A new options object has null paths, `Encoding` "base64" and both flags false. |
| VerifierArgs.VerifierOptions.ParseArguments | RSAVerifier/VerifierOptions.cs:14-72 | The loop's outcome is `Parse(args)`: same options, same error, same help exit. A parsed object is newly allocated, has all three paths present and an encoding of "base64" or "hex". Every rejection is an ArgumentException. |
| VerifierArgs.FlagPositions | RSAVerifier/VerifierOptions.cs:18-68 | The positions the loop reads as flags lie between the start and the end, the start among them. A value-taking flag's value is skipped. |
| VerifierArgs.ValueNotFlag | RSAVerifier/VerifierOptions.cs:18-56 | For every argument list, the argument after a value-taking flag in flag position is never itself a flag position. |
| VerifierArgs.FlagLikeValue | RSAVerifier/VerifierOptions.cs:28-32 | In `-payload -encoding -key k` the "-encoding" is `-payload`'s value and not a flag position. |
| VerifierArgs.NoWriterKeepsField | RSAVerifier/VerifierOptions.cs:18-68 | A property that no flag in flag position writes keeps its value through a successful parse. Values that spell a flag do not count. |
| VerifierArgs.LastWriterWins | RSAVerifier/VerifierOptions.cs:22-44 | In a successful `ParseArguments`, among the flags in flag position, the last of `-file`/`-payload` decides `PayloadPath` and `IsFile`, whatever came earlier. The last of `-signature`/`-sigfile` decides `SignaturePath` and `IsSigFile`. The last `-key` decides `KeyPath`. Mutual exclusion is not enforced. |
| VerifierArgs.EncodingDefaultsToBase64 | RSAVerifier/VerifierOptions.cs:10 | Without `-encoding` in flag position, a successful parse leaves `Encoding` as "base64". An "-encoding" that is another flag's value does not count. |
| VerifierArgs.ParseFromComplete | RSAVerifier/VerifierOptions.cs:51-56 | Starting from a supported encoding, every successful parse ends with all required paths present and a supported encoding. |
| VerifierArgs.ParsedIsComplete | RSAVerifier/VerifierOptions.cs:70-83 | A successful parse guarantees non-empty payload, signature and key paths, and `Encoding` in {base64, hex}. |
| VerifierArgs.RejectionsAreArgumentExceptions | RSAVerifier/VerifierOptions.cs:18-83 | Every error the parser raises is an ArgumentException. |
| VerifierArgs.ValueFlagStep | RSAVerifier/VerifierOptions.cs:23-55 | A value-taking flag in the last position fails with "Missing value for <flag> parameter". An `-encoding` whose value, lower-cased, is neither "base64" nor "hex" fails at once with "Encoding must be 'base64' or 'hex'", whatever follows. Otherwise the flag consumes exactly the next argument, even one that looks like a flag. |
| VerifierArgs.ParseFromReadsSuffix | RSAVerifier/VerifierOptions.cs:18-20 | The parse from position i depends only on the arguments from i on. |
| VerifierArgs.FlagCaseIgnored | RSAVerifier/VerifierOptions.cs:20 | Spelling a recognised flag in another letter case changes nothing. |
| VerifierArgs.UnknownFlagRejected | RSAVerifier/VerifierOptions.cs:65-66 | Any other argument in flag position fails with ArgumentException("Unknown parameter: " + the argument as given). |
| SignerArgs.Validate | RSASigner/SignerOptions.cs:66-73 | Validation passes iff the payload and key paths are non-null and non-empty. The output path is not checked. |
| SignerArgs.SignerOptions.constructor | RSASigner/SignerOptions.cs:7-11 | A new options object has null paths, `Encoding` "base64" and `IsFile` false. |
| SignerArgs.SignerOptions.ParseArguments | RSASigner/SignerOptions.cs:13-64 | The loop's outcome is `Parse(args)`. A parsed object is newly allocated, has payload and key paths present and an encoding of "base64" or "hex". Every rejection is an ArgumentException. |
| SignerArgs.FlagPositions | RSASigner/SignerOptions.cs:17-60 | The positions the loop reads as flags lie between the start and the end, the start among them. A value-taking flag's value is skipped. |
| SignerArgs.ValueNotFlag | RSASigner/SignerOptions.cs:17-48 | For every argument list, the argument after a value-taking flag in flag position is never itself a flag position. |
| SignerArgs.FlagLikeValue | RSASigner/SignerOptions.cs:27-31 | In `-payload -output -key k` the "-output" is `-payload`'s value and not a flag position. |
| SignerArgs.NoWriterKeepsField | RSASigner/SignerOptions.cs:17-60 | A property that no flag in flag position writes keeps its value through a successful parse. Values that spell a flag do not count. |
| SignerArgs.LastWriterWins | RSASigner/SignerOptions.cs:21-41 | In a successful `ParseArguments`, among the flags in flag position, the last of `-file`/`-payload` decides `PayloadPath` and `IsFile`, whatever came earlier. Repeated `-key` or `-output` flags keep only the last value. |
| SignerArgs.EncodingDefaultsToBase64 | RSASigner/SignerOptions.cs:10 | Without `-encoding` in flag position, a successful parse leaves `Encoding` as "base64". An "-encoding" that is another flag's value does not count. |
| SignerArgs.OutputMayStayUnset | RSASigner/SignerOptions.cs:62-73 | Without `-output` in flag position, a successful parse leaves `OutputPath` null, even when "-output" is another flag's value. |
| SignerArgs.ParseFromComplete | RSASigner/SignerOptions.cs:43-48 | Starting from a supported encoding, every successful parse ends with payload and key present and a supported encoding. |
| SignerArgs.ParsedIsComplete | RSASigner/SignerOptions.cs:62-72 | A successful parse guarantees non-empty payload and key paths, and `Encoding` in {base64, hex}. |
| SignerArgs.RejectionsAreArgumentExceptions | RSASigner/SignerOptions.cs:17-73 | Every error the parser raises is an ArgumentException. |
| SignerArgs.ValueFlagStep | RSASigner/SignerOptions.cs:22-47 | A value-taking flag in the last position fails with "Missing value for <flag> parameter". An `-encoding` whose value, lower-cased, is neither "base64" nor "hex" fails at once with "Encoding must be 'base64' or 'hex'", whatever follows. Otherwise the flag consumes exactly the next argument. |
| SignerArgs.ParseFromReadsSuffix | RSASigner/SignerOptions.cs:17-19 | The parse from position i depends only on the arguments from i on. |
| SignerArgs.FlagCaseIgnored | RSASigner/SignerOptions.cs:19 | Spelling a recognised flag in another letter case changes nothing. |
| SignerArgs.UnknownFlagRejected | RSASigner/SignerOptions.cs:57-58 | Any other argument in flag position fails with ArgumentException("Unknown parameter: " + the argument as given). |
| SignVerify.EncodedSignatureDecodes | RSASigner/RSAHelper.cs:46-54 | For every supported token, in any case, the verifier's `DecodeSignature` inverts the signer's encoding switch. |
| SignVerify.SignThenVerify | RSAVerifier/RSAHelper.cs:9-32 | Verifying the signer's text with the same token hands `VerifyData` exactly the payload's UTF-8 bytes and the bytes `SignData` produced. The result is `VerifyData`'s answer. |
| SignVerify.SignPayloadDecodes | RSASigner/RSAHelper.cs:23 | `SignPayload`'s base64 text decodes back to the signature bytes. |
| SignVerify.DecodesBitConverterText | RSASigner/RSAHelper.cs:51 | The verifier's hex reader also accepts the upper-case, dash-separated `BitConverter.ToString` text and recovers the bytes. |

## Left out

- RSA key import, signing and verification (SHA-256, RSASSA-PKCS1-v1_5) are foreign library calls. They are the fields of `Crypto.Primitives`, so every statement holds whatever they compute. No claim is made about signature correctness, tamper detection or wrong-key rejection.
- `Encoding.UTF8.GetBytes` is a parameter (`Primitives.utf8`).
- VerifierHelper.HexStringToBytes: lengths are counted in Unicode characters, not UTF-16 code units as in .NET. For text with a character outside the Basic Multilingual Plane, the model and .NET can disagree on the even-length check, and so on which exception is thrown (`ArgumentException` or `FormatException`). The same holds for `HexToBytes`, which it is proved equal to. Both reject such text either way.
- `Convert.FromBase64String` tolerates whitespace inside the text. The model's decoder is the strict codec of section 4 of RFC 4648 and rejects it.
- The library's own exception messages are placeholders. These are the messages of `FormatException` from `Convert` and of the RSA library's exceptions. The messages the repository's own code builds are verbatim.
- `ToLower` is modelled as ASCII lower-casing. .NET's culture-sensitive lower-casing, such as the Turkish dotless i, is not modelled.
- `IndexOf(string)` is modelled as an ordinal search. .NET's culture-sensitive comparison, with its ignorable characters, is not modelled.
- `ShowUsage` and `Environment.Exit(0)` in the help branches are console output and process termination. Both are the `HelpShown` outcome.
- The two `Program.cs` files are not part of this model. This covers file existence checks, file reads and writes, console output, the signature `Trim()` and the exit-code mapping.
- `using` blocks and the disposal of the RSA object are resource management, with no observable logic here.
- `VerifySignature`'s default argument `encoding = "base64"` is not a separate member: callers pass the token explicitly.
- Both copies of `ExtractKeyFromPem` are identical and have no caller, so one model covers both. Null arguments, which would throw, are not modelled for it or any other operation.
