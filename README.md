# PEM-to-DER conversion of the certificate public-key extractor

This project models `pemToDer` of the Euclid circuit repository's script
`circuits/scripts/extract-pubkey-from-cert.ts`: the function that turns the PEM
certificate written by the test-fixture generator back into the DER bytes that
the X.509 parser reads. It works in three steps, and the model follows them:

1. `pem.replace(header, "")` and then `.replace(footer, "")` cut out the first
   `-----BEGIN CERTIFICATE-----` and the first `-----END CERTIFICATE-----`
   (the encapsulation boundaries of section 2 of RFC 7468, with the label of
   section 5). A JavaScript `replace` with a string pattern replaces only the
   first match, and a pattern that does not occur leaves the text unchanged.
2. `.replace(/\s/g, "")` deletes every character of the ECMAScript `\s` class.
3. `Buffer.from(text, "base64")` decodes the rest (section 4 of RFC 4648), and
   `stringToArrayBuffer(buffer.toString("binary"))` copies the bytes into an
   ArrayBuffer through a latin-1 string.

The model is pure, as the source is: subset types, sequences, recursive
functions and lemmas.

- `jsstring.dfy` (module `JsString`): `indexOf`, first-match `replace`, the `\s`
  class and its global deletion, and "is a subsequence of".
- `base64.dfy` (module `Base64`): the decoder, and an RFC 4648 encoder as its
  partner. Characters map one by one to 6-bit symbols (and a padding symbol);
  arithmetic turns groups of four symbols into three bytes.
- `latin1.dfy` (module `Latin1`): the "binary" string and `stringToArrayBuffer`.
- `pem.dfy` (module `ExtractPubkeyFromCert`): the boundary lines, `Strip` (steps
  1 and 2), `PemToDer`, and the properties of the whole conversion. It also has
  `PemEncode`, the layout a PEM writer produces (header, base64 body broken into
  lines, footer), used to state the round trip from the certificate written at
  `circuits/manual-test/utils.ts:54` to the reader at
  `circuits/scripts/extract-pubkey-from-cert.ts:10-13`.

The code does not check for the boundary lines: a missing or mismatched one is
simply not removed and no error is raised (`StripWithoutBoundaries`).

`Base64.Encode`, `WrapLines` and `PemEncode` do not model the core. They are
reference definitions of the writer's output (standard base64, broken into
CR LF terminated lines between the boundary lines), against which the round
trips `DecodeEncode`, `EncodeDecode`, `PemRoundTrip` and `PemEncodeRoundTrip`
are stated.

## Model

| member | source | states |
|---|---|---|
| `JsString.IndexOf` | circuits/scripts/extract-pubkey-from-cert.ts:40-41 | the result is -1 exactly when the pattern occurs nowhere; otherwise it is the leftmost index at which it occurs |
| `JsString.ReplaceFirst` | circuits/scripts/extract-pubkey-from-cert.ts:40-41 | a pattern that does not occur leaves the text unchanged; otherwise the leftmost occurrence, and only it, is replaced |
| `JsString.LaterOccurrenceSurvives` | circuits/scripts/extract-pubkey-from-cert.ts:40-41 | an occurrence lying wholly after the first one, not overlapping it, is still present after the replacement, shifted by the change in length |
| `JsString.ReplaceFirstByNothingIsSubsequence` | circuits/scripts/extract-pubkey-from-cert.ts:40-41 | removing the first match leaves a subsequence of the text |
| `JsString.RemoveWhitespace` | circuits/scripts/extract-pubkey-from-cert.ts:42 | the result contains no `\s` character and is no longer than the input |
| `JsString.RemoveWhitespaceKeeps` | circuits/scripts/extract-pubkey-from-cert.ts:42 | a character survives exactly when it is in the input and is not whitespace |
| `JsString.RemoveWhitespaceClean` | circuits/scripts/extract-pubkey-from-cert.ts:42 | text without whitespace is left unchanged |
| `JsString.RemoveWhitespaceBlank` | circuits/scripts/extract-pubkey-from-cert.ts:42 | text made only of whitespace disappears |
| `JsString.RemoveWhitespaceAppend` | circuits/scripts/extract-pubkey-from-cert.ts:42 | deleting whitespace from a concatenation deletes it from each part |
| `JsString.InsertedWhitespaceVanishes` | circuits/scripts/extract-pubkey-from-cert.ts:42 | whitespace inserted anywhere does not change the result |
| `JsString.RemoveWhitespaceIsSubsequence` | circuits/scripts/extract-pubkey-from-cert.ts:42 | the result is a subsequence of the input: nothing added, order kept |
| `JsString.SubsequenceTransitive` | circuits/scripts/extract-pubkey-from-cert.ts:39-42 | a subsequence of a subsequence is a subsequence, so the chained steps only delete |
| `Base64.CharToSymbol` | circuits/scripts/extract-pubkey-from-cert.ts:44 | the value of an alphabet character or `=` is the one whose character it is (the alphabet is a bijection) |
| `Base64.DecodeSymbols` | circuits/scripts/extract-pubkey-from-cert.ts:44 | 4k well-formed symbols ending in p padding symbols decode to 3k - p bytes |
| `Base64.Decode` | circuits/scripts/extract-pubkey-from-cert.ts:44 | well-formed base64 text of length 4k ending in p `=` decodes to 3k - p bytes |
| `Base64.DecodeEncode` | circuits/scripts/extract-pubkey-from-cert.ts:44 | decoding the encoding of any bytes gives them back; the encoding is canonical text of 4 characters per started group of 3 bytes |
| `Base64.EncodeDecode` | circuits/scripts/extract-pubkey-from-cert.ts:44 | re-encoding the decoding of canonical text gives the text back |
| `Base64.DecodeIgnoresPadBits` | circuits/scripts/extract-pubkey-from-cert.ts:44 | clearing the bits the padding leaves unused gives canonical symbols that decode to the same bytes |
| `Base64.DecodeDropsPadBits` | circuits/scripts/extract-pubkey-from-cert.ts:44 | well-formed text with non-zero unused padding bits decodes as the canonical text with those bits cleared, so the bits are dropped |
| `Latin1.BinaryString` | circuits/scripts/extract-pubkey-from-cert.ts:45 | one character per byte, character i having code b[i] |
| `Latin1.StringToArrayBuffer` | circuits/scripts/extract-pubkey-from-cert.ts:45 | the buffer has one cell per character, and a character with a code below 256 is stored as that code |
| `Latin1.BinaryCopyIsIdentity` | circuits/scripts/extract-pubkey-from-cert.ts:44-45 | the copy through the binary string keeps the decoder's length, and byte i equals decoded byte i |
| `ExtractPubkeyFromCert.Strip` | circuits/scripts/extract-pubkey-from-cert.ts:37-42 | the text passed to the decoder has no whitespace and is no longer than the PEM |
| `ExtractPubkeyFromCert.PemToDer` | circuits/scripts/extract-pubkey-from-cert.ts:36-46 | the returned buffer is exactly the base64 decoding of the stripped text, 3k - p bytes for 4k characters ending in p `=` |
| `ExtractPubkeyFromCert.StripIsSubsequence` | circuits/scripts/extract-pubkey-from-cert.ts:39-42 | the stripped text is a subsequence of the PEM: nothing added, surviving characters in order |
| `ExtractPubkeyFromCert.StripWithoutBoundaries` | circuits/scripts/extract-pubkey-from-cert.ts:37-42 | without header and footer the text is not rejected: only its whitespace is removed |
| `ExtractPubkeyFromCert.StripClean` | circuits/scripts/extract-pubkey-from-cert.ts:37-42 | whitespace-free text holds neither boundary line (each contains a space), so stripping leaves it unchanged |
| `ExtractPubkeyFromCert.StripIdempotent` | circuits/scripts/extract-pubkey-from-cert.ts:37-42 | stripping twice gives the same text as stripping once |
| `ExtractPubkeyFromCert.StripFramed` | circuits/scripts/extract-pubkey-from-cert.ts:37-42 | for text, header, body, footer, text with no `-` before the footer, exactly the two boundary lines are cut and the whitespace of the rest deleted |
| `ExtractPubkeyFromCert.BodyWhitespaceIrrelevant` | circuits/scripts/extract-pubkey-from-cert.ts:42-44 | whitespace inserted in a body that, like the text before the header, holds no `-` (base64 text never does) does not change the stripped text, so re-wrapping the base64 lines is harmless; without that condition an inserted space can complete a footer inside the body |
| `ExtractPubkeyFromCert.PemRoundTrip` | circuits/scripts/extract-pubkey-from-cert.ts:36-46 | a PEM whose body is the base64 encoding of some bytes, broken by any whitespace and framed by whitespace only, converts back to exactly those bytes |
| `ExtractPubkeyFromCert.WrapLinesUnwraps` | circuits/scripts/extract-pubkey-from-cert.ts:42 | breaking whitespace-free text into CR LF terminated lines is undone by the whitespace deletion |
| `ExtractPubkeyFromCert.PemEncodeRoundTrip` | circuits/scripts/extract-pubkey-from-cert.ts:36-46 | a certificate written as header, base64 lines of any width and footer is read back as its DER bytes |

## Left out

- `getPublicKey` and `main` (circuits/scripts/extract-pubkey-from-cert.ts:9-34): reading the file, BER and X.509 parsing, and the WebCrypto key import are I/O and library calls, and `main()` runs on import.
- `getCircuit` and `circuits/manual-test/run.ts`: circuit compilation, witness calculation and constraint checking run in an external engine and read files.
- `generateKeyPair` and `createSelfSignedCertificate` (circuits/manual-test/utils.ts:104-199): key generation, hashing, signing, certificate building and PEM writing are library calls, and key generation is random.
- The PEM file export (circuits/manual-test/utils.ts:57-70) is file I/O.
- The limb and padding wiring of `generateTestData` (circuits/manual-test/utils.ts:72-88): `splitToWords` and `sha256Pad` come from code that is not part of this model.
- `JsString.IndexOf`: indices count characters (Unicode scalar values), not UTF-16 code units, so they differ from JavaScript's after a character above U+FFFF. The conversion never uses the index, only the text around it.
- `JsString.ReplaceFirst`: requires a replacement without `$`, because JavaScript's `$&`, `$$`, `` $` `` and `$'` expansions are not modelled. The conversion only passes the empty replacement.
- `JsString.LaterOccurrenceSurvives`: has the same `$`-free requirement on the replacement.
- `ExtractPubkeyFromCert.PemToDer`: requires the stripped text to be well-formed base64 (length a multiple of 4, standard alphabet, at most two closing `=`). Node's lenient decoding of other text (URL-safe characters, missing padding, skipped stray characters, early stop at `=`) is not modelled.
- `Base64.Decode`: has the same precondition, for the same reason. Non-zero padding bits are accepted and dropped, as Node drops them (`DecodeDropsPadBits`).
- `Latin1.StringToArrayBuffer`: strings are sequences of Unicode scalar values, not UTF-16 code units, so a character above U+FFFF counts as one cell, not two. The binary strings of this conversion only hold codes below 256.
- The ArrayBuffer is modelled as a byte sequence value. The buffer is never changed after it is returned.
