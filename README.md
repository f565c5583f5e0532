# oracle-lite: the signature codec and the record pipeline, in Dafny

oracle-lite is a price oracle. Its service (src/app3.js) polls prices,
builds a pricing record, signs it with ECDSA, stores it in MySQL and serves
the newest stored row to clients. A signature travels in two forms:

- the DER `Ecdsa-Sig-Value ::= SEQUENCE { r INTEGER, s INTEGER }` that Node's
  signer produces (RFC 3279 section 2.2.3, INTEGERs as in ITU-T X.690
  section 8.3);
- a fixed 64-byte r||s "compact" form, handled as 128 hex digits.

`signature_to_rs` converts DER to compact and `rs_to_signature` converts
compact to DER. They appear in src/signature-crypto.js and, verbatim, in
src/app3.js. Both copies are modelled by the one module `SignatureCodec`.

The project has five modules:

- `Wrappers`: `Option` and `Result`.
- `Js`: the JavaScript semantics the codec relies on.
  - `At`: a typed-array read past the end gives `undefined`.
  - `Substr`: `String.prototype.substr`, with its clamping (ECMAScript Annex B.2.2.1).
  - `ToInt32` and `ShiftRight1`: `>> 1` on 32-bit signed integers.
- `Hex`: Node's `toString('hex')` and `Buffer.from(s, 'hex')`, and `Number#toString(16)` with `padStart(2, '0')`.
  - The lemmas show that the codec's string slicing at even offsets is slicing of the bytes.
- `SignatureCodec`: both functions as written, on hex strings.
  - `SignatureToRs` is a function.
  - `RsToSignature` is a method that accumulates its output by appends, as the source does.
  - `DecodeDer` and `EncodeDer` state the same computations on bytes. All properties are proved on bytes and carried back to the strings.
  - The module also holds the defects the proofs exposed (Findings), and corrected definitions with their round trips.
  - `GetSignature` is `signature_to_rs` of the signer's output, as the source composes them. `GetSignaturePadded` is the same composition with the corrected decoder.
- `PricingService`, two steps of the service:
  - the assembly of a record: template, then sign, then the INSERT value list;
  - the transform of the newest database row into the response.

`signature_to_rs` returns the number -1 or -2 on bad input. The model
returns `Failure(BadStartByte)` or `Failure(BadLength)` for these, and
`ErrorCode` maps them back to -1 and -2.

## Model

| member | source | states |
|---|---|---|
| Js.At | src/signature-crypto.js:51-70 | A typed-array read gives the element inside the array and `undefined` (None) outside it. |
| Js.TopBitSetAt | src/signature-crypto.js:90-93 | `x & 0x80` is non-zero exactly when the byte is there and its top bit is set; an undefined byte counts as 0. |
| Js.SubstrLength | src/signature-crypto.js:65-70 | A substr is no longer than the string or the requested length. From a start inside the string, it is exactly as long as both allow. |
| Js.SubstrInside | src/signature-crypto.js:65-70 | A `substr` that stays inside the string is the plain slice. |
| Js.SubstrEmpty | src/signature-crypto.js:65-70 | A `substr` from a non-negative start with a length of zero or less is empty. |
| Js.SubstrClamped | src/signature-crypto.js:65-70 | A `substr` from a non-negative start that runs past the end stops at the end. |
| Js.ToInt32 | src/signature-crypto.js:56 | The result lies in [-2^31, 2^31) and is congruent to the input modulo 2^32. |
| Js.ShiftRight1 | src/signature-crypto.js:56 | `x >> 1` is the floor of half the ToInt32 of x. |
| Hex.HexDigit | src/signature-crypto.js:36 | Every nibble is written as a lower-case hex digit. |
| Hex.DigitValue | src/signature-crypto.js:48 | Exactly the digits 0-9, a-f and A-F have a value, and it is below 16. |
| Hex.DigitValueOfHexDigit | src/signature-crypto.js:48 | Reading a written digit gives its nibble back. |
| Hex.HexDigitOfDigitValue | src/signature-crypto.js:48 | Writing the value of a lower-case digit gives the digit back. |
| Hex.ByteHexDigits | src/signature-crypto.js:36 | `toString('hex')` writes two lower-case digits per byte, and `Buffer.from` reads them back as that byte. |
| Hex.ToHex | src/signature-crypto.js:87 | The hex of n bytes has 2n digits. |
| Hex.FromHex | src/signature-crypto.js:48 | Decoding a string of k characters gives at most k/2 bytes. |
| Hex.ToHexIsLowerHex | src/signature-crypto.js:36 | What `toString('hex')` writes is an even number of lower-case digits. |
| Hex.SliceToHex | src/signature-crypto.js:65-70 | The hex digits 2x to 2y are the hex of bytes x to y. |
| Hex.ToHexConcat | src/signature-crypto.js:95-101 | The hex of a concatenation is the concatenation of the hexes. |
| Hex.ToHexConcat4 | src/signature-crypto.js:95-101 | The hex of four pieces in a row is their hexes in a row. |
| Hex.ToHexOfHeader | src/signature-crypto.js:95-97 | The hex of four bytes is each byte's two digits in order. |
| Hex.ZeroPrefixHex | src/signature-crypto.js:91 | Writing `"00"` in front of a hex string puts a zero byte in front of the bytes. |
| Hex.FromHexToHex | src/signature-crypto.js:86-87 | `Buffer.from(b.toString('hex'), 'hex')` gives b back, for every b. |
| Hex.FromHexOfByteHex | src/signature-crypto.js:48 | Decoding reads the two digits of a byte back as that byte and goes on with the rest. |
| Hex.ToHexFromHex | src/signature-crypto.js:86-87 | Decoding and re-encoding gives back every even-length lower-case hex string. |
| Hex.SubstrToHex | src/signature-crypto.js:65-70 | `substr(2·start, 2·length)` on the hex is the hex of `substr(start, length)` on the bytes, clamping included. |
| Hex.NumberToHex | src/signature-crypto.js:95-100 | `toString(16)` writes lower-case digits with no leading zero: one digit below 16, two from 16 to 255. |
| Hex.PadStart2 | src/signature-crypto.js:95-100 | `padStart(2, '0')` gives at least two characters: the string itself, with `0`s in front to reach two. |
| Hex.PaddedNumberToHex | src/signature-crypto.js:95-100 | Below 256, `toString(16).padStart(2, '0')` gives the same two digits as `toString('hex')`. |
| SignatureCodec.ErrorCode | src/signature-crypto.js:51-60 | -1 exactly for a bad start byte and -2 exactly for a bad length. |
| SignatureCodec.HexIntegerContent | src/signature-crypto.js:62-70 | With an undefined length byte the slice is empty. Otherwise it has at most twice the declared length in digits, and never more than the string. |
| SignatureCodec.IntegerContent | src/signature-crypto.js:62-70 | The same on bytes: empty when the length byte is missing, otherwise no longer than the declared length. |
| SignatureCodec.PadHex | src/signature-crypto.js:73 | A 62-digit component becomes 64 digits, and any other length is unchanged. The component is the tail of the result. |
| SignatureCodec.SignatureToRs | src/signature-crypto.js:46-75 | The result is -1 exactly when the decoded buffer is empty or does not start with 0x30. On lower-case hex it is the hex of `DecodeDer` of the decoded bytes. |
| SignatureCodec.EncodeDer | src/signature-crypto.js:84-104 | The bytes of `rs_to_signature`'s output: 6 to 72 bytes, starting `30`, then the count of the bytes that follow, then `02`. |
| SignatureCodec.Frame | src/signature-crypto.js:88-101 | `30 L 02 len(r) r 02 len(s) s` has len(r) + len(s) + 6 bytes. |
| SignatureCodec.ExpectedLength | src/signature-crypto.js:56 | Below 2^30 bytes, the declared length that is accepted is the number of bytes after the two-byte header. |
| SignatureCodec.PadOne | src/signature-crypto.js:73 | A 31-byte component becomes 32 bytes, and every other length is kept. |
| SignatureCodec.StripOne | src/signature-crypto.js:64-65 | A leading zero byte is removed exactly when there is one, and only one. |
| SignatureCodec.DecodeDer | src/signature-crypto.js:46-75 | -1 exactly when byte 0 is missing or not 0x30. Otherwise, below 2^30 bytes, -2 exactly when byte 1 is missing or differs from length − 2. The start byte is checked before the length. |
| SignatureCodec.HexIntegerContentOnBytes | src/signature-crypto.js:62-70 | The hex `substr` that takes out r or s is the hex of the same byte slice. |
| SignatureCodec.PadHexOnBytes | src/signature-crypto.js:73 | Padding a 62-digit hex string is padding the 31-byte component. |
| SignatureCodec.SignatureToRsOnBytes | src/signature-crypto.js:46-75 | On every hex string a signer can produce, `signature_to_rs` is the hex of `DecodeDer`, errors included. |
| SignatureCodec.SliceSignatureOnBytes | src/signature-crypto.js:51-73 | Once the bytes are decoded from the hex, the checks and slices of the hex agree with those of the bytes. |
| SignatureCodec.SlicedComponents | src/signature-crypto.js:62-73 | Past both checks, the output is the hex of the padded byte components. |
| SignatureCodec.SliceRejects | src/signature-crypto.js:51-60 | Both checks reject the same inputs on the hex and on the bytes. |
| SignatureCodec.IntegerContentAt | src/signature-crypto.js:63-65 | Reading an INTEGER whose length byte and content are c gives c less one leading zero. |
| SignatureCodec.FramedFields | src/signature-crypto.js:62-70 | On `30 L 02 len(r) r 02 len(s) s`, both checks pass. r is read from offset 4 with length sig[3]. s starts right after r, at offset 4 + len(r). Each loses at most one leading zero. |
| SignatureCodec.DecodeFramed | src/signature-crypto.js:62-73 | The compact output of a framed signature is PadOne(StripOne(r)) + PadOne(StripOne(s)). |
| SignatureCodec.DecodedLength | src/signature-crypto.js:73 | For components of at most 32 bytes once stripped, the output is 64 bytes exactly when each stripped component is 31 or 32 bytes. |
| SignatureCodec.RebuiltHalf | src/signature-crypto.js:89-94 | A rebuilt component has at most 33 bytes whatever the input. |
| SignatureCodec.HalfBody | src/signature-crypto.js:89 | The slice taken from a half has at most 32 bytes. |
| SignatureCodec.RebuildHalf | src/signature-crypto.js:89-94 | The string `r_rebuilt` (or `s_rebuilt`) is the hex of the rebuilt component, the `"00"` prefix included. |
| SignatureCodec.HalfBodyHex | src/signature-crypto.js:89-92 | The source's `substr` of `sig_buffer` is the hex of the half's bytes, less a leading zero. |
| SignatureCodec.RsToSignature | src/signature-crypto.js:84-104 | The accumulated string is the hex of `30 L 02 len(r) r 02 len(s) s`, built from the rebuilt halves of the decoded input. |
| SignatureCodec.LengthFields | src/signature-crypto.js:95-100 | The three length fields, computed from hex lengths divided by 2, are the byte counts L, len(r) and len(s) as two hex digits. |
| SignatureCodec.AppendedFrame | src/signature-crypto.js:95-101 | The appended tags, lengths and components are the hex of the frame. |
| SignatureCodec.ToHexFrame | src/signature-crypto.js:95-101 | The hex of the frame is the tags, lengths and components, each in hex. |
| SignatureCodec.FrameLayout | src/signature-crypto.js:95-101 | The frame is the four-byte header `30 L 02 len(r)`, r, the INTEGER header of s, and s. |
| SignatureCodec.HeaderDigits | src/signature-crypto.js:95-97 | Around the hex of r and s, the SEQUENCE header and both INTEGER headers are their bytes' two-digit hex. |
| SignatureCodec.ParseFrame | src/signature-crypto.js:88-101 | An independent reader accepts the frame only when every tag matches and every length agrees with the byte count it describes. It then gives back the frame's own r and s. |
| SignatureCodec.ParseFrameOfFrame | src/signature-crypto.js:88-101 | The reader takes every frame apart into its r and s. |
| SignatureCodec.RebuiltHalfOf64 | src/signature-crypto.js:89-94 | A rebuilt half of a 64-byte input depends on that half alone. |
| SignatureCodec.RebuiltHalfBounds | src/signature-crypto.js:89-94 | The first byte is dropped iff it is 0, and `00` is prepended iff its top bit is set. Each component is 31 to 33 bytes, with its exact content in each case. |
| SignatureCodec.EncodeDerHeader | src/app3.js:103-116 | For every input, the output is at most 72 bytes. It parses back as a frame whose outer length is the inner byte count and whose INTEGER lengths are the component lengths. |
| SignatureCodec.EncodeDerAccepted | src/signature-crypto.js:51-101 | `signature_to_rs` never answers -1 or -2 on the output of `rs_to_signature`. |
| SignatureCodec.HalfRoundTrip | src/signature-crypto.js:62-94 | One half through both functions comes back intact unless it starts with `00 00`. In that case it comes back two bytes short. |
| SignatureCodec.SurvivingHalf | src/signature-crypto.js:73 | What comes back of a half is 32 or 30 bytes. |
| SignatureCodec.DecodedHalves | src/signature-crypto.js:46-104 | Compact to DER to compact gives the two surviving halves, joined. |
| SignatureCodec.JoinedHalves | src/signature-crypto.js:73 | The surviving halves rebuild the input exactly when neither half starts with `00 00`. |
| SignatureCodec.RoundTrip | src/signature-crypto.js:46-104 | On 64 bytes, compact to DER to compact is the identity if and only if neither half begins with two zero bytes. |
| SignatureCodec.HexRoundTrip | src/app3.js:61-119 | On 128 lower-case hex digits whose halves do not start with `0000`, `signature_to_rs(rs_to_signature(x)) == x`. |
| SignatureCodec.ShortComponentExample | src/signature-crypto.js:73 | A non-negative, minimal DER signature with a 30-byte r decodes to 62 bytes. |
| SignatureCodec.NegativeIntegerWritten | src/signature-crypto.js:89-91 | The r half starting `00` followed by a byte with the top bit set is written as a negative r INTEGER, equal to the half less its first byte. |
| SignatureCodec.NegativeSIntegerWritten | src/signature-crypto.js:89-91 | The same for the s half: a half starting `00` followed by a byte with the top bit set is written as a negative s INTEGER. |
| SignatureCodec.SignerOutputWrittenNegative | src/signature-crypto.js:89-91 | Take a signature whose r is `00` followed by 31 bytes, the first with its top bit set (r in [2^247, 2^248)), and whose s is any scalar INTEGER of 31 or 32 value bytes. It is canonical and full width, and it decodes to a 64-byte compact form starting `00 8x`. `rs_to_signature` writes that form back with a negative r and not as the signature. |
| SignatureCodec.SignerOutputExample | src/signature-crypto.js:84-104 | The signature `30 44 02 20 00 80..80 02 20 01..01` is canonical and full width, and `rs_to_signature` of its decoding is not that signature. |
| SignatureCodec.SignerDecodes | src/signature-crypto.js:46-75 | `signature_to_rs` decodes such a signature to `00`, r's 31 value bytes, then s as a 32-byte half. |
| SignatureCodec.WrittenBackNegative | src/signature-crypto.js:84-104 | A compact form whose r half starts `00 8x` is written with a negative r INTEGER, so not as any frame whose r is non-negative. |
| SignatureCodec.StripZeros | src/signature-crypto.js:89-94 | Removes all leading zero bytes but keeps at least one byte, so the input is those zeros followed by the result. |
| SignatureCodec.MinimalInteger | src/signature-crypto.js:89-94 | The INTEGER written for a half is non-negative and minimal, and it carries no more value bytes than the half. |
| SignatureCodec.EncodeDerMinimal | src/signature-crypto.js:84-104 | Corrected `rs_to_signature`: every 64-byte input is written as a frame of two non-negative, minimal INTEGERs. |
| SignatureCodec.LeftPad32 | src/signature-crypto.js:73 | A component of at most 32 bytes becomes 32 bytes ending in the component. |
| SignatureCodec.DecodeDerPadded | src/signature-crypto.js:46-75 | Corrected `signature_to_rs`: it fails on exactly the inputs the original fails on, with the same error code. |
| SignatureCodec.DecodeFramedPadded | src/signature-crypto.js:62-73 | On a frame, the corrected decoder gives each stripped component left-padded to 32 bytes. |
| SignatureCodec.StripZerosPadded | src/signature-crypto.js:89-94 | Stripping the zeros in front of a value that does not start with zero gives the value. |
| SignatureCodec.StripZerosOfZeros | src/signature-crypto.js:89-94 | Stripping an all-zero half leaves a single zero. |
| SignatureCodec.PaddedOfMinimal | src/signature-crypto.js:73 | A 32-byte half survives the corrected encoder and the corrected decoder. |
| SignatureCodec.LeftPadZeros | src/signature-crypto.js:73 | Left-padding puts exactly 32 − len(x) zeros in front. |
| SignatureCodec.MinimalOfPadded | src/signature-crypto.js:89-94 | A scalar INTEGER survives the corrected decoder and the corrected encoder. |
| SignatureCodec.PaddedRoundTrip | src/signature-crypto.js:46-104 | Corrected codec: compact to DER to compact is the identity on every 64-byte input. |
| SignatureCodec.CanonicalRoundTrip | src/signature-crypto.js:46-104 | Corrected codec: a canonical signature decodes to 64 bytes, and DER to compact to DER is the identity on it. |
| SignatureCodec.GetSignature | src/signature-crypto.js:12-15 | `signature_to_rs` of the signer's hex: an error exactly when the DER decoder fails, with its code. On a canonical signature the result is lower-case hex. It is 128 digits, which the corrected encoder `EncodeDerMinimal` encodes back to the signature, when r and s, less their sign byte, are each 31 or 32 bytes, and fewer than 128 otherwise. `rs_to_signature` itself need not give the signature back (`SignerOutputWrittenNegative`). |
| SignatureCodec.CompactHexAsWritten | src/signature-crypto.js:46-75 | On a canonical signature, the as-written decoder gives lower-case hex: 128 digits, which the corrected encoder `EncodeDerMinimal` encodes back to it, when it is full width, and fewer than 128 when it is not. |
| SignatureCodec.PadOneFullWidth | src/signature-crypto.js:73 | On a 31- or 32-byte component, padding one `00` is padding to 32 bytes. |
| SignatureCodec.GetSignaturePadded | src/signature-crypto.js:12-15 | With the corrected decoder, every canonical signature gives 128 lower-case hex digits, which the corrected encoder `EncodeDerMinimal` encodes back to it. Errors are those of the original, with the same codes. |
| SignatureCodec.CompactHexPadded | src/signature-crypto.js:46-75 | The corrected decoder's hex of a canonical signature is 128 lower-case digits, which the corrected encoder `EncodeDerMinimal` encodes back to the signature. |
| PricingService.Get | src/app3.js:208-209 | A missing property reads as `undefined`, and a present one as its value. |
| PricingService.RespondWithLatest | src/app3.js:206-213 | No row means no response. Otherwise the response: has the single key `pr`; drops `Signature`, `Timestamp` and `UT`; adds only `signature` (the old `Signature`) and `timestamp` (the old `UT`); keeps every other key with its value. |
| PricingService.Template | src/app3.js:147-163 | Before signing, MA1, MA2 and MA3 are 0 and `signature` is the 32-NUL placeholder. Each of the thirteen price columns xAG…xUSD is filled from the price at its place in the list. |
| PricingService.InsertColumnsListed | src/app3.js:167 | The INSERT statement lists every column of the record exactly once. |
| PricingService.Fields | src/app3.js:147-163 | A record has one property for each INSERT column. |
| PricingService.ColumnsOfFields | src/app3.js:167-170 | The i-th listed column takes the i-th property of the record: xAG…xUSD by name, MA1–MA3 into unused1–unused3, then `signature` into Signature. |
| PricingService.SignatureValue | src/app3.js:164 | The stored signature is the compact hex on success, and otherwise the negative error code. |
| PricingService.AssembleRecord | src/app3.js:147-170 | Signing replaces only the `signature` field of the template with `signature_to_rs`'s result. For a canonical signature that is 128 lower-case hex digits when r and s are full width, and fewer than 128 otherwise. The INSERT values match the column list one for one: xAG…xUSD, MA1–MA3 into unused1–unused3, then Signature. |

## Left out

- Signing, verification and SHA-256 (`sign` and `verify` in src/signature-crypto.js and src/app3.js) are not modelled. `sign` is an uninterpreted function parameter, and `verify` is not modelled at all.
- Reading the private key from disk, the logging (`console.log`/`console.error`), the HTTPS server and its response writing, `initDb`, `db.close`, and the 30-second poll timer are I/O and are not modelled.
- The CoinGecko `fetch`, its JSON parsing, and the floating-point scaling `pr.x * ATOMIC_UNITS` with `toFixed(0)` are not modelled. The thirteen prices are opaque strings.
- `JSON.stringify` of the record is not modelled; it is an uninterpreted function parameter. The response's serialized key order is not modelled either, because rows are unordered maps.
- The moving-average `UPDATE` is not modelled. The averages are computed by MySQL `AVG` inside SQL text.
- The INSERT itself is not modelled; only the value list passed to it is.
- src/chainlink.js and src/app.js are not part of this model. They are an RPC client and an earlier version of the service.
- The service has no quote aggregation, deviation or staleness checks, or response versioning, so the model has none either.
- SignatureCodec.DecodeDer: the BadLength condition is stated only for inputs under 2^30 bytes. Beyond that, ToInt32 wraps the hex length before `>> 1`; this is modelled in the body but not restated in the contract.
- Lengths: JavaScript's `length` counts UTF-16 code units, while a Dafny string's length counts characters. They differ only on a string with characters outside the Basic Multilingual Plane, which is never a hex string the signer writes.
- Hex.ByteHex, SignatureCodec.DerInteger, SignatureCodec.SliceSignature, Js.Substr, Js.TopBitSet and PricingService.Column are definitions without contracts of their own. Their properties are stated by the lemmas about them: Hex.ByteHexDigits, SignatureCodec.ParseFrameOfFrame, SignatureCodec.SliceSignatureOnBytes, Js.SubstrLength and the other Js.Substr lemmas, Js.TopBitSetAt and PricingService.ColumnsOfFields.
- PricingService.RespondWithLatest: with no row, the source throws inside the promise callback and writes no response. The model answers `None`.

## Findings

| source | as written | input that shows it | evidently intended | confidence | as-written member | corrected member |
|---|---|---|---|---|---|---|
| src/signature-crypto.js:73 | Pads a stripped component only when it is exactly 31 bytes. The same line is at src/app3.js:88. | A valid signature whose r is 30 bytes (r < 2^240): r = 30 bytes of 01, s = 32 bytes of 01 decode to 62 bytes. | Left-pad each component to 32 bytes, so that the output is always 128 digits. | not executed | SignatureCodec.ShortComponentExample | SignatureCodec.DecodeDerPadded |
| src/signature-crypto.js:89-91 | Tests the top bit of the half's first byte but, when that byte is 0, drops it, so the byte after it leads unchecked. The same lines are at src/app3.js:104-106 and 107-109 for s. A 64-byte compact with c[0] = 0x00 and c[1] = 0x80 writes r = 80 ..., a negative INTEGER. The signer produces such a compact: the canonical signature `30 44 02 20 00 80..80 02 20 01..01`, whose r lies in [2^247, 2^248), decodes to `00 80..80 01..01` (about 1 in 512 signatures per component). | Write each half as a minimal non-negative INTEGER (X.690 section 8.3.2). | not executed | SignatureCodec.NegativeIntegerWritten, SignatureCodec.NegativeSIntegerWritten, SignatureCodec.SignerOutputWrittenNegative, SignatureCodec.SignerOutputExample | SignatureCodec.EncodeDerMinimal |
| src/signature-crypto.js:89-92 | Drops at most one leading zero byte of a half, so a half starting `00 00` is written as a non-minimal INTEGER and comes back two bytes short. | A 64-byte compact starting 00 00 01: the round trip gives 62 bytes. | Strip every leading zero, and restore the 32 bytes when decoding. | not executed | SignatureCodec.RoundTrip | SignatureCodec.EncodeDerMinimal |
