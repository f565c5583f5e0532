/**
 * The ECDSA signature codec of src/signature-crypto.js (copied verbatim into
 * src/app3.js): `signature_to_rs` turns a DER `Ecdsa-Sig-Value ::= SEQUENCE
 * { r INTEGER, s INTEGER }` (RFC 3279 section 2.2.3) into the 64-byte r||s
 * compact form, and `rs_to_signature` turns it back.
 *
 * Both functions work on hex strings. `SignatureToRs` and `RsToSignature`
 * model them on strings, as written; `DecodeDer` and `EncodeDer` state the
 * same computation on bytes, and the properties are proved on bytes.
 */
module SignatureCodec {
  import opened Wrappers
  import opened Js
  import opened Hex

  /** The two failures of `signature_to_rs`, which it returns as -1 and -2. */
  datatype DecodeError = BadStartByte | BadLength

  function ErrorCode(e: DecodeError): (code: int)
    ensures code == -1 <==> e == BadStartByte
    ensures code == -2 <==> e == BadLength
  {
    match e
    case BadStartByte => -1
    case BadLength => -2
  }

  const SequenceTag: Byte := 0x30
  const IntegerTag: Byte := 0x02

  // ---------------------------------------------------------------------------
  // DER framing (X.690 section 8.1: tag, one length byte, contents)
  // ---------------------------------------------------------------------------

  /** `02 len content`: an INTEGER with a one-byte length. */
  function DerInteger(content: seq<Byte>): seq<Byte>
    requires |content| < 256
  {
    [IntegerTag, |content|] + content
  }

  /** `30 L 02 |r| r 02 |s| s`, the shape both directions of the codec use. */
  function Frame(r: seq<Byte>, s: seq<Byte>): (d: seq<Byte>)
    requires |r| + |s| + 4 < 256
    ensures |d| == |r| + |s| + 6
  {
    [SequenceTag, |r| + |s| + 4] + DerInteger(r) + DerInteger(s)
  }

  /** A DER INTEGER content (X.690 section 8.3) that is non-negative: top bit of the first byte clear. */
  predicate IsNonNegative(content: seq<Byte>)
  {
    |content| > 0 && content[0] < 0x80
  }

  /** Minimal as X.690 section 8.3.2 demands: no leading `00` that the next byte does not need. */
  predicate IsMinimal(content: seq<Byte>)
  {
    |content| > 0 && !(|content| > 1 && content[0] == 0 && content[1] < 0x80)
  }

  // ---------------------------------------------------------------------------
  // signature_to_rs (src/signature-crypto.js:46-75)
  // ---------------------------------------------------------------------------

  /** The hex digits `signature_hex.substr(...)` takes for the INTEGER whose tag is at byte `start`. */
  function HexIntegerContent(hex: string, bin: seq<Byte>, start: nat): (h: string)
    ensures At(bin, start + 1).None? ==> h == ""
    ensures |h| <= |hex| && (At(bin, start + 1).Some? ==> |h| <= 2 * bin[start + 1] as int)
  {
    match At(bin, start + 1)
    case None => ""  // the length is undefined, and substr(_, NaN) is ""
    case Some(len) =>
      var pad := if At(bin, start + 2) == Some(0) then 1 else 0;
      Substr(hex, (start + 2 + pad) * 2, (len as int - pad) * 2)
  }

  /** `(x.length == 62 ? "00" : "") + x`. */
  function PadHex(x: string): (p: string)
    ensures |p| == if |x| == 62 then 64 else |x|
    ensures p[|p| - |x|..] == x
  {
    (if |x| == 62 then "00" else "") + x
  }

  /** signature_to_rs, on the hex string it is given. */
  function SignatureToRs(signatureHex: string): (res: Result<string, DecodeError>)
    ensures res == Failure(BadStartByte) <==>
      |FromHex(signatureHex)| == 0 || FromHex(signatureHex)[0] != SequenceTag
    ensures IsLowerHex(signatureHex) ==> res == MapHex(DecodeDer(FromHex(signatureHex)))
  {
    var bin := FromHex(signatureHex);
    if IsLowerHex(signatureHex) then
      ToHexFromHex(signatureHex);
      SliceSignatureOnBytes(signatureHex, bin);
      SliceSignature(signatureHex, bin)
    else
      SliceSignature(signatureHex, bin)
  }

  /** The body of signature_to_rs once `signature_bin` is decoded from `signature_hex`. */
  function SliceSignature(signatureHex: string, bin: seq<Byte>): Result<string, DecodeError>
  {
    if At(bin, 0) != Some(SequenceTag) then Failure(BadStartByte)
    else if !(|bin| > 1 && bin[1] == ShiftRight1(|signatureHex| - 4)) then Failure(BadLength)
    else if |bin| < 4 then Success("")  // r_length undefined: r and s are both ""
    else
      var r := HexIntegerContent(signatureHex, bin, 2);
      var s := HexIntegerContent(signatureHex, bin, 2 + bin[3] as int + 2);
      Success(PadHex(r) + PadHex(s))
  }

  /** The declared length signature_to_rs accepts: `(hex.length - 4) >> 1` with hex.length = 2|sig|. */
  function ExpectedLength(sig: seq<Byte>): (n: int)
    ensures |sig| <= 0x4000_0000 ==> n == |sig| - 2
  {
    ShiftRight1(2 * |sig| - 4)
  }

  /** The content bytes of the INTEGER whose tag is at `start`, less one leading zero byte. */
  function IntegerContent(sig: seq<Byte>, start: nat): (c: seq<Byte>)
    ensures At(sig, start + 1).None? ==> c == []
    ensures |c| <= |sig| && (At(sig, start + 1).Some? ==> |c| <= sig[start + 1] as int)
  {
    match At(sig, start + 1)
    case None => []
    case Some(len) =>
      var pad := if At(sig, start + 2) == Some(0) then 1 else 0;
      Substr(sig, start + 2 + pad, len as int - pad)
  }

  /** One `00` in front of a 31-byte component, nothing in front of any other. */
  function PadOne(x: seq<Byte>): (p: seq<Byte>)
    ensures |p| == if |x| == 31 then 32 else |x|
  {
    (if |x| == 31 then [0] else []) + x
  }

  /** A leading zero byte removed, if there is one. */
  function StripOne(x: seq<Byte>): (y: seq<Byte>)
    ensures y == x || (|x| > 0 && x[0] == 0 && y == x[1..])
    ensures |x| > 0 && x[0] == 0 ==> y == x[1..]
  {
    if |x| > 0 && x[0] == 0 then x[1..] else x
  }

  /**
   * signature_to_rs on the bytes of the signature. The start byte is checked
   * first (-1), then the declared length (-2); for inputs under 2^30 bytes the
   * length must be the number of bytes after the header.
   */
  function DecodeDer(sig: seq<Byte>): (res: Result<seq<Byte>, DecodeError>)
    ensures res == Failure(BadStartByte) <==> |sig| == 0 || sig[0] != SequenceTag
    ensures |sig| <= 0x4000_0000 ==>
      (res == Failure(BadLength) <==> |sig| > 0 && sig[0] == SequenceTag && (|sig| < 2 || sig[1] != |sig| - 2))
  {
    if At(sig, 0) != Some(SequenceTag) then Failure(BadStartByte)
    else if !(|sig| > 1 && sig[1] == ExpectedLength(sig)) then Failure(BadLength)
    else if |sig| < 4 then Success([])
    else Success(PadOne(IntegerContent(sig, 2)) + PadOne(IntegerContent(sig, 2 + sig[3] as int + 2)))
  }

  function MapHex(res: Result<seq<Byte>, DecodeError>): Result<string, DecodeError>
  {
    match res
    case Success(c) => Success(ToHex(c))
    case Failure(e) => Failure(e)
  }

  lemma {:induction false} HexIntegerContentOnBytes(b: seq<Byte>, start: nat)
    ensures HexIntegerContent(ToHex(b), b, start) == ToHex(IntegerContent(b, start))
  {
    if At(b, start + 1).Some? {
      var pad := if At(b, start + 2) == Some(0) then 1 else 0;
      var first: nat, length: int := start + 2 + pad, b[start + 1] as int - pad;
      calc {
        HexIntegerContent(ToHex(b), b, start);
        { ContentSlices(ToHex(b), b, start); }
        Substr(ToHex(b), 2 * first, 2 * length);
        { SubstrToHex(b, first, length); }
        ToHex(Substr(b, first, length));
        { ContentSlices(ToHex(b), b, start); }
        ToHex(IntegerContent(b, start));
      }
    }
  }

  /** Where the INTEGER whose tag is at `start` is sliced, in the bytes and in the hex. */
  lemma {:induction false} ContentSlices(hex: string, b: seq<Byte>, start: nat)
    requires At(b, start + 1).Some?
    ensures var pad := if At(b, start + 2) == Some(0) then 1 else 0;
      var first, length := start + 2 + pad, b[start + 1] as int - pad;
      && HexIntegerContent(hex, b, start) == Substr(hex, 2 * first, 2 * length)
      && IntegerContent(b, start) == Substr(b, first, length)
  {
  }

  lemma {:induction false} PadHexOnBytes(x: seq<Byte>)
    ensures PadHex(ToHex(x)) == ToHex(PadOne(x))
  {
    assert ToHex([0]) == "00";
    ToHexConcat(if |x| == 31 then [0] else [], x);
  }

  /**
   * On the hex string Node's signer produces for the bytes `b`, signature_to_rs
   * computes the hex of DecodeDer(b): string slicing at even offsets is byte slicing.
   */
  lemma {:induction false} SignatureToRsOnBytes(b: seq<Byte>)
    ensures SignatureToRs(ToHex(b)) == MapHex(DecodeDer(b))
  {
    FromHexToHex(b);
    SliceSignatureOnBytes(ToHex(b), b);
  }

  lemma {:induction false} SliceSignatureOnBytes(hex: string, b: seq<Byte>)
    requires hex == ToHex(b)
    ensures SliceSignature(hex, b) == MapHex(DecodeDer(b))
  {
    if |b| >= 4 && b[0] == SequenceTag && b[1] == ExpectedLength(b) {
      HexIntegerContentOnBytes(b, 2);
      HexIntegerContentOnBytes(b, 2 + b[3] as int + 2);
      SlicedComponents(hex, b);
    } else {
      SliceRejects(hex, b);
    }
  }

  /** Past the checks, the hex slices are the hex of the byte slices. */
  lemma {:induction false} SlicedComponents(hex: string, b: seq<Byte>)
    requires |hex| == 2 * |b|
    requires |b| >= 4 && b[0] == SequenceTag && b[1] == ExpectedLength(b)
    requires HexIntegerContent(hex, b, 2) == ToHex(IntegerContent(b, 2))
    requires HexIntegerContent(hex, b, 2 + b[3] as int + 2) == ToHex(IntegerContent(b, 2 + b[3] as int + 2))
    ensures SliceSignature(hex, b) == MapHex(DecodeDer(b))
  {
    var sStart := 2 + b[3] as int + 2;
    var r, s := IntegerContent(b, 2), IntegerContent(b, sStart);
    assert SliceSignature(hex, b) == Success(PadHex(ToHex(r)) + PadHex(ToHex(s)));
    assert DecodeDer(b) == Success(PadOne(r) + PadOne(s));
    PadHexOnBytes(r);
    PadHexOnBytes(s);
    ToHexConcat(PadOne(r), PadOne(s));
  }

  /** The checks see the same lengths on the hex string and on the bytes. */
  lemma {:induction false} SliceRejects(hex: string, b: seq<Byte>)
    requires |hex| == 2 * |b|
    requires !(|b| >= 4 && b[0] == SequenceTag && b[1] == ExpectedLength(b))
    ensures SliceSignature(hex, b) == MapHex(DecodeDer(b))
  {
    assert ShiftRight1(|hex| - 4) == ExpectedLength(b);
    assert ToHex([]) == "";
  }

  /** Reading an INTEGER whose length byte and content are `c`: one leading zero is dropped. */
  lemma {:induction false} IntegerContentAt(sig: seq<Byte>, start: nat, c: seq<Byte>)
    requires start + 2 + |c| <= |sig|
    requires sig[start + 1] == |c| && sig[start + 2..start + 2 + |c|] == c
    ensures IntegerContent(sig, start) == StripOne(c)
  {
    assert At(sig, start + 1) == Some(|c|);
    if |c| == 0 {
      var pad := if At(sig, start + 2) == Some(0) then 1 else 0;
      SubstrEmpty(sig, start + 2 + pad, -pad);
    } else {
      var k := if c[0] == 0 then 1 else 0;
      assert At(sig, start + 2) == Some(c[0]);
      SubstrInside(sig, start + 2 + k, |c| - k);
      SliceOfSlice(sig, start + 2, |c|, k);
    }
  }

  /** Dropping the first k bytes of a slice of `sig` is a later slice of `sig`. */
  lemma {:induction false} SliceOfSlice(sig: seq<Byte>, from: nat, length: nat, k: nat)
    requires from + length <= |sig| && k <= length
    ensures sig[from..from + length][k..] == sig[from + k..from + length]
  {
  }

  /**
   * signature_to_rs on `30 L 02 |r| r 02 |s| s`: it reads r from offset 4 with
   * length sig[3] and s right after it, from offset 6 + |r| with length
   * sig[5 + |r|]; it strips at most one leading zero of each and puts one `00`
   * in front of a component that is then 31 bytes long.
   */
  lemma {:induction false} DecodeFramed(r: seq<Byte>, s: seq<Byte>)
    requires |r| + |s| + 4 < 256
    ensures DecodeDer(Frame(r, s)) == Success(PadOne(StripOne(r)) + PadOne(StripOne(s)))
  {
    FramedFields(r, s);
  }

  /** What the decoder reads from each field of `30 L 02 |r| r 02 |s| s`. */
  lemma {:induction false} FramedFields(r: seq<Byte>, s: seq<Byte>)
    requires |r| + |s| + 4 < 256
    ensures var sig := Frame(r, s);
      && |sig| >= 4 && At(sig, 0) == Some(SequenceTag) && sig[1] == ExpectedLength(sig)
      && 2 + sig[3] as int + 2 == 4 + |r|
      && IntegerContent(sig, 2) == StripOne(r) && IntegerContent(sig, 4 + |r|) == StripOne(s)
  {
    var sig := Frame(r, s);
    assert sig[0] == SequenceTag && sig[1] == |sig| - 2 && sig[3] == |r|;
    assert sig[4..4 + |r|] == r;
    assert sig[5 + |r|] == |s|;
    assert sig[6 + |r|..6 + |r| + |s|] == s;
    IntegerContentAt(sig, 2, r);
    IntegerContentAt(sig, 4 + |r|, s);
  }

  /**
   * For components of at most 32 bytes once stripped (the only ones a 256-bit
   * curve yields), the compact output is 64 bytes exactly when each stripped
   * component is 31 or 32 bytes: a shorter one is not padded up to 32.
   */
  lemma {:induction false} DecodedLength(r: seq<Byte>, s: seq<Byte>)
    requires |r| + |s| + 4 < 256
    requires |StripOne(r)| <= 32 && |StripOne(s)| <= 32
    ensures DecodeDer(Frame(r, s)).Success?
    ensures |DecodeDer(Frame(r, s)).value| == 64 <==> 31 <= |StripOne(r)| && 31 <= |StripOne(s)|
  {
    DecodeFramed(r, s);
  }

  // ---------------------------------------------------------------------------
  // rs_to_signature (src/signature-crypto.js:84-104)
  // ---------------------------------------------------------------------------

  /**
   * r_rebuilt (offset 0) or s_rebuilt (offset 32): the 32-byte half, less its
   * first byte when that is zero, with `00` in front when the first byte of
   * the half has its top bit set.
   */
  function RebuiltHalf(compact: seq<Byte>, offset: nat): (r: seq<Byte>)
    ensures |r| <= 33
  {
    (if TopBitSet(compact, offset) then [0] else []) + HalfBody(compact, offset)
  }

  /** The 32-byte half at `offset`, less its first byte when that is zero. */
  function HalfBody(compact: seq<Byte>, offset: nat): (b: seq<Byte>)
    ensures |b| <= 32
  {
    if At(compact, offset) == Some(0) then Substr(compact, offset + 1, 31) else Substr(compact, offset, 32)
  }

  /** rs_to_signature on bytes: `30 L 02 |r| r 02 |s| s` with the rebuilt halves. */
  function EncodeDer(compact: seq<Byte>): (d: seq<Byte>)
    ensures 6 <= |d| <= 72 && d[0] == SequenceTag && d[1] as int == |d| - 2 && d[2] == IntegerTag
  {
    Frame(RebuiltHalf(compact, 0), RebuiltHalf(compact, 32))
  }

  lemma {:induction false} ToHexFrame(r: seq<Byte>, s: seq<Byte>)
    requires |r| + |s| + 4 < 256
    ensures ToHex(Frame(r, s))
      == ByteHex(SequenceTag) + ByteHex(|r| + |s| + 4) + ByteHex(IntegerTag) + ByteHex(|r|) + ToHex(r)
         + ByteHex(IntegerTag) + ByteHex(|s|) + ToHex(s)
  {
    var len: Byte, rLen: Byte, sLen: Byte := |r| + |s| + 4, |r|, |s|;
    FrameLayout(r, s);
    ToHexConcat4([SequenceTag, len, IntegerTag, rLen], r, [IntegerTag, sLen], s);
    HeaderDigits(len, rLen, sLen, ToHex(r), ToHex(s));
  }

  /** The frame as a four-byte header, r, the two-byte INTEGER header of s, and s. */
  lemma {:induction false} FrameLayout(r: seq<Byte>, s: seq<Byte>)
    requires |r| + |s| + 4 < 256
    ensures Frame(r, s) == [SequenceTag, |r| + |s| + 4, IntegerTag, |r|] + r + [IntegerTag, |s|] + s
  {
  }

  /** Around the hex of r and s, the two INTEGER headers and the SEQUENCE header are their bytes' digits. */
  lemma {:induction false} HeaderDigits(len: Byte, rLen: Byte, sLen: Byte, hr: string, hs: string)
    ensures ToHex([SequenceTag, len, IntegerTag, rLen]) + hr + ToHex([IntegerTag, sLen]) + hs
      == ByteHex(SequenceTag) + ByteHex(len) + ByteHex(IntegerTag) + ByteHex(rLen) + hr
         + ByteHex(IntegerTag) + ByteHex(sLen) + hs
  {
    ToHexOfHeader(SequenceTag, len, IntegerTag, rLen);
    ToHexOfPair(IntegerTag, sLen);
    var x := ToHex([SequenceTag, len, IntegerTag, rLen]) + hr;
    assert x + (ByteHex(IntegerTag) + ByteHex(sLen)) == x + ByteHex(IntegerTag) + ByteHex(sLen);
  }

  /** One rebuilt half, as the source builds it on the hex of the compact signature. */
  method RebuildHalf(compact: seq<Byte>, sigBuffer: string, offset: nat) returns (rebuilt: string)
    requires sigBuffer == ToHex(compact)
    ensures rebuilt == ToHex(RebuiltHalf(compact, offset))
  {
    rebuilt := if At(compact, offset) == Some(0) then Substr(sigBuffer, 2 * offset + 2, 62)
               else Substr(sigBuffer, 2 * offset, 64);
    HalfBodyHex(compact, offset);
    ghost var body := HalfBody(compact, offset);
    if TopBitSet(compact, offset) {
      rebuilt := "00" + rebuilt;
      ZeroPrefixHex(body);
      assert RebuiltHalf(compact, offset) == [0] + body;
    } else {
      assert RebuiltHalf(compact, offset) == [] + body == body;
    }
  }

  /** The source's slice of the hex string is the hex of the half's body. */
  lemma {:induction false} HalfBodyHex(compact: seq<Byte>, offset: nat)
    ensures (if At(compact, offset) == Some(0) then Substr(ToHex(compact), 2 * offset + 2, 62)
             else Substr(ToHex(compact), 2 * offset, 64))
            == ToHex(HalfBody(compact, offset))
  {
    SubstrToHex(compact, offset + 1, 31);
    SubstrToHex(compact, offset, 32);
  }

  /**
   * rs_to_signature: the hex of `30 L 02 |r| r 02 |s| s`, accumulated by
   * appends as the source does, where L (the byte count after the header) is
   * computed from the hex lengths of the rebuilt halves.
   */
  method RsToSignature(rsSignature: string) returns (sigRebuilt: string)
    ensures sigRebuilt == ToHex(EncodeDer(FromHex(rsSignature)))
  {
    var compact := FromHex(rsSignature);
    var sigBuffer := ToHex(compact);
    sigRebuilt := "30";
    var rRebuilt := RebuildHalf(compact, sigBuffer, 0);
    var sRebuilt := RebuildHalf(compact, sigBuffer, 32);
    sigRebuilt := sigRebuilt + PadStart2(NumberToHex((|rRebuilt| + |sRebuilt| + 8) / 2));
    sigRebuilt := sigRebuilt + "02";
    sigRebuilt := sigRebuilt + PadStart2(NumberToHex(|rRebuilt| / 2));
    sigRebuilt := sigRebuilt + rRebuilt;
    sigRebuilt := sigRebuilt + "02";
    sigRebuilt := sigRebuilt + PadStart2(NumberToHex(|sRebuilt| / 2));
    sigRebuilt := sigRebuilt + sRebuilt;
    ghost var r, s := RebuiltHalf(compact, 0), RebuiltHalf(compact, 32);
    LengthFields(r, s, rRebuilt, sRebuilt);
    AppendedFrame(r, s, sigRebuilt, rRebuilt, sRebuilt);
  }

  /** The length fields, written from the hex lengths, are the byte counts in hex. */
  lemma {:induction false} LengthFields(r: seq<Byte>, s: seq<Byte>, rHex: string, sHex: string)
    requires |r| <= 33 && |s| <= 33 && |rHex| == 2 * |r| && |sHex| == 2 * |s|
    ensures PadStart2(NumberToHex((|rHex| + |sHex| + 8) / 2)) == ByteHex(|r| + |s| + 4)
    ensures PadStart2(NumberToHex(|rHex| / 2)) == ByteHex(|r|)
    ensures PadStart2(NumberToHex(|sHex| / 2)) == ByteHex(|s|)
  {
    assert (|rHex| + |sHex| + 8) / 2 == |r| + |s| + 4 && |rHex| / 2 == |r| && |sHex| / 2 == |s|;
    PaddedNumberToHex(|r| + |s| + 4);
    PaddedNumberToHex(|r|);
    PaddedNumberToHex(|s|);
  }

  lemma {:induction false} AppendedFrame(r: seq<Byte>, s: seq<Byte>, out: string, rHex: string, sHex: string)
    requires |r| + |s| + 4 < 256
    requires rHex == ToHex(r) && sHex == ToHex(s)
    requires out == "30" + ByteHex(|r| + |s| + 4) + "02" + ByteHex(|r|) + rHex + "02" + ByteHex(|s|) + sHex
    ensures out == ToHex(Frame(r, s))
  {
    assert ByteHex(SequenceTag) == "30" && ByteHex(IntegerTag) == "02";
    ToHexFrame(r, s);
  }

  // ---------------------------------------------------------------------------
  // Properties of the encoder and the round trip
  // ---------------------------------------------------------------------------

  /**
   * Reads `30 L 02 rl r 02 sl s` back into (r, s), checking every tag and that
   * every length agrees with the byte count it describes.
   */
  function ParseFrame(d: seq<Byte>): (p: Option<(seq<Byte>, seq<Byte>)>)
    ensures p.Some? ==> |p.value.0| + |p.value.1| + 4 < 256 && d == Frame(p.value.0, p.value.1)
  {
    if |d| < 6 || d[0] != SequenceTag || d[1] != |d| - 2 || d[2] != IntegerTag then None
    else
      var rl := d[3] as int;
      if 6 + rl > |d| || d[4 + rl] != IntegerTag || d[5 + rl] != |d| - 6 - rl then None
      else
        assert d == [d[0], d[1]] + [d[2], d[3]] + d[4..4 + rl] + [d[4 + rl], d[5 + rl]] + d[6 + rl..];
        Some((d[4..4 + rl], d[6 + rl..]))
  }

  lemma {:induction false} ParseFrameOfFrame(r: seq<Byte>, s: seq<Byte>)
    requires |r| + |s| + 4 < 256
    ensures ParseFrame(Frame(r, s)) == Some((r, s))
  {
    var d := Frame(r, s);
    assert d[3] == |r| && d[4 + |r|] == IntegerTag && d[5 + |r|] == |s|;
    assert d[4..4 + |r|] == r && d[6 + |r|..] == s;
  }

  /** A rebuilt half of a 64-byte compact signature, in terms of that half alone. */
  lemma {:induction false} RebuiltHalfOf64(c: seq<Byte>, offset: nat)
    requires |c| == 64 && (offset == 0 || offset == 32)
    ensures var h := c[offset..offset + 32];
      RebuiltHalf(c, offset) == (if h[0] >= 0x80 then [0] else []) + (if h[0] == 0 then h[1..] else h)
  {
    SubstrInside(c, offset + 1, 31);
    SubstrInside(c, offset, 32);
  }

  /**
   * rs_to_signature drops the first byte of a half exactly when it is zero and
   * puts `00` in front exactly when its top bit is set, so each rebuilt
   * component is 31 to 33 bytes.
   */
  lemma {:induction false} RebuiltHalfBounds(c: seq<Byte>, offset: nat)
    requires |c| == 64 && (offset == 0 || offset == 32)
    ensures var r := RebuiltHalf(c, offset);
      && 31 <= |r| <= 33
      && (|r| == 31 <==> c[offset] == 0)
      && (|r| == 33 <==> c[offset] >= 0x80)
      && (c[offset] >= 0x80 ==> r == [0] + c[offset..offset + 32])
      && (c[offset] == 0 ==> r == c[offset + 1..offset + 32])
      && (0 < c[offset] < 0x80 ==> r == c[offset..offset + 32])
  {
    RebuiltHalfOf64(c, offset);
  }

  /**
   * The header rs_to_signature writes is self-consistent for every input: the
   * outer length is the count of the bytes after it, and each INTEGER length
   * byte is the length of the component that follows it.
   */
  lemma {:induction false} EncodeDerHeader(c: seq<Byte>)
    ensures |EncodeDer(c)| <= 72
    ensures ParseFrame(EncodeDer(c)) == Some((RebuiltHalf(c, 0), RebuiltHalf(c, 32)))
  {
    ParseFrameOfFrame(RebuiltHalf(c, 0), RebuiltHalf(c, 32));
  }

  /** signature_to_rs never answers -1 or -2 on what rs_to_signature produces. */
  lemma {:induction false} EncodeDerAccepted(c: seq<Byte>)
    ensures DecodeDer(EncodeDer(c)).Success?
  {
    DecodeFramed(RebuiltHalf(c, 0), RebuiltHalf(c, 32));
  }

  /** One half through rs_to_signature and back: intact unless it starts with `00 00`. */
  lemma {:induction false} HalfRoundTrip(c: seq<Byte>, offset: nat)
    requires |c| == 64 && (offset == 0 || offset == 32)
    ensures PadOne(StripOne(RebuiltHalf(c, offset))) == SurvivingHalf(c, offset)
  {
    RebuiltHalfOf64(c, offset);
    var h := c[offset..offset + 32];
    if h[0] == 0 {
      assert h == [0] + h[1..];
    }
  }

  /**
   * Compact -> DER -> compact is the identity on a 64-byte signature exactly
   * when neither half begins with two zero bytes.
   */
  lemma {:induction false} RoundTrip(c: seq<Byte>)
    requires |c| == 64
    ensures DecodeDer(EncodeDer(c)) == Success(c)
      <==> !(c[0] == 0 && c[1] == 0) && !(c[32] == 0 && c[33] == 0)
  {
    DecodedHalves(c);
    JoinedHalves(c);
  }

  /** What comes back of one half: the half, less its first two bytes when both are zero. */
  function SurvivingHalf(c: seq<Byte>, offset: nat): (h: seq<Byte>)
    requires offset + 32 <= |c|
    ensures |h| == 32 || |h| == 30
  {
    var half := c[offset..offset + 32];
    if half[0] == 0 && half[1] == 0 then half[2..] else half
  }

  /** Compact -> DER -> compact yields the two surviving halves, joined. */
  lemma {:induction false} DecodedHalves(c: seq<Byte>)
    requires |c| == 64
    ensures DecodeDer(EncodeDer(c)) == Success(SurvivingHalf(c, 0) + SurvivingHalf(c, 32))
  {
    var r, s := RebuiltHalf(c, 0), RebuiltHalf(c, 32);
    assert EncodeDer(c) == Frame(r, s);
    DecodeFramed(r, s);
    HalfRoundTrip(c, 0);
    HalfRoundTrip(c, 32);
  }

  /** The surviving halves join to `c` exactly when neither is two bytes short. */
  lemma {:induction false} JoinedHalves(c: seq<Byte>)
    requires |c| == 64
    ensures SurvivingHalf(c, 0) + SurvivingHalf(c, 32) == c <==> !(c[0] == 0 && c[1] == 0) && !(c[32] == 0 && c[33] == 0)
  {
    if !(c[0] == 0 && c[1] == 0) && !(c[32] == 0 && c[33] == 0) {
      assert c == c[0..32] + c[32..64];
    } else {
      assert |SurvivingHalf(c, 0)| + |SurvivingHalf(c, 32)| < 64;
    }
  }

  /**
   * The same round trip on the hex strings the source passes around: a
   * 128-digit lower-case r||s whose halves do not start with `0000` comes back
   * unchanged from rs_to_signature followed by signature_to_rs.
   */
  lemma {:induction false} HexRoundTrip(rs: string)
    requires IsLowerHex(rs) && |rs| == 128
    requires rs[0..4] != "0000" && rs[64..68] != "0000"
    ensures SignatureToRs(ToHex(EncodeDer(FromHex(rs)))) == Success(rs)
  {
    var c := FromHex(rs);
    ToHexFromHex(rs);
    assert |c| == 64;
    SliceToHex(c, 0, 2);
    SliceToHex(c, 32, 34);
    assert c[0..2] == [c[0], c[1]] && c[32..34] == [c[32], c[33]];
    assert ToHex([0, 0]) == "0000";
    RoundTrip(c);
    SignatureToRsOnBytes(EncodeDer(c));
  }

  // ---------------------------------------------------------------------------
  // Two defects of the codec as written
  // ---------------------------------------------------------------------------

  /**
   * A canonical DER signature whose r is a 30-byte integer (r < 2^240, about
   * one signature in 65536) comes out of signature_to_rs as 62 bytes, not 64.
   */
  lemma {:induction false} ShortComponentExample()
    ensures var r, s := seq(30, _ => 1), seq(32, _ => 1);
      && IsNonNegative(r) && IsMinimal(r) && IsNonNegative(s) && IsMinimal(s)
      && DecodeDer(Frame(r, s)) == Success(seq(62, _ => 1))
  {
    var r: seq<Byte>, s: seq<Byte> := seq(30, _ => 1), seq(32, _ => 1);
    assert r[0] == 1 && s[0] == 1;
    assert StripOne(r) == r && StripOne(s) == s;
    assert PadOne(r) == r && PadOne(s) == s;
    DecodeFramed(r, s);
    assert r + s == seq(62, _ => 1);
  }

  /**
   * rs_to_signature tests the top bit of the half's first byte, but when that
   * byte is zero it drops it and the next byte leads: if that byte has its top
   * bit set, the r INTEGER it writes is negative.
   */
  lemma {:induction false} NegativeIntegerWritten(c: seq<Byte>)
    requires |c| == 64 && c[0] == 0 && c[1] >= 0x80
    ensures ParseFrame(EncodeDer(c)).Some?
    ensures ParseFrame(EncodeDer(c)).value.0 == c[1..32]
    ensures !IsNonNegative(ParseFrame(EncodeDer(c)).value.0)
  {
    RebuiltHalfOf64(c, 0);
    EncodeDerHeader(c);
  }

  /** The same slip on the s half: a half starting `00 8x` gives a negative s INTEGER. */
  lemma {:induction false} NegativeSIntegerWritten(c: seq<Byte>)
    requires |c| == 64 && c[32] == 0 && c[33] >= 0x80
    ensures ParseFrame(EncodeDer(c)).Some?
    ensures ParseFrame(EncodeDer(c)).value.1 == c[33..64]
    ensures !IsNonNegative(ParseFrame(EncodeDer(c)).value.1)
  {
    RebuiltHalfOf64(c, 32);
    EncodeDerHeader(c);
  }

  /**
   * The compact form above comes from the signer itself. Take a signature whose r
   * lies in [2^247, 2^248) (content `00`, then 31 bytes of which the first has
   * its top bit set) and whose s is any scalar INTEGER that leaves 31 or 32
   * bytes once its sign byte is stripped. Such a signature is canonical and
   * full width, and it decodes to a compact form starting `00 8x`, which
   * rs_to_signature writes back with a negative r instead of as the signature.
   */
  lemma {:induction false} SignerOutputWrittenNegative(m: seq<Byte>, s: seq<Byte>)
    requires |m| == 31 && m[0] >= 0x80
    requires IsScalarInteger(s) && 31 <= |StripOne(s)|
    ensures var d := Frame([0] + m, s);
      && IsCanonicalSignature(d) && IsFullWidth(d)
      && DecodeDer(d).Success? && |DecodeDer(d).value| == 64
      && ParseFrame(EncodeDer(DecodeDer(d).value)).Some?
      && !IsNonNegative(ParseFrame(EncodeDer(DecodeDer(d).value)).value.0)
      && EncodeDer(DecodeDer(d).value) != d
  {
    SignerDecodes(m, s);
    WrittenBackNegative([0] + m, s, [0] + m + PadOne(StripOne(s)));
  }

  /**
   * A compact form whose r half starts `00 8x` is not written back as any
   * frame with a non-negative r: the r rs_to_signature writes is negative.
   */
  lemma {:induction false} WrittenBackNegative(r: seq<Byte>, s: seq<Byte>, c: seq<Byte>)
    requires |r| + |s| + 4 < 256 && IsNonNegative(r)
    requires |c| == 64 && c[0] == 0 && c[1] >= 0x80
    ensures ParseFrame(EncodeDer(c)).Some? && !IsNonNegative(ParseFrame(EncodeDer(c)).value.0)
    ensures EncodeDer(c) != Frame(r, s)
  {
    NegativeIntegerWritten(c);
    ParseFrameOfFrame(r, s);
  }

  /**
   * The signature of r = `00` m and such an s is canonical, full width, and
   * decodes to `00` m followed by s as a 32-byte half.
   */
  lemma {:induction false} SignerDecodes(m: seq<Byte>, s: seq<Byte>)
    requires |m| == 31 && m[0] >= 0x80
    requires IsScalarInteger(s) && 31 <= |StripOne(s)|
    ensures |PadOne(StripOne(s))| == 32
    ensures var d := Frame([0] + m, s);
      && IsCanonicalSignature(d) && IsFullWidth(d) && DecodeDer(d) == Success([0] + m + PadOne(StripOne(s)))
  {
    var r: seq<Byte> := [0] + m;
    ParseFrameOfFrame(r, s);
    assert r[0] == 0 && r[1] == m[0];
    assert StripOne(r) == m;
    DecodeFramed(r, s);
    assert PadOne(m) == r;
  }

  /** The signature `30 44 02 20 00 80..80 02 20 01..01` is one the source writes back wrongly. */
  lemma {:induction false} SignerOutputExample()
    ensures var d := Frame([0] + seq(31, _ => 0x80), seq(32, _ => 1));
      && IsCanonicalSignature(d) && IsFullWidth(d)
      && DecodeDer(d).Success? && EncodeDer(DecodeDer(d).value) != d
      && d[..4] == [0x30, 0x44, 0x02, 0x20]
  {
    var m: seq<Byte>, s: seq<Byte> := seq(31, _ => 0x80), seq(32, _ => 1);
    SignerOutputWrittenNegative(m, s);
    FrameLayout([0] + m, s);
  }

  // ---------------------------------------------------------------------------
  // The corrected codec
  // ---------------------------------------------------------------------------

  /** An INTEGER as a 256-bit ECDSA signature carries it: minimal, non-negative, at most 32 value bytes. */
  predicate IsScalarInteger(x: seq<Byte>)
  {
    IsNonNegative(x) && IsMinimal(x) && |StripOne(x)| <= 32
  }

  /** A DER Ecdsa-Sig-Value whose r and s are scalar INTEGERs: what the signer produces. */
  predicate IsCanonicalSignature(d: seq<Byte>)
  {
    ParseFrame(d).Some? && IsScalarInteger(ParseFrame(d).value.0) && IsScalarInteger(ParseFrame(d).value.1)
  }

  function Zeros(n: nat): (z: seq<Byte>)
    ensures |z| == n && forall i :: 0 <= i < n ==> z[i] == 0
  {
    seq(n, _ => 0)
  }

  /** All leading zero bytes removed, keeping at least one byte. */
  function StripZeros(x: seq<Byte>): (y: seq<Byte>)
    requires |x| > 0
    ensures 0 < |y| <= |x| && (|y| > 1 ==> y[0] != 0)
    ensures x == Zeros(|x| - |y|) + y
    decreases |x|
  {
    if |x| > 1 && x[0] == 0 then
      var y := StripZeros(x[1..]);
      ZerosCons(x, |x| - 1 - |y|, y);
      y
    else
      assert Zeros(0) + x == x;
      x
  }

  /** One more zero byte in front of `Zeros(n) + y`. */
  lemma {:induction false} ZerosCons(x: seq<Byte>, n: nat, y: seq<Byte>)
    requires |x| > 0 && x[0] == 0 && x[1..] == Zeros(n) + y
    ensures x == Zeros(n + 1) + y
  {
    assert x == [x[0]] + x[1..];
    assert Zeros(n + 1) == [0] + Zeros(n);
  }

  /** The minimal non-negative INTEGER content for a big-endian magnitude (X.690 section 8.3.2). */
  function MinimalInteger(h: seq<Byte>): (m: seq<Byte>)
    requires |h| > 0
    ensures IsNonNegative(m) && IsMinimal(m)
    ensures |StripOne(m)| <= |h|
  {
    var z := StripZeros(h);
    (if z[0] >= 0x80 then [0] else []) + z
  }

  /**
   * rs_to_signature as intended: each half as a minimal non-negative INTEGER.
   * Its output is a canonical DER signature for every 64-byte input.
   */
  function EncodeDerMinimal(compact: seq<Byte>): (d: seq<Byte>)
    requires |compact| == 64
    ensures IsCanonicalSignature(d)
  {
    var r, s := MinimalInteger(compact[..32]), MinimalInteger(compact[32..]);
    ParseFrameOfFrame(r, s);
    Frame(r, s)
  }

  /** Zero bytes in front of a component shorter than 32 bytes. */
  function LeftPad32(x: seq<Byte>): (p: seq<Byte>)
    ensures |x| <= 32 ==> |p| == 32
    ensures |p| >= |x| && p[|p| - |x|..] == x
  {
    if |x| < 32 then Zeros(32 - |x|) + x else x
  }

  /**
   * signature_to_rs as intended: the same checks and slicing, with every
   * stripped component left-padded to 32 bytes instead of only a 31-byte one.
   */
  function DecodeDerPadded(sig: seq<Byte>): (res: Result<seq<Byte>, DecodeError>)
    ensures res.Failure? <==> DecodeDer(sig).Failure?
    ensures res.Failure? ==> res.error == DecodeDer(sig).error
  {
    if At(sig, 0) != Some(SequenceTag) then Failure(BadStartByte)
    else if !(|sig| > 1 && sig[1] == ExpectedLength(sig)) then Failure(BadLength)
    else if |sig| < 4 then Success([])
    else Success(LeftPad32(IntegerContent(sig, 2)) + LeftPad32(IntegerContent(sig, 2 + sig[3] as int + 2)))
  }

  lemma {:induction false} DecodeFramedPadded(r: seq<Byte>, s: seq<Byte>)
    requires |r| + |s| + 4 < 256
    ensures DecodeDerPadded(Frame(r, s)) == Success(LeftPad32(StripOne(r)) + LeftPad32(StripOne(s)))
  {
    var sig := Frame(r, s);
    FramedFields(r, s);
    var a, b := IntegerContent(sig, 2), IntegerContent(sig, 2 + sig[3] as int + 2);
    assert a == StripOne(r) && b == StripOne(s);
    assert DecodeDerPadded(sig) == Success(LeftPad32(a) + LeftPad32(b));
  }

  lemma {:induction false} StripZerosPadded(k: nat, m: seq<Byte>)
    requires |m| > 0 && m[0] != 0
    ensures StripZeros(Zeros(k) + m) == m
  {
    var x := Zeros(k) + m;
    var y := StripZeros(x);
    var j := |x| - |y|;
    assert forall i :: 0 <= i < j ==> x[i] == 0;
    assert forall i :: 0 <= i < k ==> x[i] == 0;
    assert x[k] == m[0] != 0;
    assert y[0] == x[j];
    assert j == k;
    assert y == x[k..] == m;
  }

  lemma {:induction false} StripZerosOfZeros(k: nat)
    requires k > 0
    ensures StripZeros(Zeros(k)) == [0]
  {
    var y := StripZeros(Zeros(k));
    assert y == Zeros(k)[k - |y|..];
    assert y[0] == 0;
  }

  /** A 32-byte half survives the corrected encoder and decoder. */
  lemma {:induction false} PaddedOfMinimal(h: seq<Byte>)
    requires |h| == 32
    ensures LeftPad32(StripOne(MinimalInteger(h))) == h
  {
    var z := StripZeros(h);
    var m := MinimalInteger(h);
    assert h == Zeros(32 - |z|) + z;
    if z[0] == 0 {
      assert z == [0] && m == z && StripOne(m) == [];
      assert h == Zeros(32);
    } else {
      assert StripOne(m) == z by {
        if z[0] >= 0x80 { assert m == [0] + z; }
      }
      LeftPadZeros(z);
    }
  }

  lemma {:induction false} LeftPadZeros(x: seq<Byte>)
    requires |x| <= 32
    ensures LeftPad32(x) == Zeros(32 - |x|) + x
  {
    if |x| == 32 {
      assert Zeros(0) + x == x;
    }
  }

  lemma {:induction false} LeftPadEmpty()
    ensures LeftPad32([]) == Zeros(32)
  {
    assert Zeros(32) + [] == Zeros(32);
  }

  /** A scalar INTEGER survives the corrected decoder and encoder. */
  lemma {:induction false} MinimalOfPadded(a: seq<Byte>)
    requires IsScalarInteger(a)
    ensures MinimalInteger(LeftPad32(StripOne(a))) == a
  {
    var m := StripOne(a);
    LeftPadZeros(m);
    if m == [] {
      assert a == [0];
      LeftPadEmpty();
      StripZerosOfZeros(32);
    } else {
      assert m[0] != 0;
      StripZerosPadded(32 - |m|, m);
      assert StripZeros(LeftPad32(m)) == m;
      if m[0] >= 0x80 {
        assert a[0] == 0 && a == [0] + m;
      } else {
        assert a == m;
      }
    }
  }

  /** Compact -> DER -> compact is the identity on every 64-byte signature. */
  lemma {:induction false} PaddedRoundTrip(c: seq<Byte>)
    requires |c| == 64
    ensures DecodeDerPadded(EncodeDerMinimal(c)) == Success(c)
  {
    var r, s := MinimalInteger(c[..32]), MinimalInteger(c[32..]);
    DecodeFramedPadded(r, s);
    PaddedOfMinimal(c[..32]);
    PaddedOfMinimal(c[32..]);
    HalvesJoin(c, LeftPad32(StripOne(r)), LeftPad32(StripOne(s)));
  }

  /** A 64-byte signature is its two halves, joined. */
  lemma {:induction false} HalvesJoin(c: seq<Byte>, a: seq<Byte>, b: seq<Byte>)
    requires |c| == 64 && a == c[..32] && b == c[32..]
    ensures a + b == c
  {
  }

  /**
   * DER -> compact -> DER is the identity on every canonical signature, and the
   * compact form is 64 bytes.
   */
  lemma {:induction false} CanonicalRoundTrip(d: seq<Byte>)
    requires IsCanonicalSignature(d)
    ensures DecodeDerPadded(d).Success? && |DecodeDerPadded(d).value| == 64
    ensures EncodeDerMinimal(DecodeDerPadded(d).value) == d
  {
    var (r, s) := ParseFrame(d).value;
    DecodeFramedPadded(r, s);
    var c := LeftPad32(StripOne(r)) + LeftPad32(StripOne(s));
    assert c[..32] == LeftPad32(StripOne(r)) && c[32..] == LeftPad32(StripOne(s));
    MinimalOfPadded(r);
    MinimalOfPadded(s);
  }

  // ---------------------------------------------------------------------------
  // getSignature (src/signature-crypto.js:12-15)
  // ---------------------------------------------------------------------------

  /**
   * A signature whose r and s, less the one sign byte the decoder strips, are
   * each 31 or 32 bytes: exactly the ones signature_to_rs turns into 64 bytes.
   */
  predicate IsFullWidth(d: seq<Byte>)
  {
    ParseFrame(d).Some? && 31 <= |StripOne(ParseFrame(d).value.0)| && 31 <= |StripOne(ParseFrame(d).value.1)|
  }

  /**
   * getSignature: signature_to_rs of the hex of the signature. `sign` stands
   * for the Node signer with the private key: it returns the DER signature,
   * and `toString('hex')` of it is what signature_to_rs is given.
   */
  function GetSignature(message: string, sign: string -> seq<Byte>): (res: Result<string, DecodeError>)
    ensures res.Failure? <==> DecodeDer(sign(message)).Failure?
    ensures res.Failure? ==> res.error == DecodeDer(sign(message)).error
    ensures IsCanonicalSignature(sign(message)) ==> res.Success? && IsLowerHex(res.value)
    ensures IsCanonicalSignature(sign(message)) && IsFullWidth(sign(message)) ==>
      && |res.value| == 128 && |FromHex(res.value)| == 64
      && EncodeDerMinimal(FromHex(res.value)) == sign(message)
    ensures IsCanonicalSignature(sign(message)) && !IsFullWidth(sign(message)) ==> |res.value| < 128
  {
    var der := sign(message);
    SignatureToRsOnBytes(der);
    CompactHexAsWritten(der);
    SignatureToRs(ToHex(der))
  }

  /**
   * On a canonical signature signature_to_rs gives lower-case hex: 128 digits
   * that encode back to the signature when it is full width, fewer otherwise.
   */
  lemma {:induction false} CompactHexAsWritten(der: seq<Byte>)
    ensures IsCanonicalSignature(der) ==>
      var res := MapHex(DecodeDer(der));
      && res.Success? && IsLowerHex(res.value)
      && (IsFullWidth(der) ==>
           |res.value| == 128 && |FromHex(res.value)| == 64 && EncodeDerMinimal(FromHex(res.value)) == der)
      && (!IsFullWidth(der) ==> |res.value| < 128)
  {
    if IsCanonicalSignature(der) {
      var (r, s) := ParseFrame(der).value;
      DecodeFramed(r, s);
      var c := PadOne(StripOne(r)) + PadOne(StripOne(s));
      assert DecodeDer(der) == Success(c);
      ToHexIsLowerHex(c);
      if IsFullWidth(der) {
        PadOneFullWidth(StripOne(r));
        PadOneFullWidth(StripOne(s));
        DecodeFramedPadded(r, s);
        CanonicalRoundTrip(der);
        FromHexToHex(c);
      } else {
        assert |c| < 64;
      }
    }
  }

  /** On a full-width component padding one `00` is padding to 32 bytes. */
  lemma {:induction false} PadOneFullWidth(x: seq<Byte>)
    requires 31 <= |x| <= 32
    ensures PadOne(x) == LeftPad32(x)
  {
    if |x| == 31 {
      var z := Zeros(1);
      assert z[0] == 0;
      assert z == [0];
      assert LeftPad32(x) == z + x;
    } else {
      assert PadOne(x) == [] + x;
    }
  }

  /**
   * getSignature as intended: the corrected decoder on the signature, giving
   * 128 hex digits for every canonical signature.
   */
  function GetSignaturePadded(message: string, sign: string -> seq<Byte>): (res: Result<string, DecodeError>)
    ensures IsCanonicalSignature(sign(message)) ==>
      && res.Success? && |res.value| == 128 && IsLowerHex(res.value)
      && |FromHex(res.value)| == 64 && EncodeDerMinimal(FromHex(res.value)) == sign(message)
    ensures res.Failure? <==> DecodeDer(sign(message)).Failure?
    ensures res.Failure? ==> res.error == DecodeDer(sign(message)).error
  {
    var der := sign(message);
    FromHexToHex(der);
    CompactHexPadded(der);
    MapHex(DecodeDerPadded(FromHex(ToHex(der))))
  }

  /** On a canonical signature the corrected decoder gives 128 hex digits that encode back to it. */
  lemma {:induction false} CompactHexPadded(der: seq<Byte>)
    ensures IsCanonicalSignature(der) ==>
      var res := MapHex(DecodeDerPadded(der));
      && res.Success? && |res.value| == 128 && IsLowerHex(res.value)
      && |FromHex(res.value)| == 64 && EncodeDerMinimal(FromHex(res.value)) == der
  {
    if IsCanonicalSignature(der) {
      var c := DecodeDerPadded(der).value;
      CanonicalRoundTrip(der);
      FromHexToHex(c);
      ToHexIsLowerHex(c);
    }
  }
}
