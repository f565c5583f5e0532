/**
 * Node's hex encoding of byte buffers: `buf.toString('hex')` writes two
 * lower-case digits per byte, and `Buffer.from(s, 'hex')` reads digit pairs
 * (either case) up to the first pair that is not hex, dropping an odd
 * trailing digit. The codec works on bytes; the lemmas here show that the
 * source's string slicing at even offsets is the same as slicing the bytes.
 */
module Hex {
  import opened Wrappers
  import opened Js

  predicate IsLowerDigit(c: char)
  {
    '0' <= c <= '9' || 'a' <= c <= 'f'
  }

  /** The lower-case digit for 0 <= n < 16. */
  function HexDigit(n: int): (c: char)
    requires 0 <= n < 16
    ensures IsLowerDigit(c)
  {
    if n < 10 then ('0' as int + n) as char else ('a' as int + n - 10) as char
  }

  /** The value of one hex digit, or None for any other character. */
  function DigitValue(c: char): (r: Option<int>)
    ensures r.Some? ==> 0 <= r.value < 16
    ensures r.Some? <==> IsLowerDigit(c) || 'A' <= c <= 'F'
  {
    if '0' <= c <= '9' then Some(c as int - '0' as int)
    else if 'a' <= c <= 'f' then Some(c as int - 'a' as int + 10)
    else if 'A' <= c <= 'F' then Some(c as int - 'A' as int + 10)
    else None
  }

  lemma {:induction false} DigitValueOfHexDigit(n: int)
    requires 0 <= n < 16
    ensures DigitValue(HexDigit(n)) == Some(n)
  {
  }

  lemma {:induction false} HexDigitOfDigitValue(c: char)
    requires IsLowerDigit(c)
    ensures DigitValue(c).Some? && HexDigit(DigitValue(c).value) == c
  {
  }

  /** The high (half 0) or low (half 1) digit of a byte. */
  function Nibble(x: Byte, half: int): char
  {
    if half == 0 then HexDigit(x / 16) else HexDigit(x % 16)
  }

  /** The two digits `toString('hex')` writes for one byte. */
  function ByteHex(x: Byte): string
  {
    [Nibble(x, 0), Nibble(x, 1)]
  }

  lemma {:induction false} ByteHexDigits(x: Byte)
    ensures |ByteHex(x)| == 2 && IsLowerDigit(ByteHex(x)[0]) && IsLowerDigit(ByteHex(x)[1])
    ensures FromHex(ByteHex(x)) == [x]
  {
    FromHexOfByteHex(x, "");
    assert ByteHex(x) + "" == ByteHex(x);
    assert FromHex("") == [];
  }

  /** `Buffer.from(bytes).toString('hex')`: digit i is a nibble of byte i / 2. */
  function ToHex(b: seq<Byte>): (s: string)
    ensures |s| == 2 * |b|
  {
    seq(2 * |b|, i requires 0 <= i < 2 * |b| => Nibble(b[i / 2], i % 2))
  }

  /** `Buffer.from(s, 'hex')`. */
  function FromHex(s: string): (b: seq<Byte>)
    ensures |b| <= |s| / 2
  {
    if |s| < 2 then []
    else match (DigitValue(s[0]), DigitValue(s[1]))
      case (Some(hi), Some(lo)) => [hi * 16 + lo] + FromHex(s[2..])
      case _ => []
  }

  /** What `toString('hex')` can produce: an even number of lower-case hex digits. */
  predicate IsLowerHex(s: string)
  {
    |s| % 2 == 0 && forall i :: 0 <= i < |s| ==> IsLowerDigit(s[i])
  }

  lemma {:induction false} ToHexIsLowerHex(b: seq<Byte>)
    ensures IsLowerHex(ToHex(b))
  {
  }

  lemma {:induction false} SliceToHex(b: seq<Byte>, x: nat, y: nat)
    requires x <= y <= |b|
    ensures ToHex(b)[2 * x..2 * y] == ToHex(b[x..y])
  {
    var h, g := ToHex(b)[2 * x..2 * y], ToHex(b[x..y]);
    forall k | 0 <= k < |g| ensures h[k] == g[k] {
      assert (2 * x + k) / 2 == x + k / 2 && (2 * x + k) % 2 == k % 2;
    }
  }

  lemma {:induction false} ToHexConcat(a: seq<Byte>, b: seq<Byte>)
    ensures ToHex(a + b) == ToHex(a) + ToHex(b)
  {
    var h, g := ToHex(a + b), ToHex(a) + ToHex(b);
    forall k | 0 <= k < |h| ensures h[k] == g[k] {
      if k >= 2 * |a| {
        assert (k - 2 * |a|) / 2 == k / 2 - |a| && (k - 2 * |a|) % 2 == k % 2;
      }
    }
  }

  lemma {:induction false} ToHexOfByte(x: Byte)
    ensures ToHex([x]) == ByteHex(x)
  {
  }

  lemma {:induction false} ToHexOfPair(x: Byte, y: Byte)
    ensures ToHex([x, y]) == ByteHex(x) + ByteHex(y)
  {
    assert [x, y] == [x] + [y];
    ToHexConcat([x], [y]);
    ToHexOfByte(x);
    ToHexOfByte(y);
  }

  /** The hex of a four-byte header is its four bytes' digits. */
  lemma {:induction false} ToHexOfHeader(w: Byte, x: Byte, y: Byte, z: Byte)
    ensures ToHex([w, x, y, z]) == ByteHex(w) + ByteHex(x) + ByteHex(y) + ByteHex(z)
  {
    assert [w, x, y, z] == [w, x] + [y, z];
    ToHexConcat([w, x], [y, z]);
    ToHexOfPair(w, x);
    ToHexOfPair(y, z);
  }

  /** The hex of four pieces in a row is their hexes in a row. */
  lemma {:induction false} ToHexConcat4(w: seq<Byte>, x: seq<Byte>, y: seq<Byte>, z: seq<Byte>)
    ensures ToHex(w + x + y + z) == ToHex(w) + ToHex(x) + ToHex(y) + ToHex(z)
  {
    ToHexConcat(w + x + y, z);
    ToHexConcat(w + x, y);
    ToHexConcat(w, x);
  }

  /** `"00" + ` in front of an encoding encodes a zero byte in front of the bytes. */
  lemma {:induction false} ZeroPrefixHex(b: seq<Byte>)
    ensures "00" + ToHex(b) == ToHex([0] + b)
  {
    ToHexConcat([0], b);
    ToHexOfByte(0);
  }

  /** Decoding what Node encoded gives the bytes back. */
  lemma {:induction false} FromHexToHex(b: seq<Byte>)
    ensures FromHex(ToHex(b)) == b
  {
    if b != [] {
      assert b == [b[0]] + b[1..];
      ToHexConcat([b[0]], b[1..]);
      ToHexOfByte(b[0]);
      FromHexOfByteHex(b[0], ToHex(b[1..]));
      FromHexToHex(b[1..]);
    }
  }

  /** Decoding reads the two digits of a byte back. */
  lemma {:induction false} FromHexOfByteHex(x: Byte, t: string)
    ensures FromHex(ByteHex(x) + t) == [x] + FromHex(t)
  {
    var u := ByteHex(x) + t;
    DigitValueOfHexDigit(x / 16);
    DigitValueOfHexDigit(x % 16);
    assert u[0] == HexDigit(x / 16) && u[1] == HexDigit(x % 16) && u[2..] == t;
  }

  /** Encoding what was decoded gives back any string `toString('hex')` can produce. */
  lemma {:induction false} ToHexFromHex(s: string)
    requires IsLowerHex(s)
    ensures ToHex(FromHex(s)) == s
  {
    if |s| >= 2 {
      var i, j := DigitValue(s[0]).value, DigitValue(s[1]).value;
      HexDigitOfDigitValue(s[0]);
      HexDigitOfDigitValue(s[1]);
      var rest := s[2..];
      assert IsLowerHex(rest) by {
        forall k | 0 <= k < |rest| ensures IsLowerDigit(rest[k]) { assert rest[k] == s[k + 2]; }
      }
      var v: Byte := i * 16 + j;
      assert v / 16 == i && v % 16 == j;
      assert s == ByteHex(v) + rest;
      FromHexOfByteHex(v, rest);
      ToHexFromHex(rest);
      ToHexConcat([v], FromHex(rest));
      ToHexOfByte(v);
    }
  }

  /**
   * `hex.substr(2 * start, 2 * length)` on the encoding of `b` is the encoding of
   * `b.substr(start, length)`: slicing the hex string at even offsets, as the
   * codec does, is slicing the bytes.
   */
  lemma {:induction false} SubstrToHex(b: seq<Byte>, start: nat, length: int)
    ensures Substr(ToHex(b), 2 * start, 2 * length) == ToHex(Substr(b, start, length))
  {
    var h := ToHex(b);
    var x := Min(start, |b|);
    var y := Min(x + Min(Max(length, 0), |b|), |b|);
    assert Min(2 * start, |h|) == 2 * x;
    assert Min(Max(2 * length, 0), |h|) == 2 * Min(Max(length, 0), |b|);
    assert Min(2 * x + 2 * Min(Max(length, 0), |b|), |h|) == 2 * y;
    assert Substr(h, 2 * start, 2 * length) == h[2 * x..2 * y];
    assert Substr(b, start, length) == b[x..y];
    SliceToHex(b, x, y);
  }

  /** `new Number(n).toString(16)`: the lower-case digits of n, most significant first. */
  function NumberToHex(n: nat): (s: string)
    ensures |s| >= 1 && forall i :: 0 <= i < |s| ==> IsLowerDigit(s[i])
    ensures n > 0 ==> s[0] != '0'
    ensures n < 16 <==> |s| == 1
    ensures 16 <= n < 256 ==> |s| == 2
    decreases n
  {
    if n < 16 then [HexDigit(n)] else NumberToHex(n / 16) + [HexDigit(n % 16)]
  }

  /** `t.padStart(2, '0')`. */
  function PadStart2(t: string): (p: string)
    ensures |p| == Max(|t|, 2)
    ensures p[|p| - |t|..] == t && forall i :: 0 <= i < |p| - |t| ==> p[i] == '0'
  {
    if |t| < 2 then seq(2 - |t|, _ => '0') + t else t
  }

  /** Below 256, `toString(16).padStart(2, '0')` writes the byte as `toString('hex')` does. */
  lemma {:induction false} PaddedNumberToHex(n: Byte)
    ensures PadStart2(NumberToHex(n)) == ByteHex(n) == ToHex([n])
  {
    var t := NumberToHex(n);
    if n >= 16 {
      assert NumberToHex(n / 16) == [HexDigit(n / 16)];
      assert t == [HexDigit(n / 16), HexDigit(n % 16)];
      assert PadStart2(t) == t;
    } else {
      assert t == [HexDigit(n)];
      assert PadStart2(t) == ['0', HexDigit(n)];
      assert HexDigit(n / 16) == '0';
    }
    ToHexOfByte(n);
  }
}
