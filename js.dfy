/**
 * The pieces of JavaScript semantics the codec relies on: reading a typed
 * array past its end, `String.prototype.substr` (ECMAScript Annex B.2.2.1)
 * and the 32-bit signed `>>` operator.
 */
module Js {
  import opened Wrappers

  /** An element of a Uint8Array. */
  type Byte = x: int | 0 <= x < 256

  function Min(a: int, b: int): int { if a <= b then a else b }
  function Max(a: int, b: int): int { if a <= b then b else a }

  /** `a[i]` on a typed array: `undefined` (None) outside the array. */
  function At(a: seq<Byte>, i: int): (r: Option<Byte>)
    ensures r.Some? <==> 0 <= i < |a|
    ensures r.Some? ==> r.value == a[i]
  {
    if 0 <= i < |a| then Some(a[i]) else None
  }

  /** `x & 0x80` is non-zero: the top bit of a byte that is there. */
  predicate TopBitSet(a: seq<Byte>, i: int)
  {
    0 <= i < |a| && a[i] >= 0x80
  }

  /** `undefined & 0x80` is 0: the top bit is set only on a byte that is read. */
  lemma {:induction false} TopBitSetAt(a: seq<Byte>, i: int)
    ensures TopBitSet(a, i) <==> At(a, i).Some? && At(a, i).value >= 0x80
  {
  }

  /**
   * `s.substr(start, length)` for a finite start and length: a negative start
   * counts from the end, the length is clamped to [0, size] and the end to size.
   */
  function Substr<T>(s: seq<T>, start: int, length: int): (r: seq<T>)
  {
    var intStart := if start < 0 then Max(|s| + start, 0) else Min(start, |s|);
    var intLength := Min(Max(length, 0), |s|);
    var intEnd := Min(intStart + intLength, |s|);
    s[intStart..intEnd]
  }

  /** A substr is no longer than the string or the requested length, and from a start inside it is as long as both allow. */
  lemma {:induction false} SubstrLength<T>(s: seq<T>, start: int, length: int)
    ensures |Substr(s, start, length)| <= |s| && |Substr(s, start, length)| <= Max(length, 0)
    ensures 0 <= start <= |s| ==> |Substr(s, start, length)| == Min(Max(length, 0), |s| - start)
  {
  }

  /** A substr that stays inside the string is a plain slice. */
  lemma {:induction false} SubstrInside<T>(s: seq<T>, start: nat, length: nat)
    requires start + length <= |s|
    ensures Substr(s, start, length) == s[start..start + length]
  {
  }

  /** A substr of no positive length is empty. */
  lemma {:induction false} SubstrEmpty<T>(s: seq<T>, start: nat, length: int)
    requires length <= 0
    ensures Substr(s, start, length) == []
  {
  }

  /** A substr that runs past the end stops there. */
  lemma {:induction false} SubstrClamped<T>(s: seq<T>, start: nat, length: nat)
    requires start <= |s| <= start + length
    ensures Substr(s, start, length) == s[start..]
  {
  }

  /** ToInt32 of ECMAScript: wrap an integer into [-2^31, 2^31). */
  function ToInt32(x: int): (r: int)
    ensures -0x8000_0000 <= r < 0x8000_0000
    ensures (r - x) % 0x1_0000_0000 == 0
  {
    (x + 0x8000_0000) % 0x1_0000_0000 - 0x8000_0000
  }

  /** `x >> 1`: ToInt32, then an arithmetic shift, which rounds toward minus infinity. */
  function ShiftRight1(x: int): (r: int)
    ensures 2 * r <= ToInt32(x) < 2 * r + 2
  {
    ToInt32(x) / 2
  }
}
