/**
 * Bytes and MSB-first bit strings.
 *
 * The PHP codec keeps its bit buffer as a string of '0' and '1' characters
 * (built with `decbin`/`base_convert` and read back with `bindec`); here such
 * a string is a `seq<bool>`, with `true` standing for '1'.
 */
module Bits {

  /** One byte of a PHP binary string. */
  type byte = x: int | 0 <= x < 256

  function Pow2(n: nat): (r: nat)
    ensures r >= 1
  {
    if n == 0 then 1 else 2 * Pow2(n - 1)
  }

  lemma {:induction false} Pow2Values()
    ensures Pow2(5) == 32 && Pow2(8) == 256
  {
  }

  /** `n` zero bits: the padding added by `str_pad(…, '0', …)`. */
  function Zeros(n: nat): (z: seq<bool>)
    ensures |z| == n && forall i :: 0 <= i < n ==> !z[i]
  {
    seq(n, i => false)
  }

  /**
   * The `w`-bit MSB-first representation of `v`, i.e. `decbin(v)` left-padded
   * with '0' to width `w` (`str_pad(decbin(v), w, '0', STR_PAD_LEFT)`).
   */
  function ToBits(v: nat, w: nat): (bs: seq<bool>)
    ensures |bs| == w
  {
    if w == 0 then [] else ToBits(v / 2, w - 1) + [v % 2 == 1]
  }

  /** The value of an MSB-first bit string (`bindec`). */
  function FromBits(bs: seq<bool>): (v: nat)
    ensures v < Pow2(|bs|)
  {
    if |bs| == 0 then 0
    else 2 * FromBits(bs[..|bs| - 1]) + (if bs[|bs| - 1] then 1 else 0)
  }

  /** Reading back a `w`-bit representation gives the value written. */
  lemma {:induction false} FromToBits(v: nat, w: nat)
    requires v < Pow2(w)
    ensures FromBits(ToBits(v, w)) == v
  {
    if w > 0 {
      var t := ToBits(v / 2, w - 1);
      assert ToBits(v, w)[..w - 1] == t;
      FromToBits(v / 2, w - 1);
    }
  }

  /** Writing the value of a bit string at its own width gives the bit string back. */
  lemma {:induction false} ToFromBits(bs: seq<bool>)
    ensures ToBits(FromBits(bs), |bs|) == bs
  {
    if |bs| > 0 {
      var init := bs[..|bs| - 1];
      ToFromBits(init);
      var v := FromBits(bs);
      assert v / 2 == FromBits(init);
      assert bs == init + [bs[|bs| - 1]];
    }
  }

  /** The bit stream of a byte string, each byte MSB first (`bin2hex` then `base_convert(…, 16, 2)`). */
  function BytesToBits(b: seq<byte>): (bits: seq<bool>)
    ensures |bits| == 8 * |b|
  {
    if |b| == 0 then [] else ToBits(b[0], 8) + BytesToBits(b[1..])
  }

  lemma {:induction false} BytesToBitsAppend(x: seq<byte>, y: seq<byte>)
    ensures BytesToBits(x + y) == BytesToBits(x) + BytesToBits(y)
  {
    if |x| > 0 {
      assert (x + y)[1..] == x[1..] + y;
      BytesToBitsAppend(x[1..], y);
    } else {
      assert x + y == y;
    }
  }

  lemma {:induction false} BytesToBitsSnoc(b: seq<byte>, i: nat)
    requires i < |b|
    ensures BytesToBits(b[..i + 1]) == BytesToBits(b[..i]) + ToBits(b[i], 8)
  {
    BytesToBitsAppend(b[..i], [b[i]]);
    assert b[..i + 1] == b[..i] + [b[i]];
  }

  /** Moving a prefix of the buffer into the consumed part keeps the whole stream. */
  lemma {:induction false} ConcatShift<T>(consumed: seq<T>, held: seq<T>, taken: seq<T>, rest: seq<T>, added: seq<T>)
    requires taken + rest == held + added
    ensures (consumed + taken) + rest == (consumed + held) + added
  {
    calc {
      (consumed + taken) + rest;
      consumed + (taken + rest);
      consumed + (held + added);
      (consumed + held) + added;
    }
  }

  /**
   * The whole bytes of a bit stream, 8 bits at a time from the front; fewer
   * than 8 trailing bits are dropped.
   */
  function Regroup8(bits: seq<bool>): (b: seq<byte>)
    ensures |b| == |bits| / 8
  {
    Pow2Values();
    if |bits| < 8 then [] else [FromBits(bits[..8])] + Regroup8(bits[8..])
  }

  lemma {:induction false} Regroup8Append(x: seq<bool>, y: seq<bool>)
    requires |x| % 8 == 0
    ensures Regroup8(x + y) == Regroup8(x) + Regroup8(y)
  {
    if |x| > 0 {
      assert (x + y)[..8] == x[..8];
      assert (x + y)[8..] == x[8..] + y;
      Regroup8Append(x[8..], y);
    } else {
      assert x + y == y;
    }
  }

  /** Eight bits regroup to the one byte they spell. */
  lemma {:induction false} Regroup8One(g: seq<bool>)
    requires |g| == 8
    ensures FromBits(g) < 256
    ensures Regroup8(g) == [FromBits(g)]
  {
    Pow2Values();
    assert g[..8] == g;
    assert g[8..] == [];
  }

  /** Regrouping the bit stream of a byte string gives the byte string back. */
  lemma {:induction false} Regroup8Bytes(b: seq<byte>)
    ensures Regroup8(BytesToBits(b)) == b
  {
    if |b| > 0 {
      var bits := BytesToBits(b);
      assert bits[..8] == ToBits(b[0], 8);
      assert bits[8..] == BytesToBits(b[1..]);
      Pow2Values();
      FromToBits(b[0], 8);
      Regroup8Bytes(b[1..]);
      assert b == [b[0]] + b[1..];
    }
  }

  /** Regrouping the first `n` bits of a byte string's bit stream gives its first `n / 8` bytes. */
  lemma {:induction false} Regroup8Prefix(b: seq<byte>, n: nat)
    requires n <= 8 * |b|
    ensures Regroup8(BytesToBits(b)[..n]) == b[..n / 8]
  {
    var q := n / 8;
    var bits := BytesToBits(b);
    BytesToBitsAppend(b[..q], b[q..]);
    assert b == b[..q] + b[q..];
    var head := BytesToBits(b[..q]);
    var tail := bits[8 * q .. n];
    assert bits[..n] == head + tail;
    Regroup8Append(head, tail);
    Regroup8Bytes(b[..q]);
    assert |Regroup8(tail)| == 0;
  }
}
