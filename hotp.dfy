/**
 * One-time password generation (`genOTP`): the HOTP algorithm of RFC 4226
 * with HMAC-SHA1 and 6 digits.
 *
 * The 8-byte counter message, the dynamic truncation of section 5.3 of
 * RFC 4226 and the zero-padded decimal formatting are modelled exactly;
 * HMAC-SHA1 itself is a function parameter.
 */
module Hotp {
  import opened Bits

  /** A SHA-1 digest: 20 bytes (`hash_hmac('sha1', …, true)`). */
  type Digest = s: seq<byte> | |s| == 20
    witness [0, 0, 0, 0, 0, 0, 0, 0, 0, 0, 0, 0, 0, 0, 0, 0, 0, 0, 0, 0]

  /** HMAC-SHA1 keyed with the first argument over the second. */
  type Hmac = (seq<byte>, seq<byte>) -> Digest

  const Two32: nat := 0x1_0000_0000

  /** Number of digits of a code, and the modulus that keeps that many. */
  const Digits: nat := 6
  const Modulus: nat := 1_000_000

  /* ---------------------------------------------------------------- */
  /* The counter message (`pack('N*', 0) . pack('N*', $counter)`)     */
  /* ---------------------------------------------------------------- */

  function Pow256(n: nat): (r: nat)
    ensures r >= 1
  {
    if n == 0 then 1 else 256 * Pow256(n - 1)
  }

  /** The value of a big-endian byte string. */
  function BeValue(bs: seq<byte>): (v: nat)
    ensures v < Pow256(|bs|)
  {
    if |bs| == 0 then 0 else 256 * BeValue(bs[..|bs| - 1]) + bs[|bs| - 1]
  }

  /** The big-endian value of four bytes. */
  lemma {:induction false} BeValue4(a: byte, b: byte, c: byte, d: byte)
    ensures BeValue([a, b, c, d]) == a * 0x100_0000 + b * 0x1_0000 + c * 0x100 + d
  {
    var s := [a, b, c, d];
    assert [a][..0] == [];
    assert BeValue([a]) == a;
    assert [a, b][..1] == [a];
    assert BeValue([a, b]) == 256 * a + b;
    assert [a, b, c][..2] == [a, b];
    assert BeValue([a, b, c]) == 256 * (256 * a + b) + c;
    assert s[..3] == [a, b, c];
  }

  /** `pack('N', v)`: `v` as an unsigned 32-bit big-endian number. */
  function Pack32(v: nat): (bs: seq<byte>)
    requires v < Two32
    ensures |bs| == 4 && BeValue(bs) == v
  {
    var v1 := v / 0x100;
    var v2 := v1 / 0x100;
    var bs := [v2 / 0x100, v2 % 0x100, v1 % 0x100, v % 0x100];
    BeValue4(bs[0], bs[1], bs[2], bs[3]);
    bs
  }

  /**
   * The 8-byte HMAC message: four zero bytes, then the counter as an
   * unsigned 32-bit big-endian number. `pack('N', …)` keeps the low 32
   * bits, so a negative counter or one of 2^32 or more wraps around.
   */
  function Message(counter: int): (m: seq<byte>)
    ensures |m| == 8 && m[..4] == [0, 0, 0, 0]
    ensures BeValue(m[4..]) == counter % Two32
  {
    var m := [0, 0, 0, 0] + Pack32(counter % Two32);
    assert m[4..] == Pack32(counter % Two32);
    m
  }

  /** Counters that agree modulo 2^32 give the same message. */
  lemma {:induction false} MessageWraps(c: int, d: int)
    requires c % Two32 == d % Two32
    ensures Message(c) == Message(d)
  {
  }

  /** Within one 32-bit period, different counters give different messages. */
  lemma {:induction false} MessageInjective(c: int, d: int)
    requires 0 <= c < Two32 && 0 <= d < Two32
    ensures Message(c) == Message(d) <==> c == d
  {
    var mc := Message(c);
    var md := Message(d);
    if mc == md {
      assert mc[4..] == md[4..];
      assert c % Two32 == c && d % Two32 == d;
    }
  }

  /* ---------------------------------------------------------------- */
  /* Dynamic truncation                                               */
  /* ---------------------------------------------------------------- */

  /** `ord($hash[19]) & 0xf`: the low nibble of the last byte. */
  function Offset(h: Digest): (o: nat)
    ensures o <= 15 && o + 4 <= |h|
  {
    h[19] % 16
  }

  /**
   * The four bytes at the offset, read big-endian with the top bit cleared:
   * `(h[o] & 0x7f) << 24 | h[o+1] << 16 | h[o+2] << 8 | h[o+3]`. The
   * fields do not overlap, so each `|` adds and each `& 0x7f` / `& 0xff`
   * is a remainder.
   */
  function Truncate(h: Digest): (v: nat)
    ensures v < 0x8000_0000
    ensures var o := Offset(h); v == BeValue([h[o] % 128, h[o + 1], h[o + 2], h[o + 3]])
  {
    var o := Offset(h);
    var b0: int := h[o] % 128;
    var b1: int := h[o + 1];
    var b2: int := h[o + 2];
    var b3: int := h[o + 3];
    BeValue4(b0, b1, b2, b3);
    b0 * 0x100_0000 + b1 * 0x1_0000 + b2 * 0x100 + b3
  }

  /** The truncated value depends only on the last byte's nibble and the four bytes it selects. */
  lemma {:induction false} TruncateWindow(h: Digest, g: Digest)
    requires h[19] % 16 == g[19] % 16
    requires h[Offset(h) .. Offset(h) + 4] == g[Offset(g) .. Offset(g) + 4]
    ensures Truncate(h) == Truncate(g)
  {
  }

  /* ---------------------------------------------------------------- */
  /* Decimal formatting (`str_pad($code, 6, '0', STR_PAD_LEFT)`)      */
  /* ---------------------------------------------------------------- */

  predicate IsDigit(c: char)
  {
    '0' <= c <= '9'
  }

  predicate IsDigits(s: string)
  {
    forall i :: 0 <= i < |s| ==> IsDigit(s[i])
  }

  function DigitChar(d: nat): (c: char)
    requires d < 10
    ensures IsDigit(c) && c as int - '0' as int == d
  {
    ('0' as int + d) as char
  }

  /** The number a string of decimal digits spells (leading zeros allowed). */
  function DigitsValue(s: string): nat
    requires IsDigits(s)
  {
    if |s| == 0 then 0
    else 10 * DigitsValue(s[..|s| - 1]) + (s[|s| - 1] as int - '0' as int)
  }

  function Pow10(n: nat): (r: nat)
    ensures r >= 1
  {
    if n == 0 then 1 else 10 * Pow10(n - 1)
  }

  /** PHP's conversion of a non-negative integer to a string: decimal, no leading zeros. */
  function DecimalString(n: nat): (s: string)
    ensures 1 <= |s| && IsDigits(s)
  {
    if n < 10 then [DigitChar(n)] else DecimalString(n / 10) + [DigitChar(n % 10)]
  }

  /** The decimal string spells the number, and a number below 10^k needs at most k digits. */
  lemma {:induction false} DecimalStringValue(n: nat, k: nat)
    requires 1 <= k && n < Pow10(k)
    ensures DigitsValue(DecimalString(n)) == n
    ensures |DecimalString(n)| <= k
  {
    var s := DecimalString(n);
    if n < 10 {
      assert s[..0] == [];
    } else {
      assert k >= 2;
      DecimalStringValue(n / 10, k - 1);
      assert s[..|s| - 1] == DecimalString(n / 10);
    }
  }

  /** `str_pad(s, w, c, STR_PAD_LEFT)`: `s` preceded by enough copies of `c` to reach width `w`. */
  function PadLeft(s: string, w: nat, c: char): (r: string)
    ensures |r| == if |s| >= w then |s| else w
    ensures r[|r| - |s|..] == s
    ensures forall i :: 0 <= i < |r| - |s| ==> r[i] == c
  {
    if |s| >= w then s else seq(w - |s|, _ => c) + s
  }

  /** Leading '0' characters do not change the value of a digit string. */
  lemma {:induction false} DigitsValueLeadingZeros(z: string, s: string)
    requires forall i :: 0 <= i < |z| ==> z[i] == '0'
    requires IsDigits(s)
    ensures IsDigits(z + s) && DigitsValue(z + s) == DigitsValue(s)
    decreases |s|
  {
    if |s| == 0 {
      assert z + s == z;
      ZerosValue(z);
    } else {
      var init := s[..|s| - 1];
      DigitsValueLeadingZeros(z, init);
      assert (z + s)[..|z + s| - 1] == z + init;
    }
  }

  lemma {:induction false} ZerosValue(z: string)
    requires forall i :: 0 <= i < |z| ==> z[i] == '0'
    ensures IsDigits(z) && DigitsValue(z) == 0
  {
    if |z| > 0 {
      ZerosValue(z[..|z| - 1]);
    }
  }

  /** A code below 10^6 formatted as exactly 6 decimal digits that spell it. */
  function Format(code: nat): (s: string)
    requires code < Modulus
    ensures |s| == Digits && IsDigits(s) && DigitsValue(s) == code
  {
    var d := DecimalString(code);
    assert Pow10(6) == Modulus;
    DecimalStringValue(code, 6);
    var s := PadLeft(d, Digits, '0');
    assert s == s[..|s| - |d|] + d;
    DigitsValueLeadingZeros(s[..|s| - |d|], d);
    s
  }

  /** Different codes are formatted differently. */
  lemma {:induction false} FormatInjective(a: nat, b: nat)
    requires a < Modulus && b < Modulus
    ensures Format(a) == Format(b) <==> a == b
  {
  }

  /* ---------------------------------------------------------------- */
  /* genOTP                                                           */
  /* ---------------------------------------------------------------- */

  /**
   * `genOTP($binSecret, $counter)`: the 6-digit HOTP value of the counter
   * under the secret key.
   */
  function GenOtp(hmac: Hmac, secret: seq<byte>, counter: int): (code: string)
    ensures |code| == Digits && IsDigits(code)
    ensures DigitsValue(code) == Truncate(hmac(secret, Message(counter))) % Modulus
  {
    Format(Truncate(hmac(secret, Message(counter))) % Modulus)
  }

  /** Two counters give the same code exactly when their truncated values agree in the last 6 decimal digits. */
  lemma {:induction false} GenOtpEqual(hmac: Hmac, secret: seq<byte>, c: int, d: int)
    ensures GenOtp(hmac, secret, c) == GenOtp(hmac, secret, d) <==>
            Truncate(hmac(secret, Message(c))) % Modulus == Truncate(hmac(secret, Message(d))) % Modulus
  {
  }

  /** The counter only matters modulo 2^32. */
  lemma {:induction false} GenOtpWraps(hmac: Hmac, secret: seq<byte>, c: int)
    ensures GenOtp(hmac, secret, c + Two32) == GenOtp(hmac, secret, c)
    ensures GenOtp(hmac, secret, c - Two32) == GenOtp(hmac, secret, c)
  {
    MessageWraps(c + Two32, c);
    MessageWraps(c - Two32, c);
  }

  /** The digest of the worked example in section 5.4 of RFC 4226. */
  const ExampleDigest: Digest :=
    [0x1f, 0x86, 0x98, 0x69, 0x0e, 0x02, 0xca, 0x16, 0x61, 0x85,
     0x50, 0xef, 0x7f, 0x19, 0xda, 0x8e, 0x94, 0x5b, 0x55, 0x5a]

  /** Section 5.4 of RFC 4226: offset 10 and truncated value 0x50ef7f19 (decimal 1357872921). */
  lemma {:induction false} ExampleTruncation()
    ensures Offset(ExampleDigest) == 10
    ensures Truncate(ExampleDigest) == 0x50ef7f19
    ensures Truncate(ExampleDigest) % Modulus == 872921
  {
  }

  /** Section 5.4 of RFC 4226: the 6-digit code of the example is "872921". */
  lemma {:induction false} ExampleCode()
    ensures Format(Truncate(ExampleDigest) % Modulus) == "872921"
  {
    ExampleTruncation();
    var s := Format(872921);
    assert DigitsValue("872921") == 872921 by {
      assert "872921"[..5] == "87292" && "87292"[..4] == "8729" && "8729"[..3] == "872";
      assert "872"[..2] == "87" && "87"[..1] == "8" && "8"[..0] == "";
    }
    DigitsValueInjective(s, "872921");
  }

  /** Digit strings of the same length and value are equal. */
  lemma {:induction false} DigitsValueInjective(s: string, t: string)
    requires |s| == |t| && IsDigits(s) && IsDigits(t) && DigitsValue(s) == DigitsValue(t)
    ensures s == t
    decreases |s|
  {
    if |s| > 0 {
      var n := |s| - 1;
      assert DigitsValue(s) % 10 == s[n] as int - '0' as int;
      assert DigitsValue(t) % 10 == t[n] as int - '0' as int;
      DigitsValueInjective(s[..n], t[..n]);
      assert s == s[..n] + [s[n]] && t == t[..n] + [t[n]];
    }
  }
}
