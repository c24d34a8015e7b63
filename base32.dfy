/**
 * The Base32 codec of SimpleOTP: `bin_base32` (encoder) and `base32_bin`
 * (lenient decoder), over the alphabet of section 6 of RFC 4648.
 *
 * `Encode` and `Decode` are the specifications; `BinBase32` and `Base32Bin`
 * are the PHP loops, which thread a bit buffer `buff` through the bytes or
 * characters and are proved equal to them.
 */
module Base32 {
  import opened Wrappers
  import opened Bits

  /** The `ALPHABET` constant of the PHP class. */
  const Alphabet: string := "ABCDEFGHIJKLMNOPQRSTUVWXYZ234567"

  /** Character `v` of the alphabet, by arithmetic: 'A'..'Z' for 0..25, '2'..'7' for 26..31. */
  function Symbol(v: nat): char
    requires v < 32
  {
    if v < 26 then ('A' as int + v) as char else ('2' as int + v - 26) as char
  }

  /** The inverse of `Symbol` on upper-case input; `None` for a character outside the alphabet. */
  function ValueOf(c: char): (r: Option<nat>)
    ensures r.Some? ==> r.value < 32 && Symbol(r.value) == c
    ensures r.None? ==> forall v :: 0 <= v < 32 ==> Symbol(v) != c
  {
    if 'A' <= c <= 'Z' then Some(c as int - 'A' as int)
    else if '2' <= c <= '7' then Some(c as int - '2' as int + 26)
    else None
  }

  lemma {:induction false} AlphabetAt(v: nat)
    requires v < 32
    ensures Alphabet[v] == Symbol(v)
  {
  }

  /** `strtoupper` on one character (ASCII letters only). */
  function ToUpper(c: char): char
  {
    if 'a' <= c <= 'z' then (c as int - 32) as char else c
  }

  /** `strpos(s, c)`: the first index of `c` in `s`, or `None` (PHP's `false`). */
  function IndexOf(s: string, c: char): (r: Option<nat>)
    ensures r.Some? ==> r.value < |s| && s[r.value] == c &&
                        forall j :: 0 <= j < r.value ==> s[j] != c
    ensures r.None? ==> forall j :: 0 <= j < |s| ==> s[j] != c
  {
    if |s| == 0 then None
    else if s[0] == c then Some(0)
    else match IndexOf(s[1..], c)
      case None => None
      case Some(k) => Some(k + 1)
  }

  /** Looking a character up in the alphabet (`strpos(ALPHABET, c)`) yields its 5-bit value. */
  lemma {:induction false} IndexOfAlphabet(c: char)
    ensures IndexOf(Alphabet, c) == ValueOf(c)
  {
    var r := IndexOf(Alphabet, c);
    match ValueOf(c)
    case Some(k) =>
      AlphabetAt(k);
      if r.Some? && r.value != k {
        AlphabetAt(r.value);
      }
    case None =>
      if r.Some? {
        AlphabetAt(r.value);
      }
  }

  /* ---------------------------------------------------------------- */
  /* Encoder                                                          */
  /* ---------------------------------------------------------------- */

  /** Number of zero bits that complete the last 5-bit group of `n` bits. */
  function Pad5(n: nat): nat
  {
    (5 - n % 5) % 5
  }

  /** The bit stream right-padded with zero bits to a whole number of 5-bit groups. */
  function Padded(bits: seq<bool>): (p: seq<bool>)
    ensures |p| % 5 == 0 && |p| / 5 == (|bits| + 4) / 5
  {
    bits + Zeros(Pad5(|bits|))
  }

  /** The alphabet character for one 5-bit group, read MSB first. */
  function Char5(group: seq<bool>): char
    requires |group| == 5
  {
    Pow2Values();
    Symbol(FromBits(group))
  }

  /** One alphabet character per 5-bit group. */
  function Chunks5(p: seq<bool>): (s: string)
    requires |p| % 5 == 0
    ensures |s| == |p| / 5
  {
    if |p| == 0 then "" else [Char5(p[..5])] + Chunks5(p[5..])
  }

  /** The encoding of a byte string: `bin_base32` as a function. */
  function Encode(bin: seq<byte>): string
  {
    Chunks5(Padded(BytesToBits(bin)))
  }

  lemma {:induction false} Chunks5Append(x: seq<bool>, y: seq<bool>)
    requires |x| % 5 == 0 && |y| % 5 == 0
    ensures Chunks5(x + y) == Chunks5(x) + Chunks5(y)
    decreases |x|
  {
    if |x| > 0 {
      assert (x + y)[..5] == x[..5];
      assert (x + y)[5..] == x[5..] + y;
      Chunks5Append(x[5..], y);
    } else {
      assert x + y == y;
    }
  }

  /** Character `i` of the chunking is group `i`, bits 5i..5i+4. */
  lemma {:induction false} Chunks5At(p: seq<bool>, i: nat)
    requires |p| % 5 == 0 && i < |p| / 5
    ensures 5 * i + 5 <= |p| && Chunks5(p)[i] == Char5(p[5 * i .. 5 * i + 5])
    decreases |p|
  {
    if i > 0 {
      Chunks5At(p[5..], i - 1);
      var k := 5 * (i - 1);
      assert p[5..][k .. k + 5] == p[k + 5 .. k + 10];
    }
  }

  /**
   * `bin_base32` of n bytes has ceil(8n/5) characters; character i is bits
   * 5i..5i+4 of the MSB-first bit stream, zero-padded on the right; every
   * character is from the alphabet, so `=` never appears.
   */
  lemma {:induction false} EncodeShape(bin: seq<byte>)
    ensures |Encode(bin)| == (8 * |bin| + 4) / 5
    ensures forall i :: 0 <= i < |Encode(bin)| ==>
              var p := Padded(BytesToBits(bin));
              5 * i + 5 <= |p| && Encode(bin)[i] == Alphabet[FromBits(p[5 * i .. 5 * i + 5])]
    ensures forall i :: 0 <= i < |Encode(bin)| ==> Encode(bin)[i] in Alphabet
    ensures '=' !in Encode(bin)
  {
    Pow2Values();
    var p := Padded(BytesToBits(bin));
    var e := Encode(bin);
    forall i | 0 <= i < |e|
      ensures 5 * i + 5 <= |p| && e[i] == Alphabet[FromBits(p[5 * i .. 5 * i + 5])]
      ensures e[i] in Alphabet && e[i] != '='
    {
      Chunks5At(p, i);
      AlphabetAt(FromBits(p[5 * i .. 5 * i + 5]));
    }
  }

  /** One more full group in the buffer adds one character for it. */
  lemma {:induction false} EncodeGroup(consumed: seq<bool>, group: seq<bool>)
    requires |consumed| % 5 == 0 && |group| == 5
    ensures FromBits(group) < 32
    ensures Chunks5(consumed + group) == Chunks5(consumed) + [Alphabet[FromBits(group)]]
  {
    Pow2Values();
    AlphabetAt(FromBits(group));
    Chunks5Append(consumed, group);
    assert group[..5] == group && group[5..] == [];
  }

  /** What is left in the buffer at the end becomes one zero-padded character, if anything is left. */
  lemma {:induction false} EncodeFinal(consumed: seq<bool>, buff: seq<bool>)
    requires |consumed| % 5 == 0 && 1 <= |buff| < 5
    ensures FromBits(buff + Zeros(5 - |buff|)) < 32
    ensures Chunks5(Padded(consumed + buff)) ==
            Chunks5(consumed) + [Alphabet[FromBits(buff + Zeros(5 - |buff|))]]
  {
    Pow2Values();
    var tail := buff + Zeros(5 - |buff|);
    assert Padded(consumed + buff) == consumed + tail;
    EncodeGroup(consumed, tail);
  }

  /**
   * The `array_map` callback of `bin_base32` for one byte: append the byte's
   * 8 bits to the buffer and emit one character per full 5-bit group,
   * keeping fewer than 5 bits. `Alphabet[v]` never needs the `?? ''`
   * fallback: every index is below 32. The ghost `taken` is the bits turned
   * into output.
   */
  method EncodeByte(buff: seq<bool>, b: byte) returns (out: string, rest: seq<bool>, ghost taken: seq<bool>)
    requires |buff| < 5
    ensures |rest| < 5
    ensures taken + rest == buff + ToBits(b, 8)
    ensures |taken| % 5 == 0 && out == Chunks5(taken)
  {
    out, rest, taken := EmitGroups(buff + ToBits(b, 8));
  }

  /** The `while (strlen($buff) >= 5)` loop of the callback: one character per full 5-bit group. */
  method EmitGroups(buff: seq<bool>) returns (out: string, rest: seq<bool>, ghost taken: seq<bool>)
    ensures |rest| < 5
    ensures taken + rest == buff
    ensures |taken| % 5 == 0 && out == Chunks5(taken)
  {
    rest := buff;
    out, taken := "", [];
    while |rest| >= 5
      invariant taken + rest == buff
      invariant |taken| % 5 == 0 && out == Chunks5(taken)
      decreases |rest|
    {
      EncodeGroup(taken, rest[..5]);
      ConcatShift(taken, rest, rest[..5], rest[5..], []);
      var v := FromBits(rest[..5]);
      out := out + [Alphabet[v]];
      taken := taken + rest[..5];
      rest := rest[5..];
    }
  }

  /** One callback step keeps the encoder loop's invariant. */
  lemma {:induction false} EncodeStep(consumed: seq<bool>, held: seq<bool>, taken: seq<bool>, rest: seq<bool>, added: seq<bool>)
    requires taken + rest == held + added
    requires |consumed| % 5 == 0 && |taken| % 5 == 0
    ensures (consumed + taken) + rest == (consumed + held) + added
    ensures Chunks5(consumed + taken) == Chunks5(consumed) + Chunks5(taken)
  {
    ConcatShift(consumed, held, taken, rest, added);
    Chunks5Append(consumed, taken);
  }

  /**
   * The encoder: the callback applied to every byte in turn, its outputs
   * concatenated; what is left in the buffer (fewer than 5 bits) becomes
   * one last, zero-padded character.
   */
  method BinBase32(bin: seq<byte>) returns (b32: string)
    ensures b32 == Encode(bin)
  {
    var buff: seq<bool> := [];
    b32 := "";
    ghost var consumed: seq<bool> := [];
    var i := 0;
    while i < |bin|
      invariant 0 <= i <= |bin|
      invariant consumed + buff == BytesToBits(bin[..i])
      invariant |consumed| % 5 == 0 && |buff| < 5
      invariant b32 == Chunks5(consumed)
    {
      ghost var held := buff;
      var out;
      ghost var taken;
      out, buff, taken := EncodeByte(buff, bin[i]);
      BytesToBitsSnoc(bin, i);
      EncodeStep(consumed, held, taken, buff, ToBits(bin[i], 8));
      consumed := consumed + taken;
      b32 := b32 + out;
      i := i + 1;
    }
    assert bin[..i] == bin;
    if |buff| >= 1 {
      EncodeFinal(consumed, buff);
      var v := FromBits(buff + Zeros(5 - |buff|));
      b32 := b32 + [Alphabet[v]];
    } else {
      assert Padded(consumed + buff) == consumed;
    }
  }

  /* ---------------------------------------------------------------- */
  /* Decoder                                                          */
  /* ---------------------------------------------------------------- */

  /** The 5-bit value of an input character, case-insensitively; `None` for a character the decoder skips. */
  function SymbolValue(c: char): Option<nat>
  {
    ValueOf(ToUpper(c))
  }

  /** The bits the decoder appends for one character: 5 for an alphabet character, none otherwise. */
  function CharBits(c: char): (bits: seq<bool>)
    ensures |bits| == if SymbolValue(c).Some? then 5 else 0
  {
    match SymbolValue(c)
    case Some(v) => ToBits(v, 5)
    case None => []
  }

  /** The bits the decoder appends for `s`. */
  function SymbolBits(s: string): seq<bool>
  {
    if |s| == 0 then [] else CharBits(s[0]) + SymbolBits(s[1..])
  }

  /** The decoding of a string: `base32_bin` as a function. */
  function Decode(s: string): seq<byte>
  {
    Regroup8(SymbolBits(s))
  }

  lemma {:induction false} SymbolBitsAppend(x: string, y: string)
    ensures SymbolBits(x + y) == SymbolBits(x) + SymbolBits(y)
  {
    if |x| > 0 {
      assert (x + y)[0] == x[0];
      assert (x + y)[1..] == x[1..] + y;
      SymbolBitsAppend(x[1..], y);
    } else {
      assert x + y == y;
    }
  }

  lemma {:induction false} SymbolBitsSnoc(s: string, i: nat)
    requires i < |s|
    ensures SymbolBits(s[..i + 1]) == SymbolBits(s[..i]) + CharBits(s[i])
  {
    SymbolBitsAppend(s[..i], [s[i]]);
    assert s[..i + 1] == s[..i] + [s[i]];
    assert SymbolBits([s[i]]) == CharBits(s[i]) + SymbolBits([]);
  }

  /** The number of characters of `s` the decoder recognises. */
  function SymbolCount(s: string): nat
  {
    if |s| == 0 then 0 else (if SymbolValue(s[0]).Some? then 1 else 0) + SymbolCount(s[1..])
  }

  /** `s` upper-cased, with every character outside the alphabet removed. */
  function Normalize(s: string): string
  {
    if |s| == 0 then ""
    else (if SymbolValue(s[0]).Some? then [ToUpper(s[0])] else []) + Normalize(s[1..])
  }

  /** `Normalize` keeps exactly the recognised characters, and only alphabet characters. */
  lemma {:induction false} NormalizeShape(s: string)
    ensures |Normalize(s)| == SymbolCount(s)
    ensures forall i :: 0 <= i < |Normalize(s)| ==> Normalize(s)[i] in Alphabet
  {
    if |s| > 0 {
      NormalizeShape(s[1..]);
      var t := Normalize(s);
      if SymbolValue(s[0]).Some? {
        var k := SymbolValue(s[0]).value;
        AlphabetAt(k);
        assert t[0] == Alphabet[k];
        assert forall i :: 1 <= i < |t| ==> t[i] == Normalize(s[1..])[i - 1];
      } else {
        assert t == Normalize(s[1..]);
      }
    }
  }

  /**
   * `base32_bin` of m recognised characters yields floor(5m/8) bytes; the
   * leftover bits are dropped.
   */
  lemma {:induction false} DecodeLength(s: string)
    ensures |SymbolBits(s)| == 5 * SymbolCount(s)
    ensures |Decode(s)| == 5 * SymbolCount(s) / 8
  {
    if |s| > 0 {
      DecodeLength(s[1..]);
    }
  }

  /** The decoder is lenient: only the upper-cased alphabet characters of the input matter. */
  lemma {:induction false} DecodeNormalize(s: string)
    ensures SymbolBits(Normalize(s)) == SymbolBits(s)
    ensures Decode(Normalize(s)) == Decode(s)
  {
    if |s| > 0 {
      DecodeNormalize(s[1..]);
      var head := if SymbolValue(s[0]).Some? then [ToUpper(s[0])] else [];
      SymbolBitsAppend(head, Normalize(s[1..]));
      if SymbolValue(s[0]).Some? {
        assert ToUpper(ToUpper(s[0])) == ToUpper(s[0]);
        assert SymbolBits(head) == CharBits(s[0]) + SymbolBits([]);
      }
    }
  }

  /** Decoding the characters of whole 5-bit groups gives the groups back. */
  lemma {:induction false} SymbolBitsChunks5(p: seq<bool>)
    requires |p| % 5 == 0
    ensures SymbolBits(Chunks5(p)) == p
    decreases |p|
  {
    if |p| > 0 {
      Pow2Values();
      var v := FromBits(p[..5]);
      var c := Char5(p[..5]);
      assert ValueOf(c) == Some(v);
      assert ToUpper(c) == c;
      ToFromBits(p[..5]);
      assert CharBits(c) == p[..5];
      SymbolBitsChunks5(p[5..]);
      assert Chunks5(p) == [c] + Chunks5(p[5..]);
      assert ([c] + Chunks5(p[5..]))[1..] == Chunks5(p[5..]);
      assert p == p[..5] + p[5..];
    }
  }

  /** Round trip: `base32_bin(bin_base32(b)) == b` for every byte string. */
  lemma {:induction false} RoundTrip(bin: seq<byte>)
    ensures Decode(Encode(bin)) == bin
  {
    var bits := BytesToBits(bin);
    var p := Padded(bits);
    calc {
      Decode(Encode(bin));
      Regroup8(SymbolBits(Chunks5(p)));
      { SymbolBitsChunks5(p); }
      Regroup8(p);
      { PaddingDropped(bits); }
      Regroup8(bits);
      { Regroup8Bytes(bin); }
      bin;
    }
  }

  /** The zero bits padding a whole number of bytes to 5-bit groups are fewer than 8, so decoding drops them. */
  lemma {:induction false} PaddingDropped(bits: seq<bool>)
    requires |bits| % 8 == 0
    ensures Regroup8(Padded(bits)) == Regroup8(bits)
  {
    var z := Zeros(Pad5(|bits|));
    Regroup8Append(bits, z);
    assert |Regroup8(z)| == 0;
  }

  /** The first `k` characters of a chunking are the chunking of the first `k` groups. */
  lemma {:induction false} Chunks5Prefix(p: seq<bool>, k: nat)
    requires |p| % 5 == 0 && 5 * k <= |p|
    ensures Chunks5(p)[..k] == Chunks5(p[..5 * k])
  {
    Chunks5Append(p[..5 * k], p[5 * k..]);
    assert p == p[..5 * k] + p[5 * k..];
  }

  /**
   * A prefix of an encoding that carries only data bits (5k ≤ 8n) decodes
   * to the first floor(5k/8) bytes: cutting Base32 text loses the bytes it
   * no longer covers and nothing else.
   */
  lemma {:induction false} DecodeEncodePrefix(bin: seq<byte>, k: nat)
    requires 5 * k <= 8 * |bin|
    ensures k <= |Encode(bin)|
    ensures Decode(Encode(bin)[..k]) == bin[..5 * k / 8]
  {
    var bits := BytesToBits(bin);
    var p := Padded(bits);
    Chunks5Prefix(p, k);
    SymbolBitsChunks5(p[..5 * k]);
    assert p[..5 * k] == bits[..5 * k];
    Regroup8Prefix(bin, 5 * k);
  }

  /**
   * `strpos(ALPHABET, strtoupper(c))`: the 5-bit value of an input
   * character, or `None` (PHP's `false`) for a character to skip.
   */
  method LookUp(c: char) returns (v: Option<nat>)
    ensures v == SymbolValue(c)
  {
    v := IndexOf(Alphabet, ToUpper(c));
    IndexOfAlphabet(ToUpper(c));
  }

  /**
   * The `array_map` callback of `base32_bin` for one character: append the
   * character's 5 bits, if it has any, and once 8 bits are buffered return
   * them as a byte, keeping the rest. The buffer holds fewer than 8 bits
   * before and after, so `str_split($buff, 8)` never has a third piece, and
   * a buffer of exactly 8 bits is left empty. The ghost `taken` is the bits
   * turned into output.
   */
  method DecodeChar(buff: seq<bool>, c: char) returns (out: seq<byte>, rest: seq<bool>, ghost taken: seq<bool>)
    requires |buff| < 8
    ensures |rest| < 8 && |out| <= 1
    ensures taken + rest == buff + CharBits(c)
    ensures |taken| % 8 == 0 && out == Regroup8(taken)
  {
    var v := LookUp(c);
    out, rest, taken := [], buff, [];
    if v.Some? {
      rest := buff + ToBits(v.value, 5);
      if |rest| >= 8 {
        assert |rest| < 16;
        taken := rest[..8];
        Regroup8One(taken);
        out := [FromBits(rest[..8])];
        rest := rest[8..];
      }
    }
  }

  /** One callback step keeps the decoder loop's invariant. */
  lemma {:induction false} DecodeStep(consumed: seq<bool>, held: seq<bool>, taken: seq<bool>, rest: seq<bool>, added: seq<bool>)
    requires taken + rest == held + added
    requires |consumed| % 8 == 0
    ensures (consumed + taken) + rest == (consumed + held) + added
    ensures Regroup8(consumed + taken) == Regroup8(consumed) + Regroup8(taken)
  {
    ConcatShift(consumed, held, taken, rest, added);
    Regroup8Append(consumed, taken);
  }

  /**
   * The decoder: the callback applied to every character of the input in
   * turn, its outputs concatenated (`implode`); leftover bits are dropped.
   */
  method Base32Bin(base32: string) returns (bin: seq<byte>)
    ensures bin == Decode(base32)
  {
    var buff: seq<bool> := [];
    bin := [];
    ghost var consumed: seq<bool> := [];
    var i := 0;
    while i < |base32|
      invariant 0 <= i <= |base32|
      invariant consumed + buff == SymbolBits(base32[..i])
      invariant |consumed| % 8 == 0 && |buff| < 8
      invariant bin == Regroup8(consumed)
    {
      ghost var held := buff;
      var out;
      ghost var taken;
      out, buff, taken := DecodeChar(buff, base32[i]);
      SymbolBitsSnoc(base32, i);
      DecodeStep(consumed, held, taken, buff, CharBits(base32[i]));
      consumed := consumed + taken;
      bin := bin + out;
      i := i + 1;
    }
    assert base32[..i] == base32;
    Regroup8Append(consumed, buff);
  }
}
