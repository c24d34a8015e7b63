# SimpleOTP in Dafny

A model of the PHP class `SimpleOTP` (`src/SimpleOTP.php`), which provides
HOTP/TOTP one-time passwords (RFC 4226 and RFC 6238) with HMAC-SHA1 and 6
digits. The model covers each of its parts:

- the Base32 codec `bin_base32` / `base32_bin` over the alphabet of section
  6 of RFC 4648 (`base32.dfy`, on MSB-first bit strings from `bits.dfy`);
- the code generator `genOTP`, with its 8-byte counter message, dynamic
  truncation and 6-digit zero padding (`hotp.dfy`);
- the instance operations (`simple_otp.dfy`):
  - the secret factories `createSecretBin` / `createSecretBase32`;
  - the provisioning link `createLink`;
  - the TOTP counter `getHOTPCounterForTOTP`;
  - `HOTP` / `TOTP`;
  - the windowed sequence check `checkHOTP` / `checkTOTP`.

The two codec loops and `checkHOTP` change their state step by step. They are
methods with loops, proved against specification functions:

- `Base32.BinBase32` is proved equal to `Encode`, and `Base32.Base32Bin` to
  `Decode`. Each `array_map` callback is its own method (`EncodeByte`,
  `DecodeChar`), and the bit buffer `$buff` is threaded through it.
- `SimpleOtp.CheckHotp` is proved against `CheckOutcome`. That predicate is a
  declarative statement of the search order 0, +1, −1, +2, −2, …, of the first
  hit, and of the backward walk.

The other parts are straight-line expressions and are modelled as
functions.

The object's only field, `$binSecret`, is set once by the constructor. The
object is therefore the datatype `SimpleOtp.Otp`. `fromBin` is its
constructor `Otp(bin)`.

What the PHP code takes from its environment comes in as parameters:

| PHP call | parameter |
|---|---|
| `hash_hmac('sha1', …, true)` | `hmac: Hmac`, a total function from (key, message) to a 20-byte digest |
| `openssl_random_pseudo_bytes` | `random`, the bytes it returns |
| `time()` | `time: nat` |
| `urlencode` | `urlencode: string -> string` |

The bitwise operators of `genOTP` are written arithmetically:

- `& 0xf` is `% 16` and `& 0x7f` is `% 128`;
- `& 0xff` on a byte is the byte itself;
- the `|` of the disjoint shifted fields is their sum.

`Truncate` proves that the result equals the big-endian reading of the masked
window.

In `checkHOTP` the PHP code moves `$counter` to the matched counter. The model
keeps the counter and adds the found difference `d` instead. The by-reference
`$diff` is the out-parameter `diff`, where `None` stands for PHP's `null`.

The time step is fixed at 30 seconds: `getHOTPCounterForTOTP` divides the
time by 30 (src/SimpleOTP.php:49), and the link announces `period=30` (:40).
`checkTOTP` passes its window, counted in steps, to `checkHOTP` (:63-65).

## Model

| member | source | states |
|---|---|---|
| Bits.FromToBits | src/SimpleOTP.php:134-137 | reading back (`bindec` / `base_convert(…, 2, 10)`) the `w`-bit left-zero-padded `decbin` form of `v < 2^w` gives `v` |
| Bits.ToFromBits | src/SimpleOTP.php:113-116 | writing the value of a bit string at its own width gives the bit string back |
| Bits.Regroup8Bytes | src/SimpleOTP.php:113 | cutting the MSB-first bit stream of a byte string (`bin2hex`, `base_convert(…, 16, 2)`, padded to 8) into 8-bit groups gives the bytes back |
| Bits.Regroup8Prefix | src/SimpleOTP.php:135-138 | the whole bytes of the first `n` bits of a byte string's stream are its first `n / 8` bytes |
| Base32.ValueOf | src/SimpleOTP.php:8 | the 5-bit value of an alphabet character, inverse of `Symbol`; `None` exactly for characters outside `ALPHABET` |
| Base32.IndexOf | src/SimpleOTP.php:132 | `strpos`: the first index holding the character, or `None` (PHP `false`) when there is none |
| Base32.IndexOfAlphabet | src/SimpleOTP.php:8 | `strpos(ALPHABET, c)` is the character's 5-bit value |
| Base32.Padded | src/SimpleOTP.php:122-123 | the right zero padding makes a whole number of 5-bit groups, ceil(n/5) of them |
| Base32.EncodeShape | src/SimpleOTP.php:110-127 | `bin_base32` of n bytes has ceil(8n/5) characters; character i is bits 5i..5i+4 of the zero-padded stream; all are from `ALPHABET`; `=` never appears |
| Base32.EncodeGroup | src/SimpleOTP.php:115-119 | a full 5-bit group has a value below 32, so `ALPHABET[$v]` exists and `?? ''` is never used, and it adds exactly its character |
| Base32.EncodeFinal | src/SimpleOTP.php:122-125 | 1 to 4 leftover bits become one character of the right-zero-padded group, again below 32 |
| Base32.EmitGroups | src/SimpleOTP.php:115-119 | the `while (strlen($buff) >= 5)` loop leaves fewer than 5 bits and emits one character per 5-bit group it removed |
| Base32.EncodeByte | src/SimpleOTP.php:112-121 | the encoder callback appends a byte's 8 bits, emits the characters of the whole groups and keeps fewer than 5 bits |
| Base32.BinBase32 | src/SimpleOTP.php:110-127 | the encoder loop computes `Encode(bin)` |
| Base32.CharBits | src/SimpleOTP.php:132-134 | an input character contributes 5 bits when recognised, none otherwise |
| Base32.NormalizeShape | src/SimpleOTP.php:132-142 | upper-casing and dropping unrecognised characters keeps exactly the recognised ones, all in `ALPHABET` |
| Base32.DecodeLength | src/SimpleOTP.php:129-144 | m recognised characters decode to floor(5m/8) bytes; leftover bits are dropped |
| Base32.DecodeNormalize | src/SimpleOTP.php:132-142 | decoding `s` equals decoding `s` upper-cased with all non-alphabet characters removed |
| Base32.SymbolBitsChunks5 | src/SimpleOTP.php:116-134 | reading the characters of whole groups back through `strpos` and `decbin` gives the groups back |
| Base32.PaddingDropped | src/SimpleOTP.php:122-123 | the zero bits that pad a whole number of bytes to 5-bit groups are fewer than 8, so decoding drops them |
| Base32.RoundTrip | src/SimpleOTP.php:110-144 | `base32_bin(bin_base32(b)) == b` for every byte string |
| Base32.DecodeEncodePrefix | src/SimpleOTP.php:110-144 | the first k characters of an encoding (5k ≤ 8n) decode to the first floor(5k/8) bytes |
| Base32.LookUp | src/SimpleOTP.php:132 | `strpos(ALPHABET, strtoupper(c))` is the case-insensitive 5-bit value, `false` for skipped characters |
| Base32.DecodeChar | src/SimpleOTP.php:131-141 | the decoder callback keeps the buffer below 8 bits; 8 buffered bits become one byte and leave the buffer empty; at most one byte per character |
| Base32.Base32Bin | src/SimpleOTP.php:129-144 | the decoder loop computes `Decode(base32)` |
| Hotp.Pack32 | src/SimpleOTP.php:147 | `pack('N', v)` is 4 bytes whose big-endian value is `v` |
| Hotp.Message | src/SimpleOTP.php:147 | the HMAC message is 8 bytes: 4 zero bytes, then the counter mod 2^32 big-endian |
| Hotp.MessageWraps | src/SimpleOTP.php:147 | counters equal modulo 2^32 give the same message |
| Hotp.MessageInjective | src/SimpleOTP.php:147 | within 0..2^32−1, distinct counters give distinct messages |
| Hotp.Offset | src/SimpleOTP.php:149 | the offset is at most 15, so bytes offset..offset+3 lie inside the 20-byte digest |
| Hotp.Truncate | src/SimpleOTP.php:150 | the truncated value is below 2^31 and is the big-endian value of the 4 bytes at the offset with the top bit cleared |
| Hotp.TruncateWindow | src/SimpleOTP.php:149-150 | the truncated value depends only on the offset nibble and the 4 bytes it selects |
| Hotp.DecimalString | src/SimpleOTP.php:151 | an integer's decimal string is non-empty and all digits |
| Hotp.DecimalStringValue | src/SimpleOTP.php:151 | the decimal string spells the number, and a number below 10^k has at most k digits |
| Hotp.PadLeft | src/SimpleOTP.php:151 | `str_pad(s, w, c, STR_PAD_LEFT)` has length max(|s|, w), ends with `s`, and is `c` before it |
| Hotp.DigitsValueLeadingZeros | src/SimpleOTP.php:151 | leading `0` characters do not change the number a digit string spells |
| Hotp.Format | src/SimpleOTP.php:150-151 | a value below 10^6 is formatted as exactly 6 ASCII digits that spell it |
| Hotp.FormatInjective | src/SimpleOTP.php:150-151 | different values below 10^6 give different 6-digit strings |
| Hotp.GenOtp | src/SimpleOTP.php:146-152 | `genOTP` returns 6 ASCII digits spelling the truncated HMAC value mod 10^6 |
| Hotp.GenOtpEqual | src/SimpleOTP.php:146-152 | two counters give the same code iff their truncated values agree mod 10^6 |
| Hotp.GenOtpWraps | src/SimpleOTP.php:147 | the code of a counter repeats every 2^32 counters |
| Hotp.ExampleTruncation | src/SimpleOTP.php:149-150 | section 5.4 of RFC 4226: the example digest gives offset 10 and value 0x50ef7f19 |
| Hotp.ExampleCode | src/SimpleOTP.php:150-151 | section 5.4 of RFC 4226: the example's code is "872921" |
| SimpleOtp.FromBase32 | src/SimpleOTP.php:16-19 | `fromBase32` holds the decoded secret |
| SimpleOtp.CreateSecretBin | src/SimpleOTP.php:34-37 | `createSecretBin` returns max(length, 10) bytes, the front of the random bytes |
| SimpleOtp.SecretBytes | src/SimpleOTP.php:26-27 | the requested byte count ceil(5·max(length,16)/8) is at least 10 and covers that many characters |
| SimpleOtp.CreateSecretBase32 | src/SimpleOTP.php:25-32 | `createSecretBase32` returns exactly max(length, 16) alphabet characters, a prefix of the encoding of the random bytes |
| SimpleOtp.SecretDecodes | src/SimpleOTP.php:25-32 | the generated Base32 secret decodes to the first floor(5·max(length,16)/8) random bytes |
| SimpleOtp.CreateLink | src/SimpleOTP.php:39-41 | the link is, position by position, `otpauth://totp/`, urlencode(issuer), `:`, urlencode(label), `?issuer=`, urlencode(issuer), `&secret=`, the secret, and `&algorithm=SHA1&digits=6&period=30`, and its length is the sum of those parts |
| SimpleOtp.LinkSecret | src/SimpleOTP.php:40 | for one issuer and label, two links are equal iff their secrets are |
| SimpleOtp.LinkQuery | src/SimpleOTP.php:40 | when the encoded issuer and label have no `?`, the first `?` of the link ends the path `issuer:label` |
| SimpleOtp.CounterForTime | src/SimpleOTP.php:46-51 | the counter is the step with counter·30 ≤ t < counter·30 + 30 |
| SimpleOtp.HOTP | src/SimpleOTP.php:67-69 | `HOTP` returns 6 digits spelling the truncated HMAC of the counter mod 10^6 |
| SimpleOtp.TOTP | src/SimpleOTP.php:53-55 | `TOTP` at time t is the HOTP code of the one 30-second step containing t |
| SimpleOtp.Window | src/SimpleOTP.php:86 | the window is min(max_diff, 50) |
| SimpleOtp.RankInjective | src/SimpleOTP.php:83-98 | the search order 0, +1, −1, +2, −2, … gives every difference its own place, so "first in search order" is well defined |
| SimpleOtp.SearchLast | src/SimpleOTP.php:82-99 | the anchor search returns the first matching difference in the order 0, +1, −1, … within the window (none for a negative counter), or reports that no tried difference matches |
| SimpleOtp.WalkBackFrom | src/SimpleOTP.php:104-107 | the backward walk accepts iff each earlier code is the code of the counter one below the next |
| SimpleOtp.CheckHotp | src/SimpleOTP.php:78-108 | `checkHOTP` meets `CheckOutcome`: empty input gives false and diff 0; an anchor miss gives false and null; otherwise diff is the first hit and the result is the backward walk's |
| SimpleOtp.FirstHitUnique | src/SimpleOTP.php:87-99 | the tie-break order makes the first hit unique |
| SimpleOtp.CheckOutcomeUnique | src/SimpleOTP.php:78-108 | the specification admits exactly one result and one `$diff` |
| SimpleOtp.DiffBound | src/SimpleOTP.php:86-99 | a reported diff has magnitude at most 50 and at most max_diff; a non-zero one needs a non-negative counter |
| SimpleOtp.NoWindow | src/SimpleOTP.php:83-87 | with max_diff ≤ 0 or a negative counter, only the counter itself is tried: acceptance needs the last code to match it |
| SimpleOtp.Accepted | src/SimpleOTP.php:100-107 | an accepted sequence is the codes of consecutive counters ending at counter + diff |
| SimpleOtp.AcceptExact | src/SimpleOTP.php:78-108 | the codes of the counters ending at the counter itself are accepted with diff 0 |
| SimpleOtp.CheckTotp | src/SimpleOTP.php:63-65 | `checkTOTP` is `checkHOTP` from the step containing the given time |

## Left out

- HMAC-SHA1, the random generator, the clock and `urlencode` are parameters (see above). The test vectors in Appendix D of RFC 4226 need a real SHA-1 and are not stated. The worked truncation example of section 5.4 is stated.
- CreateSecretBin: requires at least max(length, 10) random bytes. The generator is assumed never to fail; `openssl_random_pseudo_bytes` failing is not modelled.
- BinBase32: the empty byte string encodes to "". This is PHP 8.2 and later, where `str_split('')` is `[]`. Before 8.2, `['']` makes the encoder return "AA".
- Base32Bin: the model decodes characters, while PHP splits bytes. A non-ASCII character is skipped in both, because none of its bytes is in the alphabet. `strtoupper` is ASCII-only, as in PHP 8.2 and later. Earlier versions used the locale.
- The undefined-key warning from `list($v, $buff) = str_split($buff, 8)` on exactly 8 bits is not modelled. Only its effect is: the buffer is left empty.
- Integers are unbounded. PHP's overflow of `$counter + $diff` to a float near `PHP_INT_MAX` is not modelled.
- CounterForTime: `intval(time() / 30)` goes through a float; it is modelled as integer division of a non-negative time.
- SecretBytes: `ceil($length * 5 / 8)` goes through a float; it is modelled as integer ceiling.
- Default argument values are not modelled; callers pass every argument.
- Truncate: the bitwise `&`, `<<` and `|` of `genOTP` are written as `%`, multiplication and addition (see above). They are not modelled on 32-bit words.
