/**
 * The `SimpleOTP` class: an object holding a binary secret, the secret and
 * link factories, the code generators `HOTP`/`TOTP` and the verifiers
 * `checkHOTP`/`checkTOTP`.
 *
 * The object never changes after construction, so it is a datatype. The
 * environment enters as parameters: `hmac` for HMAC-SHA1, `random` for the
 * bytes `openssl_random_pseudo_bytes` returns, `time` for `time()` and
 * `urlencode` for PHP's `urlencode`.
 */
module SimpleOtp {
  import opened Wrappers
  import opened Bits
  import opened Base32
  import opened Hotp

  /** A `SimpleOTP` instance (`fromBin` is the constructor itself). */
  datatype Otp = Otp(binSecret: seq<byte>)

  /** `fromBase32`: the instance whose secret is the decoded Base32 text. */
  method FromBase32(base32: string) returns (otp: Otp)
    ensures otp.binSecret == Decode(base32)
  {
    var binSecret := Base32Bin(base32);
    otp := Otp(binSecret);
  }

  function Max(a: int, b: int): int
  {
    if a >= b then a else b
  }

  function Min(a: int, b: int): int
  {
    if a <= b then a else b
  }

  function Abs(x: int): nat
  {
    if x < 0 then -x else x
  }

  /* ---------------------------------------------------------------- */
  /* Secrets                                                          */
  /* ---------------------------------------------------------------- */

  /**
   * `createSecretBin($length)`: `max($length, 10)` random bytes, taken from
   * the front of `random`.
   */
  function CreateSecretBin(length: int, random: seq<byte>): (secret: seq<byte>)
    requires |random| >= Max(length, 10)
    ensures |secret| >= 10 && |secret| >= length
    ensures |secret| == 10 || |secret| == length
    ensures secret <= random
  {
    random[..Max(length, 10)]
  }

  /** `ceil($length * 5 / 8)` for the length after `max($length, 16)`: bytes enough for that many characters. */
  function SecretBytes(length: int): (n: nat)
    ensures n >= 10
    ensures 5 * Max(length, 16) <= 8 * n < 5 * Max(length, 16) + 8
  {
    (5 * Max(length, 16) + 7) / 8
  }

  /**
   * `createSecretBase32($length)`: `max($length, 16)` Base32 characters,
   * the encoding of `SecretBytes(length)` random bytes cut to that length.
   */
  function CreateSecretBase32(length: int, random: seq<byte>): (val: string)
    requires |random| >= SecretBytes(length)
    ensures |val| == Max(length, 16)
    ensures val <= Encode(CreateSecretBin(SecretBytes(length), random))
    ensures forall i :: 0 <= i < |val| ==> val[i] in Alphabet
  {
    var bin := CreateSecretBin(SecretBytes(length), random);
    var full := Encode(bin);
    var l := Max(length, 16);
    EncodeShape(bin);
    var val := if |full| > l then full[..l] else full;
    assert forall i :: 0 <= i < |val| ==> val[i] == full[i];
    val
  }

  /**
   * The generated Base32 secret decodes to the first `5 * length / 8`
   * random bytes: the characters carry exactly those bits, and the
   * `5 * length % 8` bits after them are dropped.
   */
  lemma {:induction false} SecretDecodes(length: int, random: seq<byte>)
    requires |random| >= SecretBytes(length)
    ensures var l := Max(length, 16);
            Decode(CreateSecretBase32(length, random)) == random[..5 * l / 8]
  {
    var l := Max(length, 16);
    var bin := CreateSecretBin(SecretBytes(length), random);
    var val := CreateSecretBase32(length, random);
    DecodeEncodePrefix(bin, l);
    assert val == Encode(bin)[..l];
    assert bin[..5 * l / 8] == random[..5 * l / 8];
  }

  /* ---------------------------------------------------------------- */
  /* Provisioning link                                                */
  /* ---------------------------------------------------------------- */

  const Scheme: string := "otpauth://totp/"
  const Params: string := "&algorithm=SHA1&digits=6&period=30"

  /** The time step of `getHOTPCounterForTOTP`, also announced as `period=30` in the link. */
  const Period: nat := 30

  /**
   * `createLink($base32, $issuer, $label)`: the `otpauth://totp/` URI with
   * the issuer and label URL-encoded, the secret as given, and fixed
   * algorithm, digits and period.
   */
  function CreateLink(base32: string, issuer: string, accountLabel: string, urlencode: string -> string): (link: string)
    ensures |link| >= |Scheme| + |Params| + |base32| && link[..|Scheme|] == Scheme
    ensures link[|link| - |Params|..] == Params
    ensures link[|link| - |Params| - |base32| - 8 .. |link| - |Params|] == "&secret=" + base32
    ensures var e := urlencode(issuer);
            var path := Scheme + e + ":" + urlencode(accountLabel);
            |link| == |path| + 8 + |e| + 8 + |base32| + |Params| &&
            link[..|path|] == path && link[|path| .. |path| + 8 + |e|] == "?issuer=" + e
  {
    var path := Scheme + urlencode(issuer) + ":" + urlencode(accountLabel);
    var query := "?issuer=" + urlencode(issuer) + ("&secret=" + base32) + Params;
    path + query
  }

  /** For one issuer and label, the link determines the secret. */
  lemma {:induction false} LinkSecret(a: string, b: string, issuer: string, accountLabel: string, urlencode: string -> string)
    ensures CreateLink(a, issuer, accountLabel, urlencode) == CreateLink(b, issuer, accountLabel, urlencode) <==> a == b
  {
    var la := CreateLink(a, issuer, accountLabel, urlencode);
    var lb := CreateLink(b, issuer, accountLabel, urlencode);
    if la == lb {
      assert |a| == |b|;
      var sa := la[|la| - |Params| - |a| - 8 .. |la| - |Params|];
      assert sa == "&secret=" + a && sa == "&secret=" + b;
      assert a == sa[8..] == b;
    }
  }

  /**
   * When `urlencode` leaves no `?` in the issuer and the label (PHP's
   * escapes it as `%3F`), the first `?` of the link ends the path
   * `issuer:label`.
   */
  lemma {:induction false} LinkQuery(base32: string, issuer: string, accountLabel: string, urlencode: string -> string)
    requires '?' !in urlencode(issuer) && '?' !in urlencode(accountLabel)
    ensures var path := Scheme + urlencode(issuer) + ":" + urlencode(accountLabel);
            var link := CreateLink(base32, issuer, accountLabel, urlencode);
            |path| < |link| && link[..|path|] == path && IndexOf(link, '?') == Some(|path|)
  {
    var path := Scheme + urlencode(issuer) + ":" + urlencode(accountLabel);
    var query := "?issuer=" + urlencode(issuer) + ("&secret=" + base32) + Params;
    assert '?' !in Scheme;
    IndexOfSplit(path, query, '?');
  }

  /** The first `c` in `a + b`, when `a` has none and `b` starts with one, is where `b` starts. */
  lemma {:induction false} IndexOfSplit(a: string, b: string, c: char)
    requires c !in a && |b| > 0 && b[0] == c
    ensures (a + b)[..|a|] == a && IndexOf(a + b, c) == Some(|a|)
  {
  }

  /* ---------------------------------------------------------------- */
  /* Code generation                                                  */
  /* ---------------------------------------------------------------- */

  /**
   * `getHOTPCounterForTOTP()` at time `time` (seconds since the epoch):
   * the index of the 30-second step containing `time`.
   */
  function CounterForTime(time: nat): (counter: nat)
    ensures counter * Period <= time < counter * Period + Period
  {
    time / Period
  }

  /** `HOTP($counter)`: the 6-digit code of the counter under the instance's secret. */
  function HOTP(hmac: Hmac, otp: Otp, counter: int): (code: string)
    ensures |code| == Digits && IsDigits(code)
    ensures DigitsValue(code) == Truncate(hmac(otp.binSecret, Message(counter))) % Modulus
  {
    GenOtp(hmac, otp.binSecret, counter)
  }

  /** `TOTP()` at time `time`: the HOTP code of the 30-second step containing `time`. */
  function TOTP(hmac: Hmac, otp: Otp, time: nat): (code: string)
    ensures forall step: nat :: step * Period <= time < step * Period + Period ==>
              code == HOTP(hmac, otp, step)
  {
    var step := CounterForTime(time);
    StepUnique(time, step);
    HOTP(hmac, otp, step)
  }

  /** Exactly one step contains a given time. */
  lemma {:induction false} StepUnique(time: nat, step: nat)
    requires step * Period <= time < step * Period + Period
    ensures forall s: nat :: s * Period <= time < s * Period + Period ==> s == step
  {
  }

  /* ---------------------------------------------------------------- */
  /* Verification (`checkHOTP`)                                       */
  /* ---------------------------------------------------------------- */

  /** The code of every counter under a secret: `genOTP($binSecret, ·)`. */
  function Codes(hmac: Hmac, secret: seq<byte>): int -> string
  {
    c => GenOtp(hmac, secret, c)
  }

  /** The largest counter difference searched: `min($max_diff, 50)`. */
  function Window(maxDiff: int): (m: int)
    ensures m <= 50 && m <= maxDiff
    ensures m == 50 || m == maxDiff
  {
    Min(maxDiff, 50)
  }

  /** The position of a difference in the search order 0, +1, -1, +2, -2, … */
  function Rank(d: int): (r: nat)
    ensures (d > 0 ==> r == 2 * d - 1) && (d < 0 ==> r == 2 * Abs(d)) && (d == 0 <==> r == 0)
  {
    if d == 0 then 0 else if d > 0 then 2 * d - 1 else 2 * Abs(d)
  }

  /** Different differences have different places in the search order. */
  lemma {:induction false} RankInjective(d: int, e: int)
    ensures Rank(d) == Rank(e) <==> d == e
  {
  }

  /**
   * The differences `checkHOTP` tries for the last code: 0 always; and
   * 1 ≤ |d| ≤ `min(max_diff, 50)` when the counter is not negative
   * (with a negative counter the guard `$counter + $diff > 0` stops the
   * search at once).
   */
  predicate Tried(counter: int, maxDiff: int, d: int)
  {
    d == 0 || (counter >= 0 && 1 <= Abs(d) <= Window(maxDiff))
  }

  /** `d` is the first difference in search order at which `code` matches. */
  ghost predicate FirstHit(gen: int -> string, counter: int, maxDiff: int, code: string, d: int)
  {
    Tried(counter, maxDiff, d) && code == gen(counter + d) &&
    forall e :: Tried(counter, maxDiff, e) && Rank(e) < Rank(d) ==> code != gen(counter + e)
  }

  /** No tried difference matches `code`. */
  ghost predicate NoHit(gen: int -> string, counter: int, maxDiff: int, code: string)
  {
    forall e :: Tried(counter, maxDiff, e) ==> code != gen(counter + e)
  }

  /** The codes before the last one are those of the counters just below `last`, in order. */
  predicate WalkBack(gen: int -> string, last: int, earlier: seq<string>)
  {
    forall j :: 0 <= j < |earlier| ==> earlier[j] == gen(last - (|earlier| - j))
  }

  /**
   * What `checkHOTP` returns (`ok`) and leaves in `$diff` (`diff`, `None`
   * for `null`): no codes gives `false` and 0; a last code that matches no
   * tried counter gives `false` and `null`; otherwise `diff` is the first
   * matching difference, and the result says whether the earlier codes
   * are those of the counters just before the matched one.
   */
  ghost predicate CheckOutcome(gen: int -> string, counter: int, maxDiff: int, codes: seq<string>,
                         ok: bool, diff: Option<int>)
  {
    if |codes| == 0 then !ok && diff == Some(0)
    else
      var code := codes[|codes| - 1];
      if NoHit(gen, counter, maxDiff, code) then !ok && diff.None?
      else diff.Some? && FirstHit(gen, counter, maxDiff, code, diff.value) &&
           (ok <==> WalkBack(gen, counter + diff.value, codes[..|codes| - 1]))
  }

  /** No tried difference ranked below `r` matches `code`. */
  ghost predicate MissedBelow(gen: int -> string, counter: int, maxDiff: int, code: string, r: int)
  {
    forall e :: Tried(counter, maxDiff, e) && Rank(e) < r ==> code != gen(counter + e)
  }

  /** Missing at +d and -d extends the misses to the next rank. */
  lemma {:induction false} SearchStep(gen: int -> string, counter: int, maxDiff: int, code: string, d: int)
    requires d >= 1 && MissedBelow(gen, counter, maxDiff, code, 2 * d - 1)
    requires code != gen(counter + d) && code != gen(counter - d)
    ensures MissedBelow(gen, counter, maxDiff, code, 2 * (d + 1) - 1)
  {
  }

  /** Misses below every tried rank: nothing matches. */
  lemma {:induction false} SearchExhausted(gen: int -> string, counter: int, maxDiff: int, code: string, r: int)
    requires MissedBelow(gen, counter, maxDiff, code, r)
    requires r >= 1 && (r > 2 * Window(maxDiff) || counter < 0 || Window(maxDiff) <= 0)
    ensures NoHit(gen, counter, maxDiff, code)
  {
  }

  /**
   * The search for the last code (the `while(++$diff…)` loop of
   * `checkHOTP`): try the counter itself, then, if the window is positive,
   * +1, -1, +2, -2, … up to the window while `counter + d > 0`. The PHP
   * code moves `$counter` to the matched counter; here the caller adds `d`.
   */
  method SearchLast(gen: int -> string, counter: int, maxDiff: int, code: string)
    returns (found: bool, d: int)
    ensures found ==> FirstHit(gen, counter, maxDiff, code, d)
    ensures !found ==> NoHit(gen, counter, maxDiff, code)
  {
    found := code == gen(counter);
    d := 0;
    var m := Window(maxDiff);
    if !found && m > 0 {
      d := 1;
      while d <= m && counter + d > 0
        invariant 1 <= d <= m + 1 && !found
        invariant counter >= 0 || d == 1
        invariant MissedBelow(gen, counter, maxDiff, code, 2 * d - 1)
        decreases m - d
      {
        if code == gen(counter + d) {
          found := true;
          return;
        }
        if code == gen(counter - d) {
          d := -d;
          found := true;
          return;
        }
        SearchStep(gen, counter, maxDiff, code, d);
        d := d + 1;
      }
      SearchExhausted(gen, counter, maxDiff, code, 2 * d - 1);
    } else if !found {
      SearchExhausted(gen, counter, maxDiff, code, 1);
    }
  }

  /**
   * The walk over the earlier codes (the `foreach(array_reverse(…))` loop of
   * `checkHOTP`): each must be the code of the counter one below the
   * previous one, starting below `last`; the first mismatch ends the walk.
   */
  method WalkBackFrom(gen: int -> string, last: int, earlier: seq<string>) returns (ok: bool)
    ensures ok <==> WalkBack(gen, last, earlier)
  {
    var counter := last;
    var k := |earlier|;
    while k > 0
      invariant 0 <= k <= |earlier|
      invariant counter == last - (|earlier| - k)
      invariant forall j :: k <= j < |earlier| ==> earlier[j] == gen(last - (|earlier| - j))
    {
      k := k - 1;
      counter := counter - 1;
      if earlier[k] != gen(counter) {
        return false;
      }
    }
    return true;
  }

  /**
   * `checkHOTP($counter, $max_diff, $diff, ...$otp_seq)`: search for the
   * last code around the counter, in the order 0, +1, -1, +2, -2, …, then
   * walk the other codes back from the matched counter.
   */
  method CheckHotp(hmac: Hmac, otp: Otp, counter: int, maxDiff: int, codes: seq<string>)
    returns (ok: bool, diff: Option<int>)
    ensures CheckOutcome(Codes(hmac, otp.binSecret), counter, maxDiff, codes, ok, diff)
  {
    if |codes| == 0 {
      return false, Some(0);
    }
    var code := codes[|codes| - 1];
    var gen := Codes(hmac, otp.binSecret);
    var found, d := SearchLast(gen, counter, maxDiff, code);
    if !found {
      return false, None;
    }
    diff := Some(d);
    ok := WalkBackFrom(gen, counter + d, codes[..|codes| - 1]);
  }

  /** At most one difference is the first hit. */
  lemma {:induction false} FirstHitUnique(gen: int -> string, counter: int, maxDiff: int, code: string, d: int, e: int)
    requires FirstHit(gen, counter, maxDiff, code, d) && FirstHit(gen, counter, maxDiff, code, e)
    ensures d == e
  {
  }

  /** `checkHOTP` is a function of its inputs: one result and one `$diff` satisfy the specification. */
  lemma {:induction false} CheckOutcomeUnique(gen: int -> string, counter: int, maxDiff: int, codes: seq<string>,
                                              ok1: bool, diff1: Option<int>, ok2: bool, diff2: Option<int>)
    requires CheckOutcome(gen, counter, maxDiff, codes, ok1, diff1)
    requires CheckOutcome(gen, counter, maxDiff, codes, ok2, diff2)
    ensures ok1 == ok2 && diff1 == diff2
  {
  }

  /**
   * The reported difference is within 50 and within `max_diff`; a non-zero
   * one needs a non-negative counter.
   */
  lemma {:induction false} DiffBound(gen: int -> string, counter: int, maxDiff: int, codes: seq<string>,
                                     ok: bool, diff: Option<int>)
    requires CheckOutcome(gen, counter, maxDiff, codes, ok, diff)
    requires diff.Some?
    ensures Abs(diff.value) <= 50
    ensures diff.value != 0 ==> counter >= 0 && Abs(diff.value) <= maxDiff
  {
  }

  /** With `max_diff <= 0` (or a negative counter) only the counter itself is tried. */
  lemma {:induction false} NoWindow(gen: int -> string, counter: int, maxDiff: int, codes: seq<string>,
                                    ok: bool, diff: Option<int>)
    requires CheckOutcome(gen, counter, maxDiff, codes, ok, diff)
    requires maxDiff <= 0 || counter < 0
    ensures ok ==> diff == Some(0) && codes[|codes| - 1] == gen(counter)
    ensures |codes| > 0 && codes[|codes| - 1] != gen(counter) ==> !ok && diff.None?
  {
  }

  /**
   * An accepted sequence is the codes of consecutive counters, the last one
   * at `counter + diff`.
   */
  lemma {:induction false} Accepted(gen: int -> string, counter: int, maxDiff: int, codes: seq<string>,
                                    ok: bool, diff: Option<int>)
    requires CheckOutcome(gen, counter, maxDiff, codes, ok, diff)
    requires ok
    ensures diff.Some? && |codes| > 0
    ensures forall j :: 0 <= j < |codes| ==> codes[j] == gen(counter + diff.value - (|codes| - 1 - j))
  {
  }

  /**
   * The codes of the counters up to and including `counter` itself are
   * accepted with `diff = 0`, whatever the window.
   */
  lemma {:induction false} AcceptExact(gen: int -> string, counter: int, maxDiff: int, codes: seq<string>,
                                       ok: bool, diff: Option<int>)
    requires CheckOutcome(gen, counter, maxDiff, codes, ok, diff)
    requires |codes| > 0
    requires forall j :: 0 <= j < |codes| ==> codes[j] == gen(counter - (|codes| - 1 - j))
    ensures ok && diff == Some(0)
  {
    var n := |codes|;
    var code := codes[n - 1];
    assert code == gen(counter + 0);
    assert FirstHit(gen, counter, maxDiff, code, 0);
    FirstHitUnique(gen, counter, maxDiff, code, diff.value, 0);
    var earlier := codes[..n - 1];
    forall j | 0 <= j < |earlier|
      ensures earlier[j] == gen(counter + 0 - (|earlier| - j))
    {
      assert earlier[j] == codes[j];
    }
  }

  /** `checkTOTP($max_diff, $diff, ...$otp_seq)` at time `time`: `checkHOTP` from the current step. */
  method CheckTotp(hmac: Hmac, otp: Otp, time: nat, maxDiff: int, codes: seq<string>)
    returns (ok: bool, diff: Option<int>)
    ensures CheckOutcome(Codes(hmac, otp.binSecret), CounterForTime(time), maxDiff, codes, ok, diff)
  {
    ok, diff := CheckHotp(hmac, otp, CounterForTime(time), maxDiff, codes);
  }
}
