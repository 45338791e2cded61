/**
 * libeos-payg-codes/codes.c: a code packs a 5-bit period, an 8-bit counter and
 * a 13-bit signature into 26 bits, and is shown to the user as eight digits.
 * HMAC-SHA-1 is an arbitrary function to 20-byte digests.
 */
module Codes {
  import opened Integers
  import opened Wrappers

  const SIGN_SPAN: int := 0x2000        // 1 << SIGN_WIDTH_BITS
  const COUNTER_SPAN: int := 0x100      // 1 << COUNTER_WIDTH_BITS
  const PERIOD_SPAN: int := 0x20        // 1 << PERIOD_WIDTH_BITS
  const MESSAGE_SPAN: int := 0x20_0000  // 1 << (COUNTER_WIDTH_BITS + SIGN_WIDTH_BITS)
  const CODE_SPAN: int := 0x400_0000    // 1 << CODE_VALUE_WIDTH_BITS
  const CODE_STR_WIDTH_DIGITS: nat := 8
  const KEY_LENGTH_BYTES_MINIMUM: nat := 64

  const PERIOD_INFINITE: int := 31

  type Digest = d: seq<byte> | |d| == 20 witness seq(20, _ => 0)
  type Hmac = (seq<byte>, seq<byte>) -> Digest

  datatype CodeError = InvalidPeriod | InvalidKey | InvalidCode | InvalidSignature

  /** What a verified code says. */
  datatype Message = Message(period: int, counter: int)

  /** The enumeration has the values 0 to 25 and 31; 26 to 30 are holes. */
  predicate ValidPeriod(period: int) {
    0 <= period <= 25 || period == PERIOD_INFINITE
  }

  predicate ValidKey(key: seq<byte>) {
    |key| >= KEY_LENGTH_BYTES_MINIMUM
  }

  predicate CodeValidate(code: uint32) {
    code / CODE_SPAN == 0 && code < 100_000_000
  }

  /** The last thirteen bits of the digest. */
  function Sign(hmac: Hmac, key: seq<byte>, period: byte, counter: byte): int {
    var digest := hmac(key, [period, counter]);
    (digest[18] * 256 + digest[19]) % SIGN_SPAN
  }

  function CalculateCode(hmac: Hmac, key: seq<byte>, period: byte, counter: byte): Result<uint32, CodeError> {
    if !ValidPeriod(period) then Failure(InvalidPeriod)
    else if !ValidKey(key) then Failure(InvalidKey)
    else
      // The three fields do not overlap, so the bitwise or of the C code is a sum.
      Success(period * MESSAGE_SPAN + counter * SIGN_SPAN + Sign(hmac, key, period, counter))
  }

  function VerifyCode(hmac: Hmac, key: seq<byte>, code: uint32): Result<Message, CodeError> {
    if !CodeValidate(code) then Failure(InvalidCode)
    else if !ValidKey(key) then Failure(InvalidKey)
    else
      var period := (code / MESSAGE_SPAN) % PERIOD_SPAN;
      var counter := (code / SIGN_SPAN) % COUNTER_SPAN;
      match CalculateCode(hmac, key, period, counter)
      case Failure(error) => Failure(error)
      case Success(check) =>
        if check != code then Failure(InvalidSignature) else Success(Message(period, counter))
  }

  /** The fields can be read back from a packed value. */
  lemma Unpack(period: int, counter: int, sign: int)
    requires 0 <= period < PERIOD_SPAN && 0 <= counter < COUNTER_SPAN && 0 <= sign < SIGN_SPAN
    ensures var code := period * MESSAGE_SPAN + counter * SIGN_SPAN + sign;
            && 0 <= code < CODE_SPAN
            && code / MESSAGE_SPAN == period
            && (code / SIGN_SPAN) % COUNTER_SPAN == counter
  {
    var code := period * MESSAGE_SPAN + counter * SIGN_SPAN + sign;
    assert code / SIGN_SPAN == period * COUNTER_SPAN + counter;
  }

  /**
   * Verification accepts exactly the codes that calculation produces, and
   * reports exactly the period and counter they were calculated from.
   */
  lemma VerifyIffCalculated(hmac: Hmac, key: seq<byte>, code: uint32, period: byte, counter: byte)
    ensures VerifyCode(hmac, key, code) == Success(Message(period, counter))
       <==> CalculateCode(hmac, key, period, counter) == Success(code)
  {
    if ValidPeriod(period) && ValidKey(key) {
      Unpack(period, counter, Sign(hmac, key, period, counter));
    }
  }

  /** The layout of a code in bits: five of the period, eight of the counter, and the last thirteen of the digest. */
  lemma CodeLayout(hmac: Hmac, key: seq<byte>, period: byte, counter: byte)
    requires CalculateCode(hmac, key, period, counter).Success?
    ensures var code, digest := CalculateCode(hmac, key, period, counter).value, hmac(key, [period, counter]);
            && code / 2_097_152 == period && (code / 8192) % 256 == counter
            && (code / 256) % 32 == digest[18] % 32 && code % 256 == digest[19]
  {
    var digest := hmac(key, [period, counter]);
    SignLayout(period, counter, digest[18], digest[19]);
  }

  lemma SignLayout(period: int, counter: int, high: byte, low: byte)
    requires 0 <= period < 32 && 0 <= counter < 256
    ensures var sign := (high * 256 + low) % 8192;
            var code := period * 2_097_152 + counter * 8192 + sign;
            && sign == (high % 32) * 256 + low
            && code / 2_097_152 == period && (code / 8192) % 256 == counter
            && (code / 256) % 32 == high % 32 && code % 256 == low
  {
    LastThirteenBits(high, low);
    Unpack(period, counter, (high % 32) * 256 + low);
    LowBits(period * 256 + counter, high % 32, low);
  }

  lemma LastThirteenBits(high: byte, low: byte)
    ensures (high * 256 + low) % 8192 == (high % 32) * 256 + low
  {
    assert high * 256 + low == (high / 32) * 8192 + (high % 32) * 256 + low;
  }

  lemma LowBits(message: nat, high: nat, low: byte)
    requires high < 32
    ensures var code := message * 8192 + high * 256 + low;
            (code / 256) % 32 == high && code % 256 == low
  {
    var code := message * 8192 + high * 256 + low;
    assert code / 256 == message * 32 + high;
  }

  /** When calculation fails, and how. */
  lemma CalculateFailsIff(hmac: Hmac, key: seq<byte>, period: byte, counter: byte)
    ensures var r := CalculateCode(hmac, key, period, counter);
            && (r == Failure(InvalidPeriod) <==> 26 <= period && period != 31)
            && (r == Failure(InvalidKey) <==> (period <= 25 || period == 31) && |key| < 64)
            && (r.Failure? ==> r.error == InvalidPeriod || r.error == InvalidKey)
  {
  }

  /**
   * Which values are signed: those of 26 bits whose period is one of the 27 and whose
   * low thirteen bits are those of the digest of their own period and counter; and
   * what is wrong with any other value.
   */
  lemma VerifiesIffSigned(hmac: Hmac, key: seq<byte>, code: uint32)
    ensures var period, counter, r := code / 2_097_152, (code / 8192) % 256, VerifyCode(hmac, key, code);
            && (r == Failure(InvalidCode) <==> code >= 67_108_864)
            && (r == Failure(InvalidKey) <==> code < 67_108_864 && |key| < 64)
            && (code < 67_108_864 && |key| >= 64 ==>
                  var digest := hmac(key, [period, counter]);
                  var signed := (code / 256) % 32 == digest[18] % 32 && code % 256 == digest[19];
                  && (r == Failure(InvalidPeriod) <==> 26 <= period <= 30)
                  && (r == Failure(InvalidSignature) <==> !(26 <= period <= 30) && !signed)
                  && (r == Success(Message(period, counter)) <==> !(26 <= period <= 30) && signed))
  {
    if code < 67_108_864 && |key| >= 64 {
      var period, counter := code / 2_097_152, (code / 8192) % 256;
      var digest := hmac(key, [period, counter]);
      SignLayout(period, counter, digest[18], digest[19]);
      FieldsDetermine(code, digest[18], digest[19]);
    }
  }

  /** A value is the sum of its fields. */
  lemma FieldsDetermine(code: uint32, high: byte, low: byte)
    requires code < 67_108_864
    ensures code == (code / 2_097_152) * 2_097_152 + ((code / 8192) % 256) * 8192 + (high * 256 + low) % 8192 <==>
            (code / 256) % 32 == high % 32 && code % 256 == low
  {
    SignLayout(code / 2_097_152, (code / 8192) % 256, high, low);
    assert code / 256 == 32 * (code / 8192) + (code / 256) % 32;
    assert code / 8192 == 256 * (code / 2_097_152) + (code / 8192) % 256;
  }

  /** Codes grow with the period and, for one period, with the counter. */
  lemma CalculateIncreasing(hmac: Hmac, key: seq<byte>, p: byte, c: byte, p': byte, c': byte)
    requires ValidKey(key) && ValidPeriod(p) && ValidPeriod(p')
    requires p < p' || (p == p' && c < c')
    ensures CalculateCode(hmac, key, p, c).value < CalculateCode(hmac, key, p', c').value
  {
    Unpack(p, c, Sign(hmac, key, p, c));
    Unpack(p', c', Sign(hmac, key, p', c'));
  }

  function AcceptedCodes(hmac: Hmac, key: seq<byte>): set<uint32> {
    set code: int | 0 <= code <= MAX_UINT32 && VerifyCode(hmac, key, code).Success? :: code
  }

  /** The n-th (period, counter) pair in increasing order. */
  function NthCode(hmac: Hmac, key: seq<byte>, n: nat): uint32
    requires ValidKey(key) && n < 27 * COUNTER_SPAN
  {
    CalculateCode(hmac, key, NthPeriod(n / COUNTER_SPAN), n % COUNTER_SPAN).value
  }

  function NthPeriod(i: nat): byte
    requires i < 27
  {
    if i < 26 then i else PERIOD_INFINITE
  }

  lemma {:induction false} NthCodesAreDistinct(hmac: Hmac, key: seq<byte>, n: nat, codes: set<uint32>)
    requires ValidKey(key) && n <= 27 * COUNTER_SPAN
    requires codes == set i | 0 <= i < n :: NthCode(hmac, key, i)
    ensures |codes| == n
  {
    if n == 0 {
    } else {
      var below := set i | 0 <= i < n - 1 :: NthCode(hmac, key, i);
      NthCodesAreDistinct(hmac, key, n - 1, below);
      var last := NthCode(hmac, key, n - 1);
      forall i | 0 <= i < n - 1
        ensures NthCode(hmac, key, i) < last
      {
        CalculateIncreasing(hmac, key, NthPeriod(i / COUNTER_SPAN), i % COUNTER_SPAN,
                            NthPeriod((n - 1) / COUNTER_SPAN), (n - 1) % COUNTER_SPAN);
      }
      assert codes == below + {last};
    }
  }

  /** Whatever the hash and the key, exactly 27 * 256 of the 2^32 values are accepted. */
  lemma AcceptedCodesCount(hmac: Hmac, key: seq<byte>)
    requires ValidKey(key)
    ensures |AcceptedCodes(hmac, key)| == 27 * COUNTER_SPAN
  {
    var codes := set i | 0 <= i < 27 * COUNTER_SPAN :: NthCode(hmac, key, i);
    NthCodesAreDistinct(hmac, key, 27 * COUNTER_SPAN, codes);
    forall code: uint32 | code in AcceptedCodes(hmac, key)
      ensures code in codes
    {
      var message := VerifyCode(hmac, key, code).value;
      var i := if message.period == PERIOD_INFINITE then 26 else message.period;
      assert NthCode(hmac, key, i * COUNTER_SPAN + message.counter) == code;
    }
    forall i | 0 <= i < 27 * COUNTER_SPAN
      ensures NthCode(hmac, key, i) in AcceptedCodes(hmac, key)
    {
      VerifyIffCalculated(hmac, key, NthCode(hmac, key, i), NthPeriod(i / COUNTER_SPAN), i % COUNTER_SPAN);
    }
    assert AcceptedCodes(hmac, key) == codes;
  }

  // ----- Text form -----

  /** The decimal digits of n, most significant first, padded with zeros. */
  function Digits(n: nat, width: nat): (s: string)
    ensures |s| == width
  {
    if width == 0 then [] else Digits(n / 10, width - 1) + ['0' + (n % 10) as char]
  }

  predicate IsDigit(c: char) {
    '0' <= c <= '9'
  }

  predicate AllDigits(s: string) {
    forall i :: 0 <= i < |s| ==> IsDigit(s[i])
  }

  function DecimalValue(s: string): nat
    requires AllDigits(s)
  {
    if s == [] then 0
    else DecimalValue(s[..|s| - 1]) * 10 + (s[|s| - 1] - '0') as int
  }

  function FormatCode(code: uint32): string
    requires CodeValidate(code)
  {
    Digits(code, CODE_STR_WIDTH_DIGITS)
  }

  function ParseCode(s: string): Result<uint32, CodeError> {
    if |s| != CODE_STR_WIDTH_DIGITS || !AllDigits(s) || DecimalValue(s) > CODE_SPAN - 1 then
      Failure(InvalidCode)
    else if !CodeValidate(DecimalValue(s)) then
      Failure(InvalidCode)
    else
      Success(DecimalValue(s))
  }

  function Pow10(n: nat): nat {
    if n == 0 then 1 else 10 * Pow10(n - 1)
  }

  lemma {:induction false} DigitsRoundTrip(n: nat, width: nat)
    requires n < Pow10(width)
    ensures AllDigits(Digits(n, width)) && DecimalValue(Digits(n, width)) == n
  {
    if width == 0 {
    } else {
      DigitsRoundTrip(n / 10, width - 1);
      var s := Digits(n, width);
      assert s[..width - 1] == Digits(n / 10, width - 1);
    }
  }

  lemma {:induction false} ValueRoundTrip(s: string)
    requires AllDigits(s)
    ensures DecimalValue(s) < Pow10(|s|)
    ensures Digits(DecimalValue(s), |s|) == s
  {
    if s == [] {
    } else {
      var init := s[..|s| - 1];
      ValueRoundTrip(init);
      var last := (s[|s| - 1] - '0') as int;
      assert DecimalValue(s) / 10 == DecimalValue(init) && DecimalValue(s) % 10 == last;
      assert s == init + [s[|s| - 1]];
    }
  }

  /**
   * Parsing is the inverse of formatting, both ways: a string is accepted if
   * and only if it is the text of a valid code, and then as that code.
   */
  lemma ParseIffFormatted(s: string, code: uint32)
    ensures ParseCode(s) == Success(code) <==> CodeValidate(code) && FormatCode(code) == s
  {
    assert Pow10(8) == 100_000_000;
    if CodeValidate(code) {
      DigitsRoundTrip(code, 8);
    }
    if AllDigits(s) {
      ValueRoundTrip(s);
    }
  }

  /** The accepted strings are the eight-digit numerals below 2^26. */
  lemma ParseAcceptsIff(s: string)
    ensures ParseCode(s).Success? <==> |s| == 8 && AllDigits(s) && DecimalValue(s) < 67_108_864
  {
    if AllDigits(s) {
      ValueRoundTrip(s);
    }
  }

  /** Alphabetical order of strings of one length. */
  predicate TextBefore(s: string, t: string)
    requires |s| == |t|
  {
    exists i :: 0 <= i < |s| && s[..i] == t[..i] && s[i] < t[i]
  }

  lemma {:induction false} DigitsOrdered(a: nat, b: nat, width: nat)
    requires a < b < Pow10(width)
    ensures TextBefore(Digits(a, width), Digits(b, width))
  {
    var s, t := Digits(a, width), Digits(b, width);
    var s', t' := Digits(a / 10, width - 1), Digits(b / 10, width - 1);
    if a / 10 < b / 10 {
      DigitsOrdered(a / 10, b / 10, width - 1);
      var i :| 0 <= i < |s'| && s'[..i] == t'[..i] && s'[i] < t'[i];
      assert s[..i] == s'[..i] && t[..i] == t'[..i];
      assert s[i] < t[i];
    } else {
      assert s[..width - 1] == s' == t[..width - 1];
      assert s[width - 1] < t[width - 1];
    }
  }

  lemma TextBeforeIsAsymmetric(s: string, t: string)
    requires |s| == |t| && TextBefore(s, t)
    ensures s != t && !TextBefore(t, s)
  {
    var i :| 0 <= i < |s| && s[..i] == t[..i] && s[i] < t[i];
    forall j | i < j < |s|
      ensures t[..j] != s[..j]
    {
      assert t[..j][i] != s[..j][i];
    }
    forall j | 0 <= j < i
      ensures t[j] == s[j]
    {
      assert s[..i][j] == t[..i][j];
    }
  }

  /** Codes and their texts sort the same way. */
  lemma FormatPreservesOrder(a: uint32, b: uint32)
    requires CodeValidate(a) && CodeValidate(b)
    ensures a < b <==> TextBefore(FormatCode(a), FormatCode(b))
  {
    assert Pow10(8) == 100_000_000;
    if a < b {
      DigitsOrdered(a, b, 8);
    } else if b < a {
      DigitsOrdered(b, a, 8);
      TextBeforeIsAsymmetric(FormatCode(b), FormatCode(a));
    }
  }
}
