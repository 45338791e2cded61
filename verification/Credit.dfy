/**
 * The credit arithmetic of libeos-payg/manager.c: expiry times on the boot clock,
 * the spans of codes, what a save writes and what a load makes of it.
 */
module Credit {
  import opened Integers
  import opened UsedCodes
  import Codes

  const HOUR_SECS: int := 60 * 60
  const DAY_SECS: int := 24 * 60 * 60
  const YEAR_SECS: int := 365 * 24 * 60 * 60
  const BOGUS_CREDIT_LOWER_LIMIT_SECS: int := 5 * YEAR_SECS
  const BOGUS_CREDIT_UPPER_LIMIT_SECS: int := 100 * YEAR_SECS
  const RESET_CREDIT_SECS: int := 31 * DAY_SECS

  /** What one code of each period adds. */
  function Span(period: int): uint64
    requires Codes.ValidPeriod(period)
  {
    match period
    case 0 => 5
    case 1 => 60
    case 2 => 5 * 60
    case 3 => HOUR_SECS
    case 18 => 30 * DAY_SECS
    case 19 => 60 * DAY_SECS
    case 20 => 90 * DAY_SECS
    case 21 => 120 * DAY_SECS
    case 22 => 365 * DAY_SECS
    case 23 => 30 * 60
    case 24 => 8 * HOUR_SECS
    case 25 => 31 * DAY_SECS
    case 31 => MAX_UINT64
    case _ => (period - 3) * DAY_SECS  // 1 to 14 days
  }

  /** Periods are numbered by length, but for the three that were added later, and none is worth nothing. */
  lemma LongerPeriodsAddMore(p: int, q: int)
    requires Codes.ValidPeriod(p) && Codes.ValidPeriod(q)
    ensures Span(p) > 0
    ensures p < q && !(23 <= p <= 25) && !(23 <= q <= 25) ==> Span(p) < Span(q)
    ensures Span(2) < Span(23) < Span(3) < Span(24) < Span(4) && Span(18) < Span(25) < Span(19)
  {
  }

  /** The credit left at a boot-clock reading, as a save computes it. */
  function CreditLeft(expiry: uint64, now: Seconds): uint64 {
    if now > expiry then 0 else expiry - now
  }

  /** An accepted code extends the expiry time, or the current time if that is later. */
  function ExtensionBase(expiry: uint64, now: Seconds): uint64 {
    if now < expiry then expiry else now
  }

  /** The credit that survives a charge. */
  function Charged(credit: uint64, charge: nat): uint64 {
    if charge > credit then 0 else credit - charge
  }

  predicate BogusCredit(credit: uint64) {
    BOGUS_CREDIT_LOWER_LIMIT_SECS < credit < BOGUS_CREDIT_UPPER_LIMIT_SECS
  }

  /** The credit deduced at startup from the saved credit and the time the machine was off. */
  function ReloadedCredit(credit: uint64, savedAt: uint64, wall: Seconds): uint64 {
    if savedAt > wall then credit  // time has gone backwards: assume it stood still
    else if wall - savedAt > credit then 0
    else if BogusCredit(credit - (wall - savedAt)) then RESET_CREDIT_SECS
    else credit - (wall - savedAt)
  }

  /** The credit deduced from the old state file, which held a wall-clock expiry time. */
  function LegacyCredit(wallExpiry: uint64, wall: Seconds): uint64 {
    if wallExpiry > wall then wallExpiry - wall else 0
  }

  // ----- State files -----

  /** Every file that the manager reads; it writes three of them. */
  datatype File = ClockTime | ExpirySeconds | ExpiryTime | UsedCodesFile | KeyFile | AccountIdFile

  type StateFile = f: File | f == ClockTime || f == ExpirySeconds || f == UsedCodesFile witness ClockTime

  /** What one save writes to the three state files. */
  datatype Record = Record(wall: Seconds, credit: uint64, used: seq<UsedCode>)

  /** Host-endian bytes of a number; little-endian here. */
  function Bytes(n: nat, width: nat): seq<byte>
    ensures |Bytes(n, width)| == width
  {
    if width == 0 then [] else [n % 256] + Bytes(n / 256, width - 1)
  }

  function Number(data: seq<byte>): nat {
    if data == [] then 0 else data[0] + 256 * Number(data[1..])
  }

  function Pow256(n: nat): nat {
    if n == 0 then 1 else 256 * Pow256(n - 1)
  }

  lemma {:induction false} BytesRoundTrip(n: nat, width: nat)
    requires n < Pow256(width)
    ensures Number(Bytes(n, width)) == n
  {
    if width == 0 {
    } else {
      BytesRoundTrip(n / 256, width - 1);
      assert Bytes(n, width)[1..] == Bytes(n / 256, width - 1);
    }
  }

  lemma {:induction false} NumberBound(data: seq<byte>)
    ensures Number(data) < Pow256(|data|)
  {
    if data == [] {
    } else {
      NumberBound(data[1..]);
    }
  }

  lemma EightBytes()
    ensures Pow256(8) == MAX_UINT64 + 1
  {
    assert Pow256(4) == 0x1_0000_0000;
  }

  function EncodeUint64(n: uint64): seq<byte> {
    Bytes(n, 8)
  }

  function DecodeUint64(data: seq<byte>): uint64
    requires |data| == 8
  {
    NumberBound(data);
    EightBytes();
    Number(data)
  }

  lemma Uint64RoundTrip(n: uint64)
    ensures DecodeUint64(EncodeUint64(n)) == n
  {
    EightBytes();
    BytesRoundTrip(n, 8);
  }

  /** The expiry time after loading well-formed clock-time and expiry-seconds files. */
  function ExpiryFromFiles(clockTime: seq<byte>, expirySeconds: seq<byte>, now: Seconds, wall: Seconds): uint64
    requires |clockTime| == 8 && |expirySeconds| == 8
  {
    SaturatingAdd(now, ReloadedCredit(DecodeUint64(expirySeconds), DecodeUint64(clockTime), wall))
  }

  /** The expiry time after loading a well-formed expiry-time file. */
  function ExpiryFromLegacyFile(expiryTime: seq<byte>, now: Seconds, wall: Seconds): uint64
    requires |expiryTime| == 8
  {
    SaturatingAdd(now, LegacyCredit(DecodeUint64(expiryTime), wall))
  }

  // ----- Save and reload -----

  /**
   * Loading in numbers: the time off is taken from the saved credit, down to zero; none is
   * taken if the wall clock went back; and what would then lie strictly between 5 and
   * 100 years becomes 31 days, unless the wall clock went back.
   */
  lemma ReloadIsExact(credit: uint64, savedAt: uint64, wall: Seconds)
    ensures var left := Max(0, credit - Max(0, wall - savedAt));
            ReloadedCredit(credit, savedAt, wall) ==
            if savedAt <= wall && 157_680_000 < left < 3_153_600_000 then 2_678_400 else left
  {
  }

  /** The old file holds a wall-clock time: if that lies ahead the credit lasts until then, as far as the clock goes, and otherwise there is none. */
  lemma LegacyIsExact(legacyFile: seq<byte>, now: Seconds, wall: Seconds)
    requires |legacyFile| == 8
    ensures var until, expiry := DecodeUint64(legacyFile), ExpiryFromLegacyFile(legacyFile, now, wall);
            && (until > wall && now + (until - wall) <= 0xFFFF_FFFF_FFFF_FFFF ==> CreditLeft(expiry, now) + wall == until)
            && (until > wall && now + (until - wall) > 0xFFFF_FFFF_FFFF_FFFF ==> expiry == 0xFFFF_FFFF_FFFF_FFFF)
            && (until <= wall ==> expiry == now)
  {
  }

  /** Loading never grants credit, whatever the two clocks say. */
  lemma ReloadNeverIncreases(credit: uint64, savedAt: uint64, now: Seconds, wall: Seconds)
    ensures ReloadedCredit(credit, savedAt, wall) <= credit
    ensures CreditLeft(SaturatingAdd(now, ReloadedCredit(credit, savedAt, wall)), now) <= credit
    ensures savedAt <= wall ==>
              ReloadedCredit(credit, savedAt, wall) <= Charged(credit, wall - savedAt)
  {
  }

  /**
   * Saving and loading at unchanged clocks restores the credit if and only if it is
   * outside the band that is taken for a mistake; inside it the machine ends up with
   * 31 days. With the credit goes the expiry time, unless it had passed already.
   */
  lemma SaveThenReload(expiry: uint64, now: Seconds, wall: Seconds)
    ensures var credit := CreditLeft(expiry, now);
            var reloaded := ExpiryFromFiles(EncodeUint64(wall), EncodeUint64(credit), now, wall);
            && (CreditLeft(reloaded, now) == credit <==> !BogusCredit(credit))
            && (BogusCredit(credit) ==> reloaded == now + RESET_CREDIT_SECS)
            && (reloaded == expiry <==> now <= expiry && !BogusCredit(credit))
  {
    Uint64RoundTrip(wall);
    Uint64RoundTrip(CreditLeft(expiry, now));
  }

  /** The same for an expiry time that came from the old file: migration loses nothing outside the band. */
  lemma LegacyMigration(legacyFile: seq<byte>, now: Seconds, wall: Seconds)
    requires |legacyFile| == 8
    ensures var expiry := ExpiryFromLegacyFile(legacyFile, now, wall);
            var credit := CreditLeft(expiry, now);
            var reloaded := ExpiryFromFiles(EncodeUint64(wall), EncodeUint64(credit), now, wall);
            reloaded == expiry <==> !BogusCredit(credit)
  {
    SaveThenReload(ExpiryFromLegacyFile(legacyFile, now, wall), now, wall);
  }
}
