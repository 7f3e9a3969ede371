/**
 Date and time conversions (src/conversions.cpp).

 A server DATETIME counts days from 1900-01-01 and ticks of 1/300 s within the
 day; a Qore date counts seconds from 1970-01-01 and a sub-second part.
 Floating-point intermediates are modelled as reals, with the decimal constants
 the code uses.
 */
module Conversions {
  import opened Wrappers
  import opened Machine

  const SYB_DAYS_TO_EPOCH: uint32 := 25567
  const SYB_SECS_TO_EPOCH: uint32 := 2208988800
  const YEAR_ZERO_SECS: int64 := -62167219200
  const MAX_EPOCH := 253402300799
  const MIN_EPOCH := -6847804800
  const TICKS_PER_DAY := 25920000

  datatype Datetime = Datetime(dtdays: int32, dttime: int32)

  /** A Qore date as the constructor receives it: seconds and milliseconds. */
  datatype MilliDate = MilliDate(secs: int64, ms: int)

  /** A Qore date in absolute local form: seconds and microseconds. */
  datatype MicroDate = MicroDate(secs: int64, us: int)

  datatype DateError = Relative | AboveMaximum | BelowMinimum

  /** The value passed for binding: `getEpochSeconds()` and `getMicrosecond()`. */
  datatype BoundDate = BoundDate(relative: bool, secs: int64, us: int) {
    predicate Valid() {
      0 <= us < 1000000
    }
  }

  function MicrosOf(d: MilliDate): int {
    d.secs * 1000000 + d.ms * 1000
  }

  /** The instant of a wire value, in ticks from 1900-01-01 00:00:00. */
  function TicksOf(dt: Datetime): int {
    dt.dtdays * TICKS_PER_DAY + dt.dttime
  }

  /** Sub-second ticks of a microsecond count, as the encoder computes them. */
  function Ticks(us: int): int {
    Round(us as real / 3333.3333333)
  }

  /** Sub-second ticks of a millisecond count (builds without time zones). */
  function TicksOfMillis(ms: int): int {
    Round(ms as real / 3.3333333)
  }

  /** Milliseconds of a sub-second tick count, as the decoders compute them. */
  function Millis(ticks: int): int {
    Round(ticks as real * 3.3333333)
  }

  predicate InRange(secs: int64) {
    MIN_EPOCH <= secs <= MAX_EPOCH
  }

  // ---------------------------------------------------------------- decoders

  /** The date part is fixed at 1970-01-01. */
  function TimeToDateTime(dt: Datetime): MilliDate {
    var secs := TruncDiv(dt.dttime, 300);
    MilliDate(secs, Millis(dt.dttime - secs * 300))
  }

  function DatetimeToDateTime(dt: Datetime): MilliDate {
    var secs := TruncDiv(dt.dttime, 300);
    MilliDate(secs + dt.dtdays * 86400 - SYB_SECS_TO_EPOCH, Millis(dt.dttime - secs * 300))
  }

  /** The negative offset is added in unsigned 64-bit arithmetic. */
  function BigDatetimeToDateTime(dt: uint64): MicroDate {
    var secs: uint64 := dt / 1000000;
    var us := ToInt32(ToUint64(dt - ToUint64(secs * 1000000)));
    MicroDate(ToInt64(ToUint64(secs + ToUint64(YEAR_ZERO_SECS))), us)
  }

  function BigTimeToDateTime(dt: uint64): MicroDate {
    var secs: uint64 := dt / 1000000;
    MicroDate(ToInt64(secs), ToInt32(ToUint64(dt - ToUint64(secs * 1000000))))
  }

  /** Everything up to the final widening is unsigned 32-bit arithmetic. */
  function DateToDateTime(dt: uint32): MicroDate {
    MicroDate(ToUint32(ToUint32(ToUint32(ToUint32(dt * 60) * 60) * 24) - SYB_SECS_TO_EPOCH), 0)
  }

  function Datetime4ToDateTime(days: int, minutes: int): MilliDate
    requires 0 <= days < 0x1_0000 && 0 <= minutes < 0x1_0000
  {
    MilliDate(minutes * 60 + days * 86400 - SYB_SECS_TO_EPOCH, 0)
  }

  // ----------------------------------------------------------------- encoder

  /** `CS_DATETIME`, the structure the encoder fills in place. */
  class DatetimeBuffer {
    var dtdays: int32
    var dttime: int32

    constructor ()
      ensures Value() == Datetime(0, 0)
    {
      dtdays, dttime := 0, 0;
    }

    function Value(): Datetime
      reads this
    {
      Datetime(dtdays, dttime)
    }
  }

  /** What an accepted date is encoded to: whole days from 1900 with the
      truncation toward zero of `secs / 86400`, and the remaining ticks. */
  function Encoded(secs: int64, us: int): Datetime
    requires InRange(secs) && 0 <= us < 1000000
  {
    TicksBounds(us);
    var days := TruncDiv(secs, 86400);
    Datetime(days + SYB_DAYS_TO_EPOCH, (secs - days * 86400) * 300 + Ticks(us))
  }

  method CheckEpoch(secs: int64) returns (r: Result<(), DateError>)
    ensures r.Ok? <==> InRange(secs)
    ensures r == Err(AboveMaximum) <==> secs > MAX_EPOCH
    ensures r == Err(BelowMinimum) <==> secs < MIN_EPOCH
  {
    if secs > 253402300799 {
      return Err(AboveMaximum);
    }
    if secs < -6847804800 {
      return Err(BelowMinimum);
    }
    return Ok(());
  }

  /** `days * 86400` is a 32-bit product that wraps for dates after 2038; the
      final 32-bit store removes the error, so the result is `Encoded`. */
  method DateTimeToDatetime(dt: BoundDate, out: DatetimeBuffer) returns (r: Result<(), DateError>)
    requires dt.Valid()
    modifies out
    ensures r.Ok? <==> !dt.relative && InRange(dt.secs)
    ensures r.Ok? ==> out.Value() == Encoded(dt.secs, dt.us)
    ensures r.Err? ==> out.Value() == old(out.Value())
    ensures dt.relative <==> r == Err(Relative)
    ensures !dt.relative ==> (dt.secs > MAX_EPOCH <==> r == Err(AboveMaximum))
    ensures !dt.relative ==> (dt.secs < MIN_EPOCH <==> r == Err(BelowMinimum))
  {
    if dt.relative {
      return Err(Relative);
    }
    var secs := dt.secs;
    r := CheckEpoch(secs);
    if r.Err? {
      return;
    }
    var days: int32 := TruncDiv(secs, 86400);
    out.dtdays := ToInt32(ToUint32(days + SYB_DAYS_TO_EPOCH));
    var ts := Round(dt.us as real / 3333.3333333);
    var wrapped: int32 := ToInt32(days * 86400);
    out.dttime := ToInt32((secs - wrapped) * 300 + ToInt32(ts));
    StoreAbsorbsWrap(secs, days, dt.us);
    StoreDays(days);
  }

  lemma StoreDays(days: int)
    requires -100000 <= days <= 3000000
    ensures ToInt32(ToUint32(days + SYB_DAYS_TO_EPOCH)) == days + SYB_DAYS_TO_EPOCH
  {
  }

  lemma StoreAbsorbsWrap(secs: int64, days: int, us: int)
    requires InRange(secs) && days == TruncDiv(secs, 86400) && 0 <= us < 1000000
    ensures ToInt32((secs - ToInt32(days * 86400)) * 300 + ToInt32(Ticks(us)))
         == (secs - days * 86400) * 300 + Ticks(us)
  {
    TicksBounds(us);
    var k := ToInt32Differs(days * 86400);
    var exact := (secs - days * 86400) * 300 + Ticks(us);
    assert (secs - ToInt32(days * 86400)) * 300 + ToInt32(Ticks(us)) == exact + (-300 * k) * TWO_32;
    ToInt32Absorbs(exact, -300 * k);
  }

  // ------------------------------------------------------ rounding constants

  /** Over the whole sub-second domain the constant 3333.3333333 rounds as the
      exact 10000/3 does. */
  lemma TicksExact(us: int)
    requires 0 <= us < 1000000
    ensures Ticks(us) == Round(us as real * 3.0 / 10000.0) == (3 * us + 5000) / 10000
  {
    var q := (3 * us + 5000) / 10000;
    var x := us as real / 3333.3333333;
    var y := us as real * 3.0 / 10000.0;
    assert x * 3333.3333333 == us as real;
    assert 10000 * q <= 3 * us + 5000 <= 10000 * q + 9999;
    assert 10000.0 * q as real <= 3.0 * us as real + 5000.0 <= 10000.0 * q as real + 9999.0;
    assert y <= x <= y + 0.00001;
    RoundIs(x, q);
    RoundIs(y, q);
  }

  lemma TicksOfMillisExact(ms: int)
    requires 0 <= ms < 1000
    ensures TicksOfMillis(ms) == Round(ms as real * 3.0 / 10.0) == (3 * ms + 5) / 10
  {
    var q := (3 * ms + 5) / 10;
    var x := ms as real / 3.3333333;
    var y := ms as real * 3.0 / 10.0;
    assert x * 3.3333333 == ms as real;
    assert 10.0 * q as real <= 3.0 * ms as real + 5.0 <= 10.0 * q as real + 9.0;
    assert y <= x <= y + 0.01;
    RoundIs(x, q);
    RoundIs(y, q);
  }

  /** The constant 3.3333333 rounds as the exact 10/3 does. */
  lemma MillisExact(k: int)
    requires 0 <= k < 300
    ensures Millis(k) == Round(k as real * 10.0 / 3.0) == (20 * k + 3) / 6
    ensures Millis(-k) == -Millis(k)
  {
    var q := (20 * k + 3) / 6;
    var x := k as real * 3.3333333;
    var y := k as real * 10.0 / 3.0;
    assert 6.0 * q as real <= 20.0 * k as real + 3.0 <= 6.0 * q as real + 5.0;
    assert 20 * k + 3 != 6 * q;
    assert 6.0 * q as real + 1.0 <= 20.0 * k as real + 3.0;
    assert y - 0.0001 <= x <= y;
    RoundIs(x, q);
    RoundIs(y, q);
    assert (-k) as real * 3.3333333 == -x;
  }

  lemma TicksBounds(us: int)
    requires 0 <= us < 1000000
    ensures 0 <= Ticks(us) <= 300
  {
    TicksExact(us);
  }
}
