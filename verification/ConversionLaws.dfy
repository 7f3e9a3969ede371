/** What the date conversions promise: exact encoding, round trips in both
    directions, and where fixed-width arithmetic stays harmless. */
module ConversionLaws {
  import opened Machine
  import opened Conversions

  /** Microseconds from 1900-01-01 of an instant given in ticks, each second's
      ticks rounded to whole milliseconds. */
  function MicrosOfTicks(t: int): int {
    t / 300 * 1000000 + (20 * (t % 300) + 3) / 6 * 1000
  }

  // --------------------------------------------------------------- calendar

  predicate LeapYear(y: int) {
    y % 4 == 0 && (y % 100 != 0 || y % 400 == 0)
  }

  /** Days of the Gregorian calendar from 1970-01-01 to the first of January of
      a year. */
  function YearStart(y: int): int {
    365 * y + (y + 3) / 4 - (y + 99) / 100 + (y + 399) / 400 - 719528
  }

  lemma YearLength(y: int)
    ensures YearStart(1970) == 0
    ensures YearStart(y + 1) - YearStart(y) == if LeapYear(y) then 366 else 365
  {
    assert (y + 4) / 4 == (y + 3) / 4 + (if y % 4 == 0 then 1 else 0);
    assert (y + 100) / 100 == (y + 99) / 100 + (if y % 100 == 0 then 1 else 0);
    assert (y + 400) / 400 == (y + 399) / 400 + (if y % 400 == 0 then 1 else 0);
  }

  /** The instant lies in the year. */
  predicate InYear(secs: int, y: int) {
    YearStart(y) * 86400 <= secs < YearStart(y + 1) * 86400
  }

  lemma {:induction false} YearAmong(secs: int, lo: int, hi: int)
    requires lo < hi && YearStart(lo) * 86400 <= secs < YearStart(hi) * 86400
    ensures exists y | lo <= y < hi :: InYear(secs, y)
    decreases hi - lo
  {
    if secs < YearStart(lo + 1) * 86400 {
      assert InYear(secs, lo);
    } else {
      YearAmong(secs, lo + 1, hi);
    }
  }

  lemma {:induction false} YearsGrow(a: int, b: int)
    requires a <= b
    ensures YearStart(a) <= YearStart(b)
    decreases b - a
  {
    if a < b {
      YearsGrow(a, b - 1);
      YearLength(b - 1);
    }
  }

  /** The range check accepts exactly the years 1753 to 9999. */
  lemma EpochIsYears(secs: int64)
    ensures InRange(secs) <==> exists y | 1753 <= y <= 9999 :: InYear(secs, y)
  {
    if InRange(secs) {
      YearAmong(secs, 1753, 10000);
    } else if y :| 1753 <= y <= 9999 && InYear(secs, y) {
      YearsGrow(1753, y);
      YearsGrow(y + 1, 10000);
    }
  }

  /** The three offsets are calendar distances: from 1900 and from the year
      zero to 1970. */
  lemma OffsetsAreCalendar()
    ensures SYB_DAYS_TO_EPOCH == YearStart(1970) - YearStart(1900)
    ensures SYB_SECS_TO_EPOCH == (YearStart(1970) - YearStart(1900)) * 86400
    ensures YEAR_ZERO_SECS == (YearStart(0) - YearStart(1970)) * 86400
  {
  }

  // --------------------------------------------------------------- encoding

  /** Encoding is exact to the tick for every accepted date. */
  lemma EncodingIsExact(secs: int64, us: int)
    requires InRange(secs) && 0 <= us < 1000000
    ensures TicksOf(Encoded(secs, us)) == 300 * (secs + 25567 * 86400) + (3 * us + 5000) / 10000
  {
    TicksExact(us);
  }

  /** The 32-bit product the encoder forms is right only within 24855 days of
      1970 (to January 2038): exactness does not rest on it. */
  lemma DayProductWraps(secs: int64)
    requires InRange(secs)
    ensures var days := TruncDiv(secs, 86400);
            ToInt32(days * 86400) == days * 86400 <==> -24855 <= days <= 24855
  {
  }

  /** The time field lies within a day of ticks of zero. It is a time of day
      except in two families: a full day, in the last 1667 microseconds of a day
      from 1970 on; and a negative field, at any time before 1970 but for the
      first second of a day and those same microseconds. */
  lemma EncodedTimeField(secs: int64, us: int)
    requires InRange(secs) && 0 <= us < 1000000
    ensures var t := Encoded(secs, us).dttime;
            var lastTick := secs % 86400 == 86399 && us >= 998334;
            && -TICKS_PER_DAY < t <= TICKS_PER_DAY
            && (t == TICKS_PER_DAY <==> secs >= 0 && lastTick)
            && (t < 0 <==> secs < 0 && secs % 86400 != 0 && !lastTick)
            && (0 <= t < TICKS_PER_DAY <==> if secs >= 0 then !lastTick else secs % 86400 == 0 || lastTick)
  {
    TicksExact(us);
    var days := TruncDiv(secs, 86400);
    if secs >= 0 {
      assert secs - days * 86400 == secs % 86400;
    } else if secs % 86400 == 0 {
      assert secs == days * 86400;
    } else {
      assert secs - days * 86400 == secs % 86400 - 86400;
    }
  }

  /** The last microsecond of 1970-01-01, and the last second of 1969. */
  lemma NoTimeOfDay()
    ensures Encoded(86399, 999999).dttime == TICKS_PER_DAY && Encoded(-1, 0).dttime == -300
  {
    TicksExact(999999);
    TicksExact(0);
  }

  // --------------------------------------------------------------- decoding

  /** A decoded instant depends only on the instant in ticks, not on how it is
      split between days and a possibly negative time field. */
  lemma DecodingSeesOnlyTheInstant(dt: Datetime)
    ensures MicrosOf(DatetimeToDateTime(dt)) + SYB_SECS_TO_EPOCH * 1000000 == MicrosOfTicks(TicksOf(dt))
    ensures -1000 < DatetimeToDateTime(dt).ms < 1000
  {
    var secs := TruncDiv(dt.dttime, 300);
    var rem := dt.dttime - secs * 300;
    var days := dt.dtdays * 86400;
    var t := TicksOf(dt);
    assert t == 300 * (days + secs) + rem;
    if rem >= 0 {
      MillisExact(rem);
      assert t / 300 == days + secs && t % 300 == rem;
    } else {
      MillisExact(-rem);
      assert t / 300 == days + secs - 1 && t % 300 == 300 + rem;
      ReflectMillis(-rem);
    }
  }

  /** The microsecond nearest to an instant in ticks. */
  function NearestMicros(t: int): int {
    t / 300 * 1000000 + (20000 * (t % 300) + 3) / 6
  }

  lemma NearestMicrosIs(t: int)
    ensures -1 <= 3 * NearestMicros(t) - 10000 * t <= 1
  {
    assert t == t / 300 * 300 + t % 300;
    var m := (20000 * (t % 300) + 3) / 6;
    assert 6 * m <= 20000 * (t % 300) + 3 <= 6 * m + 5;
  }

  /** Decoding rounds to milliseconds: it yields the nearest microsecond exactly
      for the instants that are a whole number of milliseconds, every third
      tick. */
  lemma MicrosecondsIffThirdTick(dt: Datetime)
    ensures MicrosOf(DatetimeToDateTime(dt)) + SYB_SECS_TO_EPOCH * 1000000 == NearestMicros(TicksOf(dt))
       <==> TicksOf(dt) % 3 == 0
    ensures MicrosOf(TimeToDateTime(dt)) == NearestMicros(dt.dttime) <==> dt.dttime % 3 == 0
  {
    DecodingSeesOnlyTheInstant(dt);
    ThirdTicks(TicksOf(dt));
    TimeSeesOnlyTheInstant(dt);
    ThirdTicks(dt.dttime);
  }

  /** One tick after midnight: 3000 microseconds, where 3333 are nearest. */
  lemma FirstTickRounded()
    ensures MicrosOf(TimeToDateTime(Datetime(0, 1))) == 3000 && NearestMicros(1) == 3333
  {
    MillisExact(1);
  }

  /** A time of day is decoded like an instant of the day 1970-01-01. */
  lemma TimeSeesOnlyTheInstant(dt: Datetime)
    ensures MicrosOf(TimeToDateTime(dt)) == MicrosOfTicks(dt.dttime)
  {
    var first := Datetime(0, dt.dttime);
    DecodingSeesOnlyTheInstant(first);
    assert TicksOf(first) == dt.dttime;
    assert MicrosOf(DatetimeToDateTime(first)) == MicrosOf(TimeToDateTime(dt)) - SYB_SECS_TO_EPOCH * 1000000;
  }

  lemma Thirds(q: int, m: int)
    requires 0 <= m < 3
    ensures (20 * (3 * q + m) + 3) / 6 == 10 * q + (if m == 0 then 0 else if m == 1 then 3 else 7)
    ensures (20000 * (3 * q + m) + 3) / 6 == 10000 * q + (if m == 0 then 0 else if m == 1 then 3333 else 6667)
  {
  }

  lemma ThirdTicks(t: int)
    ensures MicrosOfTicks(t) == NearestMicros(t) <==> t % 3 == 0
  {
    var k := t % 300;
    Thirds(k / 3, k % 3);
    assert k == 3 * (k / 3) + k % 3;
    SameThird(t);
  }

  lemma SameThird(t: int)
    ensures t % 3 == t % 300 % 3
  {
    assert t == 3 * (100 * (t / 300)) + t % 300;
  }

  /** No tick lies half way between two milliseconds, so rounding commutes with
      reflection at the second. */
  lemma ReflectMillis(k: int)
    requires 0 < k < 300
    ensures (20 * (300 - k) + 3) / 6 == 1000 - (20 * k + 3) / 6
  {
    var q := (20 * k + 3) / 6;
    assert 6 * q < 20 * k + 3 <= 6 * q + 5;
  }

  lemma MicrosOfTicksMonotone(t: int, u: int)
    requires t <= u
    ensures MicrosOfTicks(t) <= MicrosOfTicks(u)
  {
    assert (20 * (t % 300) + 3) / 6 <= 997;
    if t / 300 == u / 300 {
      assert t % 300 <= u % 300;
    }
  }

  // ------------------------------------------------------------ round trips

  /** Reading a wire value and binding it again keeps its instant; the fields
      themselves come back exactly when the instant is not before 1970 or lies
      in the first second of a day, and are shifted by one day otherwise. */
  lemma WireRoundTrip(dt: Datetime)
    requires 0 <= dt.dttime < TICKS_PER_DAY
    requires InRange(DatetimeToDateTime(dt).secs)
    ensures var d := DatetimeToDateTime(dt);
            && 0 <= d.ms < 1000
            && var back := Encoded(d.secs, d.ms * 1000);
            && TicksOf(back) == TicksOf(dt)
            && (back == dt <==> d.secs >= 0 || dt.dttime < 300)
            && (d.secs < 0 && dt.dttime >= 300 ==>
                  back.dtdays == dt.dtdays + 1 && back.dttime == dt.dttime - TICKS_PER_DAY)
  {
    var d := DatetimeToDateTime(dt);
    var rem := dt.dttime % 300;
    assert dt.dttime - TruncDiv(dt.dttime, 300) * 300 == rem;
    MillisExact(rem);
    TicksExact(d.ms * 1000);
    TickThroughMillis(rem);
    EncodingIsExact(d.secs, d.ms * 1000);
    assert d.secs == (dt.dtdays - 25567) * 86400 + dt.dttime / 300;
    assert 0 <= dt.dttime / 300 < 86400;
    var day := dt.dtdays - 25567;
    if d.secs >= 0 {
      assert d.secs / 86400 == day;
    } else if dt.dttime < 300 {
      assert TruncDiv(d.secs, 86400) == day;
    } else {
      assert (-d.secs) / 86400 == -day - 1;
    }
  }

  /** A tick survives the detour through whole milliseconds. */
  lemma TickThroughMillis(k: int)
    requires 0 <= k < 300
    ensures (3 * ((20 * k + 3) / 6 * 1000) + 5000) / 10000 == k
  {
    var ms := (20 * k + 3) / 6;
    assert 6 * ms <= 20 * k + 3 <= 6 * ms + 5;
  }

  /** Binding a date and reading it back moves it by at most 2000 microseconds. */
  lemma QoreRoundTrip(secs: int64, us: int)
    requires InRange(secs) && 0 <= us < 1000000
    ensures var moved := MicrosOf(DatetimeToDateTime(Encoded(secs, us))) - (secs * 1000000 + us);
            -2000 <= moved <= 2000
  {
    EncodingIsExact(secs, us);
    DecodingSeesOnlyTheInstant(Encoded(secs, us));
    SubSecondDisplacement(secs + 25567 * 86400, us);
  }

  lemma SubSecondDisplacement(s: int, us: int)
    requires 0 <= us < 1000000
    ensures -2000 <= MicrosOfTicks(300 * s + (3 * us + 5000) / 10000) - (s * 1000000 + us) <= 2000
  {
    var k := (3 * us + 5000) / 10000;
    assert 10000 * k <= 3 * us + 5000 <= 10000 * k + 9999;
    SplitTicks(s, k);
    var m := (20 * k + 3) / 6;
    assert 6 * m <= 20 * k + 3 <= 6 * m + 5;
    assert 2 * (10 * k - 3 * m) != -3;
    assert 6 * m - 2 <= 20 * k <= 6 * m + 2;
  }

  lemma SplitTicks(s: int, k: int)
    requires 0 <= k <= 300
    ensures MicrosOfTicks(300 * s + k) == s * 1000000 + (20 * k + 3) / 6 * 1000
  {
    if k < 300 {
      assert (300 * s + k) / 300 == s && (300 * s + k) % 300 == k;
    } else {
      assert (300 * s + k) / 300 == s + 1 && (300 * s + k) % 300 == 0;
    }
  }

  /** The round trip never reorders two dates. */
  lemma QoreRoundTripMonotone(secs: int64, us: int, secs': int64, us': int)
    requires InRange(secs) && 0 <= us < 1000000
    requires InRange(secs') && 0 <= us' < 1000000
    requires secs * 1000000 + us <= secs' * 1000000 + us'
    ensures MicrosOf(DatetimeToDateTime(Encoded(secs, us))) <= MicrosOf(DatetimeToDateTime(Encoded(secs', us')))
  {
    EncodingIsExact(secs, us);
    EncodingIsExact(secs', us');
    DecodingSeesOnlyTheInstant(Encoded(secs, us));
    DecodingSeesOnlyTheInstant(Encoded(secs', us'));
    assert secs < secs' || (secs == secs' && us <= us');
    MicrosOfTicksMonotone(TicksOf(Encoded(secs, us)), TicksOf(Encoded(secs', us')));
  }

  /** Whatever wire value a date came from, even one with a negative time
      field, binding that date again reproduces its instant to the tick. The
      date is bound in normal form, with microseconds counted forwards. */
  lemma RereadInstantSettles(dt: Datetime)
    ensures var m := MicrosOf(DatetimeToDateTime(dt));
            var secs := m / 1000000;
            -TWO_63 <= secs < TWO_63
            && (InRange(secs) ==> TicksOf(Encoded(secs, m % 1000000)) == TicksOf(dt))
  {
    DecodingSeesOnlyTheInstant(dt);
    var t := TicksOf(dt);
    var m := MicrosOf(DatetimeToDateTime(dt));
    var ms := (20 * (t % 300) + 3) / 6;
    assert 0 <= ms <= 997;
    assert m == (t / 300 - SYB_SECS_TO_EPOCH) * 1000000 + ms * 1000;
    assert m / 1000000 == t / 300 - SYB_SECS_TO_EPOCH && m % 1000000 == ms * 1000;
    if InRange(m / 1000000) {
      EncodingIsExact(m / 1000000, ms * 1000);
      TickThroughMillis(t % 300);
    }
  }

  // ------------------------------------------------------ the other formats

  /** Splitting a BIGDATETIME loses nothing, for every 64-bit value, although a
      negative constant is added to an unsigned number. */
  lemma BigDatetimeRecombines(dt: uint64)
    ensures var d := BigDatetimeToDateTime(dt);
            0 <= d.us < 1000000 && (d.secs + 62167219200) * 1000000 + d.us == dt
  {
    var secs := dt / 1000000;
    assert 0 <= secs * 1000000 <= dt;
    ToInt64Absorbs(secs + YEAR_ZERO_SECS, 1);
    assert ToUint64(YEAR_ZERO_SECS) == YEAR_ZERO_SECS + TWO_64;
    assert ToUint64(secs * 1000000) == secs * 1000000;
    if secs + YEAR_ZERO_SECS >= 0 {
      assert ToUint64(secs + ToUint64(YEAR_ZERO_SECS)) == secs + YEAR_ZERO_SECS;
    } else {
      assert ToUint64(secs + ToUint64(YEAR_ZERO_SECS)) == secs + YEAR_ZERO_SECS + TWO_64;
    }
  }

  lemma BigTimeRecombines(dt: uint64)
    ensures var d := BigTimeToDateTime(dt);
            0 <= d.us < 1000000 && d.secs * 1000000 + d.us == dt
  {
    var secs := dt / 1000000;
    assert 0 <= secs * 1000000 <= dt;
    assert ToUint64(secs * 1000000) == secs * 1000000;
  }

  /** DATE decoding is right modulo 2^32 for every input, and right exactly
      from 1970-01-01 (day 25567) to 2106-02-07 (day 75277). */
  lemma DateDecoding(dt: uint32)
    ensures (DateToDateTime(dt).secs - 86400 * (dt - 25567)) % TWO_32 == 0
    ensures DateToDateTime(dt).secs == 86400 * (dt - 25567) <==> 25567 <= dt <= 75277
    ensures 0 <= DateToDateTime(dt).secs < TWO_32 && DateToDateTime(dt).us == 0
  {
    var a := dt * 60 / TWO_32;
    var b := ToUint32(dt * 60) * 60 / TWO_32;
    var c := ToUint32(ToUint32(dt * 60) * 60) * 24 / TWO_32;
    assert ToUint32(dt * 60) == dt * 60 - a * TWO_32;
    assert ToUint32(ToUint32(dt * 60) * 60) == dt * 3600 - (60 * a + b) * TWO_32;
    var m := 1440 * a + 24 * b + c;
    var n := ToUint32(ToUint32(ToUint32(dt * 60) * 60) * 24);
    assert n == dt * 86400 - m * TWO_32;
    var z := (n - SYB_SECS_TO_EPOCH) / TWO_32;
    assert DateToDateTime(dt).secs == 86400 * (dt - 25567) - (m + z) * TWO_32;
  }

  /** SMALLDATETIME and the time of day decode without any wrap. */
  lemma SmallAndTimeDecoding(days: int, minutes: int, dt: Datetime)
    requires 0 <= days < 0x1_0000 && 0 <= minutes < 1440
    requires 0 <= dt.dttime < TICKS_PER_DAY
    ensures var d := Datetime4ToDateTime(days, minutes);
            && (d.secs + 25567 * 86400) / 86400 == days && (d.secs + 25567 * 86400) % 86400 == minutes * 60
            && d.ms == 0
    ensures MicrosOf(TimeToDateTime(dt)) == MicrosOfTicks(dt.dttime)
    ensures 0 <= TimeToDateTime(dt).secs < 86400 && 0 <= TimeToDateTime(dt).ms < 1000
  {
    MillisExact(dt.dttime % 300);
    assert dt.dttime - TruncDiv(dt.dttime, 300) * 300 == dt.dttime % 300;
  }
}
