/**
 Conversions between decimal fractions of a second and the 32-bit binary fraction of the NTP timestamp format, section
 6 of RFC 5905 (lib/sys/timeconvert.cpp). Widths, truncating casts and wrap-around are written out.
*/
module TimeConvert {
  import Bits
  import opened Words

  const MICRO := 1_000_000
  const NANO := 1_000_000_000
  /** Seconds between 1.1.1900 and 1.1.1970, RFC 868. */
  const NTP_SECOND_OFFSET := 2_208_988_800

  predicate Leap(year: nat) { year % 4 == 0 && (year % 100 != 0 || year % 400 == 0) }

  /** The days in a number of years from the first of January of one on. */
  function Days(from: nat, years: nat): nat {
    if years == 0 then 0 else Days(from, years - 1) + if Leap(from + years - 1) then 366 else 365
  }

  lemma {:induction false} DaysSince1900(years: nat)
    requires 0 < years <= 100
    ensures Days(1900, years) == 365 * years + (years - 1) / 4
  {
    if years > 1 {
      DaysSince1900(years - 1);
    } else {
      assert Days(1900, 0) == 0 && !Leap(1900);
    }
  }

  /** The offset is the time from 1900 to 1970. */
  lemma OffsetIs()
    ensures NTP_SECOND_OFFSET == Days(1900, 1970 - 1900) * 86_400
  {
    DaysSince1900(70);
  }

  function Low32(n: int): uint32 { n % TWO_32 }

  function Low64(n: int): uint64 { n % TWO_64 }

  function MicrosecondsToFraction(microseconds: uint32): uint32 {
    Low32(Low64(microseconds * TWO_32) / MICRO)
  }

  function NanosecondsToFraction(nanoseconds: uint32): uint32 {
    Low32(Low64(nanoseconds * TWO_32) / NANO)
  }

  datatype NtpStruct = NtpStruct(seconds: uint32, fractions: uint32)

  /** The shift is done in 64 bits, so the upper half of the argument does not take part in the fraction. */
  function NanosecondsToNtpStruct(nanoseconds: uint64): NtpStruct {
    NtpStruct(Low32(nanoseconds / NANO), Low32(Low64(nanoseconds * TWO_32) / NANO))
  }

  /** The increment is done in 32 bits before widening. */
  function FractionToMicroseconds(fraction: uint32): uint32 {
    Low32(Low64(Low32(fraction + 1) * MICRO) / TWO_32)
  }

  /** The increment is done in 64 bits. */
  function FractionToNanoseconds(fraction: uint32): uint32 {
    Low32(Low64((fraction + 1) * NANO) / TWO_32)
  }

  /** No intermediate product leaves 64 bits. */
  lemma NoOverflow(n: uint32)
    ensures Low64(n * TWO_32) == n * TWO_32
    ensures Low64((n + 1) * NANO) == (n + 1) * NANO
    ensures Low64(Low32(n + 1) * MICRO) == Low32(n + 1) * MICRO
  {
  }

  /** Whole units of the divisor only add whole multiples of 2^32 to the quotient. */
  lemma ScaledQuotient(n: nat, unit: nat)
    requires unit > 0
    ensures Low32(n * TWO_32 / unit) == n % unit * TWO_32 / unit
  {
    var q, r := n / unit, n % unit;
    var g := r * TWO_32 / unit;
    FractionBounds(r, unit);
    Scaled(n, q, r, g, unit);
    QuotientIs(n * TWO_32, unit, q * TWO_32 + g);
  }

  lemma FractionBounds(r: nat, unit: nat)
    requires r < unit
    ensures var g := r * TWO_32 / unit; g < TWO_32 && unit * g <= r * TWO_32 < unit * (g + 1)
  {
    var g := r * TWO_32 / unit;
    assert r * TWO_32 == unit * g + r * TWO_32 % unit;
    assert unit * (g + 1) == unit * g + unit;
    assert g >= TWO_32 ==> unit * g >= unit * TWO_32;
  }

  lemma Scaled(n: nat, q: nat, r: nat, g: nat, unit: nat)
    requires n == unit * q + r && unit * g <= r * TWO_32 < unit * (g + 1)
    ensures unit * (q * TWO_32 + g) <= n * TWO_32 < unit * (q * TWO_32 + g + 1)
  {
    assert n * TWO_32 == unit * (q * TWO_32) + r * TWO_32;
    assert unit * (q * TWO_32 + g) == unit * (q * TWO_32) + unit * g;
    assert unit * (q * TWO_32 + g + 1) == unit * (q * TWO_32) + unit * (g + 1);
  }

  lemma QuotientIs(m: nat, unit: nat, q: nat)
    requires unit > 0 && unit * q <= m < unit * (q + 1)
    ensures m / unit == q
  {
    var p := m / unit;
    assert m == unit * p + m % unit && unit * (p + 1) == unit * p + unit;
    assert p < q ==> unit * (p + 1) <= unit * q;
    assert p > q ==> unit * (q + 1) <= unit * p;
  }

  /** The fraction of n nanoseconds is that of the nanoseconds beyond full seconds, rounded down. */
  lemma NanoFraction(n: uint32)
    ensures NanosecondsToFraction(n) == (n % NANO) * TWO_32 / NANO
  {
    NoOverflow(n);
    ScaledQuotient(n, NANO);
  }

  lemma MicroFraction(n: uint32)
    ensures MicrosecondsToFraction(n) == (n % MICRO) * TWO_32 / MICRO
  {
    NoOverflow(n);
    ScaledQuotient(n, MICRO);
  }

  lemma FractionNanos(f: uint32)
    ensures FractionToNanoseconds(f) == (f + 1) * NANO / TWO_32 <= NANO
  {
  }

  lemma FractionMicros(f: uint32)
    ensures FractionToMicroseconds(f) == if f == TWO_32 - 1 then 0 else (f + 1) * MICRO / TWO_32
  {
  }

  /** Forward and back is exact: every count of nanoseconds comes back as its part below a second. */
  lemma NanosecondsRoundTrip(n: uint32)
    ensures FractionToNanoseconds(NanosecondsToFraction(n)) == n % NANO
  {
    hide NanosecondsToFraction, FractionToNanoseconds;
    NanoFraction(n);
    FractionNanos(NanosecondsToFraction(n));
  }

  lemma MicrosecondsRoundTrip(n: uint32)
    ensures FractionToMicroseconds(MicrosecondsToFraction(n)) == n % MICRO
  {
    hide MicrosecondsToFraction, FractionToMicroseconds;
    MicroFraction(n);
    FractionMicros(MicrosecondsToFraction(n));
  }

  /** Back and forward moves a fraction by at most one up and four down, except the largest one, which becomes the
      full second and returns as zero. */
  lemma NanosecondsReverseTrip(f: uint32)
    ensures var g := NanosecondsToFraction(FractionToNanoseconds(f));
            if f < TWO_32 - 1 then f - 4 <= g <= f + 1 else FractionToNanoseconds(f) == NANO && g == 0
  {
    hide NanosecondsToFraction, FractionToNanoseconds;
    FractionNanos(f);
    NanoFraction(FractionToNanoseconds(f));
  }

  /** By way of microseconds the error is below 4295, and the largest fraction becomes zero microseconds: the 32-bit
      increment wraps. */
  lemma MicrosecondsReverseTrip(f: uint32)
    ensures var g := MicrosecondsToFraction(FractionToMicroseconds(f));
            if f < TWO_32 - 1 then f - 4294 <= g <= f + 1 else FractionToMicroseconds(f) == 0 && g == 0
  {
    hide MicrosecondsToFraction, FractionToMicroseconds;
    FractionMicros(f);
    MicroFraction(FractionToMicroseconds(f));
  }

  /** Both bounds are reached. */
  lemma NanosecondsBoundsReached()
    ensures NanosecondsToFraction(FractionToNanoseconds(16)) == 16 - 4
    ensures NanosecondsToFraction(FractionToNanoseconds(8388607)) == 8388607 + 1
  {
    hide NanosecondsToFraction, FractionToNanoseconds;
    FractionNanos(16);
    NanoFraction(3);
    FractionNanos(8388607);
    NanoFraction(1953125);
  }

  lemma MicrosecondsBoundsReached()
    ensures MicrosecondsToFraction(FractionToMicroseconds(8588)) == 8588 - 4294
    ensures MicrosecondsToFraction(FractionToMicroseconds(67108863)) == 67108863 + 1
  {
    hide MicrosecondsToFraction, FractionToMicroseconds;
    FractionMicros(8588);
    MicroFraction(1);
    FractionMicros(67108863);
    MicroFraction(15625);
  }

  // ---- Seconds and fraction of a count of nanoseconds -----------------------------------------------------

  const FIVE_TO_9 := 1_953_125
  const INVERSE := 1241897
  const INVERSE_QUOTIENT := 5333907

  /** Shifting drops the upper half. */
  lemma ShiftDropsHigh(high: nat, low: uint32)
    ensures Low64((high * TWO_32 + low) * TWO_32) == low * TWO_32
  {
    assert (high * TWO_32 + low) * TWO_32 == high * TWO_64 + low * TWO_32;
  }

  /** The fraction is that of the lower 32 bits only. */
  lemma FractionOfLowerHalf(n: uint64)
    ensures NanosecondsToNtpStruct(n).fractions == NanosecondsToFraction(Low32(n))
  {
    var high, low := n / TWO_32, Low32(n);
    assert n == high * TWO_32 + low;
    ShiftDropsHigh(high, low);
    ShiftDropsHigh(0, low);
    hide Low64;
  }

  /** Seconds and fraction make up the count of nanoseconds again if and only if the seconds fit 32 bits and the upper
      half of the count is a multiple of 5^9: always below 2^32 ns, and rarely above. */
  lemma NtpStructRecomposes(n: uint64)
    ensures var s := NanosecondsToNtpStruct(n);
            s.seconds * NANO + FractionToNanoseconds(s.fractions) == n <==>
            n < TWO_32 * NANO && (n / TWO_32) % FIVE_TO_9 == 0
    ensures n < TWO_32 ==> n < TWO_32 * NANO && (n / TWO_32) % FIVE_TO_9 == 0
  {
    hide FractionToNanoseconds, NanosecondsToFraction;
    var s, h, l := NanosecondsToNtpStruct(n), n / TWO_32, n % TWO_32;
    FractionOfLowerHalf(n);
    NanosecondsRoundTrip(l);
    assert FractionToNanoseconds(s.fractions) == l % NANO;
    SameRest(h, l);
    assert s.seconds == n / NANO % TWO_32;
    assert n == n / NANO * NANO + n % NANO;
  }

  /** A full upper half leaves the part below a second alone only in multiples of 5^9. */
  lemma SameRest(h: nat, l: nat)
    ensures (h * TWO_32 + l) % NANO == l % NANO <==> h % FIVE_TO_9 == 0
  {
    if (h * TWO_32 + l) % NANO == l % NANO {
      RestMeansMultiple(h, l);
    }
    if h % FIVE_TO_9 == 0 {
      var k := h / FIVE_TO_9;
      assert h * TWO_32 == NANO * (k * 8388608);
      MultipleDropsOut(k * 8388608, l);
    }
  }

  lemma MultipleDropsOut(k: nat, l: nat)
    ensures (NANO * k + l) % NANO == l % NANO
  {
    var q, r := l / NANO, l % NANO;
    assert NANO * k + l == NANO * (k + q) + r;
  }

  lemma RestMeansMultiple(h: nat, l: nat)
    requires (h * TWO_32 + l) % NANO == l % NANO
    ensures h % FIVE_TO_9 == 0
  {
    var k := (h * TWO_32 + l) / NANO - l / NANO;
    assert h * TWO_32 == NANO * k;
    Inverse(h, k);
  }

  /** 2^23 has an inverse modulo 5^9. */
  lemma Inverse(h: nat, k: int)
    requires h * 8388608 == FIVE_TO_9 * k
    ensures h % FIVE_TO_9 == 0
  {
    var m := INVERSE * k - INVERSE_QUOTIENT * h;
    assert h == FIVE_TO_9 * m;
  }

  /** 4.3 seconds: the struct form does not recompose. */
  lemma NtpStructFails()
    ensures NanosecondsToNtpStruct(4_300_000_000).seconds == 4
    ensures FractionToNanoseconds(NanosecondsToNtpStruct(4_300_000_000).fractions) != 300_000_000
  {
    NtpStructRecomposes(4_300_000_000);
  }

  // ---- Packing a timeval ----------------------------------------------------------------------------------

  type int64 = n: int | -0x8000_0000_0000_0000 <= n < 0x8000_0000_0000_0000

  datatype Timeval = Timeval(sec: int64, usec: int64)

  /** The addition must not overflow the signed seconds. */
  predicate Representable(t: Timeval) { t.sec + NTP_SECOND_OFFSET < 0x8000_0000_0000_0000 }

  function UnixtimeToNtp(t: Timeval): uint64
    requires Representable(t)
  {
    var shifted: nat := Low64(Low64(t.sec + NTP_SECOND_OFFSET) * TWO_32);
    Low64(Bits.Or(shifted, MicrosecondsToFraction(Low32(t.usec))))
  }

  function UnixtimeToNtpStruct(t: Timeval): NtpStruct
    requires Representable(t)
  {
    NtpStruct(Low32(t.sec + NTP_SECOND_OFFSET), MicrosecondsToFraction(Low32(t.usec)))
  }

  lemma ShiftKeepsLowHalf(n: int)
    ensures Low64(Low64(n) * TWO_32) == Low32(n) * TWO_32
  {
    var m, c := n / TWO_32, n % TWO_32;
    var a, b := m / TWO_32, m % TWO_32;
    assert n == a * TWO_64 + (b * TWO_32 + c);
    assert Low64(n) == b * TWO_32 + c;
    assert (b * TWO_32 + c) * TWO_32 == b * TWO_64 + c * TWO_32;
  }

  lemma Low64Small(n: int)
    requires 0 <= n < TWO_64
    ensures Low64(n) == n
  {
  }

  /** The 64-bit form is the struct form with the seconds above the fraction, for every timeval whose seconds do not
      overflow when the epochs are aligned. */
  lemma FormsAgree(t: Timeval)
    requires Representable(t)
    ensures UnixtimeToNtp(t) == UnixtimeToNtpStruct(t).seconds * TWO_32 + UnixtimeToNtpStruct(t).fractions
  {
    hide MicrosecondsToFraction, Low64;
    var s := UnixtimeToNtpStruct(t);
    ShiftKeepsLowHalf(t.sec + NTP_SECOND_OFFSET);
    Low64Small(s.seconds * TWO_32 + s.fractions);
    Bits.Pow2Of32();
    Bits.OrDisjoint(s.seconds, s.fractions, 32);
  }

  /** Time within the current era: the seconds fit 32 bits after the epochs are aligned, the microseconds are proper. */
  predicate InEra(t: Timeval) { 0 <= t.sec < TWO_32 - NTP_SECOND_OFFSET && 0 <= t.usec < MICRO }

  predicate Earlier(a: Timeval, b: Timeval) { a.sec < b.sec || (a.sec == b.sec && a.usec < b.usec) }

  /** Unpacking returns the seconds exactly for those that fit after alignment, and always the microseconds below a
      second. */
  lemma Unpacks(t: Timeval)
    requires Representable(t)
    ensures UnixtimeToNtp(t) / TWO_32 - NTP_SECOND_OFFSET == t.sec <==>
            -NTP_SECOND_OFFSET <= t.sec < TWO_32 - NTP_SECOND_OFFSET
    ensures FractionToMicroseconds(Low32(UnixtimeToNtp(t))) == Low32(t.usec) % MICRO
  {
    hide MicrosecondsToFraction, FractionToMicroseconds, UnixtimeToNtp;
    FormsAgree(t);
    MicrosecondsRoundTrip(Low32(t.usec));
    assert Low32(UnixtimeToNtp(t)) == UnixtimeToNtpStruct(t).fractions;
  }

  /** A unit is wider than one step of the fraction. */
  lemma FractionIncreases(m: uint32, n: uint32)
    requires m < MICRO && n < MICRO
    ensures m < n ==> MicrosecondsToFraction(m) < MicrosecondsToFraction(n)
  {
    hide MicrosecondsToFraction;
    MicroFraction(m);
    MicroFraction(n);
  }

  /** Within the era packing is strictly order preserving, so timestamps can be compared as plain numbers. */
  lemma OrderPreserving(a: Timeval, b: Timeval)
    requires InEra(a) && InEra(b)
    ensures Earlier(a, b) <==> UnixtimeToNtp(a) < UnixtimeToNtp(b)
  {
    hide MicrosecondsToFraction, UnixtimeToNtp;
    FormsAgree(a);
    FormsAgree(b);
    FractionIncreases(a.usec, b.usec);
    FractionIncreases(b.usec, a.usec);
  }
}
