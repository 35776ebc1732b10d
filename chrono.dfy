/** Time helpers of the logging library. The clock is `steady_clock`, whose
    duration is a signed 64-bit count of nanoseconds; a time point is such a
    count since the clock's epoch. `now` is always a parameter. */
module Chrono {

  /** A `Clock::duration`: nanoseconds. */
  type Duration = int

  /** A `TimePoint`: the duration since the clock's epoch. */
  datatype TimePoint = TimePoint(sinceEpoch: Duration)

  const Int64Max: int := 0x7fff_ffff_ffff_ffff
  const Pow16: int := 0x1_0000
  const Pow8: int := 0x100
  const Pow32: int := 0x1_0000_0000

  /** A time point a 64-bit tick count can hold, not before the epoch. */
  predicate IsClockValue(tp: TimePoint) {
    0 <= tp.sinceEpoch <= Int64Max
  }

  // ---------------------------------------------------------------------------
  // C and C++ integer division truncates toward zero
  // ---------------------------------------------------------------------------

  /** The quotient of `a / b` in C++ (and of `ldiv`/`div`). */
  function TruncDiv(a: int, b: int): int
    requires b > 0
  {
    if a >= 0 then a / b else -((-a) / b)
  }

  /** The remainder of `a % b` in C++: it takes the sign of `a`. */
  function TruncMod(a: int, b: int): (r: int)
    requires b > 0
    ensures a == b * TruncDiv(a, b) + r
    ensures a >= 0 ==> 0 <= r < b
    ensures a < 0 ==> -b < r <= 0
  {
    a - b * TruncDiv(a, b)
  }

  /** Euclidean division by a positive number is unique. */
  lemma DivUnique(a: int, b: int, q: int, r: int)
    requires b > 0 && 0 <= r < b && a == b * q + r
    ensures a / b == q && a % b == r
  {
    var k := q - a / b;
    assert b * k == a % b - r;
  }

  /** Dividing twice is dividing once by the product. */
  lemma DivDiv(a: nat, b: int, c: int)
    requires b > 0 && c > 0
    ensures a / b / c == a / (b * c)
  {
    var q := a / (b * c);
    var r := a % (b * c);
    assert a == b * (c * q) + r;
    var rq := r / b;
    assert r == b * rq + r % b;
    assert 0 <= rq < c;
    assert a == b * (c * q + rq) + r % b;
    DivUnique(a, b, c * q + rq, r % b);
    DivUnique(c * q + rq, c, q, rq);
  }

  /** Truncating twice is truncating once by the product, for every sign. */
  lemma TruncDivTwice(a: int, b: int, c: int)
    requires b > 0 && c > 0
    ensures TruncDiv(TruncDiv(a, b), c) == TruncDiv(a, b * c)
  {
    var bc := b * c;
    assert bc > 0 by { PositiveProduct(b, c); }
    if a >= 0 {
      DivDiv(a, b, c);
    } else {
      var n := -a;
      var x := n / b;
      DivDiv(n, b, c);
      assert TruncDiv(a, b) == -x;
      NegatedTruncDiv(x, c);
      assert TruncDiv(a, bc) == -(n / bc);
    }
  }

  lemma PositiveProduct(b: int, c: int)
    requires b > 0 && c > 0
    ensures b * c > 0
  {
  }

  /** Truncation of a non-positive number is the negated floor of its
      magnitude. */
  lemma NegatedTruncDiv(x: int, c: int)
    requires x >= 0 && c > 0
    ensures TruncDiv(-x, c) == -(x / c)
  {
  }

  // ---------------------------------------------------------------------------
  // nsec / usec / msec / sec: duration_cast truncates toward zero
  // ---------------------------------------------------------------------------

  /** `nsec(dur)`: already in nanoseconds. */
  function Nsec(d: Duration): int {
    d
  }

  /** `usec(dur)`: whole microseconds, rounded toward zero. */
  function Usec(d: Duration): (r: int)
    ensures d >= 0 ==> 0 <= r * 1000 <= d < (r + 1) * 1000
    ensures d < 0 ==> (r - 1) * 1000 < d <= r * 1000 <= 0
  {
    TruncDiv(d, 1000)
  }

  /** `msec(dur)`: whole milliseconds, rounded toward zero. */
  function Msec(d: Duration): (r: int)
    ensures d >= 0 ==> 0 <= r * 1000000 <= d < (r + 1) * 1000000
    ensures d < 0 ==> (r - 1) * 1000000 < d <= r * 1000000 <= 0
  {
    TruncDiv(d, 1000000)
  }

  /** `sec(dur)`: whole seconds, rounded toward zero. */
  function Sec(d: Duration): (r: int)
    ensures d >= 0 ==> 0 <= r * 1000000000 <= d < (r + 1) * 1000000000
    ensures d < 0 ==> (r - 1) * 1000000000 < d <= r * 1000000000 <= 0
  {
    TruncDiv(d, 1000000000)
  }

  /** The `TimePoint` overloads: the same casts of the time since epoch. */
  function NsecAt(tp: TimePoint): int { Nsec(tp.sinceEpoch) }
  function UsecAt(tp: TimePoint): int { Usec(tp.sinceEpoch) }
  function MsecAt(tp: TimePoint): int { Msec(tp.sinceEpoch) }
  function SecAt(tp: TimePoint): int { Sec(tp.sinceEpoch) }

  /** The coarser resolutions are the truncations of the finer ones, so the
      four readings of one time point never disagree. */
  lemma ResolutionsAgree(tp: TimePoint)
    ensures UsecAt(tp) == TruncDiv(NsecAt(tp), 1000)
    ensures MsecAt(tp) == TruncDiv(UsecAt(tp), 1000)
    ensures SecAt(tp) == TruncDiv(MsecAt(tp), 1000)
  {
    TruncDivTwice(tp.sinceEpoch, 1000, 1000);
    TruncDivTwice(tp.sinceEpoch, 1000000, 1000);
  }

  // ---------------------------------------------------------------------------
  // Deadline
  // ---------------------------------------------------------------------------

  /** A `Deadline`: the fixed time point it expires at. */
  datatype Deadline = Deadline(expiry: TimePoint)

  /** `Deadline(dur)` created at time `now`. */
  function MakeDeadline(now: TimePoint, dur: Duration): (d: Deadline)
    ensures d.expiry.sinceEpoch - now.sinceEpoch == dur
  {
    Deadline(TimePoint(now.sinceEpoch + dur))
  }

  /** `isOver()` at time `now`. */
  predicate IsOver(d: Deadline, now: TimePoint) {
    now.sinceEpoch >= d.expiry.sinceEpoch
  }

  /** `getRemaining()` at time `now`: never negative, zero exactly when the
      deadline is over, and otherwise the time left until it. */
  function GetRemaining(d: Deadline, now: TimePoint): (r: Duration)
    ensures r >= 0
    ensures r == 0 <==> IsOver(d, now)
    ensures !IsOver(d, now) ==> now.sinceEpoch + r == d.expiry.sinceEpoch
  {
    if now.sinceEpoch >= d.expiry.sinceEpoch then 0 else d.expiry.sinceEpoch - now.sinceEpoch
  }

  /** The remaining time never grows as the clock advances, and a deadline
      once over stays over. */
  lemma RemainingIsMonotone(d: Deadline, t1: TimePoint, t2: TimePoint)
    requires t1.sinceEpoch <= t2.sinceEpoch
    ensures GetRemaining(d, t2) <= GetRemaining(d, t1)
    ensures IsOver(d, t1) ==> IsOver(d, t2)
  {
  }

  /** A fresh deadline has its whole duration left (none, if the duration
      is not positive). */
  lemma FreshDeadline(now: TimePoint, dur: Duration)
    ensures GetRemaining(MakeDeadline(now, dur), now) == if dur > 0 then dur else 0
    ensures IsOver(MakeDeadline(now, dur), now) <==> dur <= 0
  {
  }

  // ---------------------------------------------------------------------------
  // toTimestamp_ts
  // ---------------------------------------------------------------------------

  /** `Timestamp_ts`: each field holds the value its C++ field type keeps. */
  datatype Timestamp = Timestamp(micros: nat, millis: nat, secs: nat, mins: nat, hours: nat, days: nat)

  /** Conversion to an unsigned type of `2^k` values keeps the value modulo
      `2^k`. */
  function ToUnsigned(x: int, modulus: int): (r: nat)
    requires modulus > 0
    ensures r < modulus
    ensures 0 <= x < modulus ==> r == x
  {
    x % modulus
  }

  /** The `(int)` cast of a `long`: two's complement wrap into 32 bits. */
  function ToInt32(x: int): (r: int)
    ensures -0x8000_0000 <= r < 0x8000_0000
    ensures -0x8000_0000 <= x < 0x8000_0000 ==> r == x
  {
    var u := x % Pow32;
    if u >= 0x8000_0000 then u - Pow32 else u
  }

  /** Breaking the microsecond count `now` into its parts by the chain of
      `ldiv`/`div` calls, then narrowing each part to its field type. */
  function BreakDown(now: int): Timestamp {
    var q1 := TruncDiv(now, 1000);
    var micros := TruncMod(now, 1000);
    var q2 := TruncDiv(q1, 1000);
    var millis := TruncMod(q1, 1000);
    var q3 := TruncDiv(q2, 60);
    var secs := TruncMod(q2, 60);
    var m := ToInt32(q3);
    var q4 := TruncDiv(m, 60);
    var mins := TruncMod(m, 60);
    var days := TruncDiv(q4, 24);
    var hours := TruncMod(q4, 24);
    Timestamp(ToUnsigned(micros, Pow16), ToUnsigned(millis, Pow16), ToUnsigned(secs, Pow8),
              ToUnsigned(mins, Pow8), ToUnsigned(hours, Pow8), ToUnsigned(days, Pow16))
  }

  /** `toTimestamp_ts(tp)`. */
  function ToTimestamp(tp: TimePoint): Timestamp {
    BreakDown(Usec(tp.sinceEpoch))
  }

  /** Microseconds in one day. */
  const MicrosPerDay: int := 86_400_000_000

  /** The microsecond count a timestamp stands for. */
  function Reconstruct(ts: Timestamp): int {
    ((((ts.days * 24 + ts.hours) * 60 + ts.mins) * 60 + ts.secs) * 1000 + ts.millis) * 1000 + ts.micros
  }

  /** For any time point a 64-bit clock can hold, the minutes count fits an
      `int`, so the cast is harmless and every part is within its range. */
  lemma TimestampBounds(tp: TimePoint)
    requires IsClockValue(tp)
    ensures var ts := ToTimestamp(tp);
      ts.micros < 1000 && ts.millis < 1000 && ts.secs < 60 && ts.mins < 60 && ts.hours < 24
  {
    var now := Usec(tp.sinceEpoch);
    assert 0 <= now <= Int64Max / 1000;
    var q3 := TruncDiv(TruncDiv(TruncDiv(now, 1000), 1000), 60);
    assert 0 <= q3 < 0x8000_0000;
  }

  /** While the day count fits its 16 bits, the parts add back up to the
      microseconds since the epoch. */
  lemma TimestampReconstruction(tp: TimePoint)
    requires 0 <= Usec(tp.sinceEpoch) < Pow16 * MicrosPerDay
    ensures Reconstruct(ToTimestamp(tp)) == Usec(tp.sinceEpoch)
  {
    var now := Usec(tp.sinceEpoch);
    var q1 := now / 1000;
    var q2 := q1 / 1000;
    var q3 := q2 / 60;
    assert 0 <= q3 < 0x8000_0000;
    var q4 := q3 / 60;
    assert now == q1 * 1000 + now % 1000;
    assert q1 == q2 * 1000 + q1 % 1000;
    assert q2 == q3 * 60 + q2 % 60;
    assert q3 == q4 * 60 + q3 % 60;
    assert q4 == (q4 / 24) * 24 + q4 % 24;
    assert q4 / 24 < Pow16;
  }

  /** Past 65536 days the day field wraps: the first microsecond of day
      65536 prints as day 0. */
  lemma DaysWrapAfter16Bits()
    ensures ToTimestamp(TimePoint(Pow16 * MicrosPerDay * 1000)).days == 0
  {
    var now := Pow16 * MicrosPerDay;
    assert Usec(Pow16 * MicrosPerDay * 1000) == now;
  }

  // ---------------------------------------------------------------------------
  // Formatting: "{:04}:{:02}:{:02}:{:02}.{:03}.{:03}"
  // ---------------------------------------------------------------------------

  function DigitChar(d: nat): char
    requires d < 10
  {
    "0123456789"[d]
  }

  predicate IsDigit(c: char) {
    '0' <= c <= '9'
  }

  function DigitValue(c: char): nat
    requires IsDigit(c)
  {
    (c - '0') as nat
  }

  /** The decimal digits of `n`, without leading zeros. */
  function Digits(n: nat): (r: string)
    ensures |r| >= 1
    ensures forall i :: 0 <= i < |r| ==> IsDigit(r[i])
    decreases n
  {
    if n < 10 then [DigitChar(n)] else Digits(n / 10) + [DigitChar(n % 10)]
  }

  /** The number a string of decimal digits denotes. */
  function DecimalValue(s: string): nat
    requires forall i :: 0 <= i < |s| ==> IsDigit(s[i])
    decreases |s|
  {
    if s == [] then 0 else DecimalValue(s[..|s| - 1]) * 10 + DigitValue(s[|s| - 1])
  }

  function Zeros(k: nat): (r: string)
    ensures |r| == k
    ensures forall i :: 0 <= i < k ==> r[i] == '0'
  {
    seq(k, _ => '0')
  }

  /** fmt's `{:0w}` for a non-negative integer: its digits, left-padded with
      zeros to at least `width` characters. */
  function Pad(n: nat, width: nat): (r: string)
    ensures forall i :: 0 <= i < |r| ==> IsDigit(r[i])
  {
    var d := Digits(n);
    Zeros(if |d| < width then width - |d| else 0) + d
  }

  lemma {:induction false} DigitsRoundTrip(n: nat)
    ensures DecimalValue(Digits(n)) == n
    decreases n
  {
    var d := Digits(n);
    DigitCharValue(n % 10);
    if n >= 10 {
      DigitsRoundTrip(n / 10);
      assert d[..|d| - 1] == Digits(n / 10);
      assert DecimalValue(d) == (n / 10) * 10 + n % 10;
    } else {
      assert d[..0] == [];
    }
  }

  /** Each digit character reads back as its digit. */
  lemma DigitCharValue(k: nat)
    requires k < 10
    ensures IsDigit(DigitChar(k)) && DigitValue(DigitChar(k)) == k
  {
  }

  lemma {:induction false} DigitsLength(n: nat, w: nat)
    requires w >= 1
    requires n < Power10(w)
    ensures |Digits(n)| <= w
    decreases n
  {
    if n >= 10 {
      assert w >= 2;
      assert n / 10 < Power10(w - 1);
      DigitsLength(n / 10, w - 1);
    }
  }

  function Power10(k: nat): (r: nat)
    ensures r >= 1
  {
    if k == 0 then 1 else 10 * Power10(k - 1)
  }

  /** Leading zeros do not change the value of a digit string. */
  lemma {:induction false} LeadingZeros(k: nat, s: string)
    requires forall i :: 0 <= i < |s| ==> IsDigit(s[i])
    ensures DecimalValue(Zeros(k) + s) == DecimalValue(s)
    decreases |s|
  {
    if s == [] {
      assert Zeros(k) + s == Zeros(k);
      ZerosValue(k);
    } else {
      var t := Zeros(k) + s;
      assert t[..|t| - 1] == Zeros(k) + s[..|s| - 1];
      LeadingZeros(k, s[..|s| - 1]);
    }
  }

  lemma {:induction false} ZerosValue(k: nat)
    ensures DecimalValue(Zeros(k)) == 0
    decreases k
  {
    if k > 0 {
      assert Zeros(k)[..k - 1] == Zeros(k - 1);
      ZerosValue(k - 1);
    }
  }

  /** A value below `10^width` is padded to exactly `width` digits that read
      back as the value. */
  lemma PadExact(n: nat, width: nat)
    requires width >= 1 && n < Power10(width)
    ensures |Pad(n, width)| == width
    ensures DecimalValue(Pad(n, width)) == n
  {
    DigitsLength(n, width);
    DigitsRoundTrip(n);
    LeadingZeros(width - |Digits(n)|, Digits(n));
  }

  /** `fmt::formatter<Timestamp_ts>`: DDDD:HH:MM:SS.mmm.uuu. */
  function FormatTimestamp(ts: Timestamp): string {
    Pad(ts.days, 4) + ":" + Pad(ts.hours, 2) + ":" + Pad(ts.mins, 2) + ":" + Pad(ts.secs, 2)
      + "." + Pad(ts.millis, 3) + "." + Pad(ts.micros, 3)
  }

  /** A timestamp whose every part fits its printed width. */
  predicate FitsLayout(ts: Timestamp) {
    ts.days < 10000 && ts.hours < 100 && ts.mins < 100 && ts.secs < 100
      && ts.millis < 1000 && ts.micros < 1000
  }

  /** 21 characters with a digit everywhere but at the five separators. */
  predicate IsTimestampText(s: string) {
    |s| == 21 && forall i :: 0 <= i < 21 && i !in {4, 7, 10, 13, 17} ==> IsDigit(s[i])
  }

  /** Reading the fixed-width fields of a 21-character timestamp. */
  function ParseTimestamp(s: string): Timestamp
    requires IsTimestampText(s)
  {
    Timestamp(DecimalValue(s[18..21]), DecimalValue(s[14..17]), DecimalValue(s[11..13]),
              DecimalValue(s[8..10]), DecimalValue(s[5..7]), DecimalValue(s[..4]))
  }

  /** Where the six fields and five separators of the layout sit. */
  lemma LayoutPositions(p0: string, p1: string, p2: string, p3: string, p4: string, p5: string)
    requires |p0| == 4 && |p1| == 2 && |p2| == 2 && |p3| == 2 && |p4| == 3 && |p5| == 3
    ensures var s := p0 + ":" + p1 + ":" + p2 + ":" + p3 + "." + p4 + "." + p5;
      |s| == 21 && s[4] == ':' && s[7] == ':' && s[10] == ':' && s[13] == '.' && s[17] == '.'
      && s[..4] == p0 && s[5..7] == p1 && s[8..10] == p2 && s[11..13] == p3
      && s[14..17] == p4 && s[18..21] == p5
  {
    var s := p0 + ":" + p1 + ":" + p2 + ":" + p3 + "." + p4 + "." + p5;
    forall i | 0 <= i < 4 ensures s[i] == p0[i] {}
    forall i | 0 <= i < 2 ensures s[5 + i] == p1[i] && s[8 + i] == p2[i] && s[11 + i] == p3[i] {}
    forall i | 0 <= i < 3 ensures s[14 + i] == p4[i] && s[18 + i] == p5[i] {}
    assert s[..4] == p0;
    assert s[5..7] == p1;
    assert s[8..10] == p2;
    assert s[11..13] == p3;
    assert s[14..17] == p4;
    assert s[18..21] == p5;
  }

  /** The layout: 21 characters, separators `:` `:` `:` `.` `.` at fixed
      places, and each field reads back as the value printed into it. */
  lemma TimestampLayout(ts: Timestamp)
    requires FitsLayout(ts)
    ensures var s := FormatTimestamp(ts);
      IsTimestampText(s)
      && s[4] == ':' && s[7] == ':' && s[10] == ':' && s[13] == '.' && s[17] == '.'
      && s[..4] == Pad(ts.days, 4) && ParseTimestamp(s) == ts
  {
    PadExact(ts.days, 4);
    PadExact(ts.hours, 2);
    PadExact(ts.mins, 2);
    PadExact(ts.secs, 2);
    PadExact(ts.millis, 3);
    PadExact(ts.micros, 3);
    LayoutPositions(Pad(ts.days, 4), Pad(ts.hours, 2), Pad(ts.mins, 2), Pad(ts.secs, 2),
                    Pad(ts.millis, 3), Pad(ts.micros, 3));
    LayoutDigits(Pad(ts.days, 4), Pad(ts.hours, 2), Pad(ts.mins, 2), Pad(ts.secs, 2),
                 Pad(ts.millis, 3), Pad(ts.micros, 3));
  }

  /** What follows the day field: `:HH:MM:SS.mmm.uuu`. */
  function TimestampTail(ts: Timestamp): string {
    ":" + Pad(ts.hours, 2) + ":" + Pad(ts.mins, 2) + ":" + Pad(ts.secs, 2)
      + "." + Pad(ts.millis, 3) + "." + Pad(ts.micros, 3)
  }

  /** The layout for any day count, the 16-bit field's 10000..65535 included:
      the text is the `{:04}` day field followed by the 17-character tail.
      The day field has exactly four characters below 10000 and five for the
      larger 16-bit values (so 22 in all), and it reads back as the day
      count. The tail is the one a day-0 timestamp prints, so the other
      fields read back exactly. */
  lemma TimestampLayoutAnyDay(ts: Timestamp)
    requires ts.hours < 100 && ts.mins < 100 && ts.secs < 100 && ts.millis < 1000 && ts.micros < 1000
    ensures FormatTimestamp(ts) == Pad(ts.days, 4) + TimestampTail(ts) && |TimestampTail(ts)| == 17
    ensures |Pad(ts.days, 4)| >= 4 && (|Pad(ts.days, 4)| == 4 <==> ts.days < 10000)
    ensures 10000 <= ts.days < Pow16 ==> |FormatTimestamp(ts)| == 22
    ensures DecimalValue(Pad(ts.days, 4)) == ts.days
    ensures IsTimestampText("0000" + TimestampTail(ts))
      && ParseTimestamp("0000" + TimestampTail(ts)) == ts.(days := 0)
  {
    TailLayout(ts);
    DayField(ts.days);
    TimestampSplit(ts);
  }

  /** The tail is 17 characters and, behind a day field of `0000`, reads back
      as the timestamp with its day count cleared. */
  lemma TailLayout(ts: Timestamp)
    requires ts.hours < 100 && ts.mins < 100 && ts.secs < 100 && ts.millis < 1000 && ts.micros < 1000
    ensures |TimestampTail(ts)| == 17
    ensures IsTimestampText("0000" + TimestampTail(ts))
    ensures ParseTimestamp("0000" + TimestampTail(ts)) == ts.(days := 0)
  {
    var ts0 := ts.(days := 0);
    TimestampLayout(ts0);
    ZeroDayField();
    TimestampSplit(ts0);
    assert TimestampTail(ts0) == TimestampTail(ts);
  }

  /** A timestamp prints as its day field followed by its tail. */
  lemma TimestampSplit(ts: Timestamp)
    ensures FormatTimestamp(ts) == Pad(ts.days, 4) + TimestampTail(ts)
  {
    RegroupFields(Pad(ts.days, 4), Pad(ts.hours, 2), Pad(ts.mins, 2), Pad(ts.secs, 2),
                  Pad(ts.millis, 3), Pad(ts.micros, 3));
  }

  lemma RegroupFields(p0: string, p1: string, p2: string, p3: string, p4: string, p5: string)
    ensures p0 + ":" + p1 + ":" + p2 + ":" + p3 + "." + p4 + "." + p5
      == p0 + (":" + p1 + ":" + p2 + ":" + p3 + "." + p4 + "." + p5)
  {
  }

  lemma ZeroDayField()
    ensures Pad(0, 4) == "0000"
  {
    assert Digits(0) == "0";
  }

  /** The `{:04}` day field: at least four characters, exactly four below
      10000, five for the larger 16-bit values; it reads back as the day
      count. */
  lemma DayField(days: nat)
    ensures |Pad(days, 4)| >= 4 && (|Pad(days, 4)| == 4 <==> days < 10000)
    ensures 10000 <= days < Pow16 ==> |Pad(days, 4)| == 5
    ensures DecimalValue(Pad(days, 4)) == days
  {
    PadValue(days, 4);
    if days < 10000 {
      DigitsLength(days, 4);
    } else {
      DigitsAtLeast(days, 4);
      if days < Pow16 {
        DigitsLength(days, 5);
      }
    }
  }

  /** Padding never changes the value the digits read back as. */
  lemma PadValue(n: nat, width: nat)
    ensures DecimalValue(Pad(n, width)) == n
  {
    var d := Digits(n);
    DigitsRoundTrip(n);
    LeadingZeros(if |d| < width then width - |d| else 0, d);
  }

  /** A number of at least `10^w` has more than `w` digits. */
  lemma {:induction false} DigitsAtLeast(n: nat, w: nat)
    requires n >= Power10(w)
    ensures |Digits(n)| > w
    decreases w
  {
    if w > 0 {
      assert n >= 10;
      assert n / 10 >= Power10(w - 1);
      DigitsAtLeast(n / 10, w - 1);
    }
  }

  predicate AllDigits(s: string) {
    forall i :: 0 <= i < |s| ==> IsDigit(s[i])
  }

  /** Six digit fields joined by the separators make a timestamp text. */
  lemma LayoutDigits(p0: string, p1: string, p2: string, p3: string, p4: string, p5: string)
    requires |p0| == 4 && |p1| == 2 && |p2| == 2 && |p3| == 2 && |p4| == 3 && |p5| == 3
    requires AllDigits(p0) && AllDigits(p1) && AllDigits(p2) && AllDigits(p3) && AllDigits(p4) && AllDigits(p5)
    ensures IsTimestampText(p0 + ":" + p1 + ":" + p2 + ":" + p3 + "." + p4 + "." + p5)
  {
    var s := p0 + ":" + p1 + ":" + p2 + ":" + p3 + "." + p4 + "." + p5;
    forall i | 0 <= i < 21 && i !in {4, 7, 10, 13, 17} ensures IsDigit(s[i]) {
      if i < 4 { assert s[i] == p0[i]; }
      else if i < 7 { assert s[i] == p1[i - 5]; }
      else if i < 10 { assert s[i] == p2[i - 8]; }
      else if i < 13 { assert s[i] == p3[i - 11]; }
      else if i < 17 { assert s[i] == p4[i - 14]; }
      else { assert s[i] == p5[i - 18]; }
    }
  }

  /** `fmt::formatter<TimePoint>`: the timestamp of the time point. */
  function FormatTimePoint(tp: TimePoint): string {
    FormatTimestamp(ToTimestamp(tp))
  }

  /** `fmt::formatter<Duration>`: printed as the time point `epoch + dur`. */
  function FormatDuration(d: Duration): string {
    FormatTimePoint(TimePoint(d))
  }

  /** `fmt::formatter<duration<X, Y>>` for a tick of `nanosPerTick` ns:
      converted to the clock's nanoseconds, then printed as `epoch + dur`. */
  function FormatDurationOf(count: int, nanosPerTick: nat): string {
    FormatTimePoint(TimePoint(count * nanosPerTick))
  }

  /** A non-negative duration shorter than a day has day 0 and fits the
      layout. */
  lemma ShortDurationParts(d: Duration)
    requires 0 <= d < MicrosPerDay * 1000
    ensures ToTimestamp(TimePoint(d)).days == 0
    ensures FitsLayout(ToTimestamp(TimePoint(d)))
    ensures Reconstruct(ToTimestamp(TimePoint(d))) == Usec(d)
  {
    TimestampBounds(TimePoint(d));
    TimestampReconstruction(TimePoint(d));
  }

  /** A timestamp of day 0 that fits the layout starts with "0000:". */
  lemma ZeroDayLayout(ts: Timestamp)
    requires FitsLayout(ts) && ts.days == 0
    ensures var s := FormatTimestamp(ts);
      IsTimestampText(s) && s[..5] == "0000:" && ParseTimestamp(s) == ts
  {
    TimestampLayout(ts);
    assert Digits(0) == "0";
    assert Pad(0, 4) == "0000";
    var s := FormatTimestamp(ts);
    assert s[..5] == s[..4] + [s[4]];
  }

  /** A non-negative duration shorter than a day prints with day field 0000,
      and its other fields read back as the exact breakdown of the duration. */
  lemma ShortDurationLayout(d: Duration)
    requires 0 <= d < MicrosPerDay * 1000
    ensures var s := FormatDuration(d);
      IsTimestampText(s) && s[..5] == "0000:"
      && Reconstruct(ParseTimestamp(s)) == Usec(d)
  {
    ShortDurationParts(d);
    ZeroDayLayoutOf(ToTimestamp(TimePoint(d)), Usec(d));
  }

  /** A duration of whole milliseconds below one day prints with day field
      0000, and its fields read back as the milliseconds, the microsecond
      part being zero. */
  lemma MillisecondDurationLayout(ms: int)
    requires 0 <= ms < 86_400_000
    ensures var s := FormatDurationOf(ms, 1_000_000);
      IsTimestampText(s) && s[..5] == "0000:"
      && Reconstruct(ParseTimestamp(s)) == ms * 1000
      && ParseTimestamp(s).micros == 0
  {
    var d := ms * 1_000_000;
    WholeMillis(ms);
    ShortDurationParts(d);
    ZeroDayLayout(ToTimestamp(TimePoint(d)));
  }

  /** Whole milliseconds leave no microseconds. */
  lemma WholeMillis(ms: int)
    requires 0 <= ms < 86_400_000
    ensures 0 <= ms * 1_000_000 < MicrosPerDay * 1000
    ensures Usec(ms * 1_000_000) == ms * 1000
    ensures ToTimestamp(TimePoint(ms * 1_000_000)).micros == 0
  {
    var now := ms * 1000;
    assert Usec(ms * 1_000_000) == now;
    assert TruncMod(now, 1000) == 0;
  }

  lemma ZeroDayLayoutOf(ts: Timestamp, u: int)
    requires FitsLayout(ts) && ts.days == 0 && Reconstruct(ts) == u
    ensures var s := FormatTimestamp(ts);
      IsTimestampText(s) && s[..5] == "0000:" && Reconstruct(ParseTimestamp(s)) == u
  {
    ZeroDayLayout(ts);
  }
}
