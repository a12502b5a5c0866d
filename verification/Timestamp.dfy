/** The timestamp encoder: text such as 2019-11-05T11:31:34.123Z to microseconds since 2000-01-01. */
module Timestamp {
  import opened Calendar
  import opened Options

  const TWO32 := 0x1_0000_0000
  const TWO64 := 0x1_0000_0000_0000_0000

  // ---- strtoul in base 10 ----

  predicate Digit(c: char) {
    '0' <= c <= '9'
  }

  predicate Space(c: char) {
    c == ' ' || 9 <= c as int <= 13
  }

  function DigitValue(c: char): nat
    requires Digit(c)
  {
    c as int - '0' as int
  }

  function SkipSpace(s: string, i: nat): (j: nat)
    requires i <= |s|
    ensures i <= j <= |s|
    decreases |s| - i
  {
    if i < |s| && Space(s[i]) then SkipSpace(s, i + 1) else i
  }

  /** acc followed by the digits from position i on. */
  function Digits(s: string, i: nat, acc: nat): nat
    requires i <= |s|
    decreases |s| - i
  {
    if i < |s| && Digit(s[i]) then Digits(s, i + 1, 10 * acc + DigitValue(s[i])) else acc
  }

  /** Leading space is skipped, a sign is obeyed in unsigned arithmetic, and no digits at all give 0. */
  function StrToUl(s: string, i: nat): nat
    requires i <= |s|
  {
    var j := SkipSpace(s, i);
    if j < |s| && s[j] == '-' then (TWO64 - Digits(s, j + 1, 0)) % TWO64
    else if j < |s| && s[j] == '+' then Digits(s, j + 1, 0)
    else Digits(s, j, 0)
  }

  // ---- The encoder ----

  datatype Fields = Fields(year: nat, month: nat, day: nat, hour: nat, minute: nat, second: nat, micro: nat)

  /** The length and the separators are those of a UTC timestamp. */
  predicate Shaped(ts: string) {
    && 20 <= |ts| <= 31
    && ts[4] == '-' && ts[7] == '-' && ts[10] == 'T' && ts[13] == ':' && ts[16] == ':'
    && (ts[19] == '.' || ts[19] == 'Z') && ts[|ts| - 1] == 'Z'
  }

  function Zeros(n: nat): (z: string)
    ensures |z| == n && forall i :: 0 <= i < n ==> z[i] == '0'
  {
    seq(n, _ => '0')
  }

  /** Up to six digits of the fraction, filled with zeros. */
  function MicroText(ts: string): string
    requires |ts| > 20
  {
    var n := if |ts| - 21 > 6 then 6 else |ts| - 21;
    ts[20..20 + n] + Zeros(6 - n)
  }

  function Read(ts: string): Fields
    requires Shaped(ts)
  {
    Fields(StrToUl(ts, 0) % TWO32, StrToUl(ts, 5) % TWO32, StrToUl(ts, 8) % TWO32,
           StrToUl(ts, 11) % TWO32, StrToUl(ts, 14) % TWO32, StrToUl(ts, 17) % TWO32,
           if ts[19] != 'Z' && ts[20] != 'Z' then StrToUl(MicroText(ts), 0) else 0)
  }

  /** The encoder exists twice: in the export hook, and in the older exports producer. */
  datatype Program = Hook | Producer

  /** The hook accepts leap seconds, the producer does not. */
  function MaxSecond(program: Program): nat {
    if program.Hook? then 60 else 59
  }

  predicate Accepts(f: Fields, program: Program) {
    InRange(f) && f.second <= MaxSecond(program)
  }

  predicate InRange(f: Fields) {
    && 2000 <= f.year <= 4027 && 1 <= f.month <= 12 && f.day <= 31
    && f.hour <= 23 && f.minute <= 59 && f.second <= 60
    && !(f.month == 2 && f.day > 29)
  }

  /** The seconds from 2000-01-01T00:00:00Z on. */
  function Seconds(f: Fields): int
    requires InRange(f)
  {
    f.second + f.minute * 60 + f.hour * 3600
    + 86400 * (DaysBefore(f.year, f.month) + f.day - 1 + LeapsBefore(f.year - 2000)) + 31536000 * (f.year - 2000)
  }

  /** The seconds are summed up in 32 bits, the microseconds in 64. */
  function Encoded(f: Fields): (e: nat)
    requires InRange(f)
    ensures e < TWO64
  {
    ((Seconds(f) % TWO32) * 1000000 + f.micro) % TWO64
  }

  function Timestamp(ts: string, program: Program): (r: Option<nat>)
    ensures r.Some? ==> r.value < TWO64
  {
    if !Shaped(ts) then None
    else if !Accepts(Read(ts), program) then None
    else Some(Encoded(Read(ts)))
  }

  /** _json_to_pqtimestamp, with the shared leap-day table. */
  method JsonToPqTimestamp(ts: string, leapyears: array<nat>, program: Program) returns (r: Option<nat>)
    requires leapyears.Length == 2048 && forall n :: 0 <= n < 2048 ==> leapyears[n] == LeapsBefore(n)
    ensures r == Timestamp(ts, program)
  {
    hide StrToUl, LeapsBefore, DaysBefore, Leap;
    if |ts| < 20 || |ts| > 31 {
      return None;
    }
    if ts[4] != '-' || ts[7] != '-' || ts[10] != 'T' || ts[13] != ':' || ts[16] != ':'
       || !(ts[19] == '.' || ts[19] == 'Z') || ts[|ts| - 1] != 'Z' {
      return None;
    }
    var year, month, day := StrToUl(ts, 0) % TWO32, StrToUl(ts, 5) % TWO32, StrToUl(ts, 8) % TWO32;
    var hour, minute, second := StrToUl(ts, 11) % TWO32, StrToUl(ts, 14) % TWO32, StrToUl(ts, 17) % TWO32;
    var micro := 0;
    if ts[19] != 'Z' && ts[20] != 'Z' {
      micro := StrToUl(MicroText(ts), 0);
    }
    if year < 2000 || year > 4027 {
      return None;
    }
    if month < 1 || month > 12 || day > 31 || hour > 23 || minute > 59 || second > MaxSecond(program) {
      return None;
    }
    if month == 2 && day > 29 {
      return None;
    }
    year := year - 2000;
    var yday := YearDay(year, month, day);
    var epoch := (second + minute * 60 + hour * 3600 + (yday - 1) * 86400
                  + leapyears[year] * 86400 + year * 31536000) % TWO32;
    epoch := epoch * 1000000;
    r := Some((epoch + micro) % TWO64);
  }

  // ---- What the encoding means ----

  /** A point in time as it is written: second 60 is a leap second. */
  datatype Instant = Instant(date: Date, hour: nat, minute: nat, second: nat, micro: nat)

  predicate Written(t: Instant) {
    && Real(t.date) && t.date.year <= 4027
    && t.hour <= 23 && t.minute <= 59 && t.second <= 60 && t.micro <= 999999
  }

  function FieldsOf(t: Instant): Fields
    requires Written(t)
  {
    Fields(t.date.year, t.date.month, t.date.day, t.hour, t.minute, t.second, t.micro)
  }

  /** The exact number of seconds from 2000-01-01T00:00:00Z to t. */
  function ExactSeconds(t: Instant): int
    requires Written(t)
  {
    86400 * DayNumber(t.date) + 3600 * t.hour + 60 * t.minute + t.second
  }

  /** t is written with an earlier date or time of day than u, fractions aside. */
  predicate Before(t: Instant, u: Instant) {
    || Earlier(t.date, u.date)
    || (t.date == u.date && t.hour < u.hour)
    || (t.date == u.date && t.hour == u.hour && t.minute < u.minute)
    || (t.date == u.date && t.hour == u.hour && t.minute == u.minute && t.second < u.second)
  }

  /** 2136-02-07T06:28:16Z. */
  const OVERFLOW := Instant(Date(2136, 2, 7), 6, 28, 16, 0)

  lemma WrittenInRange(t: Instant)
    requires Written(t)
    ensures InRange(FieldsOf(t)) && Seconds(FieldsOf(t)) == ExactSeconds(t)
  {
    hide Leap, LeapsBefore, DaysBefore;
  }

  /** The encoded value is the number of seconds in 32 bits, in microseconds, plus the fraction. */
  lemma EncodedValue(t: Instant)
    requires Written(t)
    ensures InRange(FieldsOf(t)) && Encoded(FieldsOf(t)) == 1000000 * (ExactSeconds(t) % TWO32) + t.micro
  {
    hide ExactSeconds, Seconds, Real;
    WrittenInRange(t);
  }

  lemma OverflowSeconds()
    ensures Written(OVERFLOW) && ExactSeconds(OVERFLOW) == TWO32
  {
    hide LeapsBefore, Leap;
    LeapsClosedForm(136);
    assert MonthLength(2136, 1) == 31 && DaysBefore(2136, 2) == 31;
    OverflowDay();
  }

  lemma OverflowDay()
    ensures Real(OVERFLOW.date)
  {
  }

  /** The written order is the order of the seconds; a leap second may meet the next minute. */
  lemma BeforeIsSmaller(t: Instant, u: Instant)
    requires Written(t) && Written(u) && Before(t, u)
    ensures ExactSeconds(t) <= ExactSeconds(u)
    ensures t.second <= 59 || u.second > 0 ==> ExactSeconds(t) < ExactSeconds(u)
  {
    hide DayNumber, Real;
    if Earlier(t.date, u.date) {
      EarlierIsSmaller(t.date, u.date);
    }
  }

  lemma NotBefore(t: Instant, u: Instant)
    requires Written(t) && Written(u) && !Before(t, u)
    ensures ExactSeconds(u) <= ExactSeconds(t)
  {
    hide DayNumber, Real;
    if Before(u, t) {
      BeforeIsSmaller(u, t);
    }
  }

  /** The encoding is exact if and only if the instant is before 2136-02-07T06:28:16Z. */
  lemma ExactIffBeforeOverflow(t: Instant)
    requires Written(t)
    ensures InRange(FieldsOf(t))
    ensures Encoded(FieldsOf(t)) == 1000000 * ExactSeconds(t) + t.micro <==> Before(t, OVERFLOW)
  {
    hide DayNumber, Real, Encoded, Earlier, Before, InRange, ExactSeconds;
    EncodedValue(t);
    OverflowSeconds();
    SecondsNonNegative(t);
    if Before(t, OVERFLOW) {
      BeforeIsSmaller(t, OVERFLOW);
    } else {
      NotBefore(t, OVERFLOW);
    }
  }

  lemma SecondsNonNegative(t: Instant)
    requires Written(t)
    ensures ExactSeconds(t) >= 0
  {
    hide Leap;
    DaysBeforePositive(t.date.year, t.date.month);
  }

  /** Below the overflow the encoding is strictly increasing in the written time, leap seconds aside. */
  lemma EncodingIncreases(t: Instant, u: Instant)
    requires Written(t) && Written(u) && t.second <= 59 && u.second <= 59 && Before(t, OVERFLOW) && Before(u, OVERFLOW)
    requires Before(t, u) || (t.(micro := 0) == u.(micro := 0) && t.micro < u.micro)
    ensures InRange(FieldsOf(t)) && InRange(FieldsOf(u)) && Encoded(FieldsOf(t)) < Encoded(FieldsOf(u))
  {
    hide DayNumber, Real, Encoded, Earlier, InRange;
    ExactIffBeforeOverflow(t);
    ExactIffBeforeOverflow(u);
    if Before(t, u) {
      BeforeIsSmaller(t, u);
    }
  }

  // ---- Reading back what is written ----

  function DigitOf(d: nat): char
    requires d <= 9
  {
    ('0' as int + d) as char
  }

  /** Position i of s holds the two digits of n. */
  predicate TwoAt(s: string, i: nat, n: nat) {
    n <= 99 && i + 2 <= |s| && s[i] == DigitOf(n / 10) && s[i + 1] == DigitOf(n % 10)
  }

  /** s starts with the date and the time of f. */
  predicate DateTimeAt(s: string, f: Fields)
    requires InRange(f)
  {
    && |s| >= 20
    && TwoAt(s, 0, f.year / 100) && TwoAt(s, 2, f.year % 100) && s[4] == '-' && TwoAt(s, 5, f.month) && s[7] == '-'
    && TwoAt(s, 8, f.day) && s[10] == 'T' && TwoAt(s, 11, f.hour) && s[13] == ':' && TwoAt(s, 14, f.minute) && s[16] == ':'
    && TwoAt(s, 17, f.second)
  }

  /** s is a timestamp of f's date and time with the given digits after the point, as section 5.6 of
      RFC 3339 writes it; at most ten digits fit. */
  predicate IsText(s: string, f: Fields, fraction: string)
    requires InRange(f)
  {
    && DateTimeAt(s, f)
    && |fraction| <= 10 && (forall i :: 0 <= i < |fraction| ==> Digit(fraction[i]))
    && (if fraction == "" then s[19..] == "Z" else s[19..] == "." + fraction + "Z")
  }

  /** The fraction in microseconds: further digits are dropped, missing ones are zeros. */
  function Micros(fraction: string): nat {
    Digits(if |fraction| > 6 then fraction[..6] else fraction + Zeros(6 - |fraction|), 0, 0)
  }

  lemma ReadDigits(s: string, i: nat, acc: nat, n: nat)
    requires TwoAt(s, i, n)
    ensures Digits(s, i, acc) == Digits(s, i + 2, 100 * acc + n)
    ensures SkipSpace(s, i) == i && s[i] != '-' && s[i] != '+'
  {
    var a := 10 * acc + n / 10;
    assert Digits(s, i, acc) == Digits(s, i + 1, a) == Digits(s, i + 2, 10 * a + n % 10);
  }

  lemma ReadTwo(s: string, i: nat, n: nat)
    requires TwoAt(s, i, n) && i + 2 < |s| && !Digit(s[i + 2])
    ensures StrToUl(s, i) == n
  {
    hide TwoAt;
    ReadDigits(s, i, 0, n);
  }

  lemma ReadFour(s: string, i: nat, m: nat, n: nat)
    requires TwoAt(s, i, m) && TwoAt(s, i + 2, n) && i + 4 < |s| && !Digit(s[i + 4])
    ensures StrToUl(s, i) == 100 * m + n
  {
    hide TwoAt;
    ReadDigits(s, i, 0, m);
    ReadDigits(s, i + 2, m, n);
  }

  lemma TextShape(s: string, f: Fields, fraction: string)
    requires InRange(f) && IsText(s, f, fraction)
    ensures Shaped(s) && (fraction == "" <==> s[19] == 'Z')
    ensures fraction != "" ==> |s| == 21 + |fraction| && s[20..|s| - 1] == fraction
  {
    hide TwoAt;
    var t := s[19..];
    assert s[19] == t[0] && s[|s| - 1] == t[|t| - 1];
    if fraction != "" {
      assert t == "." + fraction + "Z";
      assert s[20..|s| - 1] == t[1..|t| - 1];
    }
  }

  /** Reading a written timestamp gives its fields and the fraction in microseconds, cut after six digits. */
  lemma ReadBack(s: string, f: Fields, fraction: string)
    requires InRange(f) && IsText(s, f, fraction)
    ensures Shaped(s) && Read(s) == f.(micro := if fraction == "" then 0 else Micros(fraction))
  {
    hide TwoAt, StrToUl, DateTimeAt, Micros;
    TextShape(s, f, fraction);
    TextFields(s, f, fraction);
    if fraction != "" {
      TextMicros(s, fraction);
    }
  }

  lemma TextFields(s: string, f: Fields, fraction: string)
    requires InRange(f) && IsText(s, f, fraction) && Shaped(s)
    ensures StrToUl(s, 0) == f.year && StrToUl(s, 5) == f.month && StrToUl(s, 8) == f.day
    ensures StrToUl(s, 11) == f.hour && StrToUl(s, 14) == f.minute && StrToUl(s, 17) == f.second
  {
    hide TwoAt, StrToUl;
    ReadFour(s, 0, f.year / 100, f.year % 100);
    ReadTwo(s, 5, f.month);
    ReadTwo(s, 8, f.day);
    ReadTwo(s, 11, f.hour);
    ReadTwo(s, 14, f.minute);
    ReadTwo(s, 17, f.second);
  }

  lemma TextMicros(s: string, fraction: string)
    requires Shaped(s) && 1 <= |fraction| <= 10 && |s| == 21 + |fraction| && s[20..|s| - 1] == fraction
    requires forall i :: 0 <= i < |fraction| ==> Digit(fraction[i])
    ensures s[20] != 'Z' && StrToUl(MicroText(s), 0) == Micros(fraction)
  {
    assert s[20] == fraction[0];
    var m := if |fraction| > 6 then fraction[..6] else fraction + Zeros(6 - |fraction|);
    assert MicroText(s) == m;
    assert m[0] == fraction[0];
    assert SkipSpace(m, 0) == 0;
  }

  // ---- The fraction is truncated ----

  ghost predicate AllDigits(s: string) {
    forall i :: 0 <= i < |s| ==> Digit(s[i])
  }

  /** The number a digit string denotes. */
  ghost function Decimal(s: string): nat
    requires AllDigits(s)
  {
    if s == "" then 0 else 10 * Decimal(s[..|s| - 1]) + DigitValue(s[|s| - 1])
  }

  function Pow10(n: nat): (p: nat)
    ensures p > 0
  {
    if n == 0 then 1 else 10 * Pow10(n - 1)
  }

  lemma {:induction false} DigitsAreDecimal(s: string, i: nat)
    requires AllDigits(s) && i <= |s|
    ensures Digits(s, i, Decimal(s[..i])) == Decimal(s)
    decreases |s| - i
  {
    if i < |s| {
      assert s[..i + 1][..i] == s[..i];
      DigitsAreDecimal(s, i + 1);
    } else {
      assert s[..i] == s;
    }
  }

  lemma {:induction false} DecimalPadded(s: string, z: string)
    requires AllDigits(s) && forall i :: 0 <= i < |z| ==> z[i] == '0'
    ensures AllDigits(s + z) && Decimal(s + z) == Decimal(s) * Pow10(|z|)
  {
    if z == "" {
      assert s + z == s;
    } else {
      var y := z[..|z| - 1];
      DecimalPadded(s, y);
      assert (s + z)[..|s + z| - 1] == s + y && (s + z)[|s + z| - 1] == '0';
      TimesTen(Decimal(s), Pow10(|y|));
    }
  }

  lemma {:induction false} DecimalCut(s: string, k: nat)
    requires AllDigits(s) && k <= |s|
    ensures AllDigits(s[..k])
    ensures Decimal(s[..k]) * Pow10(|s| - k) <= Decimal(s) < (Decimal(s[..k]) + 1) * Pow10(|s| - k)
    decreases |s|
  {
    if k == |s| {
      assert s[..k] == s;
    } else {
      var t := s[..|s| - 1];
      DecimalCut(t, k);
      assert t[..k] == s[..k];
      TimesTen(Decimal(s[..k]), Pow10(|t| - k));
      TimesTen(Decimal(s[..k]) + 1, Pow10(|t| - k));
    }
  }

  lemma TimesTen(a: nat, b: nat)
    ensures a * (10 * b) == 10 * (a * b)
  {
  }

  lemma MicrosDecimal(fraction: string)
    requires AllDigits(fraction)
    ensures |fraction| > 6 ==> Micros(fraction) == Decimal(fraction[..6])
    ensures |fraction| <= 6 ==> Micros(fraction) == Decimal(fraction) * Pow10(6 - |fraction|)
  {
    hide Digits, Decimal, Pow10, Zeros;
    var n := |fraction|;
    if n > 6 {
      DecimalDigits(fraction[..6]);
    } else {
      DecimalPadded(fraction, Zeros(6 - n));
      DecimalDigits(fraction + Zeros(6 - n));
    }
  }

  lemma DecimalDigits(s: string)
    requires AllDigits(s)
    ensures Digits(s, 0, 0) == Decimal(s)
  {
    DigitsAreDecimal(s, 0);
  }

  /** Micros is the fraction times a million, rounded down. */
  lemma MicrosTruncate(fraction: string)
    requires AllDigits(fraction)
    ensures Micros(fraction) * Pow10(|fraction|) <= Decimal(fraction) * 1000000 < (Micros(fraction) + 1) * Pow10(|fraction|)
  {
    hide Micros, Decimal, Pow10;
    var n := |fraction|;
    MicrosDecimal(fraction);
    PowSix();
    if n > 6 {
      DecimalCut(fraction, 6);
      PowSum(n - 6, 6);
      Scale(Decimal(fraction[..6]), Pow10(n - 6), Decimal(fraction));
    } else {
      PowSum(n, 6 - n);
      Exactly(Decimal(fraction), Pow10(n), Pow10(6 - n));
    }
  }

  lemma Exactly(d: nat, p: nat, q: nat)
    requires p > 0 && p * q == 1000000
    ensures (d * q) * p == d * 1000000 < (d * q + 1) * p
  {
    assert (d * q) * p == d * (p * q);
  }

  lemma Scale(m: nat, p: nat, d: nat)
    requires m * p <= d < (m + 1) * p
    ensures m * (p * 1000000) <= d * 1000000 < (m + 1) * (p * 1000000)
  {
  }

  lemma PowSix()
    ensures Pow10(6) == 1000000
  {
  }

  lemma {:induction false} PowSum(a: nat, b: nat)
    ensures Pow10(a + b) == Pow10(a) * Pow10(b)
  {
    if a > 0 {
      PowSum(a - 1, b);
    }
  }

  lemma {:induction false} DecimalBound(s: string)
    requires AllDigits(s)
    ensures Decimal(s) < Pow10(|s|)
  {
    if s != "" {
      DecimalBound(s[..|s| - 1]);
    }
  }

  lemma MicrosBound(fraction: string)
    requires AllDigits(fraction)
    ensures Micros(fraction) <= 999999
  {
    hide Digits, Decimal, Pow10, Zeros;
    PowSix();
    var n := |fraction|;
    if n > 6 {
      DecimalDigits(fraction[..6]);
      DecimalBound(fraction[..6]);
    } else {
      var m := fraction + Zeros(6 - n);
      DecimalDigits(m);
      DecimalBound(m);
    }
  }

  /** The main result on text: every real date and time of day from 2000 to 4027, with up to ten
      fraction digits, is accepted, leap seconds by the hook only; the value is the second count in 32 bits,
      in microseconds, plus the truncated fraction; and it is the exact count if and only if the text is
      accepted and the instant is before the overflow. */
  lemma WrittenTimestamp(s: string, t: Instant, fraction: string, program: Program)
    requires Written(t) && InRange(FieldsOf(t)) && IsText(s, FieldsOf(t), fraction)
    ensures Timestamp(s, program) == if t.second > MaxSecond(program) then None
                                     else Some(1000000 * (ExactSeconds(t) % TWO32) + Micros(fraction))
    ensures Timestamp(s, program) == Some(1000000 * ExactSeconds(t) + Micros(fraction)) <==>
            t.second <= MaxSecond(program) && Before(t, OVERFLOW)
  {
    hide IsText, Read, InRange, Encoded, Before, Micros, Real, DayNumber;
    var u := t.(micro := Micros(fraction));
    TextDigits(s, FieldsOf(t), fraction);
    MicrosBound(fraction);
    NoMicros();
    ReadBack(s, FieldsOf(t), fraction);
    EncodedValue(u);
    ExactIffBeforeOverflow(u);
    SameBefore(t, Micros(fraction));
  }

  // ---- Which texts are accepted ----

  /** The length, the separators and the final Z of a UTC timestamp, position by position. */
  predicate LooksUtc(ts: string) {
    && 20 <= |ts| <= 31
    && ts[4] == '-' && ts[7] == '-' && ts[10] == 'T' && ts[13] == ':' && ts[16] == ':'
    && (ts[19] == '.' || ts[19] == 'Z') && ts[|ts| - 1] == 'Z'
  }

  /** Whatever is accepted looks like a UTC timestamp. */
  lemma AcceptedLooksUtc(ts: string, program: Program)
    ensures Timestamp(ts, program).Some? ==> LooksUtc(ts)
  {
    hide Read, Encoded;
  }

  /** The fields of the date and the time are written in digits. */
  predicate DigitFields(ts: string) {
    && |ts| >= 19
    && Digit(ts[0]) && Digit(ts[1]) && Digit(ts[2]) && Digit(ts[3]) && Digit(ts[5]) && Digit(ts[6])
    && Digit(ts[8]) && Digit(ts[9]) && Digit(ts[11]) && Digit(ts[12]) && Digit(ts[14]) && Digit(ts[15])
    && Digit(ts[17]) && Digit(ts[18])
  }

  /** The number written in the two digits at i. */
  function Pair(ts: string, i: nat): nat
    requires i + 2 <= |ts| && Digit(ts[i]) && Digit(ts[i + 1])
  {
    10 * DigitValue(ts[i]) + DigitValue(ts[i + 1])
  }

  lemma PairAt(ts: string, i: nat)
    requires i + 2 <= |ts| && Digit(ts[i]) && Digit(ts[i + 1])
    ensures TwoAt(ts, i, Pair(ts, i))
  {
    var a, b := DigitValue(ts[i]), DigitValue(ts[i + 1]);
    assert (10 * a + b) / 10 == a && (10 * a + b) % 10 == b;
  }

  lemma ReadPair(ts: string, i: nat)
    requires i + 2 < |ts| && Digit(ts[i]) && Digit(ts[i + 1]) && !Digit(ts[i + 2])
    ensures StrToUl(ts, i) == Pair(ts, i) <= 99
  {
    hide TwoAt, StrToUl;
    PairAt(ts, i);
    ReadTwo(ts, i, Pair(ts, i));
  }

  lemma ReadYear(ts: string)
    requires |ts| > 4 && Digit(ts[0]) && Digit(ts[1]) && Digit(ts[2]) && Digit(ts[3]) && !Digit(ts[4])
    ensures StrToUl(ts, 0) == 100 * Pair(ts, 0) + Pair(ts, 2) <= 9999
  {
    hide TwoAt, StrToUl;
    PairAt(ts, 0);
    PairAt(ts, 2);
    ReadFour(ts, 0, Pair(ts, 0), Pair(ts, 2));
  }

  lemma ReadDigitFields(ts: string)
    requires DigitFields(ts) && Shaped(ts)
    ensures var f := Read(ts);
            && f.year == 100 * Pair(ts, 0) + Pair(ts, 2) && f.month == Pair(ts, 5) && f.day == Pair(ts, 8)
            && f.hour == Pair(ts, 11) && f.minute == Pair(ts, 14) && f.second == Pair(ts, 17)
  {
    hide StrToUl, Pair, MicroText;
    ReadYear(ts);
    ReadPair(ts, 5);
    ReadPair(ts, 8);
    ReadPair(ts, 11);
    ReadPair(ts, 14);
    ReadPair(ts, 17);
  }

  /** A text with digits in its fields is accepted if and only if it looks like a UTC timestamp and its fields
      name a year from 2000 to 4027, a month, a day of at most 31, or 29 in February, and a time of day, where
      the hook allows second 60. */
  lemma AcceptedIff(ts: string, program: Program)
    requires DigitFields(ts)
    ensures Timestamp(ts, program).Some? <==>
            && LooksUtc(ts)
            && 2000 <= 100 * Pair(ts, 0) + Pair(ts, 2) <= 4027 && 1 <= Pair(ts, 5) <= 12
            && Pair(ts, 8) <= (if Pair(ts, 5) == 2 then 29 else 31)
            && Pair(ts, 11) <= 23 && Pair(ts, 14) <= 59 && Pair(ts, 17) <= (if program == Hook then 60 else 59)
  {
    hide Read, Pair, Encoded;
    if LooksUtc(ts) {
      ReadDigitFields(ts);
    }
  }

  /** The digits after the point, if any. */
  function FractionOf(ts: string): string {
    if |ts| <= 20 then "" else ts[20..|ts| - 1]
  }

  /** Nothing follows the seconds but Z, or a point, digits and Z. */
  ghost predicate PlainFraction(ts: string) {
    |ts| > 20 ==> ts[19] == '.' && |ts| > 21 && AllDigits(FractionOf(ts))
  }

  function InstantOf(ts: string): Instant
    requires DigitFields(ts)
  {
    Instant(Date(100 * Pair(ts, 0) + Pair(ts, 2), Pair(ts, 5), Pair(ts, 8)), Pair(ts, 11), Pair(ts, 14), Pair(ts, 17), 0)
  }

  lemma PairBound(ts: string, i: nat)
    requires i + 2 <= |ts| && Digit(ts[i]) && Digit(ts[i + 1])
    ensures Pair(ts, i) <= 99
  {
  }

  lemma DigitsAreText(ts: string)
    requires DigitFields(ts) && LooksUtc(ts) && PlainFraction(ts) && Written(InstantOf(ts))
    ensures InRange(FieldsOf(InstantOf(ts))) && IsText(ts, FieldsOf(InstantOf(ts)), FractionOf(ts))
  {
    hide Pair, TwoAt, Real, FractionOf, PlainFraction;
    var t := InstantOf(ts);
    WrittenInRange(t);
    PairBound(ts, 2);
    PairAt(ts, 0);
    PairAt(ts, 2);
    PairAt(ts, 5);
    PairAt(ts, 8);
    PairAt(ts, 11);
    PairAt(ts, 14);
    PairAt(ts, 17);
    YearPairs(Pair(ts, 0), Pair(ts, 2));
    TextEnd(ts);
  }

  lemma TextEnd(ts: string)
    requires 20 <= |ts| <= 31 && ts[|ts| - 1] == 'Z' && PlainFraction(ts)
    ensures var fraction := FractionOf(ts);
            && |fraction| <= 10 && AllDigits(fraction)
            && (if fraction == "" then ts[19..] == "Z" else ts[19..] == "." + fraction + "Z")
  {
    if |ts| == 20 {
      assert ts[19..] == "Z";
    } else {
      assert ts[19..] == "." + FractionOf(ts) + "Z";
    }
  }

  lemma YearPairs(a: nat, b: nat)
    requires b <= 99
    ensures (100 * a + b) / 100 == a && (100 * a + b) % 100 == b
  {
  }

  /** The encoder on every text of digits that names a real date: refused if it does not look like a UTC
      timestamp or is out of range, and otherwise the second count in 32 bits, in microseconds, plus the
      truncated fraction. */
  lemma DigitTimestamp(ts: string, program: Program)
    requires DigitFields(ts) && PlainFraction(ts) && Real(InstantOf(ts).date)
    ensures var t := InstantOf(ts);
            Timestamp(ts, program) ==
            if LooksUtc(ts) && t.date.year <= 4027 && t.hour <= 23 && t.minute <= 59 && t.second <= MaxSecond(program)
            then Some(1000000 * ((86400 * DayNumber(t.date) + 3600 * t.hour + 60 * t.minute + t.second) % TWO32)
                      + Micros(FractionOf(ts)))
            else None
  {
    hide Timestamp, Pair, Micros, DayNumber, IsText, PlainFraction, Before, LooksUtc;
    AcceptedIff(ts, program);
    var t := InstantOf(ts);
    RealMeans(t.date);
    if LooksUtc(ts) && t.date.year <= 4027 && t.hour <= 23 && t.minute <= 59 && t.second <= MaxSecond(program) {
      DigitsAreText(ts);
      WrittenTimestamp(ts, t, FractionOf(ts), program);
    }
  }

  lemma RealMeans(d: Date)
    requires Real(d)
    ensures 2000 <= d.year && 1 <= d.month <= 12 && 1 <= d.day <= (if d.month == 2 then 29 else 31)
  {
  }

  /** A time with a zone offset is refused by both programs. */
  lemma OffsetRefused()
    ensures forall program :: Timestamp("2019-11-05T11:31:34.5+01:00", program).None?
  {
    hide Timestamp;
    forall program ensures Timestamp("2019-11-05T11:31:34.5+01:00", program).None? {
      AcceptedLooksUtc("2019-11-05T11:31:34.5+01:00", program);
    }
  }

  /** The two programs decide differently on a text if and only if its second field is 60 and it passes every
      other test; then the hook accepts it. */
  lemma ProgramsDifferIff(ts: string)
    ensures Timestamp(ts, Hook) != Timestamp(ts, Producer) <==>
            Shaped(ts) && Read(ts).second == 60 && InRange(Read(ts).(second := 0))
    ensures Timestamp(ts, Producer).Some? ==> Timestamp(ts, Hook) == Timestamp(ts, Producer)
  {
    hide Read, Encoded;
  }

  /** One such text: the leap second at the end of 2016. */
  lemma LeapSecond2016()
    ensures Timestamp("2016-12-31T23:59:60Z", Hook).Some? && Timestamp("2016-12-31T23:59:60Z", Producer).None?
  {
    hide Timestamp, Read, Encoded, Micros, ExactSeconds, Before;
    var t := Instant(Date(2016, 12, 31), 23, 59, 60, 0);
    assert IsText("2016-12-31T23:59:60Z", FieldsOf(t), "");
    WrittenTimestamp("2016-12-31T23:59:60Z", t, "", Hook);
    WrittenTimestamp("2016-12-31T23:59:60Z", t, "", Producer);
  }

  lemma TextDigits(s: string, f: Fields, fraction: string)
    requires InRange(f) && IsText(s, f, fraction)
    ensures AllDigits(fraction)
  {
  }

  lemma SameBefore(t: Instant, micro: nat)
    ensures Before(t.(micro := micro), OVERFLOW) <==> Before(t, OVERFLOW)
  {
  }

  lemma NoMicros()
    ensures Micros("") == 0
  {
    MicrosDecimal("");
  }

  // ---- The conversions never overflow, so their error test never fires ----

  /** Where strtoul finds the first digit: after space and a sign. */
  function DigitStart(s: string, i: nat): nat
    requires i <= |s|
  {
    var j := SkipSpace(s, i);
    if j < |s| && (s[j] == '-' || s[j] == '+') then j + 1 else j
  }

  lemma {:induction false} SkipStops(s: string, i: nat, e: nat)
    requires i <= e < |s| && !Space(s[e])
    ensures SkipSpace(s, i) <= e
    decreases e - i
  {
    if i < e && Space(s[i]) {
      SkipStops(s, i + 1, e);
    }
  }

  /** With the digits ending at e, and k digits read, at most Pow10(k + e - i) is reached. */
  lemma {:induction false} DigitsStop(s: string, i: nat, e: nat, acc: nat, k: nat)
    requires i <= e <= |s| && (e == |s| || !Digit(s[e])) && acc < Pow10(k)
    ensures Digits(s, i, acc) < Pow10(k + e - i)
    decreases e - i
  {
    if i < e && Digit(s[i]) {
      DigitsStop(s, i + 1, e, 10 * acc + DigitValue(s[i]), k + 1);
    } else {
      Pow10Monotone(k, k + e - i);
    }
  }

  lemma {:induction false} Pow10Monotone(m: nat, n: nat)
    requires m <= n
    ensures Pow10(m) <= Pow10(n)
  {
    if m < n {
      Pow10Monotone(m, n - 1);
    }
  }

  /** The separator at or after position i. */
  function Separator(i: nat): nat {
    if i <= 4 then 4 else if i <= 7 then 7 else if i <= 10 then 10 else if i <= 13 then 13 else if i <= 16 then 16 else 19
  }

  /** Every field that is read has at most four digits, and the fraction at most six. */
  lemma NoOverflow(ts: string, i: nat)
    requires Shaped(ts) && i <= 17
    ensures DigitStart(ts, i) <= |ts| && Digits(ts, DigitStart(ts, i), 0) < 10000
    ensures |ts| > 20 ==>
              var m := MicroText(ts);
              DigitStart(m, 0) <= |m| && Digits(m, DigitStart(m, 0), 0) < 1000000
  {
    FieldDigits(ts, i);
    if |ts| > 20 {
      FractionDigits(MicroText(ts));
    }
  }

  lemma FractionDigits(m: string)
    requires |m| == 6
    ensures DigitStart(m, 0) <= 6 && Digits(m, DigitStart(m, 0), 0) < 1000000
  {
    hide Digits;
    var j := DigitStart(m, 0);
    DigitsStop(m, j, 6, 0, 0);
    Pow10Monotone(6 - j, 6);
    PowSix();
  }

  lemma FieldDigits(ts: string, i: nat)
    requires Shaped(ts) && i <= 17
    ensures DigitStart(ts, i) <= |ts| && Digits(ts, DigitStart(ts, i), 0) < 10000
  {
    hide Digits, SkipSpace;
    SkipStops(ts, i, Separator(i));
    var j := DigitStart(ts, i);
    DigitsStop(ts, j, Separator(j), 0, 0);
    assert Pow10(0) == 1 && Pow10(1) == 10 && Pow10(2) == 100 && Pow10(3) == 1000 && Pow10(4) == 10000;
  }
}
