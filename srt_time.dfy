/** The SubRip timestamp `HH:MM:SS,mmm` written by `fmt_srt`, over whole
    seconds and a millisecond part, with the parser that inverts it. */
module SrtTime {

  datatype Option<T> = None | Some(value: T)

  type Millis = m: nat | m < 1000

  /** A non-negative time: whole seconds and the milliseconds past them. */
  datatype Timestamp = Timestamp(seconds: nat, millis: Millis)

  /** Hours, minutes and seconds of a clock reading. */
  datatype Clock = Clock(hours: nat, minutes: nat, secs: nat)

  function Pow10(k: nat): (p: nat)
    ensures p >= 1
  {
    if k == 0 then 1 else 10 * Pow10(k - 1)
  }

  predicate IsDigit(c: char)
  {
    '0' <= c <= '9'
  }

  predicate AllDigits(s: string)
  {
    forall i :: 0 <= i < |s| ==> IsDigit(s[i])
  }

  function DigitChar(d: nat): (c: char)
    requires d < 10
    ensures IsDigit(c) && c as int - '0' as int == d
  {
    ('0' as int + d) as char
  }

  /** The decimal numeral of `n` as `str(n)` writes it: no sign, no leading zero. */
  function Digits(n: nat): string
  {
    if n < 10 then [DigitChar(n)] else Digits(n / 10) + [DigitChar(n % 10)]
  }

  /** A numeral is a non-empty string of digits without a leading zero. */
  lemma {:induction false} DigitsWellFormed(n: nat)
    ensures 1 <= |Digits(n)| && AllDigits(Digits(n))
    ensures |Digits(n)| > 1 ==> Digits(n)[0] != '0'
  {
    if n >= 10 {
      DigitsWellFormed(n / 10);
    }
  }

  /** The number a string of decimal digits denotes (leading zeros allowed). */
  function Value(s: string): (v: nat)
    requires AllDigits(s)
    ensures v < Pow10(|s|)
  {
    if s == [] then 0
    else Value(s[..|s| - 1]) * 10 + (s[|s| - 1] as int - '0' as int)
  }

  function Zeros(k: nat): (z: string)
    ensures |z| == k && AllDigits(z)
    ensures forall i :: 0 <= i < k ==> z[i] == '0'
  {
    if k == 0 then "" else Zeros(k - 1) + "0"
  }

  /** `format(n, "0<width>d")`: the numeral left-padded with zeros to `width`. */
  function Padded(n: nat, width: nat): string
  {
    var d := Digits(n);
    if |d| < width then Zeros(width - |d|) + d else d
  }

  /** A padded numeral is all digits, exactly `width` long unless the
      numeral itself is longer, and still denotes `n`. */
  lemma PaddedFacts(n: nat, width: nat)
    ensures AllDigits(Padded(n, width))
    ensures |Padded(n, width)| == if |Digits(n)| < width then width else |Digits(n)|
    ensures Value(Padded(n, width)) == n
  {
    var d := Digits(n);
    DigitsWellFormed(n);
    ValueOfDigits(n);
    if |d| < width {
      ZerosPrefixValue(width - |d|, d);
    }
  }

  /** Reading back a numeral gives the number it was written from. */
  lemma {:induction false} ValueOfDigits(n: nat)
    ensures AllDigits(Digits(n)) && Value(Digits(n)) == n
  {
    DigitsWellFormed(n);
    if n >= 10 {
      var d := Digits(n);
      assert d[..|d| - 1] == Digits(n / 10);
      ValueOfDigits(n / 10);
    }
  }

  /** Leading zeros do not change the value. */
  lemma {:induction false} ZerosPrefixValue(k: nat, s: string)
    requires AllDigits(s)
    ensures AllDigits(Zeros(k) + s) && Value(Zeros(k) + s) == Value(s)
  {
    if s == [] {
      assert Zeros(k) + s == Zeros(k);
      ZerosValue(k);
    } else {
      var t := Zeros(k) + s;
      assert t[..|t| - 1] == Zeros(k) + s[..|s| - 1];
      ZerosPrefixValue(k, s[..|s| - 1]);
    }
  }

  lemma {:induction false} ZerosValue(k: nat)
    ensures Value(Zeros(k)) == 0
  {
    if k > 0 {
      assert Zeros(k)[..k - 1] == Zeros(k - 1);
      ZerosValue(k - 1);
    }
  }

  /** A number below 10^k has at most k digits. */
  lemma {:induction false} DigitsWithin(n: nat, k: nat)
    requires 1 <= k && n < Pow10(k)
    ensures |Digits(n)| <= k
  {
    if n >= 10 {
      assert k >= 2;
      DigitsWithin(n / 10, k - 1);
    }
  }

  /** Splitting whole seconds into hours, minutes and seconds
      (`total // 3600`, `(total % 3600) // 60`, `total % 60`) loses nothing
      and keeps minutes and seconds below 60. */
  function ClockOf(total: nat): (c: Clock)
    ensures c.hours * 3600 + c.minutes * 60 + c.secs == total
    ensures c.minutes < 60 && c.secs < 60
  {
    var rest := total % 3600;
    assert total == total / 3600 * 3600 + rest;
    assert rest == rest / 60 * 60 + rest % 60;
    SixtyRemainder(total, total / 3600 * 60 + rest / 60, rest % 60);
    Clock(total / 3600, rest / 60, total % 60)
  }

  /** The remainder by 60 is the only one in range: `a == q * 60 + r` with
      `0 <= r < 60` fixes `a % 60 == r`. */
  lemma SixtyRemainder(a: nat, q: int, r: int)
    requires a == q * 60 + r && 0 <= r < 60
    ensures a % 60 == r
  {
  }

  /** `fmt_srt`, on a time given as whole seconds and milliseconds. */
  function FmtSrt(t: Timestamp): string
  {
    var c := ClockOf(t.seconds);
    Padded(c.hours, 2) + ":" + Padded(c.minutes, 2) + ":" + Padded(c.secs, 2)
      + "," + Padded(t.millis, 3)
  }

  /** Reads `H...H:MM:SS,mmm` (at least two hour digits) back into a time:
      the separators sit ten, seven and four places from the end. */
  function ParseSrt(s: string): Option<Timestamp>
  {
    if |s| < 12 || s[|s| - 10] != ':' || s[|s| - 7] != ':' || s[|s| - 4] != ',' then None
    else ReadFields(s[..|s| - 10], s[|s| - 9..|s| - 7], s[|s| - 6..|s| - 4], s[|s| - 3..])
  }

  /** The time four digit fields denote, when they are digits and in range. */
  function ReadFields(h: string, m: string, sec: string, ms: string): Option<Timestamp>
  {
    if && AllDigits(h) && AllDigits(m) && AllDigits(sec) && AllDigits(ms)
       && Value(m) < 60 && Value(sec) < 60 && Value(ms) < 1000
    then Some(Timestamp(Value(h) * 3600 + Value(m) * 60 + Value(sec), Value(ms)))
    else None
  }

  /** The fixed-width fields: minutes, seconds and milliseconds are always
      2, 2 and 3 digits wide, the hours at least 2. */
  lemma FieldWidths(t: Timestamp)
    ensures |Padded(ClockOf(t.seconds).minutes, 2)| == 2
    ensures |Padded(ClockOf(t.seconds).secs, 2)| == 2
    ensures |Padded(t.millis, 3)| == 3
    ensures |Padded(ClockOf(t.seconds).hours, 2)| >= 2
    ensures AllDigits(Padded(ClockOf(t.seconds).hours, 2)) && AllDigits(Padded(ClockOf(t.seconds).minutes, 2))
    ensures AllDigits(Padded(ClockOf(t.seconds).secs, 2)) && AllDigits(Padded(t.millis, 3))
  {
    var c := ClockOf(t.seconds);
    DigitsWithin(c.minutes, 2);
    DigitsWithin(c.secs, 2);
    DigitsWithin(t.millis, 3);
    DigitsWellFormed(c.hours);
    PaddedFacts(c.hours, 2);
    PaddedFacts(c.minutes, 2);
    PaddedFacts(c.secs, 2);
    PaddedFacts(t.millis, 3);
  }

  /** The shape of every timestamp: digits, with ':' ten and seven places
      from the end and ',' four places from the end; exactly 12 characters
      `HH:MM:SS,mmm` while the hours stay below 100. */
  lemma FmtSrtShape(t: Timestamp)
    ensures var r := FmtSrt(t);
      && |r| >= 12
      && r[|r| - 10] == ':' && r[|r| - 7] == ':' && r[|r| - 4] == ','
      && (forall i :: 0 <= i < |r| && i != |r| - 10 && i != |r| - 7 && i != |r| - 4 ==> IsDigit(r[i]))
      && (t.seconds < 100 * 3600 ==> |r| == 12 && r[2] == ':' && r[5] == ':' && r[8] == ',')
  {
    var c := ClockOf(t.seconds);
    FieldWidths(t);
    if t.seconds < 100 * 3600 {
      assert c.hours < 100;
      DigitsWithin(c.hours, 2);
    }
  }

  /** Where each field of `hs:ms:ss,fs` lies, counted from the end. */
  lemma FieldPlaces(hs: string, ms: string, ss: string, fs: string)
    requires |ms| == 2 && |ss| == 2 && |fs| == 3
    ensures var r := hs + ":" + ms + ":" + ss + "," + fs;
      && |r| == |hs| + 10
      && r[..|r| - 10] == hs && r[|r| - 9..|r| - 7] == ms && r[|r| - 6..|r| - 4] == ss && r[|r| - 3..] == fs
      && r[|r| - 10] == ':' && r[|r| - 7] == ':' && r[|r| - 4] == ','
  {
    var r := hs + ":" + ms + ":" + ss + "," + fs;
    var n := |r|;
    assert r[..n - 10] == hs;
    assert r[n - 9..n - 7] == ms;
    assert r[n - 6..n - 4] == ss;
    assert r[n - 3..] == fs;
  }

  /** Fields of digits in range read as the time they spell. */
  lemma ReadDigitFields(h: string, m: string, sec: string, ms: string)
    requires AllDigits(h) && AllDigits(m) && AllDigits(sec) && AllDigits(ms)
    requires Value(m) < 60 && Value(sec) < 60 && Value(ms) < 1000
    ensures ReadFields(h, m, sec, ms) == Some(Timestamp(Value(h) * 3600 + Value(m) * 60 + Value(sec), Value(ms)))
  {
  }

  /** Parsing reads each field of `H:MM:SS,mmm` back out of its place. */
  lemma ParseAssembled(hs: string, ms: string, ss: string, fs: string)
    requires AllDigits(hs) && AllDigits(ms) && AllDigits(ss) && AllDigits(fs)
    requires |hs| >= 2 && |ms| == 2 && |ss| == 2 && |fs| == 3
    requires Value(ms) < 60 && Value(ss) < 60
    ensures ParseSrt(hs + ":" + ms + ":" + ss + "," + fs)
      == Some(Timestamp(Value(hs) * 3600 + Value(ms) * 60 + Value(ss), Value(fs)))
  {
    FieldPlaces(hs, ms, ss, fs);
    assert Pow10(3) == 1000;
    ReadDigitFields(hs, ms, ss, fs);
  }

  /** Parsing a formatted timestamp gives back the time it was formatted
      from; in particular `FmtSrt` never maps two times to one string. */
  lemma FmtSrtRoundTrip(t: Timestamp)
    ensures ParseSrt(FmtSrt(t)) == Some(t)
  {
    var c := ClockOf(t.seconds);
    var hs, ms, ss, fs := Padded(c.hours, 2), Padded(c.minutes, 2), Padded(c.secs, 2), Padded(t.millis, 3);
    FieldWidths(t);
    PaddedFacts(c.hours, 2);
    PaddedFacts(c.minutes, 2);
    PaddedFacts(c.secs, 2);
    PaddedFacts(t.millis, 3);
    assert FmtSrt(t) == hs + ":" + ms + ":" + ss + "," + fs;
    ParseAssembled(hs, ms, ss, fs);
    SameTime(t, c, Value(hs), Value(ms), Value(ss), Value(fs));
  }

  /** Fields that read back as the clock of `t` spell `t`. */
  lemma SameTime(t: Timestamp, c: Clock, h: nat, m: nat, s: nat, f: nat)
    requires c.hours * 3600 + c.minutes * 60 + c.secs == t.seconds
    requires h == c.hours && m == c.minutes && s == c.secs && f == t.millis
    ensures Timestamp(h * 3600 + m * 60 + s, f) == t
  {
  }
}
