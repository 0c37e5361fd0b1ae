/** The time-of-day token `[+-]HH:MM:SS[.ffffff]` by meaning: its sign, its hour count and
    the microseconds of its minutes, seconds and fraction; how `ParseTime` reads it. */
module TimeOfDay {
  import opened Wrappers
  import opened Words
  import opened GoStrings
  import opened GoStrconv
  import opened PqInterval

  datatype Sign = NoSign | Plus | Minus

  /** A time token: its sign and its digit fields as written (any number of leading zeros),
      with the fraction after a `.` if there is one. */
  datatype Clock = Clock(sign: Sign, hh: string, mm: string, ss: string, frac: Option<string>)

  predicate Numeral(d: string)
  {
    |d| > 0 && IsDigits(d)
  }

  /** Digit fields, minutes and seconds below 60, and an hour count that fits in Go's 64-bit
      `int`; the fraction, if any, is digits of any length. */
  predicate Fields(c: Clock)
  {
    && Numeral(c.hh) && DigitsValue(c.hh) <= MAX_INT64
    && Numeral(c.mm) && DigitsValue(c.mm) <= 59
    && Numeral(c.ss) && DigitsValue(c.ss) <= 59
    && (c.frac.Some? ==> IsDigits(c.frac.value))
  }

  /** What PostgreSQL prints: the fields, with at most six fraction digits. */
  predicate WellFormed(c: Clock)
  {
    Fields(c) && (c.frac.Some? ==> |c.frac.value| <= 6)
  }

  /** The fields keep apart: the hours a numeral, no colon in a later field and no dot in the
      seconds field, so the token splits back into them whatever else they hold. */
  predicate Separated(c: Clock)
  {
    && Numeral(c.hh)
    && ':' !in c.mm && ':' !in c.ss && '.' !in c.ss
    && (c.frac.Some? ==> ':' !in c.frac.value)
  }

  lemma {:induction false} FieldsSeparated(c: Clock)
    requires Fields(c)
    ensures Separated(c)
  {
    DigitsHaveNo(c.mm, ':');
    DigitsHaveNo(c.ss, ':');
    DigitsHaveNo(c.ss, '.');
    if c.frac.Some? {
      DigitsHaveNo(c.frac.value, ':');
    }
  }

  function SignText(sign: Sign): string
  {
    match sign
    case NoSign => ""
    case Plus => "+"
    case Minus => "-"
  }

  /** The seconds field and the fraction, as they follow the second colon. */
  function SecondsText(c: Clock): string
  {
    if c.frac.Some? then c.ss + "." + c.frac.value else c.ss
  }

  /** The token after its sign: the three colon fields. */
  function Body(c: Clock): string
  {
    c.hh + ":" + c.mm + ":" + SecondsText(c)
  }

  /** The token as text. */
  function Text(c: Clock): string
  {
    SignText(c.sign) + Body(c)
  }

  /** The signed hour count: a `-` token negates its hours. */
  function SignedHours(c: Clock): int
    requires Numeral(c.hh)
  {
    if c.sign == Minus then -(DigitsValue(c.hh) as int) else DigitsValue(c.hh)
  }

  /** The fraction in microseconds: its digits read as a decimal fraction of a second. */
  function FracMicros(frac: Option<string>): nat
    requires frac.Some? ==> IsDigits(frac.value) && |frac.value| <= 6
  {
    if frac.None? then 0 else Shift(DigitsValue(frac.value), 6 - |frac.value|)
  }

  /** The fraction in microseconds is below one second, whatever its length. */
  lemma {:induction false} FracMicrosBound(frac: Option<string>)
    requires frac.Some? ==> IsDigits(frac.value) && |frac.value| <= 6
    ensures FracMicros(frac) < 1_000_000
  {
    if frac.Some? {
      var f := frac.value;
      DigitsValueBound(f);
      ShiftBound(DigitsValue(f), |f|, 6 - |f|);
      assert Pow10(6) == 1_000_000 by {
        assert Pow10(3) == 1000;
      }
    }
  }

  /** Minutes, seconds and fraction in microseconds; the sign does not apply to them. Below one
      hour, so `uint32(us)` keeps it whole. */
  function Micros(c: Clock): (us: nat)
    requires WellFormed(c)
    ensures us < 3_600_000_000
  {
    FracMicrosBound(c.frac);
    DigitsValue(c.mm) * US_PER_MIN + DigitsValue(c.ss) * US_PER_SEC + FracMicros(c.frac)
  }

  /** The three colon fields of an unsigned token. */
  lemma {:induction false} SplitColons(c: Clock)
    requires Separated(c)
    ensures Split(Body(c), ':') == [c.hh, c.mm, SecondsText(c)]
  {
    var toks := [c.hh, c.mm, SecondsText(c)];
    assert Join(toks, ':') == c.hh + ":" + c.mm + ":" + SecondsText(c) by {
      assert Join(toks[2..], ':') == SecondsText(c);
      assert Join(toks[1..], ':') == c.mm + ":" + SecondsText(c);
    }
    DigitsHaveNo(c.hh, ':');
    assert ':' !in SecondsText(c);
    SplitJoin(toks, ':');
  }

  /** The seconds field, then the fraction if there is one. */
  lemma {:induction false} SplitSeconds(c: Clock)
    requires '.' !in c.ss
    ensures SplitN2(SecondsText(c), '.') ==
      (if c.frac.Some? then [c.ss, c.frac.value] else [c.ss])
  {
    var parts := SplitN2(SecondsText(c), '.');
    if c.frac.Some? {
      assert SecondsText(c) == c.ss + ['.'] + c.frac.value;
      assert '.' in SecondsText(c) by {
        assert SecondsText(c)[|c.ss|] == '.';
      }
      SameFirstField(parts[0], parts[1], c.ss, c.frac.value, '.');
    }
  }

  /** The fraction right-padded with zeros to six digits is worth `FracMicros`. */
  lemma {:induction false} PaddedFraction(f: string)
    requires IsDigits(f) && |f| <= 6
    ensures IsDigits(f + Zeros(6 - |f|)) && |f + Zeros(6 - |f|)| == 6
    ensures DigitsValue(f + Zeros(6 - |f|)) == FracMicros(Some(f))
  {
    var k: nat := 6 - |f|;
    DigitsValuePadded(f, k);
    assert FracMicros(Some(f)) == Shift(DigitsValue(f), k);
  }

  /** `Atoi` reads the padded fraction as `FracMicros`. */
  lemma {:induction false} AtoiFraction(f: string)
    requires IsDigits(f) && |f| <= 6
    ensures Atoi(f + Zeros(6 - |f|)) == Some(FracMicros(Some(f)) as int)
  {
    PaddedFraction(f);
    FracMicrosBound(Some(f));
    AtoiDigits(f + Zeros(6 - |f|));
  }

  /** The colon stage on hours and minutes that read: on to the seconds field. */
  lemma {:induction false} ParseClockOk(timeChunks: seq<string>, negTime: bool, h: int, m: int)
    requires |timeChunks| == 3
    requires Atoi(timeChunks[0]) == Some(h)
    requires Atoi(timeChunks[1]) == Some(m) && 0 <= m <= 59
    ensures ParseClock(timeChunks, negTime) ==
      ParseSeconds(if negTime then -h else h, m, SplitN2(timeChunks[2], '.'), negTime)
  {
  }

  /** The seconds stage on a seconds field that reads and no fraction. */
  lemma {:induction false} ParseSecondsWhole(hrs: int, mins: int, secParts: seq<string>, negTime: bool, sec: int)
    requires |secParts| == 1
    requires Atoi(secParts[0]) == Some(sec) && 0 <= sec <= 59
    ensures ParseSeconds(hrs, mins, secParts, negTime) ==
      TimeOk(ToInt32(hrs), ToUint32(sec * US_PER_SEC + mins * US_PER_MIN), negTime)
  {
  }

  /** The seconds stage on a seconds field and a padded fraction that read. */
  lemma {:induction false} ParseSecondsFrac(hrs: int, mins: int, secParts: seq<string>, negTime: bool,
                         sec: int, us: int)
    requires |secParts| == 2
    requires Atoi(secParts[0]) == Some(sec) && 0 <= sec <= 59
    requires |secParts[1]| <= 6 && Atoi(secParts[1] + Zeros(6 - |secParts[1]|)) == Some(us)
    ensures ParseSeconds(hrs, mins, secParts, negTime) ==
      TimeOk(ToInt32(hrs), ToUint32(us + sec * US_PER_SEC + mins * US_PER_MIN), negTime)
  {
  }

  /** The sign comes off a token whose hours start with a digit. */
  lemma {:induction false} TextUnsigned(c: Clock)
    requires Numeral(c.hh)
    ensures |Text(c)| > 0 && Unsigned(Text(c)) == Body(c)
    ensures Text(c)[0] == '-' <==> c.sign == Minus
  {
    var t := Text(c);
    DigitsEach(c.hh);
    assert IsDigit(c.hh[0]);
    assert Body(c)[0] == c.hh[0];
    assert t[|SignText(c.sign)|..] == Body(c);
  }

  /** `ParseTime` on a nonempty token goes on to the colon fields of its unsigned part. */
  lemma {:induction false} ParseTimeUnsigned(t: string, body: string, neg: bool)
    requires |t| > 0 && Unsigned(t) == body && (t[0] == '-') == neg
    ensures ParseTime(t) == ParseClock(Split(body, ':'), neg)
  {
  }

  /** Hour and minute fields that are numerals in range read, and the seconds stage follows. */
  lemma {:induction false} ParseClockFields(hh: string, mm: string, sec: string, neg: bool, hrs: int)
    requires Numeral(hh) && DigitsValue(hh) <= MAX_INT64
    requires Numeral(mm) && DigitsValue(mm) <= 59
    requires hrs == if neg then -(DigitsValue(hh) as int) else DigitsValue(hh)
    ensures ParseClock([hh, mm, sec], neg) == ParseSeconds(hrs, DigitsValue(mm), SplitN2(sec, '.'), neg)
  {
    AtoiDigits(hh);
    AtoiDigits(mm);
    ParseClockOk([hh, mm, sec], neg, DigitsValue(hh), DigitsValue(mm));
  }

  /** Well-formed seconds and fraction fields read as `Micros`, below 2^32, so kept whole. */
  lemma {:induction false} ParseSecondsText(c: Clock, hrs: int, neg: bool)
    requires WellFormed(c)
    ensures ParseSeconds(hrs, DigitsValue(c.mm), SplitN2(SecondsText(c), '.'), neg) ==
      TimeOk(ToInt32(hrs), Micros(c), neg)
  {
    var secParts := SplitN2(SecondsText(c), '.');
    DigitsHaveNo(c.ss, '.');
    SplitSeconds(c);
    AtoiDigits(c.ss);
    if c.frac.Some? {
      AtoiFraction(c.frac.value);
      ParseSecondsFrac(hrs, DigitsValue(c.mm), secParts, neg, DigitsValue(c.ss),
                       FracMicros(c.frac));
    } else {
      ParseSecondsWhole(hrs, DigitsValue(c.mm), secParts, neg, DigitsValue(c.ss));
    }
  }

  /** `ParseTime` on a token whose fields keep apart goes on to its three colon fields. */
  lemma {:induction false} ParseTimeFields(c: Clock)
    requires Separated(c)
    ensures ParseTime(Text(c)) == ParseClock([c.hh, c.mm, SecondsText(c)], c.sign == Minus)
  {
    TextUnsigned(c);
    ParseTimeUnsigned(Text(c), Body(c), c.sign == Minus);
    SplitColons(c);
  }

  /** The colon fields of a token read as its signed hours, then the seconds stage follows. */
  lemma {:induction false} ParseClockSeconds(c: Clock)
    requires Numeral(c.hh) && DigitsValue(c.hh) <= MAX_INT64
    requires Numeral(c.mm) && DigitsValue(c.mm) <= 59
    ensures ParseClock([c.hh, c.mm, SecondsText(c)], c.sign == Minus) ==
      ParseSeconds(SignedHours(c), DigitsValue(c.mm), SplitN2(SecondsText(c), '.'), c.sign == Minus)
  {
    ParseClockFields(c.hh, c.mm, SecondsText(c), c.sign == Minus, SignedHours(c));
  }

  /** Well-formed colon fields read as the signed hours and `Micros`. */
  lemma {:induction false} ParseClockText(c: Clock)
    requires WellFormed(c)
    ensures ParseClock([c.hh, c.mm, SecondsText(c)], c.sign == Minus) ==
      TimeOk(ToInt32(SignedHours(c)), Micros(c), c.sign == Minus)
  {
    ParseClockSeconds(c);
    ParseSecondsText(c, SignedHours(c), c.sign == Minus);
  }

  /** `ParseTime` reads a well-formed token as its signed hours (truncated to 32 bits), its
      microseconds, and whether it starts with `-`. */
  lemma {:induction false} ParseTimeText(c: Clock)
    requires WellFormed(c)
    ensures ParseTime(Text(c)) == TimeOk(ToInt32(SignedHours(c)), Micros(c), c.sign == Minus)
  {
    FieldsSeparated(c);
    ParseTimeFields(c);
    ParseClockText(c);
  }

  /** A time token holds no space, so it stays one token of the input. */
  lemma {:induction false} TextNoSpace(c: Clock)
    requires Fields(c)
    ensures ' ' !in Text(c)
  {
    DigitsHaveNo(c.hh, ' ');
    DigitsHaveNo(c.mm, ' ');
    DigitsHaveNo(c.ss, ' ');
    if c.frac.Some? {
      DigitsHaveNo(c.frac.value, ' ');
    }
    assert ' ' !in SecondsText(c);
    assert ' ' !in Body(c);
  }

  /** A fraction of more than six bytes makes `strings.Repeat` panic, whatever those bytes
      are: the padding is built before `Atoi` looks at the fraction. */
  lemma {:induction false} LongFractionPanics(c: Clock)
    requires Separated(c) && DigitsValue(c.hh) <= MAX_INT64
    requires Numeral(c.mm) && DigitsValue(c.mm) <= 59
    requires Numeral(c.ss) && DigitsValue(c.ss) <= 59
    requires c.frac.Some? && |c.frac.value| > 6
    ensures ParseTime(Text(c)) == TimePanic(FractionTooLong)
  {
    ParseTimeFields(c);
    ParseClockSeconds(c);
    SecondsTooLong(c, SignedHours(c), c.sign == Minus);
  }

  /** The seconds stage on a fraction of more than six bytes panics. */
  lemma {:induction false} SecondsTooLong(c: Clock, hrs: int, neg: bool)
    requires Numeral(c.mm) && Numeral(c.ss) && DigitsValue(c.ss) <= 59 && '.' !in c.ss
    requires c.frac.Some? && |c.frac.value| > 6
    ensures ParseSeconds(hrs, DigitsValue(c.mm), SplitN2(SecondsText(c), '.'), neg) ==
      TimePanic(FractionTooLong)
  {
    SplitSeconds(c);
    AtoiDigits(c.ss);
  }

  /** A leading `+` changes nothing. */
  lemma {:induction false} PlusSignIgnored(t: string)
    requires |t| > 0 && t[0] != '-' && t[0] != '+'
    ensures ParseTime("+" + t) == ParseTime(t)
  {
    assert ("+" + t)[1..] == t;
    ParseTimeUnsigned("+" + t, t, false);
    ParseTimeUnsigned(t, t, false);
  }

  /** What a leading `-` does to the reading of a token: the hours negated (modulo 2^32) and
      the time marked negative; an error or a panic stays as it is. */
  function Negated(r: TimeResult): TimeResult
  {
    if r.TimeOk? then TimeOk(ToInt32(-(r.hrs as int)), r.us, true) else r
  }

  /** The seconds stage with and without the negative mark. */
  lemma {:induction false} SecondsNegated(h: int, m: int, parts: seq<string>)
    requires |parts| > 0
    ensures ParseSeconds(-h, m, parts, true) == Negated(ParseSeconds(h, m, parts, false))
  {
    ToInt32Neg(h);
  }

  /** The colon stage with and without the negative mark. */
  lemma {:induction false} ClockNegated(chunks: seq<string>)
    ensures ParseClock(chunks, true) == Negated(ParseClock(chunks, false))
  {
    if |chunks| == 3 && Atoi(chunks[0]).Some? && Atoi(chunks[1]).Some? && 0 <= Atoi(chunks[1]).value <= 59 {
      var h, m := Atoi(chunks[0]).value, Atoi(chunks[1]).value;
      ParseClockOk(chunks, false, h, m);
      ParseClockOk(chunks, true, h, m);
      SecondsNegated(h, m, SplitN2(chunks[2], '.'));
    } else {
      ClockEarlyError(chunks, false);
      ClockEarlyError(chunks, true);
    }
  }

  /** The colon stage fails before the seconds field the same way whatever the mark. */
  lemma {:induction false} ClockEarlyError(chunks: seq<string>, negTime: bool)
    requires !(|chunks| == 3 && Atoi(chunks[0]).Some? && Atoi(chunks[1]).Some? &&
               0 <= Atoi(chunks[1]).value <= 59)
    ensures ParseClock(chunks, negTime) ==
      if |chunks| != 3 then TimeErr(NoCause)
      else if Atoi(chunks[0]).None? || Atoi(chunks[1]).None? then TimeErr(AtoiError)
      else TimeErr(NoCause)
  {
  }

  /** A leading `-` negates the hours (modulo 2^32) and marks the time negative; an error or
      a panic is the same as without it. */
  lemma {:induction false} MinusSignNegates(t: string)
    requires |t| > 0 && t[0] != '-' && t[0] != '+'
    ensures ParseTime("-" + t) == Negated(ParseTime(t))
  {
    assert ("-" + t)[1..] == t;
    ParseTimeUnsigned("-" + t, t, true);
    ParseTimeUnsigned(t, t, false);
    ClockNegated(Split(t, ':'));
  }

  /** A token whose unsigned part does not hold exactly two colons is an error with no
      cause. */
  lemma {:induction false} ColonCountError(t: string)
    requires |t| > 0 && Count(Unsigned(t), ':') != 2
    ensures ParseTime(t) == TimeErr(NoCause)
  {
    SplitCount(Unsigned(t), ':');
  }

  /** Hours too large for Go's 64-bit `int` are an `Atoi` error. */
  lemma {:induction false} HoursOverflow(c: Clock)
    requires Separated(c) && DigitsValue(c.hh) > MAX_INT64
    ensures ParseTime(Text(c)) == TimeErr(AtoiError)
  {
    ParseTimeFields(c);
    AtoiDigits(c.hh);
  }

  /** Minutes `Atoi` rejects are its error; minutes it reads outside 0..59 are an error with
      no cause. */
  lemma {:induction false} MinutesErrors(c: Clock)
    requires Separated(c) && DigitsValue(c.hh) <= MAX_INT64
    ensures Atoi(c.mm).None? ==> ParseTime(Text(c)) == TimeErr(AtoiError)
    ensures Atoi(c.mm).Some? && !(0 <= Atoi(c.mm).value <= 59) ==>
      ParseTime(Text(c)) == TimeErr(NoCause)
  {
    ParseTimeFields(c);
    AtoiDigits(c.hh);
  }

  /** The seconds stage on a seconds field that `Atoi` rejects or reads out of range. */
  lemma {:induction false} SecondsFieldErrors(hrs: int, mins: int, secParts: seq<string>, negTime: bool)
    requires |secParts| > 0
    ensures Atoi(secParts[0]).None? ==> ParseSeconds(hrs, mins, secParts, negTime) == TimeErr(AtoiError)
    ensures Atoi(secParts[0]).Some? && !(0 <= Atoi(secParts[0]).value <= 59) ==>
      ParseSeconds(hrs, mins, secParts, negTime) == TimeErr(NoCause)
  {
  }

  /** After good hours and minutes, seconds `Atoi` rejects are its error; seconds it reads
      outside 0..59 are an error with no cause; both come before any look at the fraction. */
  lemma {:induction false} SecondsErrors(c: Clock)
    requires Separated(c) && DigitsValue(c.hh) <= MAX_INT64
    requires Numeral(c.mm) && DigitsValue(c.mm) <= 59
    ensures Atoi(c.ss).None? ==> ParseTime(Text(c)) == TimeErr(AtoiError)
    ensures Atoi(c.ss).Some? && !(0 <= Atoi(c.ss).value <= 59) ==>
      ParseTime(Text(c)) == TimeErr(NoCause)
  {
    ParseTimeFields(c);
    ParseClockSeconds(c);
    SplitSeconds(c);
    SecondsFieldErrors(SignedHours(c), DigitsValue(c.mm), SplitN2(SecondsText(c), '.'), c.sign == Minus);
  }

  /** A fraction that is not an optional sign and digits stays so once padded. */
  lemma {:induction false} PaddedNotDigits(f: string)
    requires |f| <= 6 && !IsDigits(Magnitude(f))
    ensures Atoi(f + Zeros(6 - |f|)).None?
  {
    var z := Zeros(6 - |f|);
    MagnitudeAppend(f, z);
    NotDigitsAppend(Magnitude(f), z);
    AtoiMeaning(f + z);
  }

  /** The seconds stage on good seconds and a fraction `Atoi` rejects once padded. */
  lemma {:induction false} FractionFieldError(hrs: int, mins: int, secParts: seq<string>, negTime: bool)
    requires |secParts| == 2 && Atoi(secParts[0]).Some? && 0 <= Atoi(secParts[0]).value <= 59
    requires |secParts[1]| <= 6 && Atoi(secParts[1] + Zeros(6 - |secParts[1]|)).None?
    ensures ParseSeconds(hrs, mins, secParts, negTime) == TimeErr(AtoiError)
  {
  }

  /** After good hours, minutes and seconds, a fraction of at most six bytes that is not an
      optional sign and digits is an `Atoi` error. */
  lemma {:induction false} FractionError(c: Clock)
    requires Separated(c) && DigitsValue(c.hh) <= MAX_INT64
    requires Numeral(c.mm) && DigitsValue(c.mm) <= 59
    requires Numeral(c.ss) && DigitsValue(c.ss) <= 59
    requires c.frac.Some? && |c.frac.value| <= 6 && !IsDigits(Magnitude(c.frac.value))
    ensures ParseTime(Text(c)) == TimeErr(AtoiError)
  {
    ParseTimeFields(c);
    ParseClockSeconds(c);
    SplitSeconds(c);
    AtoiDigits(c.ss);
    PaddedNotDigits(c.frac.value);
    FractionFieldError(SignedHours(c), DigitsValue(c.mm), SplitN2(SecondsText(c), '.'), c.sign == Minus);
  }

  /** `Atoi` takes a sign in the fraction too: a `-` and up to five digits, padded to six
      bytes, read as minus those digits shifted to five places (one place short of
      microseconds); the seconds stage adds that negative count to the minutes and seconds
      (`ParseSecondsFrac`). */
  lemma {:induction false} NegativeFraction(f: string)
    requires 0 < |f| <= 6 && f[0] == '-' && IsDigits(f[1..])
    ensures Atoi(f + Zeros(6 - |f|)) ==
      Some(-(Shift(DigitsValue(f[1..]), 6 - |f|) as int))
  {
    var z := Zeros(6 - |f|);
    var p := f[1..] + z;
    MagnitudeAppend(f, z);
    DigitsValuePadded(f[1..], 6 - |f|);
    DigitsValueBound(p);
    assert Pow10(|p|) <= 100_000 by {
      assert |p| == 5;
      assert Pow10(5) == 100_000;
    }
    AtoiMeaning(f + z);
  }

  /** The seconds stage on a fraction `-d`: `Atoi` reads the padded fraction as the negative
      number `us`, minus `d` padded to five digits, which is then added to the seconds and
      minutes as it is: the fraction is subtracted. */
  lemma {:induction false} NegativeFractionSeconds(hrs: int, mins: int, secParts: seq<string>,
                                                   negTime: bool, sec: int, us: int)
    requires |secParts| == 2 && Atoi(secParts[0]) == Some(sec) && 0 <= sec <= 59
    requires 0 < |secParts[1]| <= 6 && secParts[1][0] == '-' && IsDigits(secParts[1][1..])
    requires us == -(Shift(DigitsValue(secParts[1][1..]), 6 - |secParts[1]|) as int)
    ensures ParseSeconds(hrs, mins, secParts, negTime) ==
      TimeOk(ToInt32(hrs), ToUint32(us + sec * US_PER_SEC + mins * US_PER_MIN), negTime)
  {
    assert Atoi(secParts[1] + Zeros(6 - |secParts[1]|)) == Some(us) by {
      NegativeFraction(secParts[1]);
    }
    ParseSecondsFrac(hrs, mins, secParts, negTime, sec, us);
  }



}
