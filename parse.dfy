/** The parser of PostgreSQL's default ("postgres" IntervalStyle) interval text, such as
    `3 years 2 mons 4 days 04:05:06.789`, into the packed three-word `Interval`. */
module PqInterval {
  import opened Wrappers
  import opened Words
  import opened GoStrings
  import opened GoStrconv

  /** The fixed month length, and microseconds per second and per minute. */
  const DAYS_PER_MON: int := 30
  const US_PER_SEC: int := 1_000_000
  const US_PER_MIN: int := 60_000_000

  /** The two flag bits kept in the `yrs` word: the sign of the years and the sign of the
      time of day. */
  const YR_SIGN_BIT: uint32 := 0x8000_0000
  const US_SIGN_BIT: uint32 := 0x4000_0000

  /** `yrs`: year magnitude plus the two flags; `hrs`: months, days and time-of-day hours, all
      in hours; `us`: minutes, seconds and fraction of the time of day, in microseconds. */
  datatype Interval = Interval(yrs: uint32, hrs: int32, us: uint32)

  const ZERO: Interval := Interval(0, 0, 0)

  /** Whether a `ParseErr` wraps the error of an `strconv.Atoi` call or has a nil cause. */
  datatype Cause = NoCause | AtoiError

  /** `ParseErr{String, Cause}`: the whole input and the cause. */
  datatype ParseErr = ParseErr(str: string, cause: Cause)

  /** The two run-time panics the Go code can reach. */
  datatype Panic =
    | EmptyTimeToken   // `t[0]` on an empty last token
    | FractionTooLong  // `strings.Repeat` with a negative count

  /** What a call of `parse` does: return `(ival, err)`, or panic. */
  datatype Outcome = Returned(ival: Interval, err: Option<ParseErr>) | Panicked(panic: Panic)

  predicate IsFlag(flag: uint32)
  {
    flag == YR_SIGN_BIT || flag == US_SIGN_BIT
  }

  /** `w & flag != 0`. */
  predicate HasFlag(w: uint32, flag: uint32)
    requires IsFlag(flag)
  {
    if flag == YR_SIGN_BIT then w >= 0x8000_0000 else (w / 0x4000_0000) % 2 == 1
  }

  /** The bits below both flags: the year magnitude when it fits in 30 bits. */
  function LowBits(w: uint32): nat
  {
    w % 0x4000_0000
  }

  /** `w | flag`: sets that flag and changes no other bit. */
  function SetFlag(w: uint32, flag: uint32): (r: uint32)
    requires IsFlag(flag)
    ensures HasFlag(r, YR_SIGN_BIT) == (flag == YR_SIGN_BIT || HasFlag(w, YR_SIGN_BIT))
    ensures HasFlag(r, US_SIGN_BIT) == (flag == US_SIGN_BIT || HasFlag(w, US_SIGN_BIT))
    ensures LowBits(r) == LowBits(w)
  {
    if HasFlag(w, flag) then w
    else if flag == YR_SIGN_BIT then w + 0x8000_0000
    else w + 0x4000_0000
  }

  /** The `yrs` word a `<n> year(s)` pair writes: `|n|` truncated to 32 bits, with the year
      sign flag when `n < 0`. Below 2^30 the word unpacks back into sign and magnitude. */
  function YearWord(n: int): (w: uint32)
    ensures n < 0 ==> HasFlag(w, YR_SIGN_BIT)
    ensures -0x4000_0000 < n < 0x4000_0000 ==>
      (HasFlag(w, YR_SIGN_BIT) <==> n < 0) && !HasFlag(w, US_SIGN_BIT) &&
      LowBits(w) == (if n < 0 then -n else n)
  {
    if n < 0 then SetFlag(ToUint32(-n), YR_SIGN_BIT) else ToUint32(n)
  }

  /** The time token without its leading sign character, if any. */
  function Unsigned(t: string): string
    requires |t| > 0
  {
    if t[0] == '-' || t[0] == '+' then t[1..] else t
  }

  /** The result of the time-of-day part of `parse`: the hours, the sub-hour microseconds and
      whether the token was negative; or the cause of the error; or a panic. */
  datatype TimeResult =
    | TimeOk(hrs: int32, us: uint32, neg: bool)
    | TimeErr(cause: Cause)
    | TimePanic(panic: Panic)

  /** The time-of-day token `[+-]HH:MM:SS[.ffffff]`: `t[0]` panics on an empty token; a
      leading `-` or `+` is dropped, `-` marking the time as negative; then three colon
      fields must follow. */
  function ParseTime(t: string): (r: TimeResult)
    ensures r == TimePanic(EmptyTimeToken) <==> |t| == 0
    ensures r.TimeOk? ==> r.neg == (t[0] == '-') && |Split(Unsigned(t), ':')| == 3
  {
    if |t| == 0 then TimePanic(EmptyTimeToken)
    else ParseClock(Split(Unsigned(t), ':'), t[0] == '-')
  }

  /** The colon fields: hours, which a negative time negates, then minutes within 0..59,
      then the seconds field. An `Atoi` error is the cause; a bad count or range has none. */
  function ParseClock(timeChunks: seq<string>, negTime: bool): (r: TimeResult)
    ensures r != TimePanic(EmptyTimeToken)
    ensures r.TimeOk? ==> |timeChunks| == 3 && r.neg == negTime
  {
    if |timeChunks| != 3 then TimeErr(NoCause)
    else
      match Atoi(timeChunks[0])
      case None => TimeErr(AtoiError)
      case Some(h) =>
        match Atoi(timeChunks[1])
        case None => TimeErr(AtoiError)
        case Some(mins) =>
          if mins > 59 || mins < 0 then TimeErr(NoCause)
          else ParseSeconds(if negTime then -h else h, mins, SplitN2(timeChunks[2], '.'), negTime)
  }

  /** The seconds within 0..59, then the fraction: more than six digits panic in
      `strings.Repeat`; fewer are right-padded with zeros to microseconds. Hours are
      truncated to 32 bits, and so is the microsecond sum. */
  function ParseSeconds(hrs: int, mins: int, secParts: seq<string>, negTime: bool): (r: TimeResult)
    requires |secParts| > 0
    ensures r != TimePanic(EmptyTimeToken)
    ensures r.TimeOk? ==> r.neg == negTime
  {
    match Atoi(secParts[0])
    case None => TimeErr(AtoiError)
    case Some(secs) =>
      if secs > 59 || secs < 0 then TimeErr(NoCause)
      else if |secParts| > 1 && |secParts[1]| > 6 then TimePanic(FractionTooLong)
      else
        var frac :=
          if |secParts| > 1 then Atoi(secParts[1] + Zeros(6 - |secParts[1]|))
          else Some(0);
        match frac
        case None => TimeErr(AtoiError)
        case Some(us) =>
          TimeOk(ToInt32(hrs), ToUint32(us + secs * US_PER_SEC + mins * US_PER_MIN), negTime)
  }

  /** The outcome of folding unit pairs into an accumulator. */
  datatype PairsResult = PairsOk(ival: Interval) | PairsErr(cause: Cause)

  /** One `<count> <unit>` pair applied to the accumulator. */
  ghost function ApplyPair(acc: Interval, count: string, unit: string): PairsResult
  {
    match Atoi(count)
    case None => PairsErr(AtoiError)
    case Some(n) =>
      if unit == "year" || unit == "years" then PairsOk(acc.(yrs := YearWord(n)))
      else if unit == "mon" || unit == "mons" then
        PairsOk(acc.(hrs := ToInt32(acc.hrs + ToInt32(24 * DAYS_PER_MON * n))))
      else if unit == "day" || unit == "days" then
        PairsOk(acc.(hrs := ToInt32(acc.hrs + ToInt32(24 * n))))
      else PairsErr(NoCause)
  }

  /** All pairs applied from left to right; the first failing pair ends the fold. */
  ghost function FoldPairs(acc: Interval, chunks: seq<string>): PairsResult
    requires |chunks| % 2 == 0
    decreases |chunks|
  {
    if |chunks| == 0 then PairsOk(acc)
    else
      match ApplyPair(acc, chunks[0], chunks[1])
      case PairsErr(c) => PairsErr(c)
      case PairsOk(next) => FoldPairs(next, chunks[2..])
  }

  /** The end of `parse`: the zero interval on error, else the folded value with the time
      sign flag OR-ed into `yrs` after every year pair has been applied. */
  ghost function Assemble(s: string, pairs: PairsResult, negTime: bool): Outcome
  {
    match pairs
    case PairsErr(c) => Returned(ZERO, Some(ParseErr(s, c)))
    case PairsOk(ival) =>
      Returned(if negTime then ival.(yrs := SetFlag(ival.yrs, US_SIGN_BIT)) else ival, None)
  }

  /** The rest of `parse` once the time token has been read to `time`: a panic or an error
      ends it with the zero interval; otherwise the pairs are folded into the time's hours and
      microseconds. */
  ghost function AfterTime(s: string, time: TimeResult, pairs: seq<string>): Outcome
    requires |pairs| % 2 == 0
  {
    match time
    case TimePanic(p) => Panicked(p)
    case TimeErr(c) => Returned(ZERO, Some(ParseErr(s, c)))
    case TimeOk(h, u, neg) => Assemble(s, FoldPairs(Interval(0, h, u), pairs), neg)
  }

  /** What `parse(s)` does. An odd token count makes the last token the time of day. */
  ghost function ParseSpec(s: string): (out: Outcome)
    ensures out.Returned? && out.err.Some? ==> out.ival == ZERO && out.err.value.str == s
    ensures out.Panicked? ==> |Split(s, ' ')| % 2 == 1
  {
    var chunks := Split(s, ' ');
    if |chunks| % 2 == 1 then
      var pairs := chunks[..|chunks| - 1];
      assert |pairs| % 2 == 0;
      AfterTime(s, ParseTime(chunks[|chunks| - 1]), pairs)
    else
      Assemble(s, FoldPairs(ZERO, chunks), false)
  }

  /** The pair loop of `parse`: consumes `chunks` two at a time, a count and a unit, updating
      the accumulated interval in place; the first bad count or unknown unit stops the loop.
      The remaining count stays even, so the unit token always exists. */
  method ConsumePairs(acc: Interval, chunks: seq<string>) returns (r: PairsResult)
    requires |chunks| % 2 == 0
    ensures r == FoldPairs(acc, chunks)
  {
    var ival := acc;
    var rest := chunks;
    ghost var left := |chunks| / 2;
    while |rest| > 0
      invariant |rest| == 2 * left
      invariant FoldPairs(ival, rest) == FoldPairs(acc, chunks)
      decreases |rest|
    {
      assert left >= 1;
      var t := rest[0];
      var unit := rest[1];
      rest := rest[2..];
      left := left - 1;

      var n := Atoi(t);
      if n.None? {
        return PairsErr(AtoiError);
      }

      if unit == "year" || unit == "years" {
        ival := ival.(yrs := YearWord(n.value));
      } else if unit == "mon" || unit == "mons" {
        ival := ival.(hrs := ToInt32(ival.hrs + ToInt32(24 * DAYS_PER_MON * n.value)));
      } else if unit == "day" || unit == "days" {
        ival := ival.(hrs := ToInt32(ival.hrs + ToInt32(24 * n.value)));
      } else {
        return PairsErr(NoCause);
      }
    }
    return PairsOk(ival);
  }

  /** `parse(s)`: splits on spaces, takes an odd last token as the time of day, then consumes the
      remaining tokens two at a time; a time token starting with '-' sets the sign flag last. */
  method Parse(s: string) returns (out: Outcome)
    ensures out == ParseSpec(s)
  {
    var chunks := Split(s, ' ');
    var ival := ZERO;
    var negTime := false;

    if |chunks| % 2 == 1 {
      var t := chunks[|chunks| - 1];
      chunks := chunks[..|chunks| - 1];
      assert |chunks| % 2 == 0;
      var time := ParseTime(t);
      if time.TimePanic? {
        return Panicked(time.panic);
      }
      if time.TimeErr? {
        return Returned(ival, Some(ParseErr(s, time.cause)));
      }
      ival := ival.(hrs := time.hrs, us := time.us);
      negTime := time.neg;
      assert ParseSpec(s) == AfterTime(s, time, chunks);
    }

    var pairs := ConsumePairs(ival, chunks);
    if pairs.PairsErr? {
      return Returned(ZERO, Some(ParseErr(s, pairs.cause)));
    }
    ival := pairs.ival;

    if negTime {
      ival := ival.(yrs := SetFlag(ival.yrs, US_SIGN_BIT));
    }
    return Returned(ival, None);
  }
}
