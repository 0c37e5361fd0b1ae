/** What `parse` makes of whole inputs: printed pairs and a time token read back by
    meaning, the flags packed into the `yrs` word, and the inputs it rejects. */
module IntervalText {
  import opened Wrappers
  import opened Words
  import opened GoStrings
  import opened GoStrconv
  import opened PqInterval
  import opened UnitPairs
  import opened TimeOfDay

  /** What `parse` does once the time token has been read to `time`: a panic or an error
      ends it; otherwise the pairs are decoded starting from the time's hours and
      microseconds. */
  ghost function Timed(s: string, time: TimeResult, pairs: seq<string>): Outcome
    requires |pairs| % 2 == 0
  {
    match time
    case TimePanic(p) => Panicked(p)
    case TimeErr(c) => Returned(ZERO, Some(ParseErr(s, c)))
    case TimeOk(h, u, neg) => Assemble(s, Accumulated(Interval(0, h, u), DecodePairs(pairs)), neg)
  }

  /** Folding the pairs after the time token decodes them. */
  lemma {:induction false} AfterTimeDecoded(s: string, time: TimeResult, pairs: seq<string>)
    requires |pairs| % 2 == 0
    ensures AfterTime(s, time, pairs) == Timed(s, time, pairs)
  {
    if time.TimeOk? {
      FoldPairsDecoded(Interval(0, time.hrs, time.us), pairs);
    }
  }

  /** An input whose token count is odd: its last token is read as the time of day. */
  lemma {:induction false} ParseTimed(s: string)
    requires |Split(s, ' ')| % 2 == 1
    ensures var chunks := Split(s, ' ');
      ParseSpec(s) == Timed(s, ParseTime(chunks[|chunks| - 1]), chunks[..|chunks| - 1])
  {
    var chunks := Split(s, ' ');
    var time, pairs := ParseTime(chunks[|chunks| - 1]), chunks[..|chunks| - 1];
    assert |pairs| % 2 == 0;
    assert ParseSpec(s) == AfterTime(s, time, pairs);
    AfterTimeDecoded(s, time, pairs);
  }

  /** An input with an even token count has no time of day: the pairs alone decide it. */
  lemma {:induction false} ParseUntimed(s: string)
    requires |Split(s, ' ')| % 2 == 0
    ensures ParseSpec(s) == Assemble(s, Accumulated(ZERO, DecodePairs(Split(s, ' '))), false)
  {
    FoldPairsDecoded(ZERO, Split(s, ' '));
  }

  /** The interval that pairs and a time token stand for: the `yrs` word of the last year pair
      (zero without one), with the time-sign flag for a negative time; all hours summed exactly
      and truncated once to 32 bits; and the time's microseconds. */
  function Denoted(ps: seq<Pair>, c: Clock): Interval
    requires WellFormed(c)
  {
    var yrs := YearsAfter(ps, 0);
    Interval(if c.sign == Minus then SetFlag(yrs, US_SIGN_BIT) else yrs,
             ToInt32(SignedHours(c) + Hours(ps)), Micros(c))
  }

  /** The text of pairs followed by a time token. */
  function PrintedText(ps: seq<Pair>, c: Clock): string
  {
    Join(EncodePairs(ps) + [Text(c)], ' ')
  }

  /** The printed tokens split back apart. */
  lemma {:induction false} SplitPrinted(ps: seq<Pair>, c: Clock)
    requires Fields(c)
    ensures Split(PrintedText(ps, c), ' ') == EncodePairs(ps) + [Text(c)]
  {
    var toks := EncodePairs(ps) + [Text(c)];
    TextNoSpace(c);
    assert NoSep(toks, ' ') by {
      forall i | 0 <= i < |toks|
        ensures ' ' !in toks[i]
      {
        if i < |EncodePairs(ps)| {
          assert toks[i] == EncodePairs(ps)[i];
        }
      }
    }
    SplitJoin(toks, ' ');
  }

  /** Pairs that decode, after a time token read as `th` hours (truncated), `u` microseconds
      and sign `neg`, give the last year pair's word (flagged for a negative time), all hours
      summed before the one truncation, and `u`. */
  lemma {:induction false} TimedDecoded(s: string, pairs: seq<string>, ps: seq<Pair>, th: int, u: uint32, neg: bool)
    requires |pairs| % 2 == 0 && DecodePairs(pairs) == Ok(ps)
    ensures Timed(s, TimeOk(ToInt32(th), u, neg), pairs) ==
      Returned(Interval(if neg then SetFlag(YearsAfter(ps, 0), US_SIGN_BIT) else YearsAfter(ps, 0),
                        ToInt32(th + Hours(ps)), u), None)
  {
    TimedCases(s, TimeOk(ToInt32(th), u, neg), pairs);
    ToInt32Sum(th, Hours(ps));
  }

  /** Pairs that decode, after the reading of the well-formed time `c`, read as `Denoted`. */
  lemma {:induction false} TimedClock(s: string, pairs: seq<string>, ps: seq<Pair>, c: Clock)
    requires WellFormed(c) && |pairs| % 2 == 0 && DecodePairs(pairs) == Ok(ps)
    ensures Timed(s, TimeOk(ToInt32(SignedHours(c)), Micros(c), c.sign == Minus), pairs) ==
      Returned(Denoted(ps, c), None)
  {
    TimedDecoded(s, pairs, ps, SignedHours(c), Micros(c), c.sign == Minus);
  }

  /** An input that splits into unit-pair tokens and a last token: that token is read as the
      time of day, then the pairs. */
  lemma {:induction false} ParseTokens(s: string, pairs: seq<string>, t: string)
    requires Split(s, ' ') == pairs + [t] && |pairs| % 2 == 0
    ensures ParseSpec(s) == Timed(s, ParseTime(t), pairs)
  {
    var chunks := Split(s, ' ');
    assert chunks[..|chunks| - 1] == pairs && chunks[|chunks| - 1] == t;
    ParseTimed(s);
  }

  /** An input whose tokens are printed pairs and a well-formed time token reads as
      `Denoted`. */
  lemma {:induction false} ParseEncodedTimed(s: string, ps: seq<Pair>, c: Clock)
    requires Int64Counts(ps) && WellFormed(c)
    requires Split(s, ' ') == EncodePairs(ps) + [Text(c)]
    ensures ParseSpec(s) == Returned(Denoted(ps, c), None)
  {
    ParseTokens(s, EncodePairs(ps), Text(c));
    DecodeEncodePairs(ps);
    ParseTimeText(c);
    TimedClock(s, EncodePairs(ps), ps, c);
  }

  /** `parse` reads the text of 64-bit pairs and a well-formed time token as `Denoted`. */
  lemma {:induction false} ParsePrinted(ps: seq<Pair>, c: Clock)
    requires Int64Counts(ps) && WellFormed(c)
    ensures ParseSpec(PrintedText(ps, c)) == Returned(Denoted(ps, c), None)
  {
    SplitPrinted(ps, c);
    ParseEncodedTimed(PrintedText(ps, c), ps, c);
  }

  /** An input whose tokens are the printed pairs reads as those pairs, with no time. */
  lemma {:induction false} ParseEncodedPairs(s: string, ps: seq<Pair>)
    requires Int64Counts(ps) && Split(s, ' ') == EncodePairs(ps)
    ensures ParseSpec(s) == Returned(Interval(YearsAfter(ps, 0), ToInt32(Hours(ps)), 0), None)
  {
    DecodeEncodePairs(ps);
    UntimedOutcome(s);
  }

  /** The text of one or more pairs without a time token. */
  lemma {:induction false} ParsePairsOnly(ps: seq<Pair>)
    requires Int64Counts(ps) && |ps| > 0
    ensures ParseSpec(Join(EncodePairs(ps), ' ')) ==
      Returned(Interval(YearsAfter(ps, 0), ToInt32(Hours(ps)), 0), None)
  {
    SplitJoin(EncodePairs(ps), ' ');
    ParseEncodedPairs(Join(EncodePairs(ps), ' '), ps);
  }

  /** Every outcome of an input with an even token count: the first bad pair's cause with the
      zero interval, else the last year pair's word, the month and day hours truncated once to
      32 bits, no microseconds and no time-sign flag. */
  lemma {:induction false} UntimedOutcome(s: string)
    requires |Split(s, ' ')| % 2 == 0
    ensures var d := DecodePairs(Split(s, ' '));
      && (d.Err? ==> ParseSpec(s) == Returned(ZERO, Some(ParseErr(s, d.error))))
      && (d.Ok? ==> ParseSpec(s) == Returned(Interval(YearsAfter(d.value, 0), ToInt32(Hours(d.value)), 0), None))
  {
    ParseUntimed(s);
  }

  /** What happens after the time token, case by case: a panic or an error of the time token
      ends the parse; then the first bad pair's cause; otherwise the last year pair's word,
      flagged when the time token is negative, the pairs' hours added to the time's hours, and
      the time's microseconds. With `ParseTimed`, every outcome of an odd token count. */
  lemma {:induction false} TimedCases(s: string, time: TimeResult, pairs: seq<string>)
    requires |pairs| % 2 == 0
    ensures var d := DecodePairs(pairs);
      && (time.TimePanic? ==> Timed(s, time, pairs) == Panicked(time.panic))
      && (time.TimeErr? ==> Timed(s, time, pairs) == Returned(ZERO, Some(ParseErr(s, time.cause))))
      && (time.TimeOk? && d.Err? ==> Timed(s, time, pairs) == Returned(ZERO, Some(ParseErr(s, d.error))))
      && (time.TimeOk? && d.Ok? ==>
            var yrs := YearsAfter(d.value, 0);
            Timed(s, time, pairs) == Returned(
              Interval(if time.neg then SetFlag(yrs, US_SIGN_BIT) else yrs,
                       ToInt32(time.hrs + Hours(d.value)), time.us), None))
  {
    if time.TimeOk? {
      var d := DecodePairs(pairs);
      var acc := Accumulated(Interval(0, time.hrs, time.us), d);
      assert Timed(s, time, pairs) == Assemble(s, acc, time.neg);
      if d.Ok? {
        var yrs := YearsAfter(d.value, 0);
        assert acc == PairsOk(Interval(yrs, ToInt32(time.hrs + Hours(d.value)), time.us));
      }
    }
  }

  /** Once the time token has read as negative, a successful parse has the time-sign flag set
      in `yrs`, even when the hours are zero and whatever year pairs came first: the flag is
      OR-ed in after the pair loop. */
  lemma {:induction false} NegativeTimedFlagged(s: string, time: TimeResult, pairs: seq<string>)
    requires |pairs| % 2 == 0 && (time.TimeOk? ==> time.neg)
    requires Timed(s, time, pairs).Returned? && Timed(s, time, pairs).err.None?
    ensures HasFlag(Timed(s, time, pairs).ival.yrs, US_SIGN_BIT)
  {
    TimedCases(s, time, pairs);
  }

  /** The input has a time token exactly when it holds an even number of spaces. */
  lemma {:induction false} TimeTokenPresent(s: string)
    ensures |Split(s, ' ')| % 2 == 1 <==> Count(s, ' ') % 2 == 0
  {
    SplitCount(s, ' ');
    var n := Count(s, ' ');
    if n % 2 == 0 {
      assert (n + 1) % 2 == 1;
    } else {
      assert (n + 1) % 2 == 0;
    }
  }

  /** An input with no time token has no microseconds and, while its year counts stay below
      2^30, no time-sign flag; an error gives the zero interval, which has neither. */
  lemma {:induction false} UntimedNoTimeFlag(s: string)
    requires |Split(s, ' ')| % 2 == 0
    requires DecodePairs(Split(s, ' ')).Ok? ==> SmallYears(DecodePairs(Split(s, ' ')).value)
    ensures ParseSpec(s).Returned?
    ensures ParseSpec(s).ival.us == 0 && !HasFlag(ParseSpec(s).ival.yrs, US_SIGN_BIT)
  {
    UntimedOutcome(s);
    var d := DecodePairs(Split(s, ' '));
    if d.Ok? {
      YearsAfterNoTimeFlag(d.value, 0);
    }
  }

  /** `parse` panics on an empty time token exactly when the token count is odd and the last
      token is empty; no other input makes it panic that way. */
  lemma {:induction false} EmptyTokenPanics(s: string)
    ensures var chunks := Split(s, ' ');
      ParseSpec(s) == Panicked(EmptyTimeToken) <==> |chunks| % 2 == 1 && chunks[|chunks| - 1] == ""
  {
    var chunks := Split(s, ' ');
    if |chunks| % 2 == 1 {
      ParseTimed(s);
    }
  }

  /** The empty input, and any input that ends in a space after an even number of spaces,
      panics on its empty last token. */
  lemma {:induction false} TrailingSpacePanics(s: string)
    requires |s| == 0 || s[|s| - 1] == ' '
    requires Count(s, ' ') % 2 == 0
    ensures ParseSpec(s) == Panicked(EmptyTimeToken)
  {
    TimeTokenPresent(s);
    if |s| > 0 {
      SplitTrailing(s, ' ');
    }
    EmptyTokenPanics(s);
  }

  /** A last year count from 2^30 to 2^31 - 1, beyond any PostgreSQL prints, reads back with
      the time-sign flag set although no time token is there: the year magnitude and the flags
      share the `yrs` word. */
  lemma {:induction false} LargeYearSetsTimeFlag(qs: seq<Pair>, n: int, rs: seq<Pair>)
    requires 0x4000_0000 <= n < 0x8000_0000 && NoYears(rs)
    requires Int64Counts(qs + [Pair(n, Years)] + rs)
    ensures var s := Join(EncodePairs(qs + [Pair(n, Years)] + rs), ' ');
      ParseSpec(s).Returned? && ParseSpec(s).ival.yrs == n && HasFlag(n as uint32, US_SIGN_BIT)
  {
    var ps := qs + [Pair(n, Years)] + rs;
    ParsePairsOnly(ps);
    LastYearDecides(qs, n, rs, 0);
    assert YearWord(n) == n as uint32;
    assert n / 0x4000_0000 == 1;
  }

  /** A time token whose unsigned part does not hold exactly two colons ends the parse with
      the zero interval and an error with no cause, whatever pairs come before it. */
  lemma {:induction false} ColonCountFails(s: string, pairs: seq<string>, t: string)
    requires Split(s, ' ') == pairs + [t] && |pairs| % 2 == 0
    requires |t| > 0 && Count(Unsigned(t), ':') != 2
    ensures ParseSpec(s) == Returned(ZERO, Some(ParseErr(s, NoCause)))
  {
    ColonCountError(t);
    TimeErrorFails(s, pairs, t);
  }

  /** A time token that reads as an error ends the parse with the zero interval and that
      error's cause, whatever pairs come before it. */
  lemma {:induction false} TimeErrorFails(s: string, pairs: seq<string>, t: string)
    requires Split(s, ' ') == pairs + [t] && |pairs| % 2 == 0 && ParseTime(t).TimeErr?
    ensures ParseSpec(s) == Returned(ZERO, Some(ParseErr(s, ParseTime(t).cause)))
  {
    ParseTokens(s, pairs, t);
    TimedCases(s, ParseTime(t), pairs);
  }

  /** With no time token, the first bad pair ends the parse with the zero interval: a count
      `Atoi` rejects with its error, else an unknown unit word with no cause. */
  lemma {:induction false} BadPairFails(s: string, before: seq<string>, count: string, unit: string, after: seq<string>)
    requires Split(s, ' ') == before + [count, unit] + after
    requires |before| % 2 == 0 && |after| % 2 == 0 && DecodePairs(before).Ok?
    requires Atoi(count).None? || UnitOf(unit).None?
    ensures ParseSpec(s) ==
      Returned(ZERO, Some(ParseErr(s, if Atoi(count).None? then AtoiError else NoCause)))
  {
    var chunks := before + [count, unit] + after;
    assert (|before| + 2 + |after|) % 2 == 0;
    assert |chunks| == |before| + 2 + |after|;
    DecodeBadPair(before, count, unit, after);
    UntimedOutcome(s);
  }

  /** Decoding stops at the first bad pair, with its cause. */
  lemma {:induction false} DecodeBadPair(before: seq<string>, count: string, unit: string, after: seq<string>)
    requires |before| % 2 == 0 && |after| % 2 == 0 && DecodePairs(before).Ok?
    requires Atoi(count).None? || UnitOf(unit).None?
    ensures DecodePairs(before + [count, unit] + after) ==
      Err(if Atoi(count).None? then AtoiError else NoCause)
    decreases |before|
  {
    var all := before + [count, unit] + after;
    if |before| == 0 {
      assert all == [count, unit] + after;
    } else {
      assert all[2..] == before[2..] + [count, unit] + after;
      assert all[0] == before[0] && all[1] == before[1];
      DecodeBadPair(before[2..], count, unit, after);
    }
  }
}
