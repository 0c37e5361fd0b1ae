/** The `<count> <unit>` pairs in front of the time of day, by meaning: which unit each pair
    names, how many hours the month and day pairs add up to, which year pair decides the `yrs`
    word, and the pairs printed as text. */
module UnitPairs {
  import opened Wrappers
  import opened Words
  import opened GoStrings
  import opened GoStrconv
  import opened PqInterval

  datatype Unit = Years | Months | Days

  /** One pair: a count and the unit it counts. */
  datatype Pair = Pair(count: int, unit: Unit)

  /** The unit a unit word names: singular and plural spellings only, nothing else. */
  function UnitOf(word: string): (u: Option<Unit>)
    ensures u == Some(Years) <==> word in {"year", "years"}
    ensures u == Some(Months) <==> word in {"mon", "mons"}
    ensures u == Some(Days) <==> word in {"day", "days"}
  {
    if word == "year" || word == "years" then Some(Years)
    else if word == "mon" || word == "mons" then Some(Months)
    else if word == "day" || word == "days" then Some(Days)
    else None
  }

  /** The unit word PostgreSQL prints after a count: singular only for a count of one. */
  function UnitWord(p: Pair): (w: string)
    ensures UnitOf(w) == Some(p.unit)
    ensures ' ' !in w
  {
    match p.unit
    case Years => if p.count == 1 then "year" else "years"
    case Months => if p.count == 1 then "mon" else "mons"
    case Days => if p.count == 1 then "day" else "days"
  }

  /** The pairs an even token sequence spells, or the cause of the first bad pair: a count
      `strconv.Atoi` rejects, else a word that is not a unit. */
  function DecodePairs(chunks: seq<string>): (r: Result<seq<Pair>, Cause>)
    requires |chunks| % 2 == 0
    ensures r.Ok? ==> 2 * |r.value| == |chunks|
    decreases |chunks|
  {
    if |chunks| == 0 then Ok([])
    else
      match Atoi(chunks[0])
      case None => Err(AtoiError)
      case Some(n) =>
        match UnitOf(chunks[1])
        case None => Err(NoCause)
        case Some(u) =>
          Prepend(Pair(n, u), DecodePairs(chunks[2..]))
  }

  /** `p` in front of the decoded pairs, or the error unchanged. */
  function Prepend(p: Pair, r: Result<seq<Pair>, Cause>): Result<seq<Pair>, Cause>
  {
    match r
    case Err(c) => Err(c)
    case Ok(ps) => Ok([p] + ps)
  }

  /** The pairs printed as tokens: `strconv.Itoa` of the count, then the unit word. This is
      the form PostgreSQL prints, except that it writes `+2 mons` for a positive field after a
      negative one; such text is still read by `DecodePairs`, through `Atoi`. */
  function EncodePairs(ps: seq<Pair>): (chunks: seq<string>)
    ensures |chunks| == 2 * |ps| && |chunks| % 2 == 0
    ensures NoSep(chunks, ' ')
  {
    if |ps| == 0 then []
    else
      var rest := EncodePairs(ps[1..]);
      var chunks := [Itoa(ps[0].count), UnitWord(ps[0])] + rest;
      assert forall i :: 2 <= i < |chunks| ==> chunks[i] == rest[i - 2];
      chunks
  }

  /** Every count fits in Go's 64-bit `int`. */
  predicate Int64Counts(ps: seq<Pair>)
  {
    forall i :: 0 <= i < |ps| ==> MIN_INT64 <= ps[i].count <= MAX_INT64
  }

  /** The printed tokens: the first pair's count and word, then the rest's tokens. */
  lemma {:induction false} EncodeFirst(ps: seq<Pair>)
    requires |ps| > 0
    ensures EncodePairs(ps)[0] == Itoa(ps[0].count) && EncodePairs(ps)[1] == UnitWord(ps[0])
    ensures EncodePairs(ps)[2..] == EncodePairs(ps[1..])
  {
  }

  lemma {:induction false} Int64CountsTail(ps: seq<Pair>)
    requires |ps| > 0 && Int64Counts(ps)
    ensures MIN_INT64 <= ps[0].count <= MAX_INT64 && Int64Counts(ps[1..])
  {
    forall i | 0 <= i < |ps[1..]|
      ensures MIN_INT64 <= ps[1..][i].count <= MAX_INT64
    {
      assert ps[1..][i] == ps[i + 1];
    }
  }

  /** Decoding the printed tokens gives the pairs back. */
  lemma {:induction false} DecodeEncodePairs(ps: seq<Pair>)
    requires Int64Counts(ps)
    ensures DecodePairs(EncodePairs(ps)) == Ok(ps)
  {
    if |ps| > 0 {
      EncodeFirst(ps);
      Int64CountsTail(ps);
      AtoiItoa(ps[0].count);
      DecodeEncodePairs(ps[1..]);
      assert ps == [ps[0]] + ps[1..];
    }
  }

  /** The hours one pair adds: 24 per day and 24 * 30 per month; a year pair adds none. The
      30 is `DAYS_PER_MON`, written out as a literal here. */
  function PairHours(p: Pair): int
  {
    match p.unit
    case Years => 0
    case Months => 24 * 30 * p.count
    case Days => 24 * p.count
  }

  /** The hours all the month and day pairs add up to, exactly (no 32-bit wrap). */
  function Hours(ps: seq<Pair>): int
  {
    if |ps| == 0 then 0 else PairHours(ps[0]) + Hours(ps[1..])
  }

  /** `Hours` is additive, so the order of month and day pairs does not matter. */
  lemma {:induction false} HoursAppend(a: seq<Pair>, b: seq<Pair>)
    ensures Hours(a + b) == Hours(a) + Hours(b)
  {
    if |a| > 0 {
      assert (a + b)[1..] == a[1..] + b;
      HoursAppend(a[1..], b);
    } else {
      assert a + b == b;
    }
  }

  /** The `yrs` word after the pairs, starting from `w`: a year pair overwrites it. */
  function YearsAfter(ps: seq<Pair>, w: uint32): uint32
  {
    if |ps| == 0 then w
    else YearsAfter(ps[1..], if ps[0].unit == Years then YearWord(ps[0].count) else w)
  }

  /** The pairs of `a + b` act as those of `a`, then those of `b`. */
  lemma {:induction false} YearsAfterAppend(a: seq<Pair>, b: seq<Pair>, w: uint32)
    ensures YearsAfter(a + b, w) == YearsAfter(b, YearsAfter(a, w))
  {
    if |a| > 0 {
      assert (a + b)[1..] == a[1..] + b;
      YearsAfterAppend(a[1..], b, if a[0].unit == Years then YearWord(a[0].count) else w);
    } else {
      assert a + b == b;
    }
  }

  /** No pair of `ps` is a year pair. */
  predicate NoYears(ps: seq<Pair>)
  {
    forall i :: 0 <= i < |ps| ==> ps[i].unit != Years
  }

  /** Month and day pairs leave the `yrs` word alone. */
  lemma {:induction false} YearsAfterNoYears(ps: seq<Pair>, w: uint32)
    requires NoYears(ps)
    ensures YearsAfter(ps, w) == w
  {
    if |ps| > 0 {
      assert NoYears(ps[1..]) by {
        forall i | 0 <= i < |ps[1..]|
          ensures ps[1..][i].unit != Years
        {
          assert ps[1..][i] == ps[i + 1];
        }
      }
      YearsAfterNoYears(ps[1..], w);
    }
  }

  /** The last year pair alone decides the `yrs` word, whatever came before it. */
  lemma {:induction false} LastYearDecides(qs: seq<Pair>, n: int, rs: seq<Pair>, w: uint32)
    requires NoYears(rs)
    ensures YearsAfter(qs + [Pair(n, Years)] + rs, w) == YearWord(n)
  {
    YearsAfterAppend(qs + [Pair(n, Years)], rs, w);
    YearsAfterAppend(qs, [Pair(n, Years)], w);
    YearsAfterNoYears(rs, YearWord(n));
  }

  /** Every year count is below 2^30 in magnitude, as PostgreSQL's are. */
  predicate SmallYears(ps: seq<Pair>)
  {
    forall i :: 0 <= i < |ps| && ps[i].unit == Years ==> -0x4000_0000 < ps[i].count < 0x4000_0000
  }

  /** Year counts below 2^30 never set the time-sign flag: the `yrs` word keeps it clear, and
      its year-sign flag and magnitude are those of the last year pair. */
  lemma {:induction false} YearsAfterNoTimeFlag(ps: seq<Pair>, w: uint32)
    requires SmallYears(ps) && !HasFlag(w, US_SIGN_BIT)
    ensures !HasFlag(YearsAfter(ps, w), US_SIGN_BIT)
  {
    if |ps| > 0 {
      assert SmallYears(ps[1..]) by {
        forall i | 0 <= i < |ps[1..]| && ps[1..][i].unit == Years
          ensures -0x4000_0000 < ps[1..][i].count < 0x4000_0000
        {
          assert ps[1..][i] == ps[i + 1];
        }
      }
      YearsAfterNoTimeFlag(ps[1..], if ps[0].unit == Years then YearWord(ps[0].count) else w);
    }
  }

  /** What the pair loop should end with, given the decoded pairs: the cause of the first
      bad pair, or the `yrs` word of the last year pair and the hours of all month and day
      pairs added, modulo 2^32, to the hours accumulated so far. */
  function Accumulated(acc: Interval, decoded: Result<seq<Pair>, Cause>): PairsResult
  {
    match decoded
    case Err(c) => PairsErr(c)
    case Ok(ps) => PairsOk(Interval(YearsAfter(ps, acc.yrs), ToInt32(acc.hrs + Hours(ps)), acc.us))
  }

  /** The accumulator after one pair: a year pair overwrites `yrs`, the others add hours. */
  function Step(acc: Interval, p: Pair): Interval
  {
    acc.(yrs := if p.unit == Years then YearWord(p.count) else acc.yrs,
         hrs := ToInt32(acc.hrs + PairHours(p)))
  }

  /** One pair of the loop: a bad count is an `Atoi` error, a bad unit word an error with no
      cause, and otherwise the pair is applied as `Step` says. */
  lemma {:induction false} ApplyPairStep(acc: Interval, count: string, unit: string)
    ensures Atoi(count).None? ==> ApplyPair(acc, count, unit) == PairsErr(AtoiError)
    ensures Atoi(count).Some? && UnitOf(unit).None? ==>
      ApplyPair(acc, count, unit) == PairsErr(NoCause)
    ensures Atoi(count).Some? && UnitOf(unit).Some? ==>
      ApplyPair(acc, count, unit) == PairsOk(Step(acc, Pair(Atoi(count).value, UnitOf(unit).value)))
  {
    if Atoi(count).Some? && UnitOf(unit).Some? {
      var p := Pair(Atoi(count).value, UnitOf(unit).value);
      ToInt32Sum(acc.hrs, PairHours(p));
      if p.unit == Years {
        assert ToInt32(acc.hrs + PairHours(p)) == acc.hrs;
      }
    }
  }

  /** Accumulating a pair in front of the rest is accumulating the rest after `Step`. */
  lemma {:induction false} AccumulatedPrepend(acc: Interval, p: Pair, r: Result<seq<Pair>, Cause>)
    ensures Accumulated(acc, Prepend(p, r)) == Accumulated(Step(acc, p), r)
  {
    if r.Ok? {
      var ps := r.value;
      assert ([p] + ps)[1..] == ps;
      assert Hours([p] + ps) == PairHours(p) + Hours(ps);
      assert YearsAfter([p] + ps, acc.yrs) == YearsAfter(ps, Step(acc, p).yrs);
      ToInt32Sum(acc.hrs + PairHours(p), Hours(ps));
    }
  }

  /** The pair loop of `parse` reads the pairs the tokens spell. */
  lemma {:induction false} FoldPairsDecoded(acc: Interval, chunks: seq<string>)
    requires |chunks| % 2 == 0
    ensures FoldPairs(acc, chunks) == Accumulated(acc, DecodePairs(chunks))
    decreases |chunks|
  {
    if |chunks| > 0 {
      var rest := chunks[2..];
      assert |rest| % 2 == 0;
      ApplyPairStep(acc, chunks[0], chunks[1]);
      if Atoi(chunks[0]).Some? && UnitOf(chunks[1]).Some? {
        var p := Pair(Atoi(chunks[0]).value, UnitOf(chunks[1]).value);
        FoldPairsDecoded(Step(acc, p), rest);
        AccumulatedPrepend(acc, p, DecodePairs(rest));
      }
    }
  }

  /** A count written with a `+`, as PostgreSQL prints a positive field after a negative one,
      decodes like the bare digits. */
  lemma {:induction false} PlusCountDecodes(d: string, unit: string, rest: seq<string>)
    requires |d| > 0 && IsDigits(d) && DigitsValue(d) <= MAX_INT64
    requires |rest| % 2 == 0
    ensures DecodePairs(["+" + d, unit] + rest) == DecodePairs([d, unit] + rest)
  {
    AtoiPlusDigits(d);
    AtoiDigits(d);
    assert (["+" + d, unit] + rest)[2..] == rest;
    assert ([d, unit] + rest)[2..] == rest;
  }
}
