/** Worked inputs, each a string literal: three intervals in the text PostgreSQL prints, read
    through `ParsePrinted`, and four inputs that end in an error or a panic. */
module Samples {
  import opened Wrappers
  import opened Words
  import opened GoStrings
  import opened GoStrconv
  import opened PqInterval
  import opened UnitPairs
  import opened TimeOfDay
  import opened IntervalText

  /** `3 years 2 mons 4 days`. */
  function FullPairs(): seq<Pair>
  {
    [Pair(3, Years), Pair(2, Months), Pair(4, Days)]
  }

  /** `04:05:06.789`. */
  function FullClock(): Clock
  {
    Clock(NoSign, "04", "05", "06", Some("789"))
  }

  /** `-00:15:30`. */
  function NegativeClock(): Clock
  {
    Clock(Minus, "00", "15", "30", None)
  }

  lemma {:induction false} FullClockValue()
    ensures WellFormed(FullClock())
    ensures SignedHours(FullClock()) == 4 && Micros(FullClock()) == 306_789_000
  {
    assert IsDigits("789") && DigitsValue("789") == 789 by {
      assert "789"[..2] == "78" && "78"[..1] == "7" && "7"[..0] == "";
    }
    assert DigitsValue("04") == 4 && DigitsValue("05") == 5 && DigitsValue("06") == 6 by {
      assert "04"[..1] == "0" && "05"[..1] == "0" && "06"[..1] == "0" && "0"[..0] == "";
    }
    assert Shift(789, 3) == 789_000 by {
      assert Shift(789, 1) == 7890 && Shift(789, 2) == 78900;
    }
  }

  lemma {:induction false} NegativeClockValue()
    ensures WellFormed(NegativeClock())
    ensures SignedHours(NegativeClock()) == 0 && Micros(NegativeClock()) == 930_000_000
  {
    assert DigitsValue("00") == 0 && DigitsValue("15") == 15 && DigitsValue("30") == 30 by {
      assert "00"[..1] == "0" && "15"[..1] == "1" && "30"[..1] == "3" && "0"[..0] == "";
    }
  }

  lemma {:induction false} FullPairsValue()
    ensures Int64Counts(FullPairs())
    ensures YearsAfter(FullPairs(), 0) == 3 && Hours(FullPairs()) == 1536
  {
    var ps := FullPairs();
    assert ps[1..][1..][1..] == [];
  }

  /** The tokens of the full sample's pairs. */
  lemma {:induction false} FullTokens()
    ensures EncodePairs(FullPairs()) == ["3", "years", "2", "mons", "4", "days"]
  {
    var ps := FullPairs();
    SmallItoa(3); SmallItoa(2); SmallItoa(4);
    assert EncodePairs(ps[2..]) == ["4", "days"] by {
      assert ps[2..][1..] == [];
    }
    assert EncodePairs(ps[1..]) == ["2", "mons", "4", "days"] by {
      assert ps[1..][1..] == ps[2..];
    }
  }

  lemma {:induction false} FullCat()
    ensures "3" + " " + "years" + " " + "2" + " " + "mons" + " " + "4" + " " + "days" + " " +
      "04:05:06.789" == "3 years 2 mons 4 days 04:05:06.789"
  {
  }

  /** The full sample's pairs and clock print as the literal text. */
  lemma {:induction false} FullText()
    ensures PrintedText(FullPairs(), FullClock()) == "3 years 2 mons 4 days 04:05:06.789"
  {
    FullTokens();
    var toks := EncodePairs(FullPairs()) + [Text(FullClock())];
    assert toks[6] == "04:05:06.789";
    Join7(toks[0], toks[1], toks[2], toks[3], toks[4], toks[5], toks[6]);
    assert toks == [toks[0], toks[1], toks[2], toks[3], toks[4], toks[5], toks[6]];
    FullCat();
  }

  /** `3 years 2 mons 4 days 04:05:06.789`: three years in `yrs`; 1536 hours of months and
      days plus 4 of the time in `hrs`; the rest of the time, in microseconds, in `us`. */
  lemma {:induction false} FullInterval()
    ensures ParseSpec("3 years 2 mons 4 days 04:05:06.789") ==
      Returned(Interval(3, 1540, 306_789_000), None)
  {
    FullText();
    FullClockValue();
    FullPairsValue();
    ParsePrinted(FullPairs(), FullClock());
  }

  /** A time token alone prints as itself. */
  lemma {:induction false} LoneText(c: Clock)
    ensures PrintedText([], c) == Text(c)
  {
    assert EncodePairs([]) + [Text(c)] == [Text(c)];
  }

  /** `-00:15:30`: no hours to carry the sign, so only the time-sign flag in `yrs` says the time
      is negative. */
  lemma {:induction false} NegativeZeroHours()
    ensures ParseSpec("-00:15:30") == Returned(Interval(0x4000_0000, 0, 930_000_000), None)
  {
    LoneText(NegativeClock());
    assert Text(NegativeClock()) == "-00:15:30";
    NegativeClockValue();
    ParsePrinted([], NegativeClock());
  }

  /** `00:00:01.5`. */
  function HalfClock(): Clock
  {
    Clock(NoSign, "00", "00", "01", Some("5"))
  }

  lemma {:induction false} HalfClockValue()
    ensures WellFormed(HalfClock())
    ensures SignedHours(HalfClock()) == 0 && Micros(HalfClock()) == 1_500_000
  {
    assert IsDigits("5") && DigitsValue("5") == 5 by {
      assert "5"[..0] == "";
    }
    assert DigitsValue("00") == 0 && DigitsValue("01") == 1 by {
      assert "00"[..1] == "0" && "01"[..1] == "0" && "0"[..0] == "";
    }
    assert Shift(5, 5) == 500_000 by {
      assert Shift(5, 1) == 50 && Shift(5, 2) == 500 && Shift(5, 3) == 5000;
    }
  }

  /** `00:00:01.5`: the one fraction digit is padded to half a second. */
  lemma {:induction false} HalfSecond()
    ensures ParseSpec("00:00:01.5") == Returned(Interval(0, 0, 1_500_000), None)
  {
    LoneText(HalfClock());
    assert Text(HalfClock()) == "00:00:01.5";
    HalfClockValue();
    ParsePrinted([], HalfClock());
  }

  /** `bogus`: one token, so read as a time of day, but with no colons: an error with no
      cause and the zero interval. */
  lemma {:induction false} Bogus()
    ensures ParseSpec("bogus") == Returned(ZERO, Some(ParseErr("bogus", NoCause)))
  {
    var s := "bogus";
    assert ' ' !in s && ':' !in s;
    SplitJoin([s], ' ');
    ParseTokens(s, [], s);
    assert Count(s, ':') == 0 by {
      CountAbsent(s, ':');
    }
    ColonCountError(s);
    TimedCases(s, ParseTime(s), []);
  }

  /** `1 day `: the trailing space leaves an empty last token, and `t[0]` panics. */
  lemma {:induction false} TrailingSpace()
    ensures ParseSpec("1 day ") == Panicked(EmptyTimeToken)
  {
    var s := "1 day ";
    var toks := ["1", "day", ""];
    assert Join(toks, ' ') == s;
    assert NoSep(toks, ' ') by {
      assert ' ' !in toks[0] && ' ' !in toks[1] && ' ' !in toks[2];
    }
    SplitJoin(toks, ' ');
    EmptyTokenPanics(s);
  }

  /** The empty input is one empty token, and `t[0]` panics. */
  lemma {:induction false} EmptyInput()
    ensures ParseSpec("") == Panicked(EmptyTimeToken)
  {
    EmptyTokenPanics("");
  }

  /** `00:60:00`. */
  function SixtyClock(): Clock
  {
    Clock(NoSign, "00", "60", "00", None)
  }

  /** `00:60:00`: minutes out of range, an error with no cause (`Atoi` read them). */
  lemma {:induction false} SixtyMinutes()
    ensures ParseSpec("00:60:00") == Returned(ZERO, Some(ParseErr("00:60:00", NoCause)))
  {
    var c := SixtyClock();
    assert Text(c) == "00:60:00";
    assert IsDigits("60") && DigitsValue("60") == 60 && DigitsValue("00") == 0 by {
      assert "60"[..1] == "6" && "00"[..1] == "0" && "6"[..0] == "" && "0"[..0] == "";
    }
    AtoiDigits("60");
    MinutesErrors(c);
    assert ' ' !in Text(c);
    SplitJoin([Text(c)], ' ');
    TimeErrorFails(Text(c), [], Text(c));
  }
}
