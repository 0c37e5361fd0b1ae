# pqinterval `parse`, modelled in Dafny

The Go package `pqinterval` reads PostgreSQL `interval` values in the default
("postgres") `IntervalStyle`, such as `3 years 2 mons 4 days 04:05:06.789`. It packs them
into an `Interval` of three words:

- `yrs` (uint32) holds the year magnitude, plus two flags: `yrSignBit` for negative years
  and `usSignBit` for a negative time of day.
- `hrs` (int32) holds months, days and the hours of the time of day, all in hours.
- `us` (uint32) holds the minutes, seconds and fraction of the time of day, in microseconds.

This project models `parse` (parse.go:16-111) and the `ParseErr` value. The imperative
`Parse` is proved equal to the functional `ParseSpec` for every input. The `IntervalText` and
`TimeOfDay` lemmas then state that outcome by meaning:

- for printed pairs and well-formed time tokens, whose fields are digits;
- for each class of error and panic.

Layout:

- `wrappers.dfy`: `Option` and `Result`.
- `words.dfy`: Go's `int32(x)` and `uint32(x)` conversions, as truncation modulo 2^32.
- `strings.dfy`: `strings.Split`, `strings.SplitN(·, ".", 2)`, and `Join`, their inverse.
- `strconv.dfy`: `strconv.Atoi` on a 64-bit platform, and its inverse `Itoa`.
- `parse.dfy`: the parser itself.
  - `ParseSpec` gives the outcome of `parse(s)`.
  - `Parse` is the imperative method with the pair loop `ConsumePairs`, proved equal to
    `ParseSpec`.
  - `ParseErr` is the returned error; a `Panicked` outcome covers Go's two reachable
    run-time panics.
- `clock.dfy`: the time-of-day token by meaning: its sign, its fields, its error paths.
- `pairs.dfy`: the `<count> <unit>` pairs by meaning: the unit words, the hours the pairs add
  up to, and which year pair decides `yrs`.
- `text.dfy`: whole inputs.
  - Pairs printed by `strconv.Itoa` and the unit words, then a time token, read back as the
    interval they stand for. PostgreSQL's own text can also put a `+` before a count; such text
    is covered by the general lemmas, which read counts through `Atoi`.
  - Every error and panic, case by case.
- `samples.dfy`: worked string-literal inputs: three intervals in printed form
  and four inputs that fail or panic.

Choices:

- `int32(x)`/`uint32(x)` (parse.go:73-74, 93, 96, 99) wrap around modulo 2^32.
  - The model computes with exact integers and truncates only at these conversions.
  - A wrap-around of Go's 64-bit `int` intermediates, a multiple of 2^64, cannot change the
    low 32 bits, so exact arithmetic agrees with them (`Words.ToInt32Wide`).
  - Truncating the `hrs` accumulator at each step gives the same word as truncating the exact
    sum once (`Words.ToInt32Sum`), and so does negating before or after truncation
    (`Words.ToInt32Neg`).
- The two panics are kept as outcomes, not turned into preconditions or errors:
  - `t[0]` on an empty last token (parse.go:28), for `""` or `"1 day "`;
  - `strings.Repeat` with a negative count, for a fraction of more than six bytes of any
    kind (parse.go:64).
- The model assumes the flags are `yrSignBit = 2^31` and `usSignBit = 2^30`. Their defining
  file, interval.go, is not part of this model. The flag lemmas and the samples depend on these
  exact values.
- A `ParseErr`'s cause is either nil (`NoCause`) or the error `strconv.Atoi` returned
  (`AtoiError`).

## Behaviour worth knowing

Facts about the code that a reader of it could easily miss:

- The pair loop never reads past the end of the tokens.
  - An odd token count always gives up its last token as the time of day.
  - So the pairs are even in number (`PqInterval.ConsumePairs`).
  - `3 years 2` is therefore an error of the time token `2`, not a crash
    (`IntervalText.ColonCountFails`).
- The empty input panics, and so does an input ending in a space after an even number of
  spaces, such as `1 day ` (`IntervalText.TrailingSpacePanics`). An input ending in a space
  after an odd number of spaces has an even token count, so it is always an error. The cause
  is the first bad pair's: none for `1 `, whose unit word is empty, and an `Atoi` error for
  `x `, whose count is checked first (`IntervalText.BadPairFails`).
- Minutes or seconds that `Atoi` reads but that lie outside 0..59 give an error with a nil
  cause (`TimeOfDay.MinutesErrors`, `TimeOfDay.SecondsErrors`).
- `Atoi` accepts a sign inside the fraction. The fraction `-5` pads to `-50000` and is
  subtracted (`TimeOfDay.NegativeFraction`, `TimeOfDay.NegativeFractionSeconds`). A `+`
  fraction is read one place short the same way: `+5` pads to `+50000`, so `00:00:01.+5`
  gives `us = 1_050_000`, not 1_500_000.
- A count written with a `+`, as in PostgreSQL's `-1 years +2 mons`, decodes like the bare
  digits (`UnitPairs.PlusCountDecodes`).
- `uint32` keeps only the low 32 bits of a year magnitude, and bits 30 and 31 of those are
  the flag bits. So a count from 2^30 to 2^31-1 sets `usSignBit`
  (`IntervalText.LargeYearSetsTimeFlag`), and bits from 32 up are dropped. PostgreSQL never
  prints such a count.

## Model

| member | source | states |
|---|---|---|
| Words.ToInt32 | parse.go:73 | `int32(x)`: the one value in the int32 range congruent to `x` modulo 2^32, and `x` itself when `x` is in range |
| Words.ToUint32 | parse.go:74 | `uint32(x)`: the one value in the uint32 range congruent to `x` modulo 2^32, and `x` itself when `x` is in range |
| Words.ToInt32Sum | parse.go:96-99 | adding to a truncated accumulator and truncating again equals truncating the exact sum once |
| Words.ToInt32Wide | parse.go:73-74 | adding any multiple of 2^64 (a 64-bit wrap-around) changes neither `int32(x)` nor `uint32(x)` |
| Words.ToInt32Neg | parse.go:46-48 | negating before or after the 32-bit truncation gives the same word |
| GoStrings.Split | parse.go:17 | `strings.Split` always yields at least one token |
| GoStrings.SplitSpec | parse.go:17 | the tokens of `Split` contain no separator and join back to the input, so no text is lost or invented |
| GoStrings.SplitJoin | parse.go:17 | splitting a join of separator-free tokens gives those tokens back |
| GoStrings.SplitCount | parse.go:17 | `Split` yields exactly one token more than there are separators |
| GoStrings.SplitTrailing | parse.go:17 | a string ending in the separator splits into an empty last token |
| GoStrings.SplitN2 | parse.go:55 | `SplitN(s, ".", 2)`: one part equal to `s` exactly when `s` has no dot, else the dot-free text before the first dot and the rest after it |
| GoStrconv.Atoi | parse.go:42 | a value returned by `Atoi` is a 64-bit integer, negative only after a leading `-` |
| GoStrconv.AtoiMeaning | parse.go:42 | `Atoi` accepts exactly an optional sign followed by one or more digits whose signed value fits in 64 bits, and returns that value |
| GoStrconv.AtoiDigits | parse.go:56 | a digit string reads as its decimal value, and fails when that value exceeds the 64-bit maximum |
| GoStrconv.AtoiItoa | parse.go:82 | `Atoi` reads back the decimal text of every 64-bit integer |
| GoStrconv.Zeros | parse.go:64 | `strings.Repeat("0", k)`: exactly `k` bytes, all digits (their value is zero: `GoStrconv.DigitsValuePadded`, `TimeOfDay.PaddedFraction`) |
| GoStrconv.DigitsValuePadded | parse.go:64 | right-padding digits with `k` zeros multiplies their value by 10^k |
| PqInterval.SetFlag | parse.go:107 | `w \| flag` sets that flag and keeps the other flag and the low 30 bits |
| PqInterval.YearWord | parse.go:88-93 | the `yrs` word of a year pair carries the year-sign flag for a negative count; below 2^30 it holds sign and magnitude apart, without the time-sign flag |
| PqInterval.Unsigned | parse.go:28-34 | the token without a leading `-` or `+`; `TimeOfDay.ParseTimeUnsigned` shows the rest of the time parse sees only this text |
| PqInterval.ParseTime | parse.go:28-37 | the time token panics exactly when it is empty; a successful read is negative exactly when the token starts with `-`, and splits into three colon fields |
| PqInterval.ParseClock | parse.go:37-53 | the colon stage never meets an empty token, and succeeds only with three fields, keeping the sign mark |
| PqInterval.ParseSeconds | parse.go:55-74 | the seconds stage keeps the sign mark, and its only panic is the long fraction |
| PqInterval.ApplyPair | parse.go:82-103 | one pass of the pair loop; its meaning is stated by `UnitPairs.ApplyPairStep` |
| PqInterval.FoldPairs | parse.go:77-104 | the pair loop as a left-to-right fold, stopping at the first error; its meaning is stated by `UnitPairs.FoldPairsDecoded` |
| PqInterval.Assemble | parse.go:84-110 | a pair error returns the zero interval with its cause; otherwise the loop's interval, with `usSignBit` OR-ed in for a negative time; stated case by case by `IntervalText.TimedCases` and `IntervalText.UntimedOutcome` |
| PqInterval.AfterTime | parse.go:28-110 | after the time token: its panic, its error, or the pairs on top of its hours and microseconds; stated case by case by `IntervalText.TimedCases` |
| PqInterval.ParseSpec | parse.go:16-111 | every error returns the zero interval with `String` equal to the input; a panic needs an odd token count |
| PqInterval.ConsumePairs | parse.go:77-104 | the pair loop, consuming two tokens per pass over an even-length remainder, computes the left-to-right fold of the pairs |
| PqInterval.Parse | parse.go:16-111 | the method returns exactly the outcome `ParseSpec` gives |
| TimeOfDay.Micros | parse.go:71-74 | the minutes, seconds and fraction of a well-formed token stay below one hour of microseconds, so `uint32(us)` keeps them whole |
| TimeOfDay.FracMicrosBound | parse.go:61-69 | a fraction of up to six digits is worth less than one second |
| TimeOfDay.AtoiFraction | parse.go:62-68 | the fraction `f` of `k <= 6` digits, padded, reads as `f * 10^(6-k)` microseconds |
| TimeOfDay.ParseTimeText | parse.go:28-74 | a well-formed `[+-]HH:MM:SS[.f]` token reads as its signed hours truncated to 32 bits, `mins*usPerMin + secs*usPerSec + f*10^(6-k)` microseconds, and negative exactly for `-` |
| TimeOfDay.PlusSignIgnored | parse.go:32-33 | a leading `+` changes nothing |
| TimeOfDay.MinusSignNegates | parse.go:28-48 | a leading `-` negates the hours modulo 2^32 and marks the time negative, and leaves an error or panic unchanged |
| TimeOfDay.LongFractionPanics | parse.go:62-64 | once hours, minutes and seconds have read, a fraction of more than six bytes, whatever they are, panics in `strings.Repeat` |
| TimeOfDay.ColonCountError | parse.go:37-40 | a token whose unsigned part does not hold exactly two colons is an error with no cause |
| TimeOfDay.HoursOverflow | parse.go:42-45 | hours beyond the 64-bit range are an `Atoi` error |
| TimeOfDay.MinutesErrors | parse.go:50-53 | minutes `Atoi` rejects are its error; minutes it reads outside 0..59 are an error with no cause |
| TimeOfDay.SecondsErrors | parse.go:55-59 | seconds `Atoi` rejects are its error; seconds it reads outside 0..59 are an error with no cause |
| TimeOfDay.FractionError | parse.go:62-68 | a fraction of at most six bytes that is not an optional sign and digits is an `Atoi` error |
| TimeOfDay.NegativeFraction | parse.go:63-65 | a fraction `-d` of up to five digits passes `Atoi` as minus `d` shifted to five places |
| TimeOfDay.NegativeFractionSeconds | parse.go:55-74 | with a fraction `-d` after valid seconds, the seconds stage succeeds and subtracts `d`, padded to five digits, from the seconds and minutes in microseconds |
| UnitPairs.UnitOf | parse.go:87-103 | the unit words are exactly `year`/`years`, `mon`/`mons` and `day`/`days` |
| UnitPairs.UnitWord | parse.go:87-99 | the word printed for a count names its unit back |
| UnitPairs.DecodePairs | parse.go:77-85 | a successful decode gives one pair per two tokens |
| UnitPairs.PlusCountDecodes | parse.go:82-85 | a count `+d` decodes exactly like `d`, with whatever pairs follow |
| UnitPairs.DecodeEncodePairs | parse.go:77-103 | decoding the printed tokens of 64-bit pairs gives the pairs back |
| UnitPairs.HoursAppend | parse.go:95-99 | the hours of month and day pairs add up, so their order does not matter |
| UnitPairs.YearsAfterAppend | parse.go:88-93 | the year pairs of a concatenation act as the first part's, then the second's |
| UnitPairs.YearsAfterNoYears | parse.go:95-99 | month and day pairs leave `yrs` alone |
| UnitPairs.LastYearDecides | parse.go:88-93 | the last year pair alone decides `yrs`, whatever came before |
| UnitPairs.YearsAfterNoTimeFlag | parse.go:88-93 | year counts below 2^30 never set the time-sign flag in `yrs` |
| UnitPairs.ApplyPairStep | parse.go:82-103 | one pair: an unreadable count is an `Atoi` error; an unknown unit is an error with no cause; otherwise a year pair overwrites `yrs` and a month or day pair adds `24*30*n` or `24*n` hours modulo 2^32 |
| UnitPairs.AccumulatedPrepend | parse.go:77-104 | accumulating a pair and then the rest is accumulating the rest after that pair's step |
| UnitPairs.FoldPairsDecoded | parse.go:77-104 | the pair loop yields the first bad pair's cause, else the last year pair's word and all month and day hours summed exactly and truncated once |
| IntervalText.ParseTimed | parse.go:24-37 | with an odd token count, the last token is read as the time of day and the rest as pairs |
| IntervalText.ParseUntimed | parse.go:24 | with an even token count, the pairs alone decide the outcome |
| IntervalText.TimeTokenPresent | parse.go:24 | there is a time token exactly when the input holds an even number of spaces |
| IntervalText.UntimedOutcome | parse.go:77-110 | with an even token count: the first bad pair's cause with the zero interval, else the last year word, the month and day hours truncated once, and `us = 0` |
| IntervalText.UntimedNoTimeFlag | parse.go:77-110 | with no time token, `us` is 0, and `usSignBit` is clear while year counts stay below 2^30 |
| IntervalText.TimedCases | parse.go:24-111 | after the time token, case by case: panic; time error; first bad pair; else the last year word, flagged for a negative time, hours added to the time's hours, and the time's microseconds |
| IntervalText.TimedDecoded | parse.go:73-110 | pairs after a successful time read add their hours to the time's truncated hours with a single final truncation |
| IntervalText.NegativeTimedFlagged | parse.go:106-108 | a negative time sets `usSignBit` on success, even with zero hours and whatever year pairs came first |
| IntervalText.ParseTokens | parse.go:24-26 | an input split into even pairs and a last token reads that token as the time |
| IntervalText.ParsePrinted | parse.go:16-111 | printed 64-bit pairs followed by a well-formed time token read as `Denoted`: last year word (time-flagged if negative), all hours summed then truncated once, the time's microseconds, no error |
| IntervalText.ParseEncodedPairs | parse.go:77-110 | an input whose tokens are printed pairs reads as those pairs, with no time |
| IntervalText.ParsePairsOnly | parse.go:77-110 | the text of one or more pairs without a time reads as those pairs |
| IntervalText.EmptyTokenPanics | parse.go:24-28 | `parse` panics on the empty-token path exactly when the token count is odd and the last token is empty |
| IntervalText.TrailingSpacePanics | parse.go:17-28 | the empty input, or one ending in a space after an even number of spaces, panics |
| IntervalText.TimeErrorFails | parse.go:37-68 | a time token that reads as an error ends the parse with the zero interval and its cause |
| IntervalText.ColonCountFails | parse.go:37-40 | a time token without exactly two colons ends the parse with the zero interval and no cause, whatever the pairs |
| IntervalText.DecodeBadPair | parse.go:82-102 | decoding stops at the first bad pair, with its cause |
| IntervalText.BadPairFails | parse.go:82-102 | with no time token, the first bad pair ends the parse with the zero interval: an `Atoi` error for the count, else no cause for the unit |
| IntervalText.LargeYearSetsTimeFlag | parse.go:88-93 | a last year count from 2^30 to 2^31-1 reads back with the time-sign flag set although there is no time token |
| Samples.FullInterval | parse.go:16-111 | `3 years 2 mons 4 days 04:05:06.789` gives `yrs = 3`, `hrs = 1540`, `us = 306_789_000` |
| Samples.NegativeZeroHours | parse.go:106-108 | `-00:15:30` gives `hrs = 0`, `us = 930_000_000` and `usSignBit` set |
| Samples.HalfSecond | parse.go:61-71 | `00:00:01.5` gives `us = 1_500_000` |
| Samples.Bogus | parse.go:37-40 | `bogus` gives the zero interval and an error with no cause |
| Samples.SixtyMinutes | parse.go:50-53 | `00:60:00` gives the zero interval and an error with no cause |
| Samples.TrailingSpace | parse.go:28 | `1 day ` panics on its empty last token |
| Samples.EmptyInput | parse.go:28 | the empty input panics |

## Left out

- `ParseErr.Error()` (parse.go:114-116) is left out. It is `fmt.Sprintf` formatting with `%q`
  quoting, not parsing.
- The contents of `strconv.Atoi`'s `*NumError` are left out. The model records only whether
  a cause is present.
- The `Interval` type's accessors and its conversion to `time.Duration` are left out. They
  live in interval.go, which is not part of this model. Only the three words `parse` writes
  are modelled.
- The values of `yrSignBit` and `usSignBit` are taken as 2^31 and 2^30, because interval.go
  is not part of this model.
- Go's panics are modelled as a `Panicked` outcome of `Parse`, not as an unwinding of the
  stack.
- Bytes are modelled as `char`, one `char` per byte of the Go string. Lengths such as
  `len(usPart)` (parse.go:64) then count bytes, as in Go, so the model is exact for any input
  read this way.
- TimeOfDay.NegativeFractionSeconds states the signed fraction up to the seconds stage. A
  statement on the whole token text for such a fraction is left out. The `Clock` meaning of a
  token has digit-only fields, and giving it signed fields too would change every lemma about
  it. For the same reason, signed hour, minute or second fields (`00:+05:00`) are covered
  only by the general `Atoi` lemmas, not by a token-level statement.
- `strconv.Atoi` and Go's `int` are taken as 64 bits wide, as on 64-bit platforms. On a
  32-bit platform, hours or counts of 2^31 or more would be `Atoi` range errors rather than
  being truncated to 32 bits; that variant is not modelled.
- The samples `10 fortnights` and `3 years 2` are covered by the general lemmas
  `IntervalText.BadPairFails` and `IntervalText.ColonCountFails`, without a worked
  string-literal instance.
