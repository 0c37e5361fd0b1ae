/** `strconv.Atoi` of Go on a 64-bit platform, and its inverse `Itoa`. */
module GoStrconv {
  import opened Wrappers

  const MIN_INT64: int := -0x8000_0000_0000_0000
  const MAX_INT64: int := 0x7fff_ffff_ffff_ffff

  predicate IsDigit(c: char)
  {
    '0' <= c <= '9'
  }

  /** Every byte of `d` is a decimal digit (defined from the last byte back, as `DigitsValue`
      reads it; `DigitsEach` gives the byte-by-byte form). */
  predicate IsDigits(d: string)
    decreases |d|
  {
    |d| == 0 || (IsDigits(d[..|d| - 1]) && IsDigit(d[|d| - 1]))
  }

  lemma {:induction false} DigitsEach(d: string)
    ensures IsDigits(d) <==> forall i :: 0 <= i < |d| ==> IsDigit(d[i])
    decreases |d|
  {
    if |d| > 0 {
      var p := d[..|d| - 1];
      DigitsEach(p);
      assert forall i :: 0 <= i < |p| ==> d[i] == p[i];
    }
  }

  /** A digit string contains no byte that is not a digit. */
  lemma {:induction false} DigitsHaveNo(d: string, ch: char)
    requires IsDigits(d) && !IsDigit(ch)
    ensures ch !in d
  {
    DigitsEach(d);
  }

  function Pow10(k: nat): (p: nat)
    ensures p >= 1
  {
    if k == 0 then 1 else 10 * Pow10(k - 1)
  }

  /** The value of a string of decimal digits, most significant digit first. */
  function DigitsValue(d: string): nat
    requires IsDigits(d)
  {
    if |d| == 0 then 0
    else DigitsValue(d[..|d| - 1]) * 10 + (d[|d| - 1] as int - '0' as int)
  }

  /** A string of `k` digits is worth less than `10^k`. */
  lemma {:induction false} DigitsValueBound(d: string)
    requires IsDigits(d)
    ensures DigitsValue(d) < Pow10(|d|)
  {
    if |d| > 0 {
      var p := d[..|d| - 1];
      DigitsValueBound(p);
      assert DigitsValue(d) == DigitsValue(p) * 10 + (d[|d| - 1] as int - '0' as int);
    }
  }

  /** The text after an optional leading sign. */
  function Magnitude(s: string): string
  {
    if |s| > 0 && (s[0] == '-' || s[0] == '+') then s[1..] else s
  }

  /** The digit loop of `strconv.Atoi`: the value of `d` when every byte is a decimal digit,
      else `None`. `DecimalValue` relates it to `DigitsValue`. */
  function Decimal(d: string): Option<nat>
  {
    if |d| == 0 then Some(0)
    else
      match Decimal(d[..|d| - 1])
      case None => None
      case Some(v) =>
        if IsDigit(d[|d| - 1]) then Some(v * 10 + (d[|d| - 1] as int - '0' as int)) else None
  }

  /** `Decimal` accepts exactly the digit strings, with their value. */
  lemma {:induction false} DecimalValue(d: string)
    ensures IsDigits(d) ==> Decimal(d) == Some(DigitsValue(d))
    ensures !IsDigits(d) ==> Decimal(d) == None
  {
    if |d| > 0 {
      DecimalValue(d[..|d| - 1]);
    }
  }

  /** `strconv.Atoi(s)`: an optional `+` or `-`, then one or more decimal digits whose signed value
      fits in 64 bits. `None` stands for the returned error (syntax or range). */
  function Atoi(s: string): (r: Option<int>)
    ensures r.Some? ==> |s| > 0 && MIN_INT64 <= r.value <= MAX_INT64
    ensures r.Some? && r.value < 0 ==> s[0] == '-'
  {
    var digits := Magnitude(s);
    if |digits| == 0 then None
    else
      match Decimal(digits)
      case None => None
      case Some(mag) =>
        var v := if s[0] == '-' then -(mag as int) else mag;
        if MIN_INT64 <= v <= MAX_INT64 then Some(v) else None
  }

  /** The value `strconv.Atoi` gives text whose magnitude is digits: negated after a `-`. */
  function SignedValue(s: string): int
    requires IsDigits(Magnitude(s))
  {
    if |s| > 0 && s[0] == '-' then -(DigitsValue(Magnitude(s)) as int) else DigitsValue(Magnitude(s))
  }

  /** Atoi accepts exactly an optional sign and one or more digits whose signed value is a
      64-bit integer, and returns that value. */
  lemma {:induction false} AtoiMeaning(s: string)
    ensures Atoi(s).Some? <==>
      |Magnitude(s)| > 0 && IsDigits(Magnitude(s)) && MIN_INT64 <= SignedValue(s) <= MAX_INT64
    ensures Atoi(s).Some? ==> Atoi(s).value == SignedValue(s)
  {
    DecimalValue(Magnitude(s));
  }

  /** Text appended after a nonempty string stays after its sign. */
  lemma {:induction false} MagnitudeAppend(f: string, z: string)
    requires |f| > 0
    ensures Magnitude(f + z) == Magnitude(f) + z
  {
    assert (f + z)[0] == f[0];
    assert (f + z)[1..] == f[1..] + z;
  }

  /** A string with a byte that is not a digit keeps it whatever follows. */
  lemma {:induction false} NotDigitsAppend(m: string, z: string)
    requires !IsDigits(m)
    ensures !IsDigits(m + z)
  {
    DigitsEach(m);
    DigitsEach(m + z);
    var i :| 0 <= i < |m| && !IsDigit(m[i]);
    assert (m + z)[i] == m[i];
  }

  /** Atoi reads a digit string as its decimal value, or fails when that overflows. */
  lemma {:induction false} AtoiDigits(d: string)
    requires |d| > 0 && IsDigits(d)
    ensures DigitsValue(d) <= MAX_INT64 ==> Atoi(d) == Some(DigitsValue(d))
    ensures DigitsValue(d) > MAX_INT64 ==> Atoi(d) == None
  {
    DigitsEach(d);
    assert IsDigit(d[0]);
    assert Magnitude(d) == d;
    DecimalValue(d);
  }

  /** Atoi reads a `+`-signed digit string as its decimal value. */
  lemma {:induction false} AtoiPlusDigits(d: string)
    requires |d| > 0 && IsDigits(d) && DigitsValue(d) <= MAX_INT64
    ensures Atoi("+" + d) == Some(DigitsValue(d))
  {
    var s := "+" + d;
    assert s[0] == '+' && Magnitude(s) == d;
    DecimalValue(d);
    assert Decimal(d) == Some(DigitsValue(d));
  }

  /** Atoi reads a `-`-signed digit string as the negated decimal value. */
  lemma {:induction false} AtoiNegDigits(d: string)
    requires |d| > 0 && IsDigits(d) && DigitsValue(d) <= -MIN_INT64
    ensures Atoi("-" + d) == Some(0 - DigitsValue(d))
  {
    var s := "-" + d;
    assert s[0] == '-' && Magnitude(s) == d;
    DecimalValue(d);
    assert Decimal(d) == Some(DigitsValue(d));
  }

  /** `k` zeros, the padding `strings.Repeat("0", k)` makes. */
  function Zeros(k: nat): (z: string)
    ensures |z| == k && IsDigits(z)
  {
    if k == 0 then ""
    else
      var z := Zeros(k - 1) + "0";
      assert z[..k - 1] == Zeros(k - 1);
      z
  }

  /** `v` followed by `k` decimal zeros, that is `v * 10^k` (see `ShiftIsScaling`). */
  function Shift(v: nat, k: nat): nat
  {
    if k == 0 then v else 10 * Shift(v, k - 1)
  }

  lemma {:induction false} ShiftIsScaling(v: nat, k: nat)
    ensures Shift(v, k) == v * Pow10(k)
  {
    if k > 0 {
      ShiftIsScaling(v, k - 1);
      assert v * (10 * Pow10(k - 1)) == 10 * (v * Pow10(k - 1));
    }
  }

  /** A value below `10^n` shifted by `k` places is below `10^(n + k)`. */
  lemma {:induction false} ShiftBound(v: nat, n: nat, k: nat)
    requires v < Pow10(n)
    ensures Shift(v, k) < Pow10(n + k)
  {
    if k > 0 {
      ShiftBound(v, n, k - 1);
    }
  }

  /** Appending a digit to a digit string multiplies its value by ten and adds the digit. */
  lemma {:induction false} DigitsValueAppend(d: string, c: char)
    requires IsDigits(d) && IsDigit(c)
    ensures IsDigits(d + [c])
    ensures DigitsValue(d + [c]) == 10 * DigitsValue(d) + (c as int - '0' as int)
  {
    var e := d + [c];
    assert e[..|e| - 1] == d;
  }

  /** One more zero of padding is one more zero at the end. */
  lemma {:induction false} PadOneMore(d: string, k: nat)
    requires k > 0
    ensures d + Zeros(k) == (d + Zeros(k - 1)) + "0"
  {
    assert Zeros(k) == Zeros(k - 1) + "0";
  }

  /** Right-padding a digit string with zeros shifts its value left by as many decimal places. */
  lemma {:induction false} DigitsValuePadded(d: string, k: nat)
    requires IsDigits(d)
    ensures IsDigits(d + Zeros(k))
    ensures DigitsValue(d + Zeros(k)) == Shift(DigitsValue(d), k)
    decreases k
  {
    if k == 0 {
      assert d + Zeros(0) == d;
    } else {
      PadOneMore(d, k);
      DigitsValuePadded(d, k - 1);
      DigitsValueAppend(d + Zeros(k - 1), '0');
    }
  }

  /** The ASCII digit for `v`. */
  function DigitChar(v: nat): (c: char)
    requires v < 10
    ensures IsDigit(c) && c as int - '0' as int == v
  {
    ('0' as int + v) as char
  }

  /** The decimal digits of `m`, without leading zeros. */
  function Digits(m: nat): (d: string)
    ensures |d| > 0 && IsDigits(d)
    ensures DigitsValue(d) == m
  {
    if m < 10 then [DigitChar(m)]
    else
      var d := Digits(m / 10) + [DigitChar(m % 10)];
      assert d[..|d| - 1] == Digits(m / 10);
      d
  }

  /** `strconv.Itoa(n)`: the canonical decimal text of `n`. */
  function Itoa(n: int): (s: string)
    ensures |s| > 0 && ' ' !in s
  {
    var m: nat := if n < 0 then -n else n;
    DigitsHaveNo(Digits(m), ' ');
    if n < 0 then "-" + Digits(m) else Digits(m)
  }

  /** Atoi inverts Itoa on every 64-bit integer. */
  lemma {:induction false} AtoiItoa(n: int)
    requires MIN_INT64 <= n <= MAX_INT64
    ensures Atoi(Itoa(n)) == Some(n)
  {
    if n < 0 {
      AtoiNegDigits(Digits(-n));
    } else {
      AtoiDigits(Digits(n));
    }
  }

  /** A one-digit number prints as its one digit. */
  lemma {:induction false} SmallItoa(n: int)
    requires 0 <= n < 10
    ensures Itoa(n) == [('0' as int + n) as char]
  {
  }
}
