/** The splitting functions of Go's `strings` package that the parser uses, over byte strings
    (one `char` per byte), together with `Join`, the inverse of `Split`. */
module GoStrings {

  /** `strings.Join(toks, string(sep))`. */
  function Join(toks: seq<string>, sep: char): string
  {
    if |toks| == 0 then ""
    else if |toks| == 1 then toks[0]
    else toks[0] + [sep] + Join(toks[1..], sep)
  }

  /** No token contains the separator. */
  predicate NoSep(toks: seq<string>, sep: char)
  {
    forall i :: 0 <= i < |toks| ==> sep !in toks[i]
  }

  /** `strings.Split(s, string(sep))`: the pieces between separators, empty pieces kept.
      `SplitSpec` and `JoinInjective` pin the result down completely. */
  function Split(s: string, sep: char): (toks: seq<string>)
    ensures |toks| >= 1
    decreases |s|
  {
    if |s| == 0 then [""]
    else
      var rest := Split(s[1..], sep);
      if s[0] == sep then [""] + rest
      else [[s[0]] + rest[0]] + rest[1..]
  }

  /** The pieces of `Split` contain no separator and join back to the input. */
  lemma {:induction false} SplitSpec(s: string, sep: char)
    ensures Join(Split(s, sep), sep) == s
    ensures NoSep(Split(s, sep), sep)
    decreases |s|
  {
    if |s| > 0 {
      var rest := Split(s[1..], sep);
      SplitSpec(s[1..], sep);
      var toks := Split(s, sep);
      if s[0] == sep {
        assert toks == [""] + rest;
        assert toks[1..] == rest;
      } else {
        assert toks == [[s[0]] + rest[0]] + rest[1..];
        assert toks[1..] == rest[1..];
        assert forall i :: 1 <= i < |toks| ==> toks[i] == rest[i];
      }
      assert s == [s[0]] + s[1..];
    }
  }

  /** The number of `sep` bytes in `s`. */
  function Count(s: string, sep: char): nat
    decreases |s|
  {
    if |s| == 0 then 0 else (if s[0] == sep then 1 else 0) + Count(s[1..], sep)
  }

  /** A string without the separator counts none. */
  lemma {:induction false} CountAbsent(s: string, sep: char)
    requires sep !in s
    ensures Count(s, sep) == 0
    decreases |s|
  {
    if |s| > 0 {
      assert s[0] != sep && forall i :: 0 <= i < |s[1..]| ==> s[1..][i] == s[i + 1];
      CountAbsent(s[1..], sep);
    }
  }

  /** `Split` gives one piece more than there are separators. */
  lemma {:induction false} SplitCount(s: string, sep: char)
    ensures |Split(s, sep)| == Count(s, sep) + 1
    decreases |s|
  {
    if |s| > 0 {
      SplitCount(s[1..], sep);
    }
  }

  /** A string that ends in the separator splits into an empty last piece. */
  lemma {:induction false} SplitTrailing(s: string, sep: char)
    requires |s| > 0 && s[|s| - 1] == sep
    ensures var toks := Split(s, sep); toks[|toks| - 1] == ""
    decreases |s|
  {
    if |s| > 1 {
      var t := s[1..];
      assert t[|t| - 1] == sep;
      SplitTrailing(t, sep);
      SplitCount(t, sep);
      assert Count(t, sep) >= 1 by {
        CountLast(t, sep);
      }
    }
  }

  /** A string that ends in the separator counts it. */
  lemma {:induction false} CountLast(s: string, sep: char)
    requires |s| > 0 && s[|s| - 1] == sep
    ensures Count(s, sep) >= 1
    decreases |s|
  {
    if |s| > 1 && s[0] != sep {
      assert s[1..][|s| - 2] == sep;
      CountLast(s[1..], sep);
    }
  }

  /** `strings.SplitN(s, string(sep), 2)`: the text before the first separator and, if there
      is a separator, the text after it. */
  function SplitN2(s: string, sep: char): (parts: seq<string>)
    ensures |parts| == 1 || |parts| == 2
    ensures |parts| == 1 <==> sep !in s
    ensures |parts| == 1 ==> parts[0] == s
    ensures |parts| == 2 ==> sep !in parts[0] && parts[0] + [sep] + parts[1] == s
    decreases |s|
  {
    if |s| == 0 then [s]
    else if s[0] == sep then
      assert s == [] + [sep] + s[1..];
      ["", s[1..]]
    else
      var rest := SplitN2(s[1..], sep);
      assert s == [s[0]] + s[1..];
      if |rest| == 1 then [s] else [[s[0]] + rest[0], rest[1]]
  }

  /** The text up to the first separator is the same in two strings that have one. */
  lemma {:induction false} SameFirstField(a: string, x: string, b: string, y: string, sep: char)
    requires sep !in a && sep !in b
    requires a + [sep] + x == b + [sep] + y
    ensures a == b && x == y
  {
    var l, r := a + [sep] + x, b + [sep] + y;
    assert forall i :: 0 <= i < |a| ==> l[i] == a[i] != sep;
    assert forall i :: 0 <= i < |b| ==> r[i] == b[i] != sep;
    assert l[|a|] == sep && r[|b|] == sep;
    assert |a| == |b|;
    assert a == l[..|a|] && b == r[..|b|];
    assert x == l[|a| + 1..] && y == r[|b| + 1..];
  }

  /** Separator-free tokens are determined by their join. */
  lemma {:induction false} JoinInjective(t1: seq<string>, t2: seq<string>, sep: char)
    requires |t1| >= 1 && |t2| >= 1
    requires NoSep(t1, sep) && NoSep(t2, sep)
    requires Join(t1, sep) == Join(t2, sep)
    ensures t1 == t2
  {
    if |t1| != |t2| && (|t1| == 1 || |t2| == 1) {
      assert false;
    } else if |t1| > 1 {
      SameFirstField(t1[0], Join(t1[1..], sep), t2[0], Join(t2[1..], sep), sep);
      JoinInjective(t1[1..], t2[1..], sep);
      assert t1 == [t1[0]] + t1[1..] && t2 == [t2[0]] + t2[1..];
    }
  }

  /** Splitting a join of separator-free tokens gives the tokens back. */
  lemma {:induction false} SplitJoin(toks: seq<string>, sep: char)
    requires |toks| >= 1 && NoSep(toks, sep)
    ensures Split(Join(toks, sep), sep) == toks
  {
    SplitSpec(Join(toks, sep), sep);
    JoinInjective(Split(Join(toks, sep), sep), toks, sep);
  }

  /** Joining a token in front of a non-empty rest puts one separator between them. */
  lemma {:induction false} JoinCons(t: string, rest: seq<string>, sep: char)
    requires |rest| > 0
    ensures Join([t] + rest, sep) == t + [sep] + Join(rest, sep)
  {
    assert ([t] + rest)[1..] == rest;
  }

  /** Seven tokens joined by spaces, spelled out. */
  lemma {:induction false} Join7(a: string, b: string, c: string, d: string, e: string, f: string, g: string)
    ensures Join([a, b, c, d, e, f, g], ' ') ==
      a + " " + b + " " + c + " " + d + " " + e + " " + f + " " + g
  {
    var t5 := [f, g];
    var t4 := [e] + t5;
    var t3 := [d] + t4;
    var t2 := [c] + t3;
    var t1 := [b] + t2;
    JoinCons(f, [g], ' ');
    JoinCons(e, t5, ' ');
    JoinCons(d, t4, ' ');
    JoinCons(c, t3, ' ');
    JoinCons(b, t2, ' ');
    JoinCons(a, t1, ' ');
    assert [a] + t1 == [a, b, c, d, e, f, g];
  }
}
