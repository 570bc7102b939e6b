/** The string operations that the enum parser uses. */
module PythonText {
  import opened Wrappers

  predicate IsSpace(c: char) {
    c in " \t\n\r\U{000B}\U{000C}"
  }

  predicate StartsWith(s: string, t: string) {
    |t| <= |s| && s[..|t|] == t
  }

  predicate EndsWith(s: string, t: string) {
    |t| <= |s| && s[|s| - |t|..] == t
  }

  /** `t in s` */
  predicate Contains(s: string, t: string) {
    StartsWith(s, t) || (s != [] && Contains(s[1..], t))
  }

  function StripLeft(s: string): string {
    if s != [] && IsSpace(s[0]) then StripLeft(s[1..]) else s
  }

  function StripRight(s: string): string {
    if s != [] && IsSpace(s[|s| - 1]) then StripRight(s[..|s| - 1]) else s
  }

  /** `s.strip()` */
  function Strip(s: string): string {
    StripRight(StripLeft(s))
  }

  /** `s[:s.find(t)]` when `t` occurs, otherwise `s` */
  function CutAt(s: string, t: string): string {
    if s == [] || StartsWith(s, t) then [] else [s[0]] + CutAt(s[1..], t)
  }

  function Before(s: string, c: char): string {
    if s == [] || s[0] == c then [] else [s[0]] + Before(s[1..], c)
  }

  function After(s: string, c: char): string
    requires c in s
  {
    if s[0] == c then s[1..] else After(s[1..], c)
  }

  lemma {:induction false} AfterIsShorter(s: string, c: char)
    requires c in s
    ensures |After(s, c)| < |s|
  {
    if s[0] != c { AfterIsShorter(s[1..], c); }
  }

  /** `s.split(c)` */
  function Split(s: string, c: char): (r: seq<string>)
    ensures |r| >= 1
    decreases |s|
  {
    if c in s then
      AfterIsShorter(s, c);
      [Before(s, c)] + Split(After(s, c), c)
    else [s]
  }

  /** `s.split()` */
  function Words(s: string): seq<string> {
    WordsFrom(s, [])
  }

  function WordsFrom(s: string, word: string): seq<string> {
    var done := if word == [] then [] else [word];
    if s == [] then done
    else if IsSpace(s[0]) then done + WordsFrom(s[1..], [])
    else WordsFrom(s[1..], word + [s[0]])
  }

  // ---------------------------------------------------------------------------
  // Numbers
  // ---------------------------------------------------------------------------

  predicate IsDigit(c: char) {
    '0' <= c <= '9'
  }

  function DigitsValue(s: string): nat
    requires forall i :: 0 <= i < |s| ==> IsDigit(s[i])
  {
    if s == [] then 0
    else
      assert IsDigit(s[|s| - 1]);
      10 * DigitsValue(s[..|s| - 1]) + (s[|s| - 1] as int - '0' as int)
  }

  predicate AllDigits(s: string) {
    s != [] && forall i :: 0 <= i < |s| ==> IsDigit(s[i])
  }

  /** A number without surrounding space. */
  function ParseStripped(t: string): Option<int> {
    if t != [] && t[0] == '-' then
      if AllDigits(t[1..]) then Some(0 - DigitsValue(t[1..])) else None
    else
      var digits := if t != [] && t[0] == '+' then t[1..] else t;
      if AllDigits(digits) then Some(DigitsValue(digits)) else None
  }

  /** `int(s)`; none where it raises an error. */
  function ParseInt(s: string): Option<int> {
    ParseStripped(Strip(s))
  }

  function Digit(n: nat): (c: char)
    requires n < 10
    ensures IsDigit(c) && c as int == '0' as int + n
  {
    ('0' as int + n) as char
  }

  function Decimal(n: nat): (s: string)
    ensures AllDigits(s)
  {
    if n < 10 then [Digit(n)] else Decimal(n / 10) + [Digit(n % 10)]
  }

  function Numeral(n: int): (s: string)
    ensures s != []
  {
    if n < 0 then "-" + Decimal(-n) else Decimal(n)
  }

  lemma {:induction false} DecimalValue(n: nat)
    ensures DigitsValue(Decimal(n)) == n
  {
    if n < 10 {
      assert DigitsValue([]) == 0;
      assert [Digit(n)][..0] == [];
    } else {
      DecimalValue(n / 10);
      assert Decimal(n)[..|Decimal(n)| - 1] == Decimal(n / 10);
    }
  }

  lemma StripNothing(s: string)
    requires s != [] && !IsSpace(s[0]) && !IsSpace(s[|s| - 1])
    ensures Strip(s) == s && Strip(" " + s) == s && Strip(s + " ") == s
  {
    assert (" " + s)[1..] == s;
    assert StripLeft(" " + s) == StripLeft(s) == s;
    assert (s + " ")[..|s|] == s && (s + " ")[|s|] == ' ';
    assert StripLeft(s + " ") == s + " ";
    assert StripRight(s + " ") == StripRight(s) == s;
  }

  lemma DigitsAreDark(s: string)
    requires AllDigits(s)
    ensures !IsSpace(s[0]) && !IsSpace(s[|s| - 1]) && s[0] != '-' && s[0] != '+'
  {
    assert forall c :: IsDigit(c) ==> !IsSpace(c) && c != '-' && c != '+';
  }

  /** A numeral has no space around it, and reads back. */
  lemma NumeralStripped(n: int)
    ensures var t := Numeral(n); !IsSpace(t[0]) && !IsSpace(t[|t| - 1]) && ParseStripped(t) == Some(n)
  {
    if n < 0 {
      var digits := Decimal(-n);
      DecimalValue(-n);
      DigitsAreDark(digits);
      assert Numeral(n)[1..] == digits && Numeral(n)[|digits|] == digits[|digits| - 1];
    } else {
      DecimalValue(n);
      DigitsAreDark(Decimal(n));
    }
  }

  /** Reading a number back. */
  lemma NumeralReadsBack(n: int)
    ensures ParseInt(" " + Numeral(n)) == Some(n) && ParseInt(Numeral(n)) == Some(n)
  {
    NumeralStripped(n);
    StripNothing(Numeral(n));
  }

  // ---------------------------------------------------------------------------
  // Searching and splitting
  // ---------------------------------------------------------------------------

  lemma {:induction false} NotContained(s: string, t: string, c: char)
    requires c in t && c !in s
    ensures !Contains(s, t) && CutAt(s, t) == s
  {
    if StartsWith(s, t) {
      assert false;
    }
    if s != [] {
      assert c !in s[1..];
      NotContained(s[1..], t, c);
    }
  }

  lemma {:induction false} BeforeAfter(a: string, c: char, b: string)
    requires c !in a
    ensures Before(a + [c] + b, c) == a && After(a + [c] + b, c) == b
  {
    var s := a + [c] + b;
    if a == [] {
      assert s[0] == c && s[1..] == b;
    } else {
      assert s[0] == a[0] && s[1..] == a[1..] + [c] + b;
      assert c in s[1..] by { assert s[|a|] == c; }
      BeforeAfter(a[1..], c, b);
    }
  }

  lemma SplitTwo(a: string, c: char, b: string)
    requires c !in a && c !in b
    ensures Split(a + [c] + b, c) == [a, b]
  {
    var s := a + [c] + b;
    assert s[|a|] == c;
    BeforeAfter(a, c, b);
    assert Split(b, c) == [b];
    assert [a] + [b] == [a, b];
  }

  /** A string is what stands before the first `c`, the `c`, and what stands after it. */
  lemma {:induction false} SplitAround(s: string, c: char)
    requires c in s
    ensures s == Before(s, c) + [c] + After(s, c) && c !in Before(s, c)
  {
    if s[0] != c { SplitAround(s[1..], c); }
  }

  lemma {:induction false} BeforeAll(s: string, c: char)
    requires c !in s
    ensures Before(s, c) == s
  {
    if s != [] { BeforeAll(s[1..], c); }
  }

  lemma {:induction false} BeforeLater(a: string, b: string, c: char)
    requires c !in a
    ensures Before(a + b, c) == a + Before(b, c)
  {
    if a == [] {
      assert a + b == b;
    } else {
      assert (a + b)[1..] == a[1..] + b;
      BeforeLater(a[1..], b, c);
    }
  }

  lemma {:induction false} BeforeSooner(a: string, b: string, c: char)
    requires c in a
    ensures Before(a + b, c) == Before(a, c)
  {
    if a[0] != c {
      assert (a + b)[1..] == a[1..] + b;
      BeforeSooner(a[1..], b, c);
    }
  }

  // ---------------------------------------------------------------------------
  // Stripping
  // ---------------------------------------------------------------------------

  predicate AllSpace(s: string) {
    forall i :: 0 <= i < |s| ==> IsSpace(s[i])
  }

  lemma {:induction false} StripLeftEnd(s: string) returns (l: string)
    ensures AllSpace(l) && s == l + StripLeft(s)
    ensures StripLeft(s) != [] ==> !IsSpace(StripLeft(s)[0])
  {
    if s != [] && IsSpace(s[0]) {
      var rest := StripLeftEnd(s[1..]);
      l := [s[0]] + rest;
    } else {
      l := [];
    }
  }

  lemma {:induction false} StripRightEnd(s: string) returns (r: string)
    ensures AllSpace(r) && s == StripRight(s) + r
    ensures StripRight(s) != [] ==> !IsSpace(StripRight(s)[|StripRight(s)| - 1])
    decreases |s|
  {
    if s != [] && IsSpace(s[|s| - 1]) {
      var rest := StripRightEnd(s[..|s| - 1]);
      r := rest + [s[|s| - 1]];
      assert s == s[..|s| - 1] + [s[|s| - 1]];
    } else {
      r := [];
      assert s == s + [];
    }
  }

  /** What is stripped off is white space, and what is left has none at its ends. */
  lemma StripEnds(s: string) returns (l: string, r: string)
    ensures AllSpace(l) && AllSpace(r) && s == l + Strip(s) + r
    ensures Strip(s) != [] ==> !IsSpace(Strip(s)[0]) && !IsSpace(Strip(s)[|Strip(s)| - 1])
  {
    l := StripLeftEnd(s);
    r := StripRightEnd(StripLeft(s));
    assert Strip(s) != [] ==> Strip(s)[0] == StripLeft(s)[0];
  }

  lemma StripKeeps(s: string, c: char)
    requires c in s
    ensures c in Strip(s) || IsSpace(c)
  {
    var l, r := StripEnds(s);
  }

  lemma StripTrailing(s: string, space: string)
    requires s != [] && !IsSpace(s[0]) && !IsSpace(s[|s| - 1]) && AllSpace(space)
    ensures Strip(s + space) == s
  {
    StripRightTrailing(s, space);
    assert StripLeft(s + space) == s + space;
  }

  lemma {:induction false} StripRightTrailing(s: string, space: string)
    requires s != [] && !IsSpace(s[|s| - 1]) && AllSpace(space)
    ensures StripRight(s + space) == s
    decreases |space|
  {
    if space == [] {
      assert s + space == s;
    } else {
      assert (s + space)[..|s + space| - 1] == s + space[..|space| - 1];
      StripRightTrailing(s, space[..|space| - 1]);
    }
  }

  lemma {:induction false} ContainsAt(a: string, t: string, b: string)
    ensures Contains(a + t + b, t)
  {
    if a == [] {
      assert (a + t + b)[..|t|] == t;
    } else {
      assert (a + t + b)[1..] == a[1..] + t + b;
      ContainsAt(a[1..], t, b);
    }
  }

  // ---------------------------------------------------------------------------
  // What the operations compute
  // ---------------------------------------------------------------------------

  /** `t` occurs at some position. */
  lemma {:induction false} ContainsIff(s: string, t: string)
    ensures Contains(s, t) <==> exists i :: 0 <= i <= |s| && StartsWith(s[i..], t)
  {
    assert s[0..] == s;
    if s != [] {
      ContainsIff(s[1..], t);
      if i :| 0 <= i <= |s| && StartsWith(s[i..], t) {
        assert i > 0 ==> s[1..][i - 1..] == s[i..];
      }
      if i :| 0 <= i <= |s[1..]| && StartsWith(s[1..][i..], t) {
        assert s[1..][i..] == s[i + 1..];
      }
    }
  }

  /** What is cut off starts with the first occurrence of `t`. */
  lemma {:induction false} CutAtFirst(s: string, t: string)
    requires t != []
    ensures var a := CutAt(s, t);
            && a <= s && (a != s ==> StartsWith(s[|a|..], t))
            && forall i :: 0 <= i < |a| ==> !StartsWith(s[i..], t)
  {
    assert s[0..] == s;
    if s != [] && !StartsWith(s, t) {
      CutAtFirst(s[1..], t);
      var a := CutAt(s[1..], t);
      assert s[1..][|a|..] == s[|a| + 1..];
      forall i | 0 <= i < |a| + 1 ensures !StartsWith(s[i..], t) {
        assert i > 0 ==> s[1..][i - 1..] == s[i..];
      }
    }
  }

  /** The pieces with the separator between them. */
  function JoinWith(pieces: seq<string>, c: char): string
    requires pieces != []
  {
    if |pieces| == 1 then pieces[0] else pieces[0] + [c] + JoinWith(pieces[1..], c)
  }

  /** The pieces are what stands between the separators. */
  lemma {:induction false} SplitJoins(s: string, c: char)
    ensures JoinWith(Split(s, c), c) == s
    ensures forall i :: 0 <= i < |Split(s, c)| ==> c !in Split(s, c)[i]
    decreases |s|
  {
    if c in s {
      AfterIsShorter(s, c);
      SplitAround(s, c);
      SplitJoins(After(s, c), c);
    }
  }

  lemma {:induction false} WordThenSpace(word: string, w: string, c: char, rest: string)
    requires word + w != [] && (forall x :: x in w ==> !IsSpace(x)) && IsSpace(c)
    ensures WordsFrom(w + [c] + rest, word) == [word + w] + WordsFrom(rest, [])
    decreases |w|
  {
    var s := w + [c] + rest;
    if w == [] {
      assert s[0] == c && s[1..] == rest && word + w == word;
    } else {
      assert s[0] == w[0] && s[1..] == w[1..] + [c] + rest;
      assert w[0] in w && forall x :: x in w[1..] ==> x in w;
      WordThenSpace(word + [w[0]], w[1..], c, rest);
      assert word + [w[0]] + w[1..] == word + w;
    }
  }

  lemma {:induction false} WordToEnd(word: string, w: string)
    requires word + w != [] && forall x :: x in w ==> !IsSpace(x)
    ensures WordsFrom(w, word) == [word + w]
    decreases |w|
  {
    if w == [] {
      assert word + w == word;
    } else {
      assert w[0] in w && forall x :: x in w[1..] ==> x in w;
      WordToEnd(word + [w[0]], w[1..]);
      assert word + [w[0]] + w[1..] == word + w;
    }
  }

  /** The words are the stretches without white space. */
  lemma WordsAre(w: string, c: char, rest: string)
    requires (forall x :: x in w ==> !IsSpace(x)) && IsSpace(c)
    ensures Words([]) == [] && Words([c] + rest) == Words(rest)
    ensures w != [] ==> Words(w) == [w] && Words(w + [c] + rest) == [w] + Words(rest)
  {
    assert ([c] + rest)[1..] == rest && [] + w == w;
    if w != [] {
      WordToEnd([], w);
      WordThenSpace([], w, c, rest);
    }
  }

  /** `int` reads digits with a sign or without, and nothing else. */
  lemma ParsesIff(t: string)
    ensures ParseStripped(t).Some? <==> AllDigits(t) || (t != [] && t[0] in "+-" && AllDigits(t[1..]))
  {
    if AllDigits(t) { DigitsAreDark(t); }
  }

  lemma ParsesSigned(t: string)
    requires AllDigits(t)
    ensures ParseStripped("-" + t) == Some(0 - DigitsValue(t))
    ensures ParseStripped(t) == ParseStripped("+" + t) == Some(DigitsValue(t))
  {
    DigitsAreDark(t);
    assert ("-" + t)[1..] == t && ("+" + t)[1..] == t;
  }

  /** Digits count tenfold from the right. */
  lemma DigitsNext(s: string, d: nat)
    requires AllDigits(s) && d < 10
    ensures DigitsValue([Digit(d)]) == d && DigitsValue(s + [Digit(d)]) == 10 * DigitsValue(s) + d
  {
    assert (s + [Digit(d)])[..|s|] == s && [Digit(d)][..0] == [];
  }

  /** The ASCII white space: the five control characters from the tab on, and the space. */
  lemma SpacesAre(c: char)
    ensures IsSpace(c) <==> 9 <= c as int <= 13 || c as int == 32
  {
  }
}
