/** What C++ sees of the lines of an enum: comments and conditional groups are taken out
    first, and what is left is read as a list of enumerators. */
module CppText {
  import opened Wrappers
  import opened PythonText

  // ---------------------------------------------------------------------------
  // Comments and conditional groups
  // ---------------------------------------------------------------------------

  /** A conditional group: whether its text is compiled, and whether a later branch may not be. */
  datatype Group = Group(live: bool, done: bool)

  /** Between two lines: inside a comment or not, the text before a comment that is still
      open on the same logical line, and the conditional groups, outermost first. */
  datatype Cpp = Cpp(inComment: bool, pending: string, groups: seq<Group>)

  const START := Cpp(false, "", [])

  /** Whether the condition of an `#if`, `#ifdef`, `#ifndef` or `#elif` line holds. */
  type Conditions = string -> bool

  /** The text outside comments, and whether a comment is open at the end. A comment ends at
      the first closing token and counts as one space. */
  function Scan(s: string, inComment: bool): (string, bool)
    decreases |s|
  {
    if s == [] then ("", inComment)
    else if inComment then
      if StartsWith(s, "*/") then Scan(s[2..], false) else Scan(s[1..], true)
    else if StartsWith(s, "/*") then
      var (text, open) := Scan(s[2..], true);
      (" " + text, open)
    else if StartsWith(s, "//") then ("", false)
    else
      var (text, open) := Scan(s[1..], false);
      ([s[0]] + text, open)
  }

  /** The nested groups are compiled. */
  predicate Live(groups: seq<Group>) {
    groups == [] || groups[|groups| - 1].live
  }

  /** The name of a directive, after the hash and white space. */
  function DirectiveName(t: string): string
    requires t != []
  {
    var words := Words(t[1..]);
    if words == [] then "" else words[0]
  }

  /** The groups after a directive. */
  function AfterDirective(groups: seq<Group>, t: string, holds: Conditions): seq<Group>
    requires t != []
  {
    var name, n := DirectiveName(t), |groups|;
    if name == "if" || name == "ifdef" || name == "ifndef" then
      var live := Live(groups) && holds(t);
      groups + [Group(live, live || !Live(groups))]
    else if n == 0 then groups
    else
      var outer, g := groups[..n - 1], groups[n - 1];
      if name == "elif" then
        var live := Live(outer) && !g.done && holds(t);
        outer + [Group(live, g.done || live)]
      else if name == "else" then outer + [Group(Live(outer) && !g.done, true)]
      else if name == "endif" then outer
      else groups
  }

  /** The code on a line, without surrounding white space, and the state after it. */
  function CppLine(c: Cpp, raw: string, holds: Conditions): (string, Cpp) {
    var (text, open) := Scan(Strip(raw), c.inComment);
    var line := c.pending + text;
    if open then ("", Cpp(true, line + " ", c.groups))
    else
      var code := Strip(line);
      if code != [] && code[0] == '#' then ("", Cpp(false, "", AfterDirective(c.groups, code, holds)))
      else (if Live(c.groups) then code else "", Cpp(false, "", c.groups))
  }

  function AfterLines(c: Cpp, lines: seq<string>, holds: Conditions): Cpp
    decreases |lines|
  {
    if lines == [] then c else AfterLines(CppLine(c, lines[0], holds).1, lines[1..], holds)
  }

  /** The lines of code, without the empty ones. */
  function Code(c: Cpp, lines: seq<string>, holds: Conditions): seq<string>
    decreases |lines|
  {
    if lines == [] then []
    else
      var (code, next) := CppLine(c, lines[0], holds);
      (if code == "" then [] else [code]) + Code(next, lines[1..], holds)
  }

  /** Without a comment token before a line comment, a line is its text up to that. */
  lemma {:induction false} ScanPlain(s: string)
    requires !Contains(CutAt(s, "//"), "/*")
    ensures Scan(s, false) == (CutAt(s, "//"), false)
    decreases |s|
  {
    if s != [] && !StartsWith(s, "//") {
      var rest := CutAt(s[1..], "//");
      assert CutAt(s, "//")[1..] == rest;
      if StartsWith(s, "/*") { CommentKept(s); }
      ScanPlain(s[1..]);
    }
  }

  /** A line comment does not start inside a comment token. */
  lemma CommentKept(s: string)
    requires StartsWith(s, "/*")
    ensures StartsWith(CutAt(s, "//"), "/*")
  {
    assert s[0] == '/' && s[1] == '*';
    var rest := CutAt(s[1..], "//");
    assert !StartsWith(s[1..], "//") && rest != [] && rest[0] == '*';
    assert CutAt(s, "//") == [s[0]] + rest;
  }

  // ---------------------------------------------------------------------------
  // Enumerators
  // ---------------------------------------------------------------------------

  /** The text of a value stands inside the parentheses of EVALUE, behind them, or not at all. */
  datatype Explicit = NoValue | Inside(text: string) | Behind(text: string)

  datatype Entry = Entry(name: string, given: Explicit)

  predicate IsNameChar(c: char) {
    'a' <= c <= 'z' || 'A' <= c <= 'Z' || '0' <= c <= '9' || c == '_'
  }

  predicate IsName(s: string) {
    s != [] && !IsDigit(s[0]) && forall i :: 0 <= i < |s| ==> IsNameChar(s[i])
  }

  /** Text that stays within an enumerator and its parentheses. */
  predicate PlainChars(s: string) {
    forall c :: c in s ==> c !in "(),{}"
  }

  predicate IsInitializer(s: string) {
    s != [] && '=' !in s && PlainChars(s)
  }

  /** The name and the value between the parentheses of EVALUE. */
  function InnerEntry(inner: string): Option<Entry> {
    if '=' in inner then
      var name, text := Strip(Before(inner, '=')), Strip(After(inner, '='));
      if IsName(name) && IsInitializer(text) then Some(Entry(name, Inside(text))) else None
    else
      var name := Strip(inner);
      if IsName(name) then Some(Entry(name, NoValue)) else None
  }

  /** What the parentheses hold, and what stands behind them. */
  function Inner(u: string): string
    requires StartsWith(u, "EVALUE(")
  {
    Before(u[7..], ')')
  }

  /** One enumerator, without surrounding white space. */
  function Declaration(u: string): Option<Entry> {
    if !StartsWith(u, "EVALUE(") || ')' !in u[7..] then None
    else match InnerEntry(Inner(u))
         case None => None
         case Some(e) =>
           var tail := Strip(After(u[7..], ')'));
           if tail == [] then Some(e)
           else if tail[0] != '=' || !e.given.NoValue? then None
           else
             var text := Strip(tail[1..]);
             if IsInitializer(text) then Some(Entry(e.name, Behind(text))) else None
  }

  /** A list of enumerators separated by commas; the last comma is optional. */
  function Declarations(text: string): Option<seq<Entry>>
    decreases |text|
  {
    if Strip(text) == [] then Some([])
    else if ',' !in text then
      match Declaration(Strip(text)) case None => None case Some(e) => Some([e])
    else
      AfterIsShorter(text, ',');
      match (Declaration(Strip(Before(text, ','))), Declarations(After(text, ',')))
      case (Some(e), Some(es)) => Some([e] + es)
      case _ => None
  }

  function Joined(lines: seq<string>): string {
    if lines == [] then "" else lines[0] + (if |lines| == 1 then "" else " " + Joined(lines[1..]))
  }

  predicate DistinctNames(es: seq<Entry>) {
    forall i, j :: 0 <= i < j < |es| ==> es[i].name != es[j].name
  }

  /** The enumerators between the braces, if C++ accepts them. */
  function CppEntries(body: seq<string>, holds: Conditions): Option<seq<Entry>> {
    var end := AfterLines(START, body, holds);
    if end.inComment || end.groups != [] then None
    else match Declarations(Joined(Code(START, body, holds)))
         case None => None
         case Some(es) => if DistinctNames(es) then Some(es) else None
  }

  predicate IsOctal(s: string) {
    s != [] && forall i :: 0 <= i < |s| ==> '0' <= s[i] <= '7'
  }

  function OctalValue(s: string): nat
    requires s != [] ==> IsOctal(s)
  {
    if s == [] then 0
    else
      var n := |s| - 1;
      8 * OctalValue(s[..n]) + (s[n] as int - '0' as int)
  }

  /** The value of digits with a sign or without; with a leading zero they are octal. */
  function IntegerLiteral(s: string): Option<int> {
    var sign := if s != [] && s[0] == '-' then -1 else 1;
    var digits := if s != [] && s[0] in "+-" then s[1..] else s;
    if !AllDigits(digits) then None
    else if digits[0] != '0' then Some(sign * DigitsValue(digits))
    else if IsOctal(digits) then Some(sign * OctalValue(digits))
    else None
  }

  /** The values of initializers that are no such literals. */
  type Initializers = string -> int

  function InitialValue(text: string, eval: Initializers): int {
    match IntegerLiteral(text)
    case None => eval(text)
    case Some(v) => v
  }

  /** The value of an enumerator. */
  function CppValue(e: Entry, last: int, eval: Initializers): int {
    if e.given.NoValue? then last + 1 else InitialValue(e.given.text, eval)
  }

  function CppValues(es: seq<Entry>, last: int, eval: Initializers): (r: seq<int>)
    ensures |r| == |es|
  {
    if es == [] then []
    else [CppValue(es[0], last, eval)] + CppValues(es[1..], CppValue(es[0], last, eval), eval)
  }

  function Names(es: seq<Entry>): (r: seq<string>)
    ensures |r| == |es| && forall i :: 0 <= i < |es| ==> r[i] == es[i].name
  {
    seq(|es|, i requires 0 <= i < |es| => es[i].name)
  }

  // ---------------------------------------------------------------------------
  // The characters of a list of enumerators
  // ---------------------------------------------------------------------------

  predicate IsListChar(c: char) {
    c !in "{}"
  }

  function Parentheses(s: string): nat {
    multiset(s)['(']
  }

  lemma NameChars(s: string)
    requires IsName(s)
    ensures forall c :: c in s ==> IsNameChar(c)
    ensures !IsSpace(s[0]) && !IsSpace(s[|s| - 1])
  {
    assert forall c :: IsNameChar(c) ==> !IsSpace(c);
  }

  lemma PlainStripped(s: string)
    requires PlainChars(Strip(s))
    ensures PlainChars(s)
  {
    forall c | c in s ensures c in Strip(s) || IsSpace(c) { StripKeeps(s, c); }
  }

  lemma NamePlain(s: string)
    requires IsName(Strip(s))
    ensures PlainChars(s)
  {
    NameChars(Strip(s));
    PlainStripped(s);
  }

  lemma InnerPlain(inner: string)
    requires InnerEntry(inner).Some?
    ensures PlainChars(inner) && IsName(InnerEntry(inner).value.name)
  {
    if '=' in inner {
      NamePlain(Before(inner, '='));
      PlainStripped(After(inner, '='));
      SplitAround(inner, '=');
    } else {
      NamePlain(inner);
    }
  }

  lemma TailPlain(tail: string)
    requires Strip(tail) == [] || (Strip(tail)[0] == '=' && PlainChars(Strip(Strip(tail)[1..])))
    ensures PlainChars(tail)
  {
    var t := Strip(tail);
    if t != [] {
      PlainStripped(t[1..]);
      assert t == [t[0]] + t[1..];
    }
    PlainStripped(tail);
  }

  lemma DeclarationPlain(u: string)
    requires Declaration(u).Some?
    ensures IsName(Declaration(u).value.name)
    ensures u == "EVALUE" + ['('] + Inner(u) + [')'] + After(u[7..], ')')
    ensures PlainChars(Inner(u)) && PlainChars(After(u[7..], ')'))
  {
    InnerPlain(Inner(u));
    TailPlain(After(u[7..], ')'));
    SplitAround(u[7..], ')');
    StartParts(u);
  }

  lemma StartParts(u: string)
    requires StartsWith(u, "EVALUE(")
    ensures u == "EVALUE" + ['('] + u[7..]
  {
    assert u == u[..7] + u[7..] && u[..7] == "EVALUE" + ['('];
  }

  lemma DeclarationChars(u: string)
    requires Declaration(u).Some?
    ensures Parentheses(u) == 1 && ',' !in u
    ensures forall c :: c in u ==> IsListChar(c)
  {
    DeclarationPlain(u);
    var inner, tail := Inner(u), After(u[7..], ')');
    PlainWithout(inner);
    PlainWithout(tail);
    OneParenthesis(inner, tail);
    forall c | c in u ensures IsListChar(c) && c != ',' { CharOfParts(inner, tail, c); }
  }

  lemma PlainWithout(s: string)
    requires PlainChars(s)
    ensures '(' !in s && ')' !in s && ',' !in s && forall c :: c in s ==> IsListChar(c) && c != ','
  {
  }

  lemma CharOfParts(inner: string, tail: string, c: char)
    requires c in "EVALUE" + ['('] + inner + [')'] + tail
    ensures c in inner || c in tail || (IsListChar(c) && c != ',')
  {
    assert c in "EVALUE" ==> 'A' <= c <= 'Z';
  }

  lemma OneParenthesis(inner: string, tail: string)
    requires '(' !in inner && '(' !in tail
    ensures Parentheses("EVALUE" + ['('] + inner + [')'] + tail) == 1
  {
    assert multiset("EVALUE" + ['('] + inner + [')'] + tail)
        == multiset("EVALUE") + multiset(['(']) + multiset(inner) + multiset([')']) + multiset(tail);
    assert "EVALUE" == ['E', 'V', 'A', 'L', 'U', 'E'];
  }

  lemma StripParentheses(s: string)
    ensures Parentheses(Strip(s)) == Parentheses(s)
  {
    var l, r := StripEnds(s);
    assert multiset(l + Strip(s) + r) == multiset(l) + multiset(Strip(s)) + multiset(r);
    assert '(' !in l && '(' !in r;
  }

  lemma PieceChars(p: string)
    requires Declaration(Strip(p)).Some?
    ensures Parentheses(p) == 1 && forall c :: c in p ==> IsListChar(c)
  {
    DeclarationChars(Strip(p));
    StripParentheses(p);
    forall c | c in p ensures IsListChar(c) { StripKeeps(p, c); }
  }

  lemma BlankChars(text: string)
    requires Strip(text) == []
    ensures Parentheses(text) == 0 && forall c :: c in text ==> IsListChar(c)
  {
    StripParentheses(text);
    forall c | c in text ensures IsListChar(c) { StripKeeps(text, c); }
  }

  lemma CommaChars(text: string)
    requires ',' in text
    ensures Parentheses(text) == Parentheses(Before(text, ',')) + Parentheses(After(text, ','))
    ensures forall c :: c in text ==> c in Before(text, ',') || c == ',' || c in After(text, ',')
  {
    var a, b := Before(text, ','), After(text, ',');
    SplitAround(text, ',');
    assert multiset(a + [','] + b) == multiset(a) + multiset([',']) + multiset(b);
  }

  /** A list has one opening parenthesis for each of its enumerators, and no braces. */
  lemma {:induction false} DeclarationsChars(text: string)
    requires Declarations(text).Some?
    ensures Parentheses(text) == |Declarations(text).value|
    ensures forall c :: c in text ==> IsListChar(c)
    decreases |text|
  {
    if Strip(text) == [] {
      BlankChars(text);
    } else if ',' !in text {
      PieceChars(text);
    } else {
      AfterIsShorter(text, ',');
      PieceChars(Before(text, ','));
      DeclarationsChars(After(text, ','));
      CommaChars(text);
    }
  }

  // ---------------------------------------------------------------------------
  // Branches of a conditional group
  // ---------------------------------------------------------------------------

  predicate IsDirective(t: string, name: string) {
    t != [] && DirectiveName(t) == name
  }

  /** Of the branches of a group inside `groups`, the first whose condition holds is compiled, the
      last if none does, and none where the group itself is not; behind it all is as before. */
  lemma OneBranch(groups: seq<Group>, first: string, second: string, other: string, end: string, holds: Conditions)
    requires IsDirective(first, "if") || IsDirective(first, "ifdef") || IsDirective(first, "ifndef")
    requires IsDirective(second, "elif") && IsDirective(other, "else") && IsDirective(end, "endif")
    ensures var g1 := AfterDirective(groups, first, holds);
            var g2 := AfterDirective(g1, second, holds);
            var g3 := AfterDirective(g2, other, holds);
            && (Live(g1) <==> Live(groups) && holds(first))
            && (Live(g2) <==> Live(groups) && !holds(first) && holds(second))
            && (Live(g3) <==> Live(groups) && !holds(first) && !holds(second))
            && (Live(AfterDirective(g1, other, holds)) <==> Live(groups) && !holds(first))
            && AfterDirective(g1, end, holds) == AfterDirective(g2, end, holds) == groups
            && AfterDirective(g3, end, holds) == groups
  {
    var g1 := AfterDirective(groups, first, holds);
    assert g1[..|groups|] == groups;
  }
}
