/** An enum that both accept and that the parser does not read as C++ does. */
module EnumLoss {
  import opened Wrappers
  import opened PythonText
  import opened EnumParsers
  import opened EnumBlocks
  import opened CppText
  import opened EnumAgreement
  import opened EnumPieces
  import opened EnumValues

  /** A comment on one line, behind other text. */
  function Commented(a: string, note: string): string {
    a + "/*" + note + "*/"
  }

  /** Text without the characters of tokens. */
  predicate Quiet(s: string) {
    '/' !in s && '*' !in s && '#' !in s
  }

  lemma {:induction false} ScanInside(note: string)
    requires Quiet(note)
    ensures Scan(note + "*/", true) == ("", false)
  {
    var s := note + "*/";
    if note == [] {
      assert s[..2] == "*/" && s[2..] == "";
    } else {
      assert s[1..] == note[1..] + "*/";
      ScanInside(note[1..]);
    }
  }

  lemma {:induction false} ScanCommented(a: string, note: string)
    requires Quiet(a) && Quiet(note)
    ensures Scan(Commented(a, note), false) == (a + " ", false)
  {
    var s := Commented(a, note);
    if a == [] {
      assert s[..2] == "/*" && s[2..] == note + "*/";
      ScanInside(note);
      assert " " + "" == a + " ";
    } else {
      assert s[0] == a[0] && s[1..] == Commented(a[1..], note);
      ScanCommented(a[1..], note);
      assert [a[0]] + (a[1..] + " ") == a + " ";
    }
  }

  lemma {:induction false} CutInside(note: string)
    requires Quiet(note)
    ensures CutAt(note + "*/", "//") == note + "*/"
  {
    var s := note + "*/";
    if note == [] {
      assert s[1..] == "/" && CutAt("/", "//") == "/";
    } else {
      assert s[1..] == note[1..] + "*/";
      CutInside(note[1..]);
    }
  }

  lemma {:induction false} CutCommented(a: string, note: string)
    requires Quiet(a) && Quiet(note)
    ensures CutAt(Commented(a, note), "//") == Commented(a, note)
  {
    var s := Commented(a, note);
    if a == [] {
      var t := "*" + (note + "*/");
      assert s[0] == '/' && s[1..] == t;
      CutInside(note);
      assert t[1..] == note + "*/" && CutAt(t, "//") == t;
      assert !StartsWith(s, "//") by { assert s[1] == '*'; }
    } else {
      assert s[0] == a[0] && s[1..] == Commented(a[1..], note);
      CutCommented(a[1..], note);
    }
  }

  /** A line that ends in a comment: C++ sees the text before it, and the parser nothing. */
  lemma CommentedLine(a: string, note: string)
    requires Quiet(a) && Quiet(note) && (a == [] || !IsSpace(a[0]))
    ensures Strip(Commented(a, note)) == Commented(a, note) && Clean(Commented(a, note)) == Commented(a, note)
    ensures Entered(Commented(a, note), true) == Some(Comment) && Contains(Commented(a, note), "*/")
  {
    var s := Commented(a, note);
    assert s[|s| - 1] == '/' && (a == [] ==> s[0] == '/');
    StripNothing(s);
    CutCommented(a, note);
    ContainsAt(a, "/*", note + "*/");
    ContainsAt(a + "/*" + note, "*/", "");
    assert s == a + "/*" + (note + "*/") && s == (a + "/*" + note) + "*/" + "";
  }

  lemma CppCommented(a: string, note: string, holds: Conditions)
    requires Quiet(a) && Quiet(note) && (a == [] || !IsSpace(a[0]))
    ensures CppLine(START, Commented(a, note), holds) == (Strip(a + " "), START)
  {
    CommentedLine(a, note);
    ScanCommented(a, note);
    assert "" + (a + " ") == a + " ";
    if Strip(a + " ") != [] {
      var l, r := StripEnds(a + " ");
      assert Strip(a + " ")[0] in a + " ";
    }
  }

  // ---------------------------------------------------------------------------
  // The enum
  // ---------------------------------------------------------------------------

  /** A line with one enumerator. */
  function Line(name: string): string {
    "EVALUE(" + name + "),"
  }

  lemma LineEntry(name: string)
    requires IsName(name)
    ensures Declaration("EVALUE(" + name + ")") == Some(Entry(name, NoValue))
    ensures !IsSpace(("EVALUE(" + name + ")")[|name| + 7])
  {
    var u := "EVALUE(" + name + ")";
    NameChars(name);
    StripNothing(name);
    assert u[..7] == "EVALUE(" && u[7..] == name + [')'] + "";
    BeforeAfter(name, ')', "");
    assert ')' in u[7..] && Strip("") == "";
  }

  lemma LineInner(name: string)
    requires IsName(name)
    ensures InnerText(Line(name)) == name
  {
    var t := Line(name);
    NameChars(name);
    assert t[..7] == "EVALUE(" && t[7..] == name + [')'] + ",";
    BeforeAfter(name, ')', ",");
  }

  lemma LineFacts(name: string)
    requires IsName(name)
    ensures EntryOf(Line(name)) == Some(Entry(name, NoValue)) && EndsWith(Line(name), ",")
  {
    var u := "EVALUE(" + name + ")";
    PieceOf(Line(name), u);
    LineEntry(name);
    StripNothing(u);
  }

  lemma LineQuiet(name: string)
    requires IsName(name)
    ensures Stripped(Line(name)) && Quiet(Line(name)) && '{' !in Line(name) && '}' !in Line(name)
  {
    NameChars(name);
    assert Line(name)[0] == 'E' && Line(name)[|Line(name)| - 1] == ',';
  }

  lemma PlainLine(t: string)
    requires Stripped(t) && Quiet(t)
    ensures Clean(t) == t && Entered(t, true).None?
  {
    StripNothing(t);
    assert Begin(Comment)[0] == '/' && Begin(Disabled)[0] == '#' && Begin(CEnums)[0] == '#' && "//"[0] == '/';
    NotContained(t, "//", '/');
    NotContained(t, Begin(Comment), '/');
    NotContained(t, Begin(Disabled), '#');
    NotContained(t, Begin(CEnums), '#');
  }

  lemma CppPlain(t: string, holds: Conditions)
    requires Stripped(t) && Quiet(t)
    ensures CppLine(START, t, holds) == (t, START)
  {
    StripNothing(t);
    PlainScan(t);
    assert "" + t == t && t[0] in t;
  }

  lemma PlainScan(t: string)
    requires '/' !in t
    ensures Scan(t, false) == (t, false)
  {
    assert "//"[0] == '/' && "/*"[0] == '/';
    NotContained(t, "//", '/');
    NotContained(t, "/*", '/');
    ScanPlain(t);
  }

  /** An enumerator with a comment behind it, a comment, and an enumerator. */
  function Body(a: string, note: string, doc: string, b: string): seq<string> {
    [Commented(Line(a) + " ", note), Commented("", doc), Line(b)]
  }

  lemma CodeFrom(line: string, rest: seq<string>, code: string, holds: Conditions)
    requires CppLine(START, line, holds) == (code, START)
    ensures Code(START, [line] + rest, holds) == (if code == "" then [] else [code]) + Code(START, rest, holds)
    ensures AfterLines(START, [line] + rest, holds) == AfterLines(START, rest, holds)
  {
    assert ([line] + rest)[1..] == rest;
  }

  lemma CodeBeforeComment(a: string, note: string, holds: Conditions)
    requires IsName(a) && Quiet(note)
    ensures CppLine(START, Commented(Line(a) + " ", note), holds) == (Line(a), START)
  {
    LineQuiet(a);
    CppCommented(Line(a) + " ", note, holds);
    StripTrailing(Line(a), "  ");
    assert Line(a) + " " + " " == Line(a) + "  ";
  }

  lemma CommentOnly(doc: string, holds: Conditions)
    requires Quiet(doc)
    ensures CppLine(START, Commented("", doc), holds) == ("", START)
  {
    CppCommented("", doc, holds);
    assert "" + " " == " " && Strip(" ") == "";
  }

  lemma ThreeLines(first: string, second: string, third: string, a: string, b: string, holds: Conditions)
    requires a != "" && b != "" && CppLine(START, first, holds) == (a, START)
    requires CppLine(START, second, holds) == ("", START) && CppLine(START, third, holds) == (b, START)
    ensures Code(START, [first, second, third], holds) == [a, b]
    ensures AfterLines(START, [first, second, third], holds) == START
  {
    CodeFrom(third, [], b, holds);
    CodeFrom(second, [third], "", holds);
    CodeFrom(first, [second, third], a, holds);
    assert [third] + [] == [third] && [second] + [third] == [second, third];
    assert [first] + [second, third] == [first, second, third];
  }

  lemma CodeSide(a: string, note: string, doc: string, b: string, holds: Conditions)
    requires IsName(a) && IsName(b) && Quiet(note) && Quiet(doc)
    ensures Code(START, Body(a, note, doc, b), holds) == [Line(a), Line(b)]
    ensures AfterLines(START, Body(a, note, doc, b), holds) == START
  {
    LineQuiet(b);
    CodeBeforeComment(a, note, holds);
    CommentOnly(doc, holds);
    CppPlain(Line(b), holds);
    ThreeLines(Commented(Line(a) + " ", note), Commented("", doc), Line(b), Line(a), Line(b), holds);
  }

  lemma CppSide(a: string, note: string, doc: string, b: string, holds: Conditions)
    requires IsName(a) && IsName(b) && a != b && Quiet(note) && Quiet(doc)
    ensures CppEntries(Body(a, note, doc, b), holds) == Some([Entry(a, NoValue), Entry(b, NoValue)])
  {
    CodeSide(a, note, doc, b, holds);
    TwoEntries(a, b);
  }

  lemma TwoEntries(a: string, b: string)
    requires IsName(a) && IsName(b)
    ensures Declarations(Joined([Line(a), Line(b)])) == Some([Entry(a, NoValue), Entry(b, NoValue)])
  {
    TwoLines(a, b);
    OneEachGives([Line(a), Line(b)]);
  }

  lemma TwoLines(a: string, b: string)
    requires IsName(a) && IsName(b)
    ensures OneEach([Line(a), Line(b)])
    ensures Entries([Line(a), Line(b)]) == [Entry(a, NoValue), Entry(b, NoValue)]
  {
    LineFacts(a);
    LineFacts(b);
    assert [Line(a), Line(b)][1..] == [Line(b)] && [Line(b)][1..] == [];
    assert Entries([Line(b)]) == [Entry(b, NoValue)] + [];
  }

  lemma CommentSkipped(st: State, line: string)
    requires st.inEnum && Clean(line) == line && line != []
    requires Entered(line, true) == Some(Comment) && Contains(line, "*/")
    ensures Skips(st, line) && Skip(st, line) == st.(comment := line)
  {
  }

  lemma ParserSide(st: State, a: string, note: string, doc: string, b: string)
    requires st.inEnum && st.endtoken.None? && st.stack == []
    requires IsName(a) && IsName(b) && Quiet(note) && Quiet(doc)
    ensures ReadLines(st, Body(a, note, doc, b)) == [(Line(b), Commented("", doc))]
    ensures SkipAll(st, Body(a, note, doc, b)).endtoken.None?
  {
    var body := Body(a, note, doc, b);
    LineQuiet(a);
    LineQuiet(b);
    CommentedLine(Line(a) + " ", note);
    CommentSkipped(st, body[0]);
    var first := Skip(st, body[0]);
    CommentedLine("", doc);
    CommentSkipped(first, body[1]);
    PlainLine(Line(b));
    ThreeTaken(st, body);
  }

  lemma ThreeTaken(st: State, l: seq<string>)
    requires |l| == 3 && st.inEnum && st.endtoken.None?
    requires Skips(st, l[0]) && Skip(st, l[0]) == st.(comment := l[0])
    requires Skips(Skip(st, l[0]), l[1]) && Skip(Skip(st, l[0]), l[1]) == st.(comment := l[1])
    requires Clean(l[2]) == l[2] && l[2] != [] && Entered(l[2], true).None?
    ensures ReadLines(st, l) == [(l[2], l[1])] && SkipAll(st, l).endtoken.None?
  {
    var second := st.(comment := l[1]);
    assert l[1..][1..] == [l[2]] && [l[2]][1..] == [];
    assert !Skips(second, l[2]);
    assert ReadLines(second, [l[2]]) == [(l[2], l[1])] + [];
    assert ReadLines(Skip(st, l[0]), l[1..]) == [] + [(l[2], l[1])];
    assert SkipAll(second, [l[2]]) == second;
  }

  /** Both accept the enum, C++ has two enumerators with the values 0 and 1, and the parser
      records only the second, with the value 0: the first stands beside a comment. */
  lemma LostEnumerator(st: State, name: string, a: string, note: string, doc: string, b: string, holds: Conditions,
                       eval: Initializers)
    requires Ready(st) && IsName(name) && IsName(a) && IsName(b) && a != b && Quiet(note) && Quiet(doc)
    ensures var body := Body(a, note, doc, b);
            && BothAccept(st, name, body, holds) && !RecordsAsCpp(st, name, body, holds, eval)
            && (var es := CppEntries(body, holds).value;
                Names(es) == [a, b] && CppValues(es, -1, eval) == [0, 1])
            && (var end := Run(st, EnumText(name, body)).value;
                HasEnum(end.namespaces) && HasEntries(CurrentEnum(end.namespaces), [b], [0]))
  {
    CppSide(a, note, doc, b, holds);
    RecordsSecond(st, name, a, note, doc, b);
    CountsTwo(a, b, eval);
  }

  lemma CountsTwo(a: string, b: string, eval: Initializers)
    ensures var es := [Entry(a, NoValue), Entry(b, NoValue)];
            Names(es) == [a, b] && CppValues(es, -1, eval) == [0, 1]
  {
    var es := [Entry(a, NoValue), Entry(b, NoValue)];
    assert es[1..] == [Entry(b, NoValue)] && es[1..][1..] == [];
    assert CppValues(es[1..], 0, eval) == [1] + CppValues([], 1, eval);
    assert CppValues(es, -1, eval) == [0] + CppValues(es[1..], 0, eval);
  }

  lemma RecordsSecond(st: State, name: string, a: string, note: string, doc: string, b: string)
    requires Ready(st) && IsName(name) && IsName(a) && IsName(b) && Quiet(note) && Quiet(doc)
    ensures var run := Run(st, EnumText(name, Body(a, note, doc, b)));
            && run.Some? && HasEnum(run.value.namespaces)
            && HasEntries(CurrentEnum(run.value.namespaces), [b], [0])
  {
    var body, started := Body(a, note, doc, b), Started(st, name);
    ParserSide(started, a, note, doc, b);
    SecondNoEnd(b, doc);
    GotSecond(b, doc);
    RunsEnum(st, name, body);
    FilledOnce(name, Got(b, None, Commented("", doc)));
    SkipAllKeeps(started, body);
  }

  lemma SecondNoEnd(b: string, doc: string)
    requires IsName(b)
    ensures NoEnd([(Line(b), Commented("", doc))])
  {
    LineQuiet(b);
    NoBracesNoEnd([(Line(b), Commented("", doc))]);
  }

  lemma GotSecond(b: string, doc: string)
    requires IsName(b)
    ensures Gots([(Line(b), Commented("", doc))]) == Some([Got(b, None, Commented("", doc))])
  {
    var taken := [(Line(b), Commented("", doc))];
    LineQuiet(b);
    LineFacts(b);
    LineInner(b);
    DelimitedDoc(doc);
    ReadsDeclared(Line(b), Line(b));
    assert taken[1..] == [] && Gots([]) == Some([]);
    assert [Got(b, None, Commented("", doc))] + [] == [Got(b, None, Commented("", doc))];
  }

  lemma DelimitedDoc(doc: string)
    ensures Delimited(Commented("", doc))
  {
    var s := Commented("", doc);
    assert s[..2] == "/*" && s[|s| - 2..] == "*/";
  }

  lemma FilledOnce(name: string, got: Got)
    requires got.given.None?
    ensures HasEntries(Fill(Enum(name, [], map[], map[]), [got], -1).0, [got.name], [0])
  {
    assert [got][1..] == [] && [] + [got.name] == [got.name];
  }
}
