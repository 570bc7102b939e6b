/** Whole headers: what the enum parser has recorded stays as it is, namespace by namespace and
    enum by enum, and a header of enums gives these enums in order. */
module EnumFiles {
  import opened Wrappers
  import opened PythonText
  import opened EnumParsers
  import opened EnumBlocks
  import opened CppText
  import opened EnumAgreement
  import opened EnumPieces
  import opened EnumValues

  // ---------------------------------------------------------------------------
  // Nothing recorded is lost
  // ---------------------------------------------------------------------------

  /** The later enum is the earlier one, perhaps with more enumerators behind. */
  predicate EnumGrown(a: Enum, b: Enum) {
    a.name == b.name && a.order <= b.order
  }

  /** All enums but the last are unchanged, and more may stand behind them. */
  predicate NamespaceGrown(a: Namespace, b: Namespace) {
    && a.name == b.name && |a.enums| <= |b.enums|
    && (forall i :: 0 <= i < |a.enums| - 1 ==> a.enums[i] == b.enums[i])
    && (a.enums != [] ==> EnumGrown(a.enums[|a.enums| - 1], b.enums[|a.enums| - 1]))
  }

  /** All namespaces but the last are unchanged, and more may stand behind them. */
  predicate Grown(a: seq<Namespace>, b: seq<Namespace>) {
    && |a| <= |b|
    && (forall i :: 0 <= i < |a| - 1 ==> a[i] == b[i])
    && (a != [] ==> NamespaceGrown(a[|a| - 1], b[|a| - 1]))
  }

  lemma GrownTwice(a: seq<Namespace>, b: seq<Namespace>, c: seq<Namespace>)
    requires Grown(a, b) && Grown(b, c)
    ensures Grown(a, c)
  {
    if a != [] {
      var n := |a| - 1;
      assert n < |b| - 1 ==> b[n] == c[n];
      assert n == |b| - 1 ==> NamespaceGrown(b[n], c[n]);
      if n == |b| - 1 { NamespaceGrownTwice(a[n], b[n], c[n]); }
    }
  }

  lemma NamespaceGrownTwice(a: Namespace, b: Namespace, c: Namespace)
    requires NamespaceGrown(a, b) && NamespaceGrown(b, c)
    ensures NamespaceGrown(a, c)
  {
    if a.enums != [] {
      var m := |a.enums| - 1;
      assert m < |b.enums| - 1 ==> b.enums[m] == c.enums[m];
    }
  }

  lemma NextGrows(st: State, raw: string)
    requires Next(st, raw).Some?
    ensures Grown(st.namespaces, Next(st, raw).value.namespaces)
  {
    var line := Clean(raw);
    IgnoredKeeps(st, line);
    GrownSame(st.namespaces);
    if line != [] && !Ignored(st, line).1 { ParsedGrows(st, line); }
  }

  lemma GrownSame(a: seq<Namespace>)
    ensures Grown(a, a)
  {
  }

  lemma ParsedGrows(st: State, line: string)
    requires Parsed(st, line).Some?
    ensures Grown(st.namespaces, Parsed(st, line).value.namespaces)
  {
    GrownSame(st.namespaces);
    if !Contains(line, "};") {
      if st.inEnum {
        if line != "{" { EnumeratorGrows(st, InParentheses(line).value); }
      } else if StartsWith(line, "enum ENUM(") {
        StartGrows(st, InParentheses(line).value);
      } else if StartsWith(line, "namespace") {
        NamespaceGrows(st.namespaces, Namespace(Words(line)[1], []));
      }
    }
  }

  lemma NamespaceGrows(a: seq<Namespace>, n: Namespace)
    ensures Grown(a, a + [n])
  {
  }

  lemma StartGrows(st: State, name: string)
    requires StartEnum(st, name).Some?
    ensures Grown(st.namespaces, StartEnum(st, name).value.namespaces)
  {
  }

  lemma EnumeratorGrows(st: State, inner: string)
    requires AddEnumerator(st, inner).Some?
    ensures Grown(st.namespaces, AddEnumerator(st, inner).value.namespaces)
  {
  }

  /** Over every text that is accepted, whatever it holds: namespaces, enums and enumerators are
      added behind those that have been recorded, and no earlier enum changes. */
  lemma {:induction false} RunGrows(st: State, lines: seq<string>)
    requires Run(st, lines).Some?
    ensures Grown(st.namespaces, Run(st, lines).value.namespaces)
    decreases |lines|
  {
    if lines != [] {
      var next := Next(st, lines[0]).value;
      NextGrows(st, lines[0]);
      RunGrows(next, lines[1..]);
      GrownTwice(st.namespaces, next.namespaces, Run(next, lines[1..]).value.namespaces);
    }
  }

  // ---------------------------------------------------------------------------
  // One enum more
  // ---------------------------------------------------------------------------

  /** The namespaces are the earlier ones, with one enum more at the end of the last. */
  predicate OneEnumMore(a: seq<Namespace>, b: seq<Namespace>, e: Enum) {
    && a != [] && |b| == |a| && b[..|b| - 1] == a[..|a| - 1]
    && b[|b| - 1] == Namespace(a[|a| - 1].name, a[|a| - 1].enums + [e])
  }

  lemma StartAdds(st: State, name: string)
    requires Ready(st)
    ensures OneEnumMore(st.namespaces, Started(st, name).namespaces, Enum(name, [], map[], map[]))
    ensures Started(st, name) == st.(inEnum := true, namespaces := Started(st, name).namespaces)
  {
  }

  lemma ReplaceKeepsOthers(a: seq<Namespace>, b: seq<Namespace>, e: Enum, f: Enum)
    requires OneEnumMore(a, b, e)
    ensures HasEnum(b) && OneEnumMore(a, ReplaceEnum(b, f), f)
  {
    var last := b[|b| - 1];
    assert last.enums[|last.enums| - 1 := f] == a[|a| - 1].enums + [f];
  }

  lemma {:induction false} FillName(enum: Enum, gots: seq<Got>, last: int)
    ensures Fill(enum, gots, last).0.name == enum.name
    decreases |gots|
  {
    if gots != [] {
      var value := ValueOf(gots[0].given, last);
      FillName(enum.With(gots[0].name, value, gots[0].doc), gots[1..], value);
    }
  }

  /** An accepted enum leaves all earlier namespaces and enums as they were, and adds one enum,
      of its name and with the enumerators found on its lines, behind those of the last
      namespace. */
  lemma AddsEnum(st: State, name: string, body: seq<string>)
    requires IsName(name) && Ready(st) && NoEnd(ReadLines(Started(st, name), body))
    requires Run(st, EnumText(name, body)).Some?
    ensures Gots(ReadLines(Started(st, name), body)).Some?
    ensures var end := Run(st, EnumText(name, body)).value;
            var e := Fill(Enum(name, [], map[], map[]), Gots(ReadLines(Started(st, name), body)).value, -1).0;
            e.name == name && OneEnumMore(st.namespaces, end.namespaces, e)
  {
    var started := Started(st, name);
    RunsEnum(st, name, body);
    StartAdds(st, name);
    var gots := Gots(ReadLines(started, body)).value;
    var empty := Enum(name, [], map[], map[]);
    var e := Fill(empty, gots, -1).0;
    FillName(empty, gots, -1);
    ReplaceKeepsOthers(st.namespaces, started.namespaces, empty, e);
    AfterEndKeeps(SkipAll(started, body).(namespaces := ReplaceEnum(started.namespaces, e),
                                          last := Fill(empty, gots, -1).1));
  }

  lemma AfterEndKeeps(st: State)
    ensures AfterEnd(st).namespaces == st.namespaces
  {
    IgnoredKeeps(st, Clean("};"));
  }

  // ---------------------------------------------------------------------------
  // Enumerators, one by one
  // ---------------------------------------------------------------------------

  /** One enumerator more: a new name goes to the end of the order, one that is there keeps its
      place; in both cases it has the new value and the new comment, and all others keep theirs. */
  lemma {:induction false} FillNext(enum: Enum, gots: seq<Got>, g: Got, last: int)
    ensures var (before, value) := Fill(enum, gots, last);
            var (after, next) := Fill(enum, gots + [g], last);
            && next == ValueOf(g.given, value)
            && after.name == before.name
            && after.order == before.order + (if g.name in before.values then [] else [g.name])
            && after.values == before.values[g.name := next] && after.docs == before.docs[g.name := g.doc]
    decreases |gots|
  {
    if gots == [] {
      assert [] + [g] == [g] && [g][1..] == [];
    } else {
      var value := ValueOf(gots[0].given, last);
      assert (gots + [g])[1..] == gots[1..] + [g];
      FillNext(enum.With(gots[0].name, value, gots[0].doc), gots[1..], g, value);
    }
  }

  // ---------------------------------------------------------------------------
  // A header
  // ---------------------------------------------------------------------------

  /** The start of a namespace outside enums: it is added behind the others, without enums. */
  lemma NamespaceLine(st: State, name: string)
    requires IsName(name) && !st.inEnum && st.endtoken.None?
    ensures Run(st, ["namespace " + name + " {"]) ==
            Some(st.(namespaces := st.namespaces + [Namespace(name, [])]))
  {
    var line := "namespace " + name + " {";
    NamespaceChars(name);
    OrdinaryLine(st, line);
    NotContained(line, "};", '}') by { assert "};"[0] == '}'; }
    NamespaceWords(name);
    assert [line][1..] == [];
  }

  lemma NamespaceChars(name: string)
    requires IsName(name)
    ensures var line := "namespace " + name + " {";
            && |line| > 10 && line[0] == 'n' && line[|line| - 1] == '{' && StartsWith(line, "namespace")
            && '/' !in line && '#' !in line && '}' !in line && !StartsWith(line, "enum ENUM(")
  {
    var line := "namespace " + name + " {";
    NameChars(name);
    assert line[..9] == "namespace";
    assert line[..10][0] == 'n' && "enum ENUM("[0] == 'e';
  }

  lemma NamespaceWords(name: string)
    requires IsName(name)
    ensures Words("namespace " + name + " {") == ["namespace", name, "{"]
  {
    NameChars(name);
    var dark := "namespace";
    assert "namespace " + name + " {" == dark + " " + (name + " {");
    assert forall c :: c in dark ==> !IsSpace(c);
    WordThenSpace([], dark, ' ', name + " {");
    WordThenSpace([], name, ' ', "{");
    assert name + " {" == name + [' '] + "{" && dark + " " + (name + " {") == dark + [' '] + (name + " {");
    WordToEnd([], "{");
    assert [] + dark == dark && [] + name == name && [] + "{" == "{";
    assert [dark] + ([name] + ["{"]) == [dark, name, "{"];
  }

  /** Inside an enum, outside blocks; the rest of the state does not matter to the tokens. */
  const INSIDE := State([], None, [], true, "", -1)

  /** A body with no line that ends the enum, and no block that is open at its end. */
  predicate Whole(body: seq<string>) {
    NoEnd(ReadLines(INSIDE, body)) && SkipAll(INSIDE, body).endtoken.None?
  }

  /** Two states with the same blocks open. */
  predicate SameTokens(a: State, b: State) {
    a.endtoken == b.endtoken && a.stack == b.stack && a.inEnum == b.inEnum
  }

  lemma {:induction false} TokensDecide(a: State, b: State, lines: seq<string>)
    requires SameTokens(a, b) && WellStacked(a)
    ensures SameTokens(SkipAll(a, lines), SkipAll(b, lines)) && WellStacked(SkipAll(a, lines))
    ensures |ReadLines(a, lines)| == |ReadLines(b, lines)|
    ensures forall i :: 0 <= i < |ReadLines(a, lines)| ==> ReadLines(a, lines)[i].0 == ReadLines(b, lines)[i].0
    decreases |lines|
  {
    if lines != [] {
      assert Skips(a, lines[0]) == Skips(b, lines[0]);
      if Skips(a, lines[0]) { OneLine(a, lines[0]); } else { SameSkip(a, a, lines[0]); }
      TokensDecide(Skip(a, lines[0]), Skip(b, lines[0]), lines[1..]);
    }
  }

  lemma WholeFrom(st: State, name: string, body: seq<string>)
    requires Ready(st) && Whole(body)
    ensures NoEnd(ReadLines(Started(st, name), body))
    ensures var end := SkipAll(Started(st, name), body); end.endtoken.None? && end.stack == []
  {
    StartAdds(st, name);
    TokensDecide(INSIDE, Started(st, name), body);
  }

  /** After an enum that closes what it opens, the parser is ready for the next. */
  lemma ReadyAgain(st: State, name: string, body: seq<string>)
    requires IsName(name) && Ready(st) && Whole(body) && Run(st, EnumText(name, body)).Some?
    ensures Ready(Run(st, EnumText(name, body)).value)
  {
    WholeFrom(st, name, body);
    RunsEnum(st, name, body);
    AddsEnum(st, name, body);
  }

  /** The text of some enums, one after the other. */
  function FileText(texts: seq<(string, seq<string>)>): seq<string> {
    if texts == [] then [] else EnumText(texts[0].0, texts[0].1) + FileText(texts[1..])
  }

  predicate AllWhole(texts: seq<(string, seq<string>)>) {
    forall i :: 0 <= i < |texts| ==> IsName(texts[i].0) && Whole(texts[i].1)
  }

  /** The namespaces with these enums behind those of the last. */
  predicate EnumsMore(a: seq<Namespace>, b: seq<Namespace>, es: seq<Enum>) {
    && a != [] && |b| == |a| && b[..|b| - 1] == a[..|a| - 1]
    && b[|b| - 1] == Namespace(a[|a| - 1].name, a[|a| - 1].enums + es)
  }

  /** The enums are those that the texts give, each after the ones before it. */
  predicate InTurn(st: State, texts: seq<(string, seq<string>)>, es: seq<Enum>)
    decreases |texts|
  {
    |es| == |texts|
    && (texts == []
        || (var after := Run(st, EnumText(texts[0].0, texts[0].1));
            && after.Some? && HasEnum(after.value.namespaces)
            && es[0] == CurrentEnum(after.value.namespaces) && es[0].name == texts[0].0
            && InTurn(after.value, texts[1..], es[1..])))
  }

  /** A text of any number of enums: all are recorded behind those that were there, in order,
      each as its own text gives it, and the parser is ready for more. */
  lemma {:induction false} RunsFile(st: State, texts: seq<(string, seq<string>)>) returns (es: seq<Enum>)
    requires Ready(st) && AllWhole(texts) && Run(st, FileText(texts)).Some?
    ensures InTurn(st, texts, es)
    ensures var end := Run(st, FileText(texts)).value; Ready(end) && EnumsMore(st.namespaces, end.namespaces, es)
    decreases |texts|
  {
    if texts == [] {
      es := [];
      var last := st.namespaces[|st.namespaces| - 1];
      assert last == Namespace(last.name, last.enums + []);
    } else {
      var name, body, rest := texts[0].0, texts[0].1, texts[1..];
      assert AllWhole(rest);
      RunSplit(st, EnumText(name, body), FileText(rest));
      var next := Run(st, EnumText(name, body)).value;
      WholeFrom(st, name, body);
      ReadyAgain(st, name, body);
      AddsEnum(st, name, body);
      var e := CurrentEnum(next.namespaces);
      var others := RunsFile(next, rest);
      es := [e] + others;
      assert es[1..] == others;
      MoreEnums(st.namespaces, next.namespaces, Run(next, FileText(rest)).value.namespaces, e, others);
    }
  }

  lemma MoreEnums(a: seq<Namespace>, b: seq<Namespace>, c: seq<Namespace>, e: Enum, es: seq<Enum>)
    requires OneEnumMore(a, b, e) && EnumsMore(b, c, es)
    ensures EnumsMore(a, c, [e] + es)
  {
    var enums := a[|a| - 1].enums;
    assert (enums + [e]) + es == enums + ([e] + es);
  }

  // ---------------------------------------------------------------------------
  // Lines
  // ---------------------------------------------------------------------------

  /** White space around a line goes. */
  lemma CleanPlain(l: string, t: string, r: string)
    requires AllSpace(l) && AllSpace(r) && t != [] && !IsSpace(t[0]) && !IsSpace(t[|t| - 1]) && !Contains(t, "//")
    ensures Clean(l + t + r) == t
  {
    assert l + t + r == l + (t + r);
    StripLeftSpace(l, t + r);
    StripRightTrailing(t, r);
    CutNothing(t, "//");
  }

  /** A line comment goes, but not the white space before it. */
  lemma CleanComment(l: string, t: string, note: string)
    requires AllSpace(l) && t != [] && !IsSpace(t[0]) && !Contains(t + "/", "//")
    ensures Clean(l + (t + ("//" + note))) == t
  {
    StripLeftSpace(l, t + ("//" + note));
    var rest := StripsBehind(t, note);
    CutHere(t, rest);
  }

  lemma StripsBehind(t: string, note: string) returns (rest: string)
    ensures StripRight(t + ("//" + note)) == t + ("//" + rest)
  {
    var s := t + "//";
    rest := StripRightBehind(s, note);
    assert t + ("//" + note) == s + note && t + ("//" + rest) == s + rest;
  }

  lemma {:induction false} CutNothing(s: string, t: string)
    requires !Contains(s, t)
    ensures CutAt(s, t) == s
  {
    if s != [] { CutNothing(s[1..], t); }
  }

  lemma {:induction false} StripLeftSpace(l: string, s: string)
    requires AllSpace(l) && s != [] && !IsSpace(s[0])
    ensures StripLeft(l + s) == s
  {
    if l == [] {
      assert l + s == s;
    } else {
      assert (l + s)[1..] == l[1..] + s;
      StripLeftSpace(l[1..], s);
    }
  }

  lemma {:induction false} StripRightBehind(s: string, note: string) returns (rest: string)
    requires s != [] && !IsSpace(s[|s| - 1])
    ensures StripRight(s + note) == s + rest
    decreases |note|
  {
    rest := note;
    if note == [] {
      assert s + note == s;
    } else if IsSpace(note[|note| - 1]) {
      assert (s + note)[..|s + note| - 1] == s + note[..|note| - 1];
      rest := StripRightBehind(s, note[..|note| - 1]);
    }
  }

  /** A line comment is cut where it starts. */
  lemma {:induction false} CutHere(t: string, rest: string)
    requires !Contains(t + "/", "//")
    ensures CutAt(t + ("//" + rest), "//") == t
  {
    var s := t + ("//" + rest);
    if t == [] {
      assert s[..2] == "//";
    } else {
      assert (t + "/")[1..] == t[1..] + "/" && s[1..] == t[1..] + ("//" + rest);
      assert s[..2] == (t + "/")[..2];
      CutHere(t[1..], rest);
    }
  }

  /** Between the parentheses: a name, and behind `=` a number up to a comma. */
  lemma ReadsValue(name: string, n: int, more: string)
    requires '=' !in name && '=' !in more
    ensures ReadEnumerator(name + "=" + Numeral(n)) == Some((Strip(name), Some(n)))
    ensures ReadEnumerator(name + "=" + Numeral(n) + "," + more) == Some((Strip(name), Some(n)))
  {
    NumeralChars(n);
    NumeralReadsBack(n);
    var value := Numeral(n) + "," + more;
    SplitTwo(name, '=', Numeral(n));
    SplitTwo(name, '=', value);
    assert name + "=" + Numeral(n) == name + ['='] + Numeral(n);
    assert name + "=" + Numeral(n) + "," + more == name + ['='] + value;
    BeforeAfter(Numeral(n), ',', more);
    assert (name + ['='] + value)[|name|] == '=' && (name + ['='] + Numeral(n))[|name|] == '=';
    assert value == Numeral(n) + [','] + more && value[|Numeral(n)|] == ',';
  }

  lemma {:induction false} DecimalChars(n: nat)
    ensures forall c :: c in Decimal(n) ==> IsDigit(c)
  {
    if n >= 10 { DecimalChars(n / 10); }
  }

  lemma NumeralChars(n: int)
    ensures '=' !in Numeral(n) && ',' !in Numeral(n)
  {
    if n < 0 { DecimalChars(-n); } else { DecimalChars(n); }
  }

  /** Without `=` there is no value: the name ends at a comma, and without one it is all there is. */
  lemma ReadsName(name: string, more: string)
    requires '=' !in name && ',' !in name && '=' !in more
    ensures ReadEnumerator(name) == Some((name, None))
    ensures ReadEnumerator(name + "," + more) == Some((Strip(name), None))
  {
    assert name + "," + more == name + [','] + more;
    BeforeAfter(name, ',', more);
    assert (name + [','] + more)[|name|] == ',';
  }

  /** More than one `=`, or none that `int` reads behind it, is an error. */
  lemma RefusesValue(a: string, b: string, c: string)
    requires '=' !in a && '=' !in b
    ensures ReadEnumerator(a + "=" + b + "=" + c) == None
    ensures ',' !in b && ParseInt(b).None? ==> ReadEnumerator(a + "=" + b) == None
  {
    assert a + "=" + b == a + ['='] + b && a + "=" + b + "=" + c == a + ['='] + (b + ['='] + c);
    SplitTwo(a, '=', b);
    BeforeAfter(a, '=', b + ['='] + c);
    BeforeAfter(b, '=', c);
    var s, rest := a + ['='] + (b + ['='] + c), b + ['='] + c;
    assert s[|a|] == '=' && rest[|b|] == '=' && (a + ['='] + b)[|a|] == '=';
    assert Split(s, '=') == [a] + ([b] + Split(c, '='));
  }

  /** The text in parentheses ends at the first closing one, if there is one. */
  lemma ParenthesesAre(a: string, b: string, c: string)
    requires '(' !in a && '(' !in b && ')' !in b
    ensures InParentheses(a) == None && InParentheses(a + "(" + b) == Some(b)
    ensures InParentheses(a + "(" + b + ")" + c) == Some(b)
  {
    SplitTwo(a, '(', b);
    assert a + "(" + b == a + ['('] + b && a + "(" + b + ")" + c == a + ['('] + (b + [')'] + c);
    SecondPiece(a, b + [')'] + c);
    if '(' in c {
      BeforeLater(b + [')'], c, '(');
      StopsThere(b, Before(c, '('));
    } else {
      BeforeAll(b + [')'] + c, '(');
      StopsThere(b, c);
    }
  }

  lemma SecondPiece(a: string, rest: string)
    requires '(' !in a
    ensures |Split(a + ['('] + rest, '(')| >= 2 && Split(a + ['('] + rest, '(')[1] == Before(rest, '(')
  {
    assert (a + ['('] + rest)[|a|] == '(';
    BeforeAfter(a, '(', rest);
    if '(' !in rest { BeforeAll(rest, '('); }
  }

  lemma StopsThere(b: string, c: string)
    requires ')' !in b
    ensures Split(b + [')'] + c, ')')[0] == b
  {
    assert (b + [')'] + c)[|b|] == ')';
    BeforeAfter(b, ')', c);
  }

  /** Outside enums and blocks a line that starts neither an enum nor a namespace, nor ends an
      enum, changes nothing. */
  lemma OtherLine(st: State, raw: string)
    requires !st.inEnum && st.endtoken.None? && Entered(Clean(raw), false).None?
    requires !Contains(Clean(raw), "};")
    requires !StartsWith(Clean(raw), "enum ENUM(") && !StartsWith(Clean(raw), "namespace")
    ensures Next(st, raw) == Some(st)
  {
  }

  /** Inside an enum a line is an error that is neither a brace nor the end, and does not start
      as an enumerator does. */
  lemma StrangeLine(st: State, raw: string)
    requires st.inEnum && st.endtoken.None? && Entered(Clean(raw), true).None? && Clean(raw) != []
    requires Clean(raw) != "{" && !Contains(Clean(raw), "};") && !StartsWith(Clean(raw), "EVALUE(")
    ensures Next(st, raw) == None
  {
  }

  /** From the start: a namespace and the enums in it are all that the parser holds in the end. */
  lemma RunsHeader(name: string, texts: seq<(string, seq<string>)>) returns (es: seq<Enum>)
    requires IsName(name) && AllWhole(texts)
    requires Run(State([], None, [], false, "", -1), ["namespace " + name + " {"] + FileText(texts)).Some?
    ensures |es| == |texts| && forall i :: 0 <= i < |es| ==> es[i].name == texts[i].0
    ensures Run(INITIAL, ["namespace " + name + " {"] + FileText(texts)).Some?
    ensures Run(INITIAL, ["namespace " + name + " {"] + FileText(texts)).value.namespaces == [Namespace(name, es)]
  {
    var line := "namespace " + name + " {";
    NamespaceLine(INITIAL, name);
    RunSplit(INITIAL, [line], FileText(texts));
    var st := Run(INITIAL, [line]).value;
    assert [] + [Namespace(name, [])] == [Namespace(name, [])];
    assert Ready(st);
    es := RunsFile(st, texts);
    TurnNames(st, texts, es);
    var end := Run(st, FileText(texts)).value;
    assert st.namespaces == [Namespace(name, [])];
    assert end.namespaces[0] == Namespace(name, [] + es) && [] + es == es;
  }

  lemma {:induction false} TurnNames(st: State, texts: seq<(string, seq<string>)>, es: seq<Enum>)
    requires InTurn(st, texts, es)
    ensures |es| == |texts| && forall i :: 0 <= i < |es| ==> es[i].name == texts[i].0
    decreases |texts|
  {
    if texts != [] {
      TurnNames(Run(st, EnumText(texts[0].0, texts[0].1)).value, texts[1..], es[1..]);
      assert forall i :: 0 < i < |es| ==> es[i] == es[1..][i - 1] && texts[i] == texts[1..][i - 1];
    }
  }
}
