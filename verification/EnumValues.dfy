/** The values that the enum parser counts, against those that C++ gives to the enumerators. */
module EnumValues {
  import opened Wrappers
  import opened PythonText
  import opened EnumParsers
  import opened EnumBlocks
  import opened CppText
  import opened EnumAgreement
  import opened EnumPieces

  // ---------------------------------------------------------------------------
  // Counting
  // ---------------------------------------------------------------------------

  /** The value that the parser finds between the parentheses. */
  function Given(e: Entry): Option<int> {
    if e.given.Inside? then ParseStripped(e.given.text) else None
  }

  /** The parser accepts the value between the parentheses, if there is one. */
  predicate Readable(e: Entry) {
    e.given.Inside? ==> Given(e).Some?
  }

  /** The value that the parser gives to the enumerator. */
  function ParserValue(e: Entry, last: int): int {
    ValueOf(Given(e), last)
  }

  function ParserValues(es: seq<Entry>, last: int): (r: seq<int>)
    ensures |r| == |es|
  {
    if es == [] then [] else [ParserValue(es[0], last)] + ParserValues(es[1..], ParserValue(es[0], last))
  }

  /** The value that C++ gives before the enumerator at `i`. */
  function Previous(es: seq<Entry>, last: int, eval: Initializers, i: nat): int
    requires i < |es|
  {
    if i == 0 then last else CppValues(es, last, eval)[i - 1]
  }

  /** The parser counts on instead of using a value: there is none between the parentheses,
      or it is zero. */
  predicate CountsOn(e: Entry) {
    Given(e).None? || Given(e) == Some(0)
  }

  /** Every value is the one that `int` reads between the parentheses, or, where the parser
      counts on, the one that comes next. */
  predicate ValuesFit(es: seq<Entry>, last: int, eval: Initializers) {
    forall i :: 0 <= i < |es| ==>
      CppValues(es, last, eval)[i] ==
      if CountsOn(es[i]) then Previous(es, last, eval, i) + 1 else Given(es[i]).value
  }

  /** The parser counts as C++ does exactly when the values fit. */
  lemma {:induction false} ValuesAgreeIff(es: seq<Entry>, last: int, eval: Initializers)
    ensures ParserValues(es, last) == CppValues(es, last, eval) <==> ValuesFit(es, last, eval)
  {
    if es != [] {
      var p, c, rest := ParserValue(es[0], last), CppValue(es[0], last, eval), es[1..];
      var ps, cs := ParserValues(es, last), CppValues(es, last, eval);
      ValuesAgreeIff(rest, c, eval);
      FitStep(es, last, eval);
      assert ps == [p] + ParserValues(rest, p) && cs == [c] + CppValues(rest, c, eval);
      assert ps == cs <==> ps[0] == cs[0] && ps[1..] == cs[1..];
    }
  }

  lemma FitStep(es: seq<Entry>, last: int, eval: Initializers)
    requires es != []
    ensures ValuesFit(es, last, eval) <==>
            ParserValue(es[0], last) == CppValue(es[0], last, eval)
            && ValuesFit(es[1..], CppValue(es[0], last, eval), eval)
  {
    var c, rest := CppValue(es[0], last, eval), es[1..];
    forall i | 0 <= i < |rest|
      ensures CppValues(es, last, eval)[i + 1] == CppValues(rest, c, eval)[i]
      ensures Previous(es, last, eval, i + 1) == Previous(rest, c, eval, i) && es[i + 1] == rest[i]
    {
    }
    if ValuesFit(es, last, eval) {
      forall i | 0 <= i < |rest|
        ensures CppValues(rest, c, eval)[i] ==
                if CountsOn(rest[i]) then Previous(rest, c, eval, i) + 1 else Given(rest[i]).value
      {
        assert es[i + 1] == rest[i];
      }
    }
    if ParserValue(es[0], last) == c && ValuesFit(rest, c, eval) {
      forall i | 0 <= i < |es|
        ensures CppValues(es, last, eval)[i] ==
                if CountsOn(es[i]) then Previous(es, last, eval, i) + 1 else Given(es[i]).value
      {
        if i > 0 { assert es[i] == rest[i - 1]; }
      }
    }
  }

  /** `010` is eight to C++ and ten to `int`. */
  lemma OctalMisread(name: string, last: int, eval: Initializers)
    ensures var e := Entry(name, Inside("010"));
            CppValue(e, last, eval) == 8 && ParserValue(e, last) == 10 && !ValuesFit([e], last, eval)
  {
    var e := Entry(name, Inside("010"));
    assert "010"[..2] == "01" && "01"[..1] == "0" && "0"[..0] == "";
    assert OctalValue("01") == 1 && OctalValue("010") == 8;
    assert DigitsValue("01") == 1 && DigitsValue("010") == 10;
    assert CppValues([e], last, eval)[0] == 8;
  }

  // ---------------------------------------------------------------------------
  // The current enum
  // ---------------------------------------------------------------------------

  predicate HasEnum(namespaces: seq<Namespace>) {
    namespaces != [] && namespaces[|namespaces| - 1].enums != []
  }

  function CurrentEnum(namespaces: seq<Namespace>): Enum
    requires HasEnum(namespaces)
  {
    var enums := namespaces[|namespaces| - 1].enums;
    enums[|enums| - 1]
  }

  function ReplaceEnum(namespaces: seq<Namespace>, e: Enum): (r: seq<Namespace>)
    requires HasEnum(namespaces)
    ensures HasEnum(r) && CurrentEnum(r) == e
  {
    var n, current := |namespaces| - 1, namespaces[|namespaces| - 1];
    namespaces[n := current.(enums := current.enums[|current.enums| - 1 := e])]
  }

  lemma ReplaceTwice(namespaces: seq<Namespace>, e: Enum, f: Enum)
    requires HasEnum(namespaces)
    ensures ReplaceEnum(ReplaceEnum(namespaces, e), f) == ReplaceEnum(namespaces, f)
    ensures ReplaceEnum(namespaces, CurrentEnum(namespaces)) == namespaces
  {
    var n, enums := |namespaces| - 1, namespaces[|namespaces| - 1].enums;
    var m := |enums| - 1;
    assert enums[m := e][m := f] == enums[m := f];
    assert enums[m := enums[m]] == enums;
    var once := ReplaceEnum(namespaces, e);
    assert once[n].enums == enums[m := e];
    assert ReplaceEnum(once, f)[n] == ReplaceEnum(namespaces, f)[n];
  }

  // ---------------------------------------------------------------------------
  // Reading lines
  // ---------------------------------------------------------------------------

  /** The name and the value that the parser takes from a line. */
  function Reading(line: string): Option<(string, Option<int>)> {
    if !StartsWith(line, "EVALUE(") then None
    else match InParentheses(line)
         case None => None
         case Some(inner) => ReadEnumerator(inner)
  }

  /** The lines that the parser does not ignore, each with the latest comment before it. */
  function ReadLines(st: State, lines: seq<string>): seq<(string, string)>
    decreases |lines|
  {
    if lines == [] then []
    else
      (if Skips(st, lines[0]) then [] else [(Clean(lines[0]), st.comment)])
      + ReadLines(Skip(st, lines[0]), lines[1..])
  }

  /** An enumerator as the parser finds it. */
  datatype Got = Got(name: string, given: Option<int>, doc: string)

  function GotOf(line: string, comment: string): Option<Got> {
    match Reading(line)
    case None => None
    case Some((name, given)) => if Delimited(comment) then Some(Got(name, given, comment)) else None
  }

  /** What the parser finds on the lines, if it accepts all of them; an opening brace is
      passed over. */
  function Gots(taken: seq<(string, string)>): Option<seq<Got>> {
    if taken == [] then Some([])
    else if taken[0].0 == "{" then Gots(taken[1..])
    else match (GotOf(taken[0].0, taken[0].1), Gots(taken[1..]))
         case (Some(g), Some(gs)) => Some([g] + gs)
         case _ => None
  }

  function Fill(enum: Enum, gots: seq<Got>, last: int): (Enum, int)
    decreases |gots|
  {
    if gots == [] then (enum, last)
    else
      var value := ValueOf(gots[0].given, last);
      Fill(enum.With(gots[0].name, value, gots[0].doc), gots[1..], value)
  }

  predicate NoBraces(taken: seq<(string, string)>) {
    forall i :: 0 <= i < |taken| ==> '{' !in taken[i].0 && '}' !in taken[i].0
  }

  /** None of the lines ends the enum. */
  predicate NoEnd(taken: seq<(string, string)>) {
    forall i :: 0 <= i < |taken| ==> !Contains(taken[i].0, "};")
  }

  lemma NoBracesNoEnd(taken: seq<(string, string)>)
    requires NoBraces(taken)
    ensures NoEnd(taken)
  {
    forall i | 0 <= i < |taken| ensures !Contains(taken[i].0, "};") {
      NotContained(taken[i].0, "};", '}') by { assert "};"[0] == '}'; }
    }
  }

  /** A line that is not ignored is an opening brace, or read as an enumerator, or rejected. */
  lemma ReadsLine(st: State, raw: string)
    requires st.inEnum && HasEnum(st.namespaces) && !Skips(st, raw) && !Contains(Clean(raw), "};")
    ensures Next(st, raw) ==
            if Clean(raw) == "{" then Some(st)
            else match GotOf(Clean(raw), st.comment)
                 case None => None
                 case Some(g) => Some(WithGot(st, g))
  {
  }

  /** The state with one more enumerator. */
  function WithGot(st: State, g: Got): State
    requires HasEnum(st.namespaces)
  {
    var value := ValueOf(g.given, st.last);
    var enum := CurrentEnum(st.namespaces).With(g.name, value, g.doc);
    st.(namespaces := ReplaceEnum(st.namespaces, enum), last := value)
  }

  lemma SameIgnored(st: State, other: State, line: string)
    requires other == st.(namespaces := other.namespaces, last := other.last)
    ensures Ignored(other, line).1 == Ignored(st, line).1
    ensures Ignored(other, line).0 == Ignored(st, line).0.(namespaces := other.namespaces, last := other.last)
  {
  }

  lemma IgnoredKeeps(st: State, line: string)
    ensures var next := Ignored(st, line).0;
            next == st.(endtoken := next.endtoken, stack := next.stack, comment := next.comment)
    ensures !Ignored(st, line).1 ==> Ignored(st, line).0 == st
  {
  }

  lemma SameSkip(st: State, other: State, raw: string)
    requires other == st.(namespaces := other.namespaces, last := other.last)
    ensures Skips(other, raw) <==> Skips(st, raw)
    ensures Skip(other, raw) == Skip(st, raw).(namespaces := other.namespaces, last := other.last)
    ensures var next := Skip(st, raw);
            next == st.(endtoken := next.endtoken, stack := next.stack, comment := next.comment)
    ensures !Skips(st, raw) ==> Skip(st, raw) == st
  {
    SameIgnored(st, other, Clean(raw));
    IgnoredKeeps(st, Clean(raw));
  }

  lemma {:induction false} SameBlocks(st: State, other: State, lines: seq<string>)
    requires other == st.(namespaces := other.namespaces, last := other.last)
    ensures ReadLines(other, lines) == ReadLines(st, lines)
    ensures SkipAll(other, lines) == SkipAll(st, lines).(namespaces := other.namespaces, last := other.last)
    decreases |lines|
  {
    if lines != [] {
      SameSkip(st, other, lines[0]);
      SameBlocks(Skip(st, lines[0]), Skip(other, lines[0]), lines[1..]);
    }
  }

  /** The outcome of a run over lines from which these enumerators are taken. */
  function Outcome(st: State, lines: seq<string>, gots: Option<seq<Got>>): Option<State>
    requires HasEnum(st.namespaces)
  {
    match gots
    case None => None
    case Some(gs) =>
      var (enum, last) := Fill(CurrentEnum(st.namespaces), gs, st.last);
      Some(SkipAll(st, lines).(namespaces := ReplaceEnum(st.namespaces, enum), last := last))
  }

  lemma {:induction false} ReadsBody(st: State, lines: seq<string>)
    requires st.inEnum && HasEnum(st.namespaces) && NoEnd(ReadLines(st, lines))
    ensures Run(st, lines) == Outcome(st, lines, Gots(ReadLines(st, lines)))
    decreases |lines|
  {
    if lines == [] {
      ReplaceTwice(st.namespaces, CurrentEnum(st.namespaces), CurrentEnum(st.namespaces));
    } else {
      var taken, rest := ReadLines(st, lines), ReadLines(Skip(st, lines[0]), lines[1..]);
      SameSkip(st, st, lines[0]);
      if Skips(st, lines[0]) {
        assert taken == rest;
        ReadsBody(Skip(st, lines[0]), lines[1..]);
      } else {
        assert taken[0] == (Clean(lines[0]), st.comment) && taken[1..] == rest;
        TailNoEnd(taken);
        ReadsLine(st, lines[0]);
        var next := Next(st, lines[0]);
        if Clean(lines[0]) == "{" {
          ReadsBody(st, lines[1..]);
        } else if next.Some? {
          SameBlocks(st, next.value, lines[1..]);
          ReadsBody(next.value, lines[1..]);
          OneMoreGot(st, next.value, lines, GotOf(Clean(lines[0]), st.comment).value, Gots(rest));
        }
      }
    }
  }

  lemma OneMoreGot(st: State, next: State, lines: seq<string>, g: Got, rest: Option<seq<Got>>)
    requires lines != [] && HasEnum(st.namespaces) && Skip(st, lines[0]) == st && next == WithGot(st, g)
    ensures Outcome(next, lines[1..], rest)
            == Outcome(st, lines, match rest case None => None case Some(gs) => Some([g] + gs))
  {
    SameBlocks(st, next, lines[1..]);
    if rest.Some? {
      assert ([g] + rest.value)[1..] == rest.value;
      var enum := Fill(CurrentEnum(next.namespaces), rest.value, next.last).0;
      ReplaceTwice(st.namespaces, CurrentEnum(next.namespaces), enum);
    }
  }

  lemma TailNoEnd(taken: seq<(string, string)>)
    requires NoEnd(taken) && taken != []
    ensures NoEnd(taken[1..])
  {
  }

  lemma ReadsParentheses(before: string, inner: string, tail: string)
    requires '(' !in before && '(' !in inner && '(' !in tail && ')' !in inner
    ensures InParentheses(before + "(" + inner + ")" + tail) == Some(inner)
  {
    var rest := inner + [')'] + tail;
    assert before + "(" + inner + ")" + tail == before + ['('] + rest;
    SplitTwo(before, '(', rest);
    BeforeAfter(inner, ')', tail);
    assert rest[|inner|] == ')';
  }

  // ---------------------------------------------------------------------------
  // Reading an enum
  // ---------------------------------------------------------------------------

  function EnumText(name: string, body: seq<string>): seq<string> {
    ["enum ENUM(" + name + ")", "{"] + body + ["};"]
  }

  /** Outside enums and blocks, in a namespace. */
  predicate Ready(st: State) {
    !st.inEnum && st.endtoken.None? && st.stack == [] && st.last == -1 && st.namespaces != []
  }

  function Started(st: State, name: string): State
    requires Ready(st)
  {
    StartEnum(st, name).value
  }

  /** A line without slashes, hashes and closing braces is not touched outside a block. */
  lemma OrdinaryLine(st: State, line: string)
    requires st.endtoken.None? && line != [] && !IsSpace(line[0]) && !IsSpace(line[|line| - 1])
    requires '/' !in line && '#' !in line
    ensures Clean(line) == line && Ignored(st, line) == (st, false) && Next(st, line) == Parsed(st, line)
  {
    StripNothing(line);
    assert Begin(Comment)[0] == '/' && Begin(Disabled)[0] == '#' && Begin(CEnums)[0] == '#' && "//"[0] == '/';
    NotContained(line, "//", '/');
    NotContained(line, Begin(Comment), '/');
    NotContained(line, Begin(Disabled), '#');
    NotContained(line, Begin(CEnums), '#');
  }

  lemma HeaderLine(name: string)
    requires IsName(name)
    ensures var line := "enum ENUM(" + name + ")";
            && |line| > 10 && line[0] == 'e' && line[|line| - 1] == ')'
            && '/' !in line && '#' !in line && '}' !in line
            && StartsWith(line, "enum ENUM(") && InParentheses(line) == Some(name)
  {
    var line := "enum ENUM(" + name + ")";
    NameChars(name);
    assert line[..10] == "enum ENUM(";
    assert line == "enum ENUM" + "(" + name + ")" + "";
    ReadsParentheses("enum ENUM", name, "");
  }

  lemma ReadsHeader(st: State, name: string)
    requires IsName(name) && !st.inEnum && st.endtoken.None? && st.namespaces != []
    ensures Run(st, ["enum ENUM(" + name + ")", "{"]) == StartEnum(st, name)
  {
    var line := "enum ENUM(" + name + ")";
    HeaderLine(name);
    OrdinaryLine(st, line);
    NotContained(line, "};", '}') by { assert "};"[0] == '}'; }
    var started := StartEnum(st, name).value;
    OrdinaryLine(started, "{");
    NotContained("{", "};", '}') by { assert "};"[0] == '}'; }
    assert Next(started, "{") == Some(started);
    assert [line, "{"][1..] == ["{"] && ["{"][1..] == [];
  }

  /** The state after the line that ends the enum, which a block that is still open hides. */
  function AfterEnd(st: State): State {
    if st.endtoken.None? then st.(inEnum := false, last := -1) else Skip(st, "};")
  }

  lemma ReadsFooter(st: State)
    ensures Run(st, ["};"]) == Some(AfterEnd(st))
  {
    assert ["};"][1..] == [];
    if st.endtoken.None? {
      OrdinaryLine(st, "};");
    } else {
      OrdinaryLine(st.(endtoken := None), "};");
    }
  }

  /** The whole enum, up to the first line read that ends it. */
  lemma RunsEnum(st: State, name: string, body: seq<string>)
    requires IsName(name) && Ready(st) && NoEnd(ReadLines(Started(st, name), body))
    ensures var started := Started(st, name);
            Run(st, EnumText(name, body)) ==
            match Gots(ReadLines(started, body))
            case None => None
            case Some(gots) =>
              var (enum, last) := Fill(Enum(name, [], map[], map[]), gots, -1);
              Some(AfterEnd(SkipAll(started, body).(namespaces := ReplaceEnum(started.namespaces, enum), last := last)))
  {
    var started := Started(st, name);
    ReadsHeader(st, name);
    ReadsBody(started, body);
    RunSplit(st, ["enum ENUM(" + name + ")", "{"], body);
    RunSplit(st, ["enum ENUM(" + name + ")", "{"] + body, ["};"]);
    if Run(started, body).Some? { ReadsFooter(Run(started, body).value); }
  }

  // ---------------------------------------------------------------------------
  // Lines of code
  // ---------------------------------------------------------------------------

  /** The line is this code, up to white space at its end. */
  predicate IsLineOf(line: string, t: string) {
    Stripped(t) && |t| <= |line| && line[..|t|] == t && AllSpace(line[|t|..])
  }

  /** The parser takes the lines of code, all of them and no others. */
  predicate TakesLines(taken: seq<(string, string)>, ts: seq<string>) {
    |taken| == |ts| && (ts == [] || (IsLineOf(taken[0].0, ts[0]) && TakesLines(taken[1..], ts[1..])))
  }

  /** No text is pending outside comments. */
  predicate Settled(c: Cpp) {
    !c.inComment ==> c.pending == ""
  }

  lemma SettledNext(c: Cpp, raw: string, holds: Conditions)
    ensures Settled(CppLine(c, raw, holds).1)
  {
  }

  lemma LineOfStrip(line: string)
    requires line != [] && !IsSpace(line[0])
    ensures IsLineOf(line, Strip(line))
  {
    var l, r := StripEnds(line);
    StripKeeps(line, line[0]);
    assert line[0] == (l + Strip(line) + r)[0];
  }

  lemma CleanStart(raw: string)
    requires Clean(raw) != []
    ensures !IsSpace(Clean(raw)[0])
  {
    var l, r := StripEnds(raw);
    assert Clean(raw)[0] == Strip(raw)[0];
  }

  lemma CodeIsClean(c: Cpp, raw: string, holds: Conditions)
    requires !c.inComment && c.pending == "" && !Contains(Clean(raw), "/*") && CppLine(c, raw, holds).0 != ""
    ensures CppLine(c, raw, holds).0 == Strip(Clean(raw))
  {
    ScanPlain(Strip(raw));
    assert c.pending + Clean(raw) == Clean(raw);
  }

  /** A line of code that fits is what the parser reads. */
  lemma CodeLine(c: Cpp, raw: string, holds: Conditions)
    requires Settled(c) && LineFits(c, raw, holds) && CppLine(c, raw, holds).0 != ""
    ensures IsLineOf(Clean(raw), CppLine(c, raw, holds).0)
  {
    CodeNotNested(c, raw, holds);
    CodeIsClean(c, raw, holds);
    CleanStart(raw);
    LineOfStrip(Clean(raw));
  }

  lemma CodeNotNested(c: Cpp, raw: string, holds: Conditions)
    requires LineFits(c, raw, holds) && CppLine(c, raw, holds).0 != ""
    ensures !c.inComment && Clean(raw) != [] && !Contains(Clean(raw), "/*")
  {
    assert c.inComment ==> Ends(c) != [];
  }

  lemma FittingStep(st: State, c: Cpp, raw: string, holds: Conditions)
    requires WellStacked(st) && st.inEnum && Awaited(st) == Ends(c) && LineFits(c, raw, holds)
    ensures var (code, next) := CppLine(c, raw, holds);
            && (Skips(st, raw) <==> code == "") && Awaited(Skip(st, raw)) == Ends(next)
            && WellStacked(Skip(st, raw)) && Skip(st, raw).inEnum && Settled(next)
  {
    StepFits(st, c, raw, holds);
    ParserStep(st, raw);
    SettledNext(c, raw, holds);
  }

  lemma {:induction false} TakesCode(st: State, c: Cpp, lines: seq<string>, holds: Conditions)
    requires WellStacked(st) && st.inEnum && Awaited(st) == Ends(c) && Settled(c) && AllFit(c, lines, holds)
    ensures TakesLines(ReadLines(st, lines), Code(c, lines, holds))
    ensures Awaited(SkipAll(st, lines)) == Ends(AfterLines(c, lines, holds)) && WellStacked(SkipAll(st, lines))
    decreases |lines|
  {
    if lines != [] {
      FittingStep(st, c, lines[0], holds);
      TakesCode(Skip(st, lines[0]), CppLine(c, lines[0], holds).1, lines[1..], holds);
      TakesOneMore(st, c, lines, holds);
    }
  }

  lemma TakesOneMore(st: State, c: Cpp, lines: seq<string>, holds: Conditions)
    requires lines != [] && Settled(c) && LineFits(c, lines[0], holds)
    requires Skips(st, lines[0]) <==> CppLine(c, lines[0], holds).0 == ""
    requires var next := CppLine(c, lines[0], holds).1;
             TakesLines(ReadLines(Skip(st, lines[0]), lines[1..]), Code(next, lines[1..], holds))
    ensures TakesLines(ReadLines(st, lines), Code(c, lines, holds))
  {
    var taken := ReadLines(Skip(st, lines[0]), lines[1..]);
    var code := Code(CppLine(c, lines[0], holds).1, lines[1..], holds);
    if Skips(st, lines[0]) {
      assert ReadLines(st, lines) == taken && Code(c, lines, holds) == code;
    } else {
      CodeLine(c, lines[0], holds);
      assert ReadLines(st, lines)[1..] == taken && Code(c, lines, holds)[1..] == code;
    }
  }

  // ---------------------------------------------------------------------------
  // What the parser reads on a line of code
  // ---------------------------------------------------------------------------

  /** The text between the parentheses of a line of code. */
  function InnerText(t: string): string {
    if StartsWith(t, "EVALUE(") then Inner(t) else ""
  }

  /** The parser does not strip a name without a value. */
  predicate NameRead(t: string) {
    EntryOf(t).Some? ==> EntryOf(t).value.given.Inside? || InnerText(t) == EntryOf(t).value.name
  }

  predicate NamesRead(ts: seq<string>) {
    ts == [] || (NameRead(ts[0]) && NamesRead(ts[1..]))
  }

  lemma ReadsInner(inner: string)
    requires InnerEntry(inner).Some?
    ensures var e := InnerEntry(inner).value;
            ReadEnumerator(inner) ==
            if !Readable(e) then None else Some((if e.given.Inside? then e.name else inner, Given(e)))
  {
    InnerPlain(inner);
    PlainWithout(inner);
    if '=' in inner {
      var a, b := Before(inner, '='), After(inner, '=');
      SplitAround(inner, '=');
      if '=' in b { StripKeeps(b, '='); }
      SplitTwo(a, '=', b);
    }
  }

  /** Behind an enumerator on its line there are only a comma and white space. */
  lemma RestOfLine(t: string) returns (x: string)
    requires Stripped(t) && EntryOf(t).Some?
    ensures t == Strip(Piece(t)) + x && '(' !in x
  {
    PieceStart(t);
    var piece := Piece(t);
    LineOfStrip(piece);
    var r := piece[|Strip(piece)|..];
    assert piece == Strip(piece) + r && '(' !in r;
    x := r + t[|piece|..];
    assert t == piece + t[|piece|..];
  }

  lemma PieceStart(t: string)
    requires Stripped(t) && EntryOf(t).Some?
    ensures Piece(t) != [] && Piece(t)[0] == t[0] && t[..|Piece(t)|] == Piece(t) && '(' !in t[|Piece(t)|..]
  {
    assert Strip([]) == [] && Declaration([]).None?;
    assert EndsWith(t, ",") ==> t[|t| - 1..] == ",";
  }

  /** A line that declares an enumerator gives the parser its name and the value inside its
      parentheses. */
  lemma ReadsDeclared(line: string, t: string)
    requires IsLineOf(line, t) && EntryOf(t).Some?
    ensures StartsWith(t, "EVALUE(")
    ensures var e := EntryOf(t).value;
            Reading(line) ==
            if !Readable(e) then None else Some((if e.given.Inside? then e.name else InnerText(t), Given(e)))
  {
    DeclaredLine(line, t);
    ReadsInner(InnerText(t));
  }

  /** The parser finds the text between the parentheses that C++ sees there. */
  lemma DeclaredLine(line: string, t: string)
    requires IsLineOf(line, t) && EntryOf(t).Some?
    ensures StartsWith(t, "EVALUE(") && StartsWith(line, "EVALUE(") && InParentheses(line) == Some(InnerText(t))
    ensures var e := InnerEntry(InnerText(t));
            && e.Some? && e.value.name == EntryOf(t).value.name
            && (e.value.given.Inside? <==> EntryOf(t).value.given.Inside?)
            && Given(e.value) == Given(EntryOf(t).value) && (Readable(e.value) <==> Readable(EntryOf(t).value))
  {
    var u := Strip(Piece(t));
    var x := RestOfLine(t);
    var inner, tail, space := Inner(u), After(u[7..], ')'), line[|t|..];
    DeclarationPlain(u);
    PlainWithout(inner);
    PlainWithout(tail);
    SameInner(u, x);
    assert line == t + space;
    LineParts(line, inner, tail, x, space);
  }

  lemma LineParts(line: string, inner: string, tail: string, x: string, space: string)
    requires line == ("EVALUE" + ['('] + inner + [')'] + tail) + x + space
    requires '(' !in inner && ')' !in inner && '(' !in tail && '(' !in x && AllSpace(space)
    ensures StartsWith(line, "EVALUE(") && InParentheses(line) == Some(inner)
  {
    assert line == "EVALUE" + "(" + inner + ")" + (tail + x + space);
    assert line[..7] == "EVALUE(";
    assert '(' !in space;
    ReadsParentheses("EVALUE", inner, tail + x + space);
  }

  lemma SameInner(u: string, x: string)
    requires StartsWith(u, "EVALUE(") && ')' in u[7..]
    ensures StartsWith(u + x, "EVALUE(") && Inner(u + x) == Inner(u)
  {
    assert (u + x)[..7] == u[..7] && (u + x)[7..] == u[7..] + x;
    BeforeSooner(u[7..], x, ')');
  }

  /** The parser found these enumerators. */
  predicate Found(gots: seq<Got>, es: seq<Entry>) {
    |gots| == |es|
    && (es == [] || (gots[0].name == es[0].name && gots[0].given == Given(es[0]) && Found(gots[1..], es[1..])))
  }

  function GotNames(gots: seq<Got>): (r: seq<string>)
    ensures |r| == |gots|
  {
    if gots == [] then [] else [gots[0].name] + GotNames(gots[1..])
  }

  /** With one enumerator on each line, the parser finds it exactly if it reads its name. */
  lemma {:induction false} FoundIffNamesRead(taken: seq<(string, string)>, ts: seq<string>)
    requires TakesLines(taken, ts) && OneEach(ts) && Gots(taken).Some?
    ensures Found(Gots(taken).value, Entries(ts)) <==> NamesRead(ts)
    ensures GotNames(Gots(taken).value) == Names(Entries(ts)) ==> NamesRead(ts)
    decreases |ts|
  {
    if ts != [] {
      var gots, es := Gots(taken).value, Entries(ts);
      ReadsDeclared(taken[0].0, ts[0]);
      DeclaredNotBrace(taken[0].0, ts[0]);
      FoundIffNamesRead(taken[1..], ts[1..]);
      assert gots[1..] == Gots(taken[1..]).value && es[1..] == Entries(ts[1..]);
      if GotNames(gots) == Names(es) {
        TailNames(gots, es);
      }
    }
  }

  lemma TailNames(gots: seq<Got>, es: seq<Entry>)
    requires GotNames(gots) == Names(es) && es != []
    ensures GotNames(gots[1..]) == Names(es[1..]) && gots[0].name == es[0].name
  {
    assert GotNames(gots)[0] == Names(es)[0];
    assert GotNames(gots)[1..] == GotNames(gots[1..]) && Names(es)[1..] == Names(es[1..]);
  }

  lemma {:induction false} OneGotEach(taken: seq<(string, string)>)
    requires NoBraces(taken) && Gots(taken).Some?
    ensures |Gots(taken).value| == |taken|
  {
    if taken != [] {
      assert forall i :: 0 <= i < |taken[1..]| ==> taken[1..][i] == taken[i + 1];
      assert taken[0].0 != "{" by { assert "{"[0] == '{'; }
      OneGotEach(taken[1..]);
    }
  }

  /** What the parser accepts starts as an enumerator does. */
  lemma {:induction false} AcceptedStart(taken: seq<(string, string)>, ts: seq<string>)
    requires TakesLines(taken, ts) && Gots(taken).Some? && NoBraces(taken)
    ensures AllStripped(ts) && forall i :: 0 <= i < |ts| ==> StartsWith(ts[i], "EVALUE(")
    decreases |ts|
  {
    if ts != [] {
      assert forall i :: 0 <= i < |taken[1..]| ==> taken[1..][i] == taken[i + 1];
      assert taken[0].0 != "{" by { assert "{"[0] == '{'; }
      AcceptedStart(taken[1..], ts[1..]);
      ShorterStart(taken[0].0, ts[0]);
      forall i | 0 <= i < |ts| ensures Stripped(ts[i]) && StartsWith(ts[i], "EVALUE(") {
        if i > 0 { assert ts[i] == ts[1..][i - 1]; }
      }
    }
  }

  lemma ShorterStart(line: string, t: string)
    requires IsLineOf(line, t) && StartsWith(line, "EVALUE(")
    ensures StartsWith(t, "EVALUE(")
  {
    if |t| < 7 { SpaceBehind(line, t); }
    forall i | 0 <= i < 7 ensures line[i] == "EVALUE("[i] && !IsSpace(line[i]) { assert line[..7][i] == line[i]; }
    assert line[..7] == t[..7];
  }

  lemma SpaceBehind(line: string, t: string)
    requires IsLineOf(line, t) && |t| < |line|
    ensures IsSpace(line[|t|])
  {
    assert line[|t|] == line[|t|..][0];
  }

  /** The lines hold only what the list of enumerators holds. */
  lemma {:induction false} TakenChars(taken: seq<(string, string)>, ts: seq<string>)
    requires TakesLines(taken, ts) && forall c :: c in Joined(ts) ==> IsListChar(c)
    ensures NoBraces(taken)
    decreases |ts|
  {
    if ts != [] {
      var line, t := taken[0].0, ts[0];
      JoinedHas(ts);
      TakenChars(taken[1..], ts[1..]);
      LineNoBraces(line, t);
      forall i | 0 <= i < |taken| ensures '{' !in taken[i].0 && '}' !in taken[i].0 {
        if i > 0 { assert taken[i] == taken[1..][i - 1]; }
      }
    }
  }

  lemma JoinedHas(ts: seq<string>)
    requires ts != []
    ensures forall c :: c in ts[0] || c in Joined(ts[1..]) ==> c in Joined(ts)
  {
    if |ts| > 1 { JoinedMore(ts); }
  }

  // ---------------------------------------------------------------------------
  // The recorded enumerators
  // ---------------------------------------------------------------------------

  /** The enum holds these enumerators, in order, with these values. */
  predicate HasEntries(enum: Enum, names: seq<string>, values: seq<int>)
    requires |names| == |values|
  {
    enum.order == names && Maps(enum.values, names, values)
  }

  predicate Maps(m: map<string, int>, names: seq<string>, values: seq<int>)
    requires |names| == |values|
  {
    forall i :: 0 <= i < |names| ==> names[i] in m && m[names[i]] == values[i]
  }

  function GotValues(gots: seq<Got>, last: int): (r: seq<int>)
    ensures |r| == |gots|
    decreases |gots|
  {
    if gots == [] then []
    else
      var value := ValueOf(gots[0].given, last);
      [value] + GotValues(gots[1..], value)
  }

  lemma {:induction false} FoundValues(gots: seq<Got>, es: seq<Entry>, last: int)
    requires Found(gots, es)
    ensures GotNames(gots) == Names(es) && GotValues(gots, last) == ParserValues(es, last)
    decreases |gots|
  {
    if gots != [] {
      FoundValues(gots[1..], es[1..], ParserValue(es[0], last));
      assert GotNames(gots) == [gots[0].name] + GotNames(gots[1..]);
      assert Names(es) == [es[0].name] + Names(es[1..]);
    }
  }

  /** No two names are the same, and none is taken. */
  predicate Fresh(names: seq<string>, values: map<string, int>) {
    names == [] || (names[0] !in values && names[0] !in names[1..] && Fresh(names[1..], values))
  }

  lemma {:induction false} FreshAfter(names: seq<string>, values: map<string, int>, name: string, value: int)
    requires Fresh(names, values) && name !in names
    ensures Fresh(names, values[name := value])
  {
    if names != [] {
      assert names[0] in names && forall n :: n in names[1..] ==> n in names;
      FreshAfter(names[1..], values, name, value);
    }
  }

  lemma {:induction false} DistinctAreFresh(es: seq<Entry>)
    requires DistinctNames(es)
    ensures Fresh(Names(es), map[])
  {
    if es != [] {
      var names := Names(es);
      assert forall i :: 0 <= i < |es[1..]| ==> es[1..][i] == es[i + 1];
      assert names[1..] == Names(es[1..]);
      DistinctAreFresh(es[1..]);
      forall i | 0 <= i < |names[1..]| ensures names[1..][i] != names[0] {
        assert names[1..][i] == es[i + 1].name;
      }
    }
  }

  predicate Extends(a: map<string, int>, b: map<string, int>) {
    forall n :: n in a ==> n in b && b[n] == a[n]
  }

  /** With fresh names the enumerators are recorded one after the other. */
  lemma {:induction false} FillFresh(enum: Enum, gots: seq<Got>, last: int)
    requires Fresh(GotNames(gots), enum.values)
    ensures var filled := Fill(enum, gots, last).0;
            && filled.order == enum.order + GotNames(gots) && Extends(enum.values, filled.values)
            && Maps(filled.values, GotNames(gots), GotValues(gots, last))
    decreases |gots|
  {
    if gots != [] {
      var g, value := gots[0], ValueOf(gots[0].given, last);
      var next := enum.With(g.name, value, g.doc);
      GotsStart(gots, last);
      FreshAfter(GotNames(gots[1..]), enum.values, g.name, value);
      FillFresh(next, gots[1..], value);
      var filled := Fill(next, gots[1..], value).0;
      OneMoreName(enum.order, g.name, GotNames(gots[1..]));
      ExtendsWith(enum.values, g.name, value, filled.values);
      MapsMore(filled.values, g.name, value, GotNames(gots[1..]), GotValues(gots[1..], value));
    }
  }

  lemma GotsStart(gots: seq<Got>, last: int)
    requires gots != []
    ensures var value := ValueOf(gots[0].given, last);
            && GotNames(gots) == [gots[0].name] + GotNames(gots[1..]) && GotNames(gots)[1..] == GotNames(gots[1..])
            && GotValues(gots, last) == [value] + GotValues(gots[1..], value)
  {
  }

  lemma ExtendsWith(values: map<string, int>, name: string, value: int, more: map<string, int>)
    requires name !in values && Extends(values[name := value], more)
    ensures Extends(values, more) && name in more && more[name] == value
  {
    assert name in values[name := value];
    forall n | n in values ensures n in more && more[n] == values[n] {
      assert n in values[name := value];
    }
  }

  lemma MapsMore(m: map<string, int>, name: string, value: int, names: seq<string>, values: seq<int>)
    requires |names| == |values| && Maps(m, names, values) && name in m && m[name] == value
    ensures Maps(m, [name] + names, [value] + values)
  {
    forall i | 0 <= i < 1 + |names|
      ensures ([name] + names)[i] in m && m[([name] + names)[i]] == ([value] + values)[i]
    {
      if i > 0 { assert ([name] + names)[i] == names[i - 1] && ([value] + values)[i] == values[i - 1]; }
    }
  }

  /** As many names are recorded as enumerators are found only if all are, in order. */
  lemma {:induction false} FillOrder(enum: Enum, gots: seq<Got>, last: int)
    ensures var filled := Fill(enum, gots, last).0;
            && |filled.order| <= |enum.order| + |gots|
            && (|filled.order| == |enum.order| + |gots| ==> filled.order == enum.order + GotNames(gots))
    decreases |gots|
  {
    if gots == [] {
      assert enum.order + GotNames(gots) == enum.order;
    } else {
      var g, value := gots[0], ValueOf(gots[0].given, last);
      FillOrder(enum.With(g.name, value, g.doc), gots[1..], value);
      GotsStart(gots, last);
      OneMoreName(enum.order, g.name, GotNames(gots[1..]));
    }
  }

  lemma OneMoreName(order: seq<string>, name: string, names: seq<string>)
    ensures order + ([name] + names) == (order + [name]) + names
  {
  }

  // ---------------------------------------------------------------------------
  // The enum that the parser reads and the one that C++ sees
  // ---------------------------------------------------------------------------

  /** Whether the parser accepts the enum and C++ does. */
  predicate BothAccept(st: State, name: string, body: seq<string>, holds: Conditions) {
    Run(st, EnumText(name, body)).Some? && CppEntries(body, holds).Some?
  }

  /** The parser records the enumerators of C++, in their order and with their values, and is
      ready for the next enum. */
  predicate RecordsAsCpp(st: State, name: string, body: seq<string>, holds: Conditions, eval: Initializers)
    requires BothAccept(st, name, body, holds)
  {
    var end, es := Run(st, EnumText(name, body)).value, CppEntries(body, holds).value;
    && Ready(end) && HasEnum(end.namespaces)
    && HasEntries(CurrentEnum(end.namespaces), Names(es), CppValues(es, -1, eval))
  }

  /** What a run over an enum records, when the tokens of all lines fit. */
  lemma RecordsGots(st: State, name: string, body: seq<string>, holds: Conditions) returns (gots: seq<Got>)
    requires IsName(name) && Ready(st) && BothAccept(st, name, body, holds) && AllFit(START, body, holds)
    ensures Gots(ReadLines(Started(st, name), body)) == Some(gots) && NoBraces(ReadLines(Started(st, name), body))
    ensures TakesLines(ReadLines(Started(st, name), body), Code(START, body, holds))
    ensures var end := Run(st, EnumText(name, body)).value;
            Ready(end) && HasEnum(end.namespaces)
            && CurrentEnum(end.namespaces) == Fill(Enum(name, [], map[], map[]), gots, -1).0
  {
    var started := Started(st, name);
    TakesCode(started, START, body, holds);
    DeclarationsChars(Joined(Code(START, body, holds)));
    TakenChars(ReadLines(started, body), Code(START, body, holds));
    NoBracesNoEnd(ReadLines(started, body));
    RunsEnum(st, name, body);
    gots := Gots(ReadLines(started, body)).value;
    SkipAllKeeps(started, body);
  }

  lemma {:induction false} SkipAllKeeps(st: State, lines: seq<string>)
    ensures var end := SkipAll(st, lines);
            end == st.(endtoken := end.endtoken, stack := end.stack, comment := end.comment)
    decreases |lines|
  {
    if lines != [] {
      SameSkip(st, st, lines[0]);
      SkipAllKeeps(Skip(st, lines[0]), lines[1..]);
    }
  }

  lemma SameValues(m: map<string, int>, names: seq<string>, a: seq<int>, b: seq<int>)
    requires |names| == |a| == |b| && Maps(m, names, a) && Maps(m, names, b)
    ensures a == b
  {
    assert forall i :: 0 <= i < |names| ==> a[i] == m[names[i]] == b[i];
  }

  /** From one enumerator on each line: the counts decide. */
  lemma CountsDecide(gots: seq<Got>, es: seq<Entry>, enum: Enum, name: string, eval: Initializers)
    requires Found(gots, es) && DistinctNames(es) && enum == Fill(Enum(name, [], map[], map[]), gots, -1).0
    ensures HasEntries(enum, Names(es), CppValues(es, -1, eval)) <==> ValuesFit(es, -1, eval)
  {
    FoundValues(gots, es, -1);
    DistinctAreFresh(es);
    FillFresh(Enum(name, [], map[], map[]), gots, -1);
    assert [] + Names(es) == Names(es);
    ValuesAgreeIff(es, -1, eval);
    if HasEntries(enum, Names(es), CppValues(es, -1, eval)) {
      SameValues(enum.values, Names(es), ParserValues(es, -1), CppValues(es, -1, eval));
    }
  }

  /** Recording the names of C++ takes one enumerator, with its name, on each line. */
  lemma NamesNeedOneEach(taken: seq<(string, string)>, ts: seq<string>, gots: seq<Got>, es: seq<Entry>, enum: Enum,
                         name: string)
    requires TakesLines(taken, ts) && Gots(taken) == Some(gots) && NoBraces(taken)
    requires Declarations(Joined(ts)) == Some(es)
    requires enum == Fill(Enum(name, [], map[], map[]), gots, -1).0 && enum.order == Names(es)
    ensures OneEach(ts) && Entries(ts) == es && NamesRead(ts) && Found(gots, es)
  {
    FillOrder(Enum(name, [], map[], map[]), gots, -1);
    OneGotEach(taken);
    AcceptedStart(taken, ts);
    AsManyMeansOneEach(ts, es);
    assert [] + GotNames(gots) == GotNames(gots);
    FoundIffNamesRead(taken, ts);
  }

  /** When the tokens on every line fit: the parser records the enumerators of C++ exactly
      when each line of code declares one enumerator whose name is not padded, and the values
      fit. */
  lemma RecordsAsCppIff(st: State, name: string, body: seq<string>, holds: Conditions, eval: Initializers)
    requires IsName(name) && Ready(st) && BothAccept(st, name, body, holds) && AllFit(START, body, holds)
    ensures var ts := Code(START, body, holds);
            RecordsAsCpp(st, name, body, holds, eval) <==>
            OneEach(ts) && NamesRead(ts) && ValuesFit(CppEntries(body, holds).value, -1, eval)
  {
    var ts, es := Code(START, body, holds), CppEntries(body, holds).value;
    var gots := RecordsGots(st, name, body, holds);
    var enum := CurrentEnum(Run(st, EnumText(name, body)).value.namespaces);
    var taken := ReadLines(Started(st, name), body);
    if enum.order == Names(es) {
      NamesNeedOneEach(taken, ts, gots, es, enum, name);
      CountsDecide(gots, es, enum, name, eval);
    } else if OneEach(ts) && NamesRead(ts) {
      OneEachGives(ts);
      FoundIffNamesRead(taken, ts);
      CountsDecide(gots, es, enum, name, eval);
    }
  }

  /** For every text of an enum that both accept: the parser stays in step with C++ and records
      its enumerators exactly when the tokens on every line fit, each line of code declares
      one enumerator whose name is not padded, and the values fit. */
  lemma ReadsAsCppIff(st: State, name: string, body: seq<string>, holds: Conditions, eval: Initializers)
    requires IsName(name) && Ready(st) && BothAccept(st, name, body, holds)
    ensures var ts := Code(START, body, holds);
            InStep(Started(st, name), START, body, holds) && RecordsAsCpp(st, name, body, holds, eval) <==>
            AllFit(START, body, holds) && OneEach(ts) && NamesRead(ts)
            && ValuesFit(CppEntries(body, holds).value, -1, eval)
  {
    InStepIff(Started(st, name), START, body, holds);
    if AllFit(START, body, holds) { RecordsAsCppIff(st, name, body, holds, eval); }
  }

  // ---------------------------------------------------------------------------
  // When the parser accepts
  // ---------------------------------------------------------------------------

  /** A line that declares an enumerator, indented or not, with or without a comma: it is read
      as its name, stripped if there is a value between the parentheses, its value and the
      latest comment, or rejected for the value or the comment. */
  lemma ReadsEntry(st: State, raw: string)
    requires st.inEnum && st.endtoken.None? && HasEnum(st.namespaces)
    requires Clean(raw) != [] && Entered(Clean(raw), true).None? && EntryOf(Strip(Clean(raw))).Some?
    ensures var t := Strip(Clean(raw));
            var e := EntryOf(t).value;
            var name := if e.given.Inside? then e.name else InnerText(t);
            Next(st, raw) ==
            if !Readable(e) || !StartsWith(st.comment, "/*") || !EndsWith(st.comment, "*/") then None
            else Some(WithGot(st, Got(name, Given(e), st.comment)))
  {
    CleanStart(raw);
    LineOfStrip(Clean(raw));
    DeclaredChars(Strip(Clean(raw)));
    LineNoBraces(Clean(raw), Strip(Clean(raw)));
    NotContained(Clean(raw), "};", '}') by { assert "};"[0] == '}'; }
    ReadsDeclared(Clean(raw), Strip(Clean(raw)));
    NotBrace(Clean(raw));
    ReadsLine(st, raw);
  }

  lemma NotBrace(line: string)
    requires '{' !in line
    ensures line != "{"
  {
    assert "{"[0] == '{';
  }

  lemma LineNoBraces(line: string, t: string)
    requires IsLineOf(line, t) && forall c :: c in t ==> IsListChar(c)
    ensures '{' !in line && '}' !in line
  {
    assert line == t + line[|t|..];
  }

  lemma DeclaredChars(t: string)
    requires Stripped(t) && EntryOf(t).Some?
    ensures forall c :: c in t ==> IsListChar(c)
  {
    var piece := Piece(t);
    DeclarationChars(Strip(piece));
    forall c | c in piece ensures IsListChar(c) { StripKeeps(piece, c); }
    assert t == piece + if EndsWith(t, ",") then "," else "";
  }

  predicate AllDelimited(taken: seq<(string, string)>) {
    taken == [] || (Delimited(taken[0].1) && AllDelimited(taken[1..]))
  }

  predicate AllReadable(es: seq<Entry>) {
    es == [] || (Readable(es[0]) && AllReadable(es[1..]))
  }

  lemma {:induction false} GotsIffDelimited(taken: seq<(string, string)>, ts: seq<string>)
    requires TakesLines(taken, ts) && OneEach(ts)
    ensures Gots(taken).Some? <==> AllDelimited(taken) && AllReadable(Entries(ts))
    decreases |ts|
  {
    if ts != [] {
      ReadsDeclared(taken[0].0, ts[0]);
      DeclaredNotBrace(taken[0].0, ts[0]);
      GotsIffDelimited(taken[1..], ts[1..]);
      assert Entries(ts)[1..] == Entries(ts[1..]);
    }
  }

  lemma DeclaredNotBrace(line: string, t: string)
    requires IsLineOf(line, t) && EntryOf(t).Some?
    ensures line != "{"
  {
    DeclaredChars(t);
    LineNoBraces(line, t);
    NotBrace(line);
  }

  /** An enum that C++ accepts, with fitting tokens and one enumerator on each line, is
      accepted exactly when every enumerator has a delimited comment before it and `int`
      reads every value between parentheses. */
  lemma AcceptsIff(st: State, name: string, body: seq<string>, holds: Conditions)
    requires IsName(name) && Ready(st) && CppEntries(body, holds).Some?
    requires AllFit(START, body, holds) && OneEach(Code(START, body, holds))
    ensures Run(st, EnumText(name, body)).Some? <==>
            AllDelimited(ReadLines(Started(st, name), body)) && AllReadable(CppEntries(body, holds).value)
  {
    var started, ts := Started(st, name), Code(START, body, holds);
    TakesCode(started, START, body, holds);
    DeclarationsChars(Joined(ts));
    TakenChars(ReadLines(started, body), ts);
    NoBracesNoEnd(ReadLines(started, body));
    RunsEnum(st, name, body);
    OneEachGives(ts);
    GotsIffDelimited(ReadLines(started, body), ts);
  }
}
