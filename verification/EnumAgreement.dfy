/** When the enum parser passes over exactly the lines on which C++ sees nothing. */
module EnumAgreement {
  import opened Wrappers
  import opened PythonText
  import opened EnumParsers
  import opened EnumBlocks
  import opened CppText

  /** The end tokens that the parser waits for, outermost first. */
  function Awaited(st: State): seq<string> {
    st.stack + if st.endtoken.Some? then [st.endtoken.value] else []
  }

  /** The tokens that end what is open in C++, outermost first. */
  function Ends(c: Cpp): seq<string> {
    seq(|c.groups|, i => "#endif") + if c.inComment then ["*/"] else []
  }

  function Last(ends: seq<string>): Option<string> {
    if ends == [] then None else Some(ends[|ends| - 1])
  }

  /** Line by line the parser ignores what C++ does not see, reads what it sees, and has
      the same comments and groups open. */
  predicate InStep(st: State, c: Cpp, lines: seq<string>, holds: Conditions)
    decreases |lines|
  {
    lines == []
    || var (code, next) := CppLine(c, lines[0], holds);
       && (Skips(st, lines[0]) <==> code == "")
       && Awaited(Skip(st, lines[0])) == Ends(next)
       && InStep(Skip(st, lines[0]), next, lines[1..], holds)
  }

  /** The tokens on a line fit what it is to C++. A line of code has no opening token and
      stands outside all blocks; a line that opens a comment or a group has the opening token
      that is looked for first, without its end; a line that closes one has the end and no
      opening token; and any other line has neither, or a whole block. */
  predicate LineFits(c: Cpp, raw: string, holds: Conditions) {
    var line, ends := Clean(raw), Ends(c);
    var (code, next) := CppLine(c, raw, holds);
    if code != "" then
      line != [] && Entered(line, true).None? && ends == []
    else if |Ends(next)| == |ends| then
      Ends(next) == ends && Stays(line, Last(ends), true)
    else if |Ends(next)| > |ends| then
      Opens(line, true) && Ends(next) == ends + [End(Entered(line, true).value)]
    else
      Closes(line, Last(ends).value, true) && Ends(next) == ends[..|ends| - 1]
  }

  predicate AllFit(c: Cpp, lines: seq<string>, holds: Conditions)
    decreases |lines|
  {
    lines == [] || (LineFits(c, lines[0], holds) && AllFit(CppLine(c, lines[0], holds).1, lines[1..], holds))
  }

  /** What one line does to the tokens that the parser waits for. */
  lemma ParserStep(st: State, raw: string)
    requires WellStacked(st) && st.inEnum
    ensures var line, e, next := Clean(raw), Last(Awaited(st)), Skip(st, raw);
            && e == st.endtoken && WellStacked(next) && next.inEnum
            && (Skips(st, raw) <==> line == [] || Entered(line, true).Some? || e.Some?)
            && (!Skips(st, raw) || Stays(line, e, true) ==> Awaited(next) == Awaited(st))
            && (Opens(line, true) ==> Awaited(next) == Awaited(st) + [End(Entered(line, true).value)])
            && (Skips(st, raw) && !Stays(line, e, true) && !Opens(line, true) ==>
                  e.Some? && Closes(line, e.value, true) && Awaited(next) == Awaited(st)[..|Awaited(st)| - 1])
  {
    var line := Clean(raw);
    if Skips(st, raw) {
      OneLine(st, raw);
      if !Stays(line, st.endtoken, true) && !Opens(line, true) { ParserCloses(st, raw); }
    }
  }

  lemma ParserCloses(st: State, raw: string)
    requires WellStacked(st) && st.endtoken.Some? && Closes(Clean(raw), st.endtoken.value, st.inEnum)
    ensures Awaited(Skip(st, raw)) == Awaited(st)[..|Awaited(st)| - 1]
  {
    var next := Skip(st, raw);
    if st.stack == [] {
      assert next.endtoken.None? && next.stack == [];
    } else {
      AwaitedPopped(st, next);
    }
  }

  lemma AwaitedPopped(st: State, next: State)
    requires st.endtoken.Some? && st.stack != []
    requires next.endtoken == Some(st.stack[|st.stack| - 1]) && next.stack == st.stack[..|st.stack| - 1]
    ensures Awaited(next) == Awaited(st)[..|Awaited(st)| - 1]
  {
  }

  lemma StepFits(st: State, c: Cpp, raw: string, holds: Conditions)
    requires WellStacked(st) && st.inEnum && Awaited(st) == Ends(c)
    ensures var (code, next) := CppLine(c, raw, holds);
            (Skips(st, raw) <==> code == "") && Awaited(Skip(st, raw)) == Ends(next) <==> LineFits(c, raw, holds)
  {
    ParserStep(st, raw);
    if CppLine(c, raw, holds).0 != "" && !c.inComment { CodeKeepsEnds(c, raw, holds); }
  }

  lemma CodeKeepsEnds(c: Cpp, raw: string, holds: Conditions)
    requires CppLine(c, raw, holds).0 != "" && !c.inComment
    ensures Ends(CppLine(c, raw, holds).1) == Ends(c)
  {
  }

  /** From any state in which the same is open, the parser stays in step with C++ exactly
      when the tokens of every line fit. */
  lemma {:induction false} InStepIff(st: State, c: Cpp, lines: seq<string>, holds: Conditions)
    requires WellStacked(st) && st.inEnum && Awaited(st) == Ends(c)
    ensures InStep(st, c, lines, holds) <==> AllFit(c, lines, holds)
    decreases |lines|
  {
    if lines != [] {
      StepFits(st, c, lines[0], holds);
      ParserStep(st, lines[0]);
      if LineFits(c, lines[0], holds) {
        InStepIff(Skip(st, lines[0]), CppLine(c, lines[0], holds).1, lines[1..], holds);
      }
    }
  }

  // ---------------------------------------------------------------------------
  // Lines that put the parser out of step
  // ---------------------------------------------------------------------------

  /** Code beside a comment, on either side of it, is lost. */
  lemma CodeBesideComment(c: Cpp, raw: string, holds: Conditions)
    requires CppLine(c, raw, holds).0 != "" && (Contains(Clean(raw), "/*") || c.inComment)
    ensures !LineFits(c, raw, holds)
  {
    assert c.inComment ==> Ends(c) != [];
  }

  lemma GroupsNeverTwoMore(c: Cpp, raw: string, holds: Conditions)
    requires c.inComment
    ensures |Ends(CppLine(c, raw, holds).1)| <= |Ends(c)|
  {
  }

  /** To C++ a comment ends at its first closing token. To the parser, a token inside a
      comment that opens a comment or a macro block opens one more block. */
  lemma TokenInsideComment(c: Cpp, raw: string, holds: Conditions)
    requires c.inComment && Opens(Clean(raw), true)
    ensures !LineFits(c, raw, holds)
  {
    GroupsNeverTwoMore(c, raw, holds);
  }
}
