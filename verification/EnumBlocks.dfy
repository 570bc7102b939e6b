/** Nested comments and macro blocks: what the enum parser ignores. */
module EnumBlocks {
  import opened Wrappers
  import opened PythonText
  import opened EnumParsers

  // ---------------------------------------------------------------------------
  // Nested blocks
  // ---------------------------------------------------------------------------

  /** A single line, or a block with the lines that open and close it. */
  datatype Item = Plain(line: string) | Block(open: string, body: seq<Item>, close: string)

  function Lines(item: Item): seq<string>
    decreases item, 1
  {
    match item
    case Plain(line) => [line]
    case Block(open, body, close) => [open] + AllLines(body) + [close]
  }

  function AllLines(items: seq<Item>): seq<string>
    decreases items, 0
  {
    if items == [] then [] else Lines(items[0]) + AllLines(items[1..])
  }

  /** A line that leaves the current block as it is: empty, a block on one line, or, inside a
      block, text without the token that ends it. */
  predicate Stays(line: string, e: Option<string>, inEnum: bool) {
    line == []
    || match Entered(line, inEnum)
       case Some(k) => Contains(line, End(k))
       case None => e.Some? && !Contains(line, e.value)
  }

  predicate Opens(line: string, inEnum: bool) {
    Entered(line, inEnum).Some? && !Contains(line, End(Entered(line, inEnum).value))
  }

  predicate Closes(line: string, e: string, inEnum: bool) {
    line != [] && Entered(line, inEnum).None? && Contains(line, e)
  }

  /** The item is properly nested where the enclosing block ends with `e`, if there is one. */
  predicate Nested(item: Item, e: Option<string>, inEnum: bool)
    decreases item, 1
  {
    match item
    case Plain(line) => Stays(Clean(line), e, inEnum)
    case Block(open, body, close) =>
      && Opens(Clean(open), inEnum)
      && (var end := End(Entered(Clean(open), inEnum).value);
          AllNested(body, Some(end), inEnum) && Closes(Clean(close), end, inEnum))
  }

  predicate AllNested(items: seq<Item>, e: Option<string>, inEnum: bool)
    decreases items, 0
  {
    items == [] || (Nested(items[0], e, inEnum) && AllNested(items[1..], e, inEnum))
  }

  // ---------------------------------------------------------------------------
  // Ignoring lines
  // ---------------------------------------------------------------------------

  function Depth(st: State): nat {
    |st.stack| + if st.endtoken.Some? then 1 else 0
  }

  predicate WellStacked(st: State) {
    st.endtoken.None? ==> st.stack == []
  }

  predicate Skips(st: State, raw: string) {
    Clean(raw) == [] || Ignored(st, Clean(raw)).1
  }

  function Skip(st: State, raw: string): State {
    if Clean(raw) == [] then st else Ignored(st, Clean(raw)).0
  }

  function SkipAll(st: State, lines: seq<string>): State
    decreases |lines|
  {
    if lines == [] then st else SkipAll(Skip(st, lines[0]), lines[1..])
  }

  /** Every line is ignored, and no block is left that was open at depth `d`. */
  predicate AllSkipped(st: State, lines: seq<string>, d: nat)
    decreases |lines|
  {
    lines == []
    || (Skips(st, lines[0]) && Depth(Skip(st, lines[0])) >= d && AllSkipped(Skip(st, lines[0]), lines[1..], d))
  }

  lemma {:induction false} SkippedIsRun(st: State, lines: seq<string>, d: nat)
    requires AllSkipped(st, lines, d)
    ensures Run(st, lines) == Some(SkipAll(st, lines))
    decreases |lines|
  {
    if lines != [] { SkippedIsRun(Skip(st, lines[0]), lines[1..], d); }
  }

  lemma {:induction false} SkipAppend(st: State, a: seq<string>, b: seq<string>, d: nat)
    ensures AllSkipped(st, a + b, d) <==> AllSkipped(st, a, d) && AllSkipped(SkipAll(st, a), b, d)
    ensures SkipAll(st, a + b) == SkipAll(SkipAll(st, a), b)
    decreases |a|
  {
    if a == [] {
      assert a + b == b;
    } else {
      assert (a + b)[0] == a[0] && (a + b)[1..] == a[1..] + b;
      SkipAppend(Skip(st, a[0]), a[1..], b, d);
    }
  }

  lemma {:induction false} Weaken(st: State, lines: seq<string>, d: nat, e: nat)
    requires AllSkipped(st, lines, d) && e <= d
    ensures AllSkipped(st, lines, e)
    decreases |lines|
  {
    if lines != [] { Weaken(Skip(st, lines[0]), lines[1..], d, e); }
  }

  lemma SkipOne(st: State, line: string, d: nat)
    ensures SkipAll(st, [line]) == Skip(st, line)
    ensures AllSkipped(st, [line], d) <==> Skips(st, line) && Depth(Skip(st, line)) >= d
  {
    assert [line][1..] == [];
  }

  /** A line that is ignored changes only the open blocks and the recorded comment. */
  lemma OneLine(st: State, raw: string)
    requires WellStacked(st) && Skips(st, raw)
    ensures var line, next := Clean(raw), Skip(st, raw);
            && WellStacked(next)
            && next.(endtoken := st.endtoken, stack := st.stack, comment := st.comment) == st
            && (Stays(line, st.endtoken, st.inEnum) ==> next.endtoken == st.endtoken && next.stack == st.stack)
            && (Opens(line, st.inEnum) ==>
                  && next.endtoken == Some(End(Entered(line, st.inEnum).value))
                  && next.stack == if st.endtoken.Some? then st.stack + [st.endtoken.value] else st.stack)
            && (Stays(line, st.endtoken, st.inEnum) || Opens(line, st.inEnum)
                || (st.endtoken.Some? && Closes(line, st.endtoken.value, st.inEnum)))
  {
  }

  /** The line that closes a block gives back what was open before it. */
  lemma Closing(st: State, raw: string, before: State)
    requires st.endtoken.Some? && Closes(Clean(raw), st.endtoken.value, st.inEnum)
    requires st.stack == if before.endtoken.Some? then before.stack + [before.endtoken.value] else []
    requires WellStacked(before)
    ensures Skips(st, raw)
    ensures Skip(st, raw).endtoken == before.endtoken && Skip(st, raw).stack == before.stack
  {
    if before.endtoken.Some? {
      assert st.stack[|st.stack| - 1] == before.endtoken.value && st.stack[..|st.stack| - 1] == before.stack;
    }
  }

  // ---------------------------------------------------------------------------
  // The recorded comment
  // ---------------------------------------------------------------------------

  function Recorded(comment: string, line: string, e: Option<string>, inEnum: bool): string {
    if line == [] then comment
    else match Entered(line, inEnum)
         case Some(k) => if k == Comment then line else comment
         case None => if e == Some("*/") then comment + "\n" + line else comment
  }

  /** The latest block comment after an item. */
  function CommentAfter(comment: string, item: Item, e: Option<string>, inEnum: bool): string
    requires Nested(item, e, inEnum)
    decreases item, 1
  {
    match item
    case Plain(line) => Recorded(comment, Clean(line), e, inEnum)
    case Block(open, body, close) =>
      var end := Some(End(Entered(Clean(open), inEnum).value));
      var inside := CommentAfterAll(Recorded(comment, Clean(open), e, inEnum), body, end, inEnum);
      Recorded(inside, Clean(close), end, inEnum)
  }

  function CommentAfterAll(comment: string, items: seq<Item>, e: Option<string>, inEnum: bool): string
    requires AllNested(items, e, inEnum)
    decreases items, 0
  {
    if items == [] then comment
    else CommentAfterAll(CommentAfter(comment, items[0], e, inEnum), items[1..], e, inEnum)
  }

  lemma RecordedComment(st: State, raw: string)
    requires Skips(st, raw)
    ensures Skip(st, raw).comment == Recorded(st.comment, Clean(raw), st.endtoken, st.inEnum)
  {
  }

  // ---------------------------------------------------------------------------
  // Properly nested lines are ignored
  // ---------------------------------------------------------------------------

  /** A properly nested block is ignored as a whole and leaves the open blocks as they were. */
  lemma {:induction false} NestedIsSkipped(st: State, item: Item)
    requires WellStacked(st) && Nested(item, st.endtoken, st.inEnum)
    ensures AllSkipped(st, Lines(item), Depth(st))
    ensures SkipAll(st, Lines(item)) == st.(comment := CommentAfter(st.comment, item, st.endtoken, st.inEnum))
    decreases item, 1
  {
    var d := Depth(st);
    if item.Plain? {
      SkipOne(st, item.line, d);
      OneLine(st, item.line);
      RecordedComment(st, item.line);
    } else {
      var inside := Skip(st, item.open);
      OpeningLine(st, item.open);
      AllNestedSkipped(inside, item.body);
      var lines := AllLines(item.body);
      Weaken(inside, lines, d + 1, d);
      var last := SkipAll(inside, lines);
      ClosingLine(st, inside, last, item.close);
      SkipOne(st, item.open, d);
      SkipOne(last, item.close, d);
      SkipAppend(st, [item.open], lines, d);
      SkipAppend(st, [item.open] + lines, [item.close], d);
    }
  }

  lemma OpeningLine(st: State, raw: string)
    requires WellStacked(st) && Opens(Clean(raw), st.inEnum)
    ensures var next := Skip(st, raw);
            && Skips(st, raw) && WellStacked(next) && Depth(next) == Depth(st) + 1
            && next == st.(endtoken := Some(End(Entered(Clean(raw), st.inEnum).value)), stack := next.stack,
                           comment := Recorded(st.comment, Clean(raw), st.endtoken, st.inEnum))
            && next.stack == if st.endtoken.Some? then st.stack + [st.endtoken.value] else []
  {
    OneLine(st, raw);
    RecordedComment(st, raw);
  }

  lemma ClosingLine(st: State, inside: State, last: State, raw: string)
    requires WellStacked(st) && inside.endtoken.Some?
    requires inside.stack == if st.endtoken.Some? then st.stack + [st.endtoken.value] else []
    requires inside.(endtoken := st.endtoken, stack := st.stack, comment := st.comment) == st
    requires last.(comment := inside.comment) == inside
    requires Closes(Clean(raw), inside.endtoken.value, st.inEnum)
    ensures Skips(last, raw)
    ensures Skip(last, raw) == st.(comment := Recorded(last.comment, Clean(raw), inside.endtoken, st.inEnum))
  {
    Closing(last, raw, st);
    OneLine(last, raw);
    RecordedComment(last, raw);
  }

  lemma {:induction false} AllNestedSkipped(st: State, items: seq<Item>)
    requires WellStacked(st) && AllNested(items, st.endtoken, st.inEnum)
    ensures AllSkipped(st, AllLines(items), Depth(st))
    ensures SkipAll(st, AllLines(items))
            == st.(comment := CommentAfterAll(st.comment, items, st.endtoken, st.inEnum))
    decreases items, 0
  {
    if items != [] {
      NestedIsSkipped(st, items[0]);
      var next := SkipAll(st, Lines(items[0]));
      AllNestedSkipped(next, items[1..]);
      SkipAppend(st, Lines(items[0]), AllLines(items[1..]), Depth(st));
    }
  }

  /** The parser passes over properly nested lines: whatever they hold, only the recorded
      comment changes. */
  lemma NestedIsIgnored(st: State, items: seq<Item>)
    requires WellStacked(st) && AllNested(items, st.endtoken, st.inEnum)
    ensures Run(st, AllLines(items))
            == Some(st.(comment := CommentAfterAll(st.comment, items, st.endtoken, st.inEnum)))
  {
    AllNestedSkipped(st, items);
    SkippedIsRun(st, AllLines(items), Depth(st));
  }

  // ---------------------------------------------------------------------------
  // Only properly nested lines are ignored
  // ---------------------------------------------------------------------------

  /** The lines are passed over and leave no block open that they opened. */
  predicate PassedOver(st: State, lines: seq<string>) {
    AllSkipped(st, lines, Depth(st)) && Depth(SkipAll(st, lines)) == Depth(st)
  }

  /** From inside a block: the line that closes it. */
  lemma {:induction false} FindClose(st: State, lines: seq<string>, d: nat) returns (k: nat)
    requires WellStacked(st) && Depth(st) > d
    requires AllSkipped(st, lines, d) && Depth(SkipAll(st, lines)) == d
    ensures k < |lines| && AllSkipped(st, lines[..k], d + 1)
    ensures Depth(SkipAll(st, lines[..k])) == d + 1 && Depth(SkipAll(st, lines[..k + 1])) == d
    decreases |lines|
  {
    var next := Skip(st, lines[0]);
    OneStep(st, lines[0]);
    if Depth(next) == d {
      k := 0;
      FirstCloses(st, lines, d);
    } else {
      var j := FindClose(next, lines[1..], d);
      k := j + 1;
      Cons(st, lines, j, d + 1);
      Cons(st, lines, j + 1, d);
    }
  }

  lemma FirstCloses(st: State, lines: seq<string>, d: nat)
    requires lines != [] && Depth(st) == d + 1 && Depth(Skip(st, lines[0])) == d
    ensures AllSkipped(st, lines[..0], d + 1) && SkipAll(st, lines[..0]) == st
    ensures SkipAll(st, lines[..1]) == Skip(st, lines[0])
  {
    assert lines[..0] == [] && lines[..1] == [lines[0]];
    SkipOne(st, lines[0], d);
  }

  /** A prefix of the lines starts with the first line. */
  lemma Cons(st: State, lines: seq<string>, j: nat, d: nat)
    requires j < |lines|
    ensures SkipAll(st, lines[..j + 1]) == SkipAll(Skip(st, lines[0]), lines[1..][..j])
    ensures AllSkipped(st, lines[..j + 1], d) <==>
              Skips(st, lines[0]) && Depth(Skip(st, lines[0])) >= d
              && AllSkipped(Skip(st, lines[0]), lines[1..][..j], d)
  {
    assert lines[..j + 1][1..] == lines[1..][..j];
  }

  /** One line opens or closes at most one block. */
  lemma OneStep(st: State, raw: string)
    requires WellStacked(st) && Skips(st, raw)
    ensures WellStacked(Skip(st, raw))
    ensures Depth(st) - 1 <= Depth(Skip(st, raw)) <= Depth(st) + 1
  {
    OneLine(st, raw);
  }

  lemma Cut(lines: seq<string>, k: nat)
    requires k < |lines|
    ensures lines == lines[..k] + [lines[k]] + lines[k + 1..] && lines[..k + 1] == lines[..k] + [lines[k]]
  {
  }

  /** From inside a block: its lines, the line that closes it, and what follows. */
  lemma CutBlock(st: State, lines: seq<string>, d: nat)
    returns (inner: seq<string>, close: string, tail: seq<string>)
    requires WellStacked(st) && Depth(st) == d + 1
    requires AllSkipped(st, lines, d) && Depth(SkipAll(st, lines)) == d
    ensures lines == inner + [close] + tail && PassedOver(st, inner)
    ensures var last := SkipAll(st, inner);
            var after := Skip(last, close);
            && Skips(last, close) && Depth(after) == d
            && AllSkipped(after, tail, d) && Depth(SkipAll(after, tail)) == d
  {
    var k := FindClose(st, lines, d);
    inner, close, tail := lines[..k], lines[k], lines[k + 1..];
    Cut(lines, k);
    SkipAppend(st, inner, [close], d);
    SkipAppend(st, inner + [close], tail, d);
    SkipOne(SkipAll(st, inner), close, d);
  }

  /** The line that ends the block is one that closes it, and restores what was open. */
  lemma CloseOfBlock(st: State, open: string, body: seq<Item>, close: string)
    requires WellStacked(st) && Opens(Clean(open), st.inEnum)
    requires var inside := Skip(st, open);
             && AllNested(body, inside.endtoken, st.inEnum)
             && Skips(SkipAll(inside, AllLines(body)), close)
             && Depth(Skip(SkipAll(inside, AllLines(body)), close)) == Depth(st)
    ensures Nested(Block(open, body, close), st.endtoken, st.inEnum)
    ensures var after := Skip(SkipAll(Skip(st, open), AllLines(body)), close);
            after.endtoken == st.endtoken && after.inEnum == st.inEnum && WellStacked(after)
  {
    var inside := Skip(st, open);
    OpeningLine(st, open);
    AllNestedSkipped(inside, body);
    var last := SkipAll(inside, AllLines(body));
    OneLine(last, close);
    Closing(last, close, st);
  }

  lemma Prepend(item: Item, rest: seq<Item>, e: Option<string>, inEnum: bool)
    ensures AllLines([item] + rest) == Lines(item) + AllLines(rest)
    ensures AllNested([item] + rest, e, inEnum) <==> Nested(item, e, inEnum) && AllNested(rest, e, inEnum)
  {
    assert ([item] + rest)[1..] == rest;
  }

  lemma Regroup(open: string, inner: seq<string>, close: string, tail: seq<string>)
    ensures [open] + (inner + [close] + tail) == ([open] + inner + [close]) + tail
  {
  }

  /** What is passed over is a sequence of items. */
  lemma {:induction false} PassedOverIsNested(st: State, lines: seq<string>) returns (items: seq<Item>)
    requires WellStacked(st) && PassedOver(st, lines)
    ensures AllLines(items) == lines && AllNested(items, st.endtoken, st.inEnum)
    decreases |lines|
  {
    if lines == [] {
      items := [];
    } else {
      var d, next := Depth(st), Skip(st, lines[0]);
      OneLine(st, lines[0]);
      if Depth(next) == d {
        var rest := PassedOverIsNested(next, lines[1..]);
        items := StartPlain(lines, rest, st.endtoken, st.inEnum);
      } else {
        var inner, close, tail := CutBlock(next, lines[1..], d);
        var body := PassedOverIsNested(next, inner);
        CloseOfBlock(st, lines[0], body, close);
        var rest := PassedOverIsNested(Skip(SkipAll(next, inner), close), tail);
        items := StartBlock(st, lines, body, close, rest);
      }
    }
  }

  lemma StartPlain(lines: seq<string>, rest: seq<Item>, e: Option<string>, inEnum: bool) returns (items: seq<Item>)
    requires lines != [] && Stays(Clean(lines[0]), e, inEnum)
    requires AllLines(rest) == lines[1..] && AllNested(rest, e, inEnum)
    ensures AllLines(items) == lines && AllNested(items, e, inEnum)
  {
    items := [Plain(lines[0])] + rest;
    Prepend(Plain(lines[0]), rest, e, inEnum);
  }

  lemma StartBlock(st: State, lines: seq<string>, body: seq<Item>, close: string, rest: seq<Item>)
    returns (items: seq<Item>)
    requires lines != [] && lines[1..] == AllLines(body) + [close] + AllLines(rest)
    requires Nested(Block(lines[0], body, close), st.endtoken, st.inEnum)
    requires AllNested(rest, st.endtoken, st.inEnum)
    ensures AllLines(items) == lines && AllNested(items, st.endtoken, st.inEnum)
  {
    var block := Block(lines[0], body, close);
    items := [block] + rest;
    Prepend(block, rest, st.endtoken, st.inEnum);
    Regroup(lines[0], AllLines(body), close, AllLines(rest));
    assert lines == [lines[0]] + lines[1..];
  }

  /** In every state with a consistent stack, the lines that are passed over are exactly the
      properly nested ones. */
  lemma PassedOverIffNested(st: State, lines: seq<string>)
    requires WellStacked(st)
    ensures PassedOver(st, lines) <==>
            exists items: seq<Item> :: AllLines(items) == lines && AllNested(items, st.endtoken, st.inEnum)
  {
    if PassedOver(st, lines) {
      var items := PassedOverIsNested(st, lines);
    }
    if items: seq<Item> :| AllLines(items) == lines && AllNested(items, st.endtoken, st.inEnum) {
      AllNestedSkipped(st, items);
    }
  }

  /** The parser keeps its stack consistent over every run. */
  lemma {:induction false} RunKeepsStack(st: State, lines: seq<string>)
    requires WellStacked(st) && Run(st, lines).Some?
    ensures WellStacked(Run(st, lines).value)
    decreases |lines|
  {
    if lines != [] {
      NextKeepsStack(st, lines[0]);
      RunKeepsStack(Next(st, lines[0]).value, lines[1..]);
    }
  }

  lemma NextKeepsStack(st: State, raw: string)
    requires WellStacked(st) && Next(st, raw).Some?
    ensures WellStacked(Next(st, raw).value)
  {
    if Skips(st, raw) { OneLine(st, raw); }
  }

  // ---------------------------------------------------------------------------
  // Blocks by their tokens
  // ---------------------------------------------------------------------------

  /** A token of a comment is looked for first, then that of a disabled block, and, inside an
      enum only, that of the C enums. */
  lemma EnteredIff(line: string, inEnum: bool)
    ensures Entered(line, inEnum) ==
            if Contains(line, "/*") then Some(Comment)
            else if Contains(line, "#if 0") then Some(Disabled)
            else if inEnum && Contains(line, "#ifdef CVC5_API_USE_C_ENUMS") then Some(CEnums)
            else None
  {
  }

  /** No token that opens a block, inside or outside an enum, and not this one that ends it. */
  predicate NoTokens(line: string, end: string) {
    && !Contains(line, "/*") && !Contains(line, "#if 0") && !Contains(line, "#ifdef CVC5_API_USE_C_ENUMS")
    && !Contains(line, end)
  }

  /** The lines without their white space and line comments, each on a line of its own. */
  function Texts(lines: seq<string>): string {
    if lines == [] then "" else TextOf(lines[0]) + Texts(lines[1..])
  }

  function TextOf(line: string): string {
    if Clean(line) == [] then "" else "\n" + Clean(line)
  }

  lemma CommentLine(st: State, raw: string)
    requires st.endtoken == Some("*/") && NoTokens(Clean(raw), "*/")
    ensures Next(st, raw) == Some(st.(comment := st.comment + TextOf(raw)))
  {
    assert st.comment + "" == st.comment;
    assert (st.comment + "\n") + Clean(raw) == st.comment + ("\n" + Clean(raw));
  }

  lemma OneRunMore(st: State, next: State, lines: seq<string>, more: seq<string>)
    requires lines != [] && Next(st, lines[0]) == Some(next)
    ensures Run(st, lines + more) == Run(next, lines[1..] + more)
  {
    assert (lines + more)[0] == lines[0] && (lines + more)[1..] == lines[1..] + more;
  }

  lemma Reassociate(a: string, b: string, c: string)
    ensures a + b + c == a + (b + c)
  {
  }

  lemma CommentEnd(st: State, raw: string)
    requires st.endtoken == Some("*/") && st.stack == []
    requires Contains(Clean(raw), "*/") && Entered(Clean(raw), st.inEnum).None?
    ensures Run(st, [raw]) == Some(st.(endtoken := None, comment := st.comment + "\n" + Clean(raw)))
  {
    TokenOnLine(Clean(raw), "*/");
    assert [raw][1..] == [];
  }

  lemma {:induction false} InsideComment(st: State, inside: seq<string>, close: string)
    requires st.endtoken == Some("*/") && st.stack == []
    requires forall i :: 0 <= i < |inside| ==> NoTokens(Clean(inside[i]), "*/")
    requires Contains(Clean(close), "*/") && Entered(Clean(close), st.inEnum).None?
    ensures Run(st, inside + [close]) ==
            Some(st.(endtoken := None, comment := st.comment + Texts(inside) + "\n" + Clean(close)))
    decreases |inside|
  {
    if inside == [] {
      assert [] + [close] == [close] && st.comment + "" == st.comment;
      CommentEnd(st, close);
    } else {
      var next := st.(comment := st.comment + TextOf(inside[0]));
      CommentLine(st, inside[0]);
      OneRunMore(st, next, inside, [close]);
      InsideComment(next, inside[1..], close);
      Reassociate(st.comment, TextOf(inside[0]), Texts(inside[1..]));
    }
  }

  /** A comment over several lines is ignored, and recorded as it stands. */
  lemma RecordsComment(st: State, open: string, inside: seq<string>, close: string)
    requires st.endtoken.None? && st.stack == []
    requires Contains(Clean(open), "/*") && !Contains(Clean(open), "*/")
    requires forall i :: 0 <= i < |inside| ==> NoTokens(Clean(inside[i]), "*/")
    requires Contains(Clean(close), "*/") && Entered(Clean(close), st.inEnum).None?
    ensures Run(st, [open] + inside + [close]) ==
            Some(st.(comment := Clean(open) + Texts(inside) + "\n" + Clean(close)))
  {
    var within := st.(endtoken := Some("*/"), comment := Clean(open));
    CommentStart(st, open);
    OneRunMore(st, within, [open] + inside, [close]);
    assert ([open] + inside)[1..] == inside;
    InsideComment(within, inside, close);
  }

  lemma CommentStart(st: State, raw: string)
    requires st.endtoken.None? && st.stack == [] && Contains(Clean(raw), "/*") && !Contains(Clean(raw), "*/")
    ensures Next(st, raw) == Some(st.(endtoken := Some("*/"), comment := Clean(raw)))
  {
    TokenOnLine(Clean(raw), "/*");
  }

  lemma TokenOnLine(line: string, token: string)
    requires Contains(line, token) && token != []
    ensures line != []
  {
  }

  /** A comment on one line. */
  lemma RecordsLine(st: State, line: string)
    requires Contains(Clean(line), "/*") && Contains(Clean(line), "*/")
    ensures Next(st, line) == Some(st.(comment := Clean(line)))
  {
    TokenOnLine(Clean(line), "/*");
  }

  lemma {:induction false} InsideGroup(st: State, inside: seq<string>, close: string)
    requires st.endtoken == Some("#endif") && st.stack == []
    requires forall i :: 0 <= i < |inside| ==> NoTokens(Clean(inside[i]), "#endif")
    requires Contains(Clean(close), "#endif") && Entered(Clean(close), st.inEnum).None?
    ensures Run(st, inside + [close]) == Some(st.(endtoken := None))
    decreases |inside|
  {
    if inside == [] {
      assert [] + [close] == [close] && [close][1..] == [];
      TokenOnLine(Clean(close), "#endif");
    } else {
      assert (inside + [close])[1..] == inside[1..] + [close];
      assert Next(st, inside[0]) == Some(st);
      InsideGroup(st, inside[1..], close);
    }
  }

  /** A disabled block, and inside an enum also that of the C enums, leaves no trace at all;
      outside enums the line that opens the latter is an ordinary one. */
  lemma IgnoresGroup(st: State, open: string, inside: seq<string>, close: string)
    requires st.endtoken.None? && st.stack == []
    requires !Contains(Clean(open), "/*") && !Contains(Clean(open), "#endif")
    requires Contains(Clean(open), "#if 0") || Contains(Clean(open), "#ifdef CVC5_API_USE_C_ENUMS")
    requires forall i :: 0 <= i < |inside| ==> NoTokens(Clean(inside[i]), "#endif")
    requires Contains(Clean(close), "#endif") && Entered(Clean(close), st.inEnum).None?
    ensures if Contains(Clean(open), "#if 0") || st.inEnum then Run(st, [open] + inside + [close]) == Some(st)
            else Next(st, open) == Parsed(st, Clean(open))
  {
    var lines := [open] + inside + [close];
    assert lines[0] == open && lines[1..] == inside + [close];
    if Contains(Clean(open), "#if 0") {
      TokenOnLine(Clean(open), "#if 0");
    } else {
      TokenOnLine(Clean(open), "#ifdef CVC5_API_USE_C_ENUMS");
    }
    if Contains(Clean(open), "#if 0") || st.inEnum {
      assert Next(st, open) == Some(st.(endtoken := Some("#endif")));
      InsideGroup(st.(endtoken := Some("#endif")), inside, close);
    }
  }
}
