/** The line-driven parser of the enum headers. */
module EnumParsers {
  import opened Wrappers
  import opened PythonText

  // ---------------------------------------------------------------------------
  // Tokens
  // ---------------------------------------------------------------------------

  /** The blocks whose lines are ignored, in the order in which their tokens are looked for. */
  datatype BlockKind = Comment | Disabled | CEnums

  function Begin(k: BlockKind): string {
    match k
    case Comment => "/*"
    case Disabled => "#if 0"
    case CEnums => "#ifdef CVC5_API_USE_C_ENUMS"
  }

  function End(k: BlockKind): string {
    if k == Comment then "*/" else "#endif"
  }

  predicate Enters(k: BlockKind, line: string, inEnum: bool) {
    Contains(line, Begin(k)) && (k == CEnums ==> inEnum)
  }

  /** The kind of block that a line enters. */
  function Entered(line: string, inEnum: bool): Option<BlockKind> {
    if Enters(Comment, line, inEnum) then Some(Comment)
    else if Enters(Disabled, line, inEnum) then Some(Disabled)
    else if Enters(CEnums, line, inEnum) then Some(CEnums)
    else None
  }

  // ---------------------------------------------------------------------------
  // States
  // ---------------------------------------------------------------------------

  /** The two ordered dictionaries of an enum, which always have the same keys. */
  datatype Enum = Enum(name: string, order: seq<string>, values: map<string, int>, docs: map<string, string>) {
    function With(key: string, value: int, doc: string): Enum {
      this.(order := if key in values then order else order + [key],
            values := values[key := value],
            docs := docs[key := doc])
    }
  }

  datatype Namespace = Namespace(name: string, enums: seq<Enum>)

  datatype State = State(
    namespaces: seq<Namespace>,
    endtoken: Option<string>,
    stack: seq<string>,
    inEnum: bool,
    comment: string,
    last: int)

  const INITIAL := State([], None, [], false, "", -1)

  /** The state after `ignore_block`, and whether the line is ignored. */
  function Ignored(st: State, line: string): (State, bool) {
    match Entered(line, st.inEnum)
    case Some(k) =>
      var recorded := if k == Comment then st.(comment := line) else st;
      if Contains(line, End(k)) then (recorded, true)
      else (recorded.(endtoken := Some(End(k)),
                      stack := if st.endtoken.Some? then st.stack + [st.endtoken.value] else st.stack), true)
    case None =>
      if st.endtoken.None? then (st, false)
      else
        var recorded := if st.endtoken == Some("*/") then st.(comment := st.comment + "\n" + line) else st;
        if !Contains(line, st.endtoken.value) then (recorded, true)
        else if st.stack == [] then (recorded.(endtoken := None), true)
        else (recorded.(endtoken := Some(st.stack[|st.stack| - 1]), stack := st.stack[..|st.stack| - 1]), true)
  }

  /** What `format_comment` asserts of a comment. */
  predicate Delimited(comment: string) {
    StartsWith(comment, "/*") && EndsWith(comment, "*/")
  }

  /** The name and the value, if there is one, between the parentheses of an enumerator. */
  function ReadEnumerator(inner: string): Option<(string, Option<int>)> {
    if '=' in inner then
      var parts := Split(inner, '=');
      if |parts| != 2 then None
      else match ParseInt(if ',' in parts[1] then Before(parts[1], ',') else parts[1])
           case None => None
           case Some(v) => Some((Strip(parts[0]), Some(v)))
    else if ',' in inner then Some((Strip(Before(inner, ',')), None))
    else Some((inner, None))
  }

  /** A zero counts as no value. */
  function ValueOf(given: Option<int>, last: int): int {
    match given
    case None => last + 1
    case Some(v) => if v == 0 then last + 1 else v
  }

  function WithEnum(namespaces: seq<Namespace>, f: Enum -> Enum): Option<seq<Namespace>> {
    if namespaces == [] then None
    else
      var n, current := |namespaces| - 1, namespaces[|namespaces| - 1];
      if current.enums == [] then None
      else
        var m := |current.enums| - 1;
        Some(namespaces[n := current.(enums := current.enums[m := f(current.enums[m])])])
  }

  function AddEnumerator(st: State, inner: string): Option<State> {
    match ReadEnumerator(inner)
    case None => None
    case Some((name, given)) =>
      var value := ValueOf(given, st.last);
      if !Delimited(st.comment) then None
      else match WithEnum(st.namespaces, (e: Enum) => e.With(name, value, st.comment))
           case None => None
           case Some(ns) => Some(st.(namespaces := ns, last := value))
  }

  /** The text in the first pair of parentheses. */
  function InParentheses(line: string): Option<string> {
    var pieces := Split(line, '(');
    if |pieces| < 2 then None else Some(Split(pieces[1], ')')[0])
  }

  function StartEnum(st: State, name: string): Option<State> {
    if st.namespaces == [] then None
    else
      var n := |st.namespaces| - 1;
      var current := st.namespaces[n];
      var started := current.(enums := current.enums + [Enum(name, [], map[], map[])]);
      Some(st.(inEnum := true, namespaces := st.namespaces[n := started]))
  }

  /** A line that is not ignored. */
  function Parsed(st: State, line: string): Option<State> {
    if Contains(line, "};") then Some(st.(inEnum := false, last := -1))
    else if st.inEnum then
      if line == "{" then Some(st)
      else if !StartsWith(line, "EVALUE(") then None
      else (match InParentheses(line)
            case None => None
            case Some(inner) => AddEnumerator(st, inner))
    else if StartsWith(line, "enum ENUM(") then
      (match InParentheses(line)
       case None => None
       case Some(name) => StartEnum(st, name))
    else if StartsWith(line, "namespace") then
      var tokens := Words(line);
      if |tokens| < 2 then None else Some(st.(namespaces := st.namespaces + [Namespace(tokens[1], [])]))
    else Some(st)
  }

  /** A line without surrounding space and without its line comment. */
  function Clean(raw: string): string {
    CutAt(Strip(raw), "//")
  }

  /** The state after a line, if no assertion fails and no error is raised. */
  function Next(st: State, raw: string): Option<State> {
    var line := Clean(raw);
    if line == [] then Some(st)
    else
      var (after, ignored) := Ignored(st, line);
      if ignored then Some(after) else Parsed(after, line)
  }

  function Run(st: State, lines: seq<string>): Option<State>
    decreases |lines|
  {
    if lines == [] then Some(st)
    else match Next(st, lines[0])
         case None => None
         case Some(next) => Run(next, lines[1..])
  }

  lemma {:induction false} RunSplit(st: State, a: seq<string>, b: seq<string>)
    ensures Run(st, a + b) == match Run(st, a)
                              case None => None
                              case Some(mid) => Run(mid, b)
    decreases |a|
  {
    if a == [] {
      assert a + b == b;
    } else {
      assert (a + b)[0] == a[0] && (a + b)[1..] == a[1..] + b;
      match Next(st, a[0]) {
        case None =>
        case Some(next) => RunSplit(next, a[1..], b);
      }
    }
  }

  // ---------------------------------------------------------------------------
  // The parser
  // ---------------------------------------------------------------------------

  class EnumParser {
    var namespaces: seq<Namespace>
    var endtoken: Option<string>
    var endtokenStack: seq<string>
    var inEnum: bool
    var latestBlockComment: string
    var lastValue: int

    constructor ()
      ensures Contents() == INITIAL
    {
      namespaces, endtoken, endtokenStack := [], None, [];
      inEnum, latestBlockComment, lastValue := false, "", -1;
    }

    ghost function Contents(): State
      reads this
    {
      State(namespaces, endtoken, endtokenStack, inEnum, latestBlockComment, lastValue)
    }

    /** Whether to ignore a line; keeps track of comments and macro blocks. */
    method IgnoreBlock(line: string) returns (ignored: bool)
      modifies this`endtoken, this`endtokenStack, this`latestBlockComment
      ensures (Contents(), ignored) == Ignored(old(Contents()), line)
    {
      var kinds := [Comment, Disabled, CEnums];
      for i := 0 to 3
        invariant Contents() == old(Contents())
        invariant forall j :: 0 <= j < i ==> !Enters(kinds[j], line, inEnum)
      {
        var k := kinds[i];
        if k == CEnums && !inEnum { continue; }
        if Contains(line, Begin(k)) {
          assert (i > 0 ==> !Enters(kinds[0], line, inEnum)) && (i > 1 ==> !Enters(kinds[1], line, inEnum));
          assert Entered(line, inEnum) == Some(k);
          if k == Comment { latestBlockComment := line; }
          if !Contains(line, End(k)) {
            if endtoken.Some? { endtokenStack := endtokenStack + [endtoken.value]; }
            endtoken := Some(End(k));
          }
          return true;
        }
      }
      assert !Enters(kinds[0], line, inEnum) && !Enters(kinds[1], line, inEnum) && !Enters(kinds[2], line, inEnum);
      if endtoken.Some? {
        if endtoken.value == "*/" { latestBlockComment := latestBlockComment + "\n" + line; }
        if Contains(line, endtoken.value) {
          if endtokenStack != [] {
            endtoken := Some(endtokenStack[|endtokenStack| - 1]);
            endtokenStack := endtokenStack[..|endtokenStack| - 1];
          } else {
            endtoken := None;
          }
        }
        return true;
      }
      return false;
    }

    /** The enumerator between the parentheses of a line. */
    method AddEnumeratorLine(inner: string) returns (ok: bool)
      modifies this`namespaces, this`lastValue
      ensures ok <==> AddEnumerator(old(Contents()), inner).Some?
      ensures ok ==> Some(Contents()) == AddEnumerator(old(Contents()), inner)
    {
      var read := ReadEnumerator(inner);
      if read.None? { return false; }
      var (name, value) := (read.value.0, ValueOf(read.value.1, lastValue));
      lastValue := value;
      if namespaces == [] { return false; }
      var n := |namespaces| - 1;
      var current := namespaces[n];
      if current.enums == [] || !Delimited(latestBlockComment) { return false; }
      var m := |current.enums| - 1;
      var enums := current.enums[m := current.enums[m].With(name, value, latestBlockComment)];
      namespaces := namespaces[n := current.(enums := enums)];
      return true;
    }

    method ParseLine(raw: string) returns (ok: bool)
      modifies this
      ensures ok <==> Next(old(Contents()), raw).Some?
      ensures ok ==> Some(Contents()) == Next(old(Contents()), raw)
    {
      var line := CutAt(Strip(raw), "//");
      if line == [] { return true; }
      var ignored := IgnoreBlock(line);
      if ignored { return true; }
      ok := ParseCleanLine(line);
    }

    /** A line outside comments and macro blocks. */
    method ParseCleanLine(line: string) returns (ok: bool)
      modifies this
      ensures ok <==> Parsed(old(Contents()), line).Some?
      ensures ok ==> Some(Contents()) == Parsed(old(Contents()), line)
    {
      if Contains(line, "};") {
        inEnum, lastValue := false, -1;
      } else if inEnum {
        if line == "{" { return true; }
        if !StartsWith(line, "EVALUE(") { return false; }
        var inner := InParentheses(line);
        if inner.None? { return false; }
        ok := AddEnumeratorLine(inner.value);
        return;
      } else if StartsWith(line, "enum ENUM(") {
        inEnum := true;
        var name := InParentheses(line);
        if name.None? || namespaces == [] { return false; }
        var n := |namespaces| - 1;
        var current := namespaces[n];
        namespaces := namespaces[n := current.(enums := current.enums + [Enum(name.value, [], map[], map[])])];
      } else if StartsWith(line, "namespace") {
        var tokens := Words(line);
        if |tokens| < 2 { return false; }
        namespaces := namespaces + [Namespace(tokens[1], [])];
      }
      return true;
    }

    method Parse(lines: seq<string>) returns (ok: bool)
      modifies this
      ensures ok <==> Run(old(Contents()), lines).Some?
      ensures ok ==> Some(Contents()) == Run(old(Contents()), lines)
    {
      assert lines[0..] == lines;
      for i := 0 to |lines|
        invariant Run(Contents(), lines[i..]) == Run(old(Contents()), lines)
      {
        assert lines[i..][1..] == lines[i + 1..];
        ok := ParseLine(lines[i]);
        if !ok { return false; }
      }
      return true;
    }
  }
}
