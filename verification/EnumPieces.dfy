/** When a list of enumerators has one of them on each line. */
module EnumPieces {
  import opened Wrappers
  import opened PythonText
  import opened CppText

  /** A line of code without the comma at its end. */
  function Piece(t: string): string {
    if EndsWith(t, ",") then t[..|t| - 1] else t
  }

  /** The enumerator that a line of code declares, if it declares just one. */
  function EntryOf(t: string): Option<Entry> {
    Declaration(Strip(Piece(t)))
  }

  /** Each line declares one enumerator, with a comma at its end before a next line. */
  predicate OneEach(ts: seq<string>) {
    ts == [] || (EntryOf(ts[0]).Some? && (|ts| > 1 ==> EndsWith(ts[0], ",")) && OneEach(ts[1..]))
  }

  predicate Stripped(t: string) {
    t != [] && !IsSpace(t[0]) && !IsSpace(t[|t| - 1])
  }

  predicate AllStripped(ts: seq<string>) {
    forall i :: 0 <= i < |ts| ==> Stripped(ts[i])
  }

  function Entries(ts: seq<string>): (r: seq<Entry>)
    requires OneEach(ts)
    ensures |r| == |ts|
  {
    if ts == [] then [] else [EntryOf(ts[0]).value] + Entries(ts[1..])
  }

  // ---------------------------------------------------------------------------
  // Lists
  // ---------------------------------------------------------------------------

  lemma LeadingSpace(s: string)
    ensures Strip(" " + s) == Strip(s)
    ensures Declarations(" " + s) == Declarations(s)
  {
    assert (" " + s)[1..] == s;
    assert StripLeft(" " + s) == StripLeft(s);
    assert ',' in " " + s <==> ',' in s;
    if ',' in s {
      assert Before(" " + s, ',') == " " + Before(s, ',') && After(" " + s, ',') == After(s, ',');
      assert (" " + Before(s, ','))[1..] == Before(s, ',');
    }
  }

  /** A list starts with the piece before its first comma. */
  lemma ListStart(p: string, rest: string)
    requires ',' !in p
    ensures Declarations(p + [','] + rest) ==
            match (Declaration(Strip(p)), Declarations(rest))
            case (Some(e), Some(es)) => Some([e] + es)
            case _ => None
  {
    var text := p + [','] + rest;
    BeforeAfter(p, ',', rest);
    assert text[|p|] == ',';
    if Strip(text) == [] {
      StripKeeps(text, ',');
      assert false;
    }
  }

  /** A list of one without a comma. */
  lemma ListOne(p: string)
    requires ',' !in p && Declaration(Strip(p)).Some?
    ensures Declarations(p) == Some([Declaration(Strip(p)).value])
  {
    assert Strip(p) != [];
  }

  /** What stands before the first comma is an enumerator. */
  lemma FirstPiece(text: string)
    requires Declarations(text).Some? && Strip(text) != []
    ensures Declaration(Strip(Before(text, ','))).Some? && Parentheses(Before(text, ',')) == 1
  {
    if ',' !in text { BeforeAll(text, ','); }
    DeclarationChars(Strip(Before(text, ',')));
    StripParentheses(Before(text, ','));
  }

  lemma NoComma(t: string)
    requires EntryOf(t).Some?
    ensures ',' !in Piece(t)
  {
    DeclarationChars(Strip(Piece(t)));
    if ',' in Piece(t) { StripKeeps(Piece(t), ','); }
  }

  lemma EmptyList(text: string)
    requires Declarations(text) == Some([])
    ensures Strip(text) == []
  {
  }

  // ---------------------------------------------------------------------------
  // One enumerator on each line
  // ---------------------------------------------------------------------------

  /** Lines with one enumerator each make the list of their enumerators. */
  lemma {:induction false} OneEachGives(ts: seq<string>)
    requires OneEach(ts)
    ensures Declarations(Joined(ts)) == Some(Entries(ts))
  {
    if ts == [] {
      assert Entries(ts) == [];
    } else if |ts| == 1 {
      OneLineList(ts[0]);
      JoinedOne(ts);
      assert Entries(ts[1..]) == [] && [EntryOf(ts[0]).value] + [] == [EntryOf(ts[0]).value];
    } else {
      OneEachGives(ts[1..]);
      OneEachStep(ts);
    }
  }

  lemma OneEachStep(ts: seq<string>)
    requires |ts| > 1 && OneEach(ts) && OneEach(ts[1..])
    requires Declarations(Joined(ts[1..])) == Some(Entries(ts[1..]))
    ensures Declarations(Joined(ts)) == Some([EntryOf(ts[0]).value] + Entries(ts[1..]))
  {
    JoinedMore(ts);
    LineBeforeList(ts[0], Joined(ts[1..]), Entries(ts[1..]));
  }

  lemma JoinedOne(ts: seq<string>)
    requires |ts| == 1
    ensures Joined(ts) == ts[0]
  {
    assert ts[0] + "" == ts[0];
  }

  lemma JoinedMore(ts: seq<string>)
    requires |ts| > 1
    ensures Joined(ts) == ts[0] + (" " + Joined(ts[1..]))
  {
  }

  lemma LineBeforeList(t: string, more: string, es: seq<Entry>)
    requires EntryOf(t).Some? && EndsWith(t, ",") && Declarations(more) == Some(es)
    ensures Declarations(t + (" " + more)) == Some([EntryOf(t).value] + es)
  {
    NoComma(t);
    LeadingSpace(more);
    ListStart(Piece(t), " " + more);
    assert t + (" " + more) == Piece(t) + [','] + (" " + more) by { assert t == Piece(t) + [',']; }
  }

  lemma OneLineList(t: string)
    requires EntryOf(t).Some?
    ensures Declarations(t) == Some([EntryOf(t).value])
  {
    NoComma(t);
    if EndsWith(t, ",") {
      ListStart(Piece(t), []);
      assert t == Piece(t) + [','] + [];
      assert Declarations([]) == Some([]);
      assert [EntryOf(t).value] + [] == [EntryOf(t).value];
    } else {
      ListOne(t);
    }
  }

  lemma JoinedParentheses(ts: seq<string>)
    requires forall i :: 0 <= i < |ts| ==> Parentheses(ts[i]) >= 1
    ensures Parentheses(Joined(ts)) >= |ts|
  {
    if |ts| > 1 {
      JoinedParentheses(ts[1..]);
      JoinedTwo(ts[0], Joined(ts[1..]));
    }
  }

  lemma JoinedTwo(a: string, b: string)
    ensures Parentheses(a + (" " + b)) == Parentheses(a) + Parentheses(b)
  {
    assert multiset(a + (" " + b)) == multiset(a) + multiset(" ") + multiset(b);
  }

  lemma StartsParenthesis(t: string)
    requires StartsWith(t, "EVALUE(")
    ensures Parentheses(t) >= 1
  {
    assert t[6] == "EVALUE("[6] == '(';
    assert '(' in t;
  }

  /** If as many enumerators as lines are declared, and each line starts with one, then each
      line declares one. */
  lemma {:induction false} AsManyMeansOneEach(ts: seq<string>, es: seq<Entry>)
    requires AllStripped(ts) && forall i :: 0 <= i < |ts| ==> StartsWith(ts[i], "EVALUE(")
    requires Declarations(Joined(ts)) == Some(es) && |es| <= |ts|
    ensures OneEach(ts) && Entries(ts) == es
  {
    CountFirst(ts, es);
    if |ts| == 1 {
      OnlyOne(ts, es);
    } else if |ts| > 1 {
      FirstOfMany(ts, es);
      AsManyMeansOneEach(ts[1..], es[1..]);
      FirstAndRest(ts, es);
    }
  }

  lemma FirstAndRest(ts: seq<string>, es: seq<Entry>)
    requires |ts| > 1 && EntryOf(ts[0]).Some? && EndsWith(ts[0], ",") && es != [] && es[0] == EntryOf(ts[0]).value
    requires OneEach(ts[1..]) && Entries(ts[1..]) == es[1..]
    ensures OneEach(ts) && Entries(ts) == es
  {
    assert es == [es[0]] + es[1..];
  }

  lemma FirstOfMany(ts: seq<string>, es: seq<Entry>)
    requires |ts| > 1 && Stripped(ts[0]) && Parentheses(ts[0]) == 1 && StartsWith(ts[1], "EVALUE(")
    requires Declarations(Joined(ts)) == Some(es)
    ensures EntryOf(ts[0]).Some? && EndsWith(ts[0], ",") && es != [] && es[0] == EntryOf(ts[0]).value
    ensures Declarations(Joined(ts[1..])) == Some(es[1..])
  {
    JoinedMore(ts);
    JoinedStart(ts[1..]);
    FirstLine(ts[0], Joined(ts[1..]), es);
  }

  lemma OnlyOne(ts: seq<string>, es: seq<Entry>)
    requires |ts| == 1 && Stripped(ts[0]) && Parentheses(ts[0]) == 1 && Declarations(Joined(ts)) == Some(es)
    ensures OneEach(ts) && Entries(ts) == es
  {
    JoinedOne(ts);
    OnlyLine(ts[0], es);
    assert OneEach(ts[1..]) && Entries(ts[1..]) == [] && es == es + [];
  }

  lemma CountFirst(ts: seq<string>, es: seq<Entry>)
    requires forall i :: 0 <= i < |ts| ==> StartsWith(ts[i], "EVALUE(")
    requires Declarations(Joined(ts)) == Some(es) && |es| <= |ts|
    ensures |es| == |ts| && (ts != [] ==> Parentheses(ts[0]) == 1)
  {
    forall i | 0 <= i < |ts| ensures Parentheses(ts[i]) >= 1 { StartsParenthesis(ts[i]); }
    JoinedParentheses(ts);
    DeclarationsChars(Joined(ts));
    if ts != [] { FirstParentheses(ts); }
  }

  lemma FirstParentheses(ts: seq<string>)
    requires ts != [] && forall i :: 0 <= i < |ts| ==> Parentheses(ts[i]) >= 1
    ensures Parentheses(Joined(ts)) >= Parentheses(ts[0]) + |ts| - 1
  {
    if |ts| == 1 {
      JoinedOne(ts);
    } else {
      JoinedMore(ts);
      JoinedTwo(ts[0], Joined(ts[1..]));
      JoinedParentheses(ts[1..]);
    }
  }

  lemma JoinedStart(ts: seq<string>)
    requires ts != [] && StartsWith(ts[0], "EVALUE(")
    ensures StartsWith(Joined(ts), "EVALUE(")
  {
    assert Joined(ts)[..|ts[0]|] == ts[0];
    assert Joined(ts)[..7] == ts[0][..7];
  }

  lemma OnlyLine(t: string, es: seq<Entry>)
    requires Stripped(t) && Parentheses(t) == 1 && Declarations(t) == Some(es)
    ensures EntryOf(t).Some? && es == [EntryOf(t).value]
  {
    StripNothing(t);
    if ',' in t {
      var p, q := Before(t, ','), After(t, ',');
      CommaEndsLine(t, q, es);
      assert t == p + [','] by { SplitAround(t, ','); }
      assert Piece(t) == p;
    } else {
      assert !EndsWith(t, ",") by { assert t[|t| - 1] in t; }
    }
  }

  /** Behind the comma of a line with one parenthesis nothing is left that declares one. */
  lemma CommaEndsLine(t: string, q: string, es: seq<Entry>)
    requires Stripped(t) && ',' in t && q == After(t, ',') && Parentheses(t) == 1
    requires Declarations(t) == Some(es)
    ensures q == [] && Declarations(q) == Some([]) && es == [Declaration(Strip(Before(t, ','))).value]
  {
    StripNothing(t);
    var p := Before(t, ',');
    SplitAround(t, ',');
    AfterIsShorter(t, ',');
    FirstHasParenthesis(p, q);
    DeclarationsChars(q);
    EmptyList(q);
    if q != [] { BlankEnd(p + [','], q); }
    assert es == [Declaration(Strip(p)).value] + [];
  }

  lemma FirstHasParenthesis(p: string, q: string)
    requires Declaration(Strip(p)).Some? && Parentheses(p + [','] + q) == 1
    ensures Parentheses(q) == 0
  {
    DeclarationChars(Strip(p));
    StripParentheses(p);
    assert multiset(p + [','] + q) == multiset(p) + multiset([',']) + multiset(q);
  }

  lemma BlankEnd(a: string, q: string)
    requires Strip(q) == [] && q != []
    ensures IsSpace((a + q)[|a + q| - 1])
  {
    var l, r := StripEnds(q);
    assert (a + q)[|a + q| - 1] == q[|q| - 1];
  }

  /** The first of several lines. */
  lemma FirstLine(t: string, more: string, es: seq<Entry>)
    requires Stripped(t) && Parentheses(t) == 1 && StartsWith(more, "EVALUE(")
    requires Declarations(t + (" " + more)) == Some(es)
    ensures EntryOf(t).Some? && EndsWith(t, ",") && es != [] && es[0] == EntryOf(t).value
    ensures Declarations(more) == Some(es[1..])
  {
    StartNotBlank(t, " " + more);
    CommaNeeded(t, more);
    CommaLast(t, more);
    var p := Before(t, ',');
    SplitAround(t, ',');
    PieceOf(t, p);
    assert t + (" " + more) == p + [','] + (" " + more);
    ListStart(p, " " + more);
    LeadingSpace(more);
  }

  lemma PieceOf(t: string, p: string)
    requires t == p + [',']
    ensures EndsWith(t, ",") && Piece(t) == p
  {
    assert t[|t| - 1..] == [','] && "," == [','];
  }

  lemma CommaLast(t: string, more: string)
    requires Stripped(t) && Parentheses(t) == 1 && StartsWith(more, "EVALUE(") && ',' in t
    requires Declarations(t + (" " + more)).Some?
    ensures After(t, ',') == []
  {
    var p, q := Before(t, ','), After(t, ',');
    SplitAround(t, ',');
    SplitList(p, q, more, t);
    FirstHasParenthesis(p, q);
    NothingBefore(q, more);
    if q != [] { BlankEnd(p + [','], q); }
  }

  lemma SplitList(p: string, q: string, more: string, t: string)
    requires t == p + [','] + q && ',' !in p && Declarations(t + (" " + more)).Some?
    ensures Declaration(Strip(p)).Some? && Declarations(q + (" " + more)).Some?
  {
    var rest := q + (" " + more);
    MoveBracket(p, q, " " + more);
    ListStart(p, rest);
  }

  lemma MoveBracket(p: string, q: string, more: string)
    ensures (p + [','] + q) + more == p + [','] + (q + more)
  {
  }

  lemma StartNotBlank(t: string, rest: string)
    requires Stripped(t)
    ensures Strip(t + rest) != []
  {
    assert (t + rest)[0] == t[0];
    StripKeeps(t + rest, t[0]);
  }

  /** A piece cannot hold the parentheses of two lines. */
  lemma CommaNeeded(t: string, more: string)
    requires Parentheses(t) == 1 && StartsWith(more, "EVALUE(")
    requires Declarations(t + (" " + more)).Some? && Strip(t + (" " + more)) != []
    ensures ',' in t
  {
    if ',' !in t {
      var m := Before(more, ',');
      FirstPiece(t + (" " + more));
      BeforeLater(t, " " + more, ',');
      BeforeLater(" ", more, ',');
      KeepsStart(more);
      StartsParenthesis(m);
      JoinedTwo(t, m);
    }
  }

  lemma KeepsStart(more: string)
    requires StartsWith(more, "EVALUE(")
    ensures StartsWith(Before(more, ','), "EVALUE(")
  {
    forall i | 0 <= i < 7 ensures more[i] == "EVALUE("[i] && more[i] != ',' { assert more[..7][i] == more[i]; }
    if ',' in more {
      SplitAround(more, ',');
      var m := Before(more, ',');
      assert more[|m|] == ',';
      assert m[..7] == more[..7];
    } else {
      BeforeAll(more, ',');
    }
  }

  /** Text without a parenthesis between a comma and the next line is blank. */
  lemma NothingBefore(q: string, more: string)
    requires Parentheses(q) == 0 && StartsWith(more, "EVALUE(")
    requires Declarations(q + (" " + more)).Some?
    ensures Strip(q) == []
  {
    MoreNotBlank(q, more);
    FirstPiece(q + (" " + more));
    if ',' in q {
      FewerBefore(q);
      BeforeSooner(q, " " + more, ',');
    } else {
      BeforeLater(q, " " + more, ',');
      BeforeLater(" ", more, ',');
      KeepsStart(more);
      BlankStart(q, Before(more, ','));
    }
  }

  lemma FewerBefore(q: string)
    requires ',' in q
    ensures Parentheses(Before(q, ',')) <= Parentheses(q)
  {
    SplitAround(q, ',');
    var a, b := Before(q, ','), [','] + After(q, ',');
    assert q == a + b && multiset(a + b) == multiset(a) + multiset(b);
  }

  lemma MoreNotBlank(q: string, more: string)
    requires StartsWith(more, "EVALUE(")
    ensures Strip(q + (" " + more)) != []
  {
    assert more[..7][0] == more[0] == 'E';
    assert (q + (" " + more))[|q| + 1] == 'E';
    StripKeeps(q + (" " + more), 'E');
  }

  /** An enumerator starts with the word before its parenthesis. */
  lemma BlankStart(q: string, m: string)
    requires Parentheses(q) == 0 && StartsWith(m, "EVALUE(")
    requires StartsWith(Strip(q + (" " + m)), "EVALUE(")
    ensures Strip(q) == []
  {
    var u := Strip(q + (" " + m));
    assert u[..7][6] == u[6] == '(';
    if StripLeft(q) != [] { OtherStart(q, m); }
  }

  lemma OtherStart(q: string, m: string)
    requires Parentheses(q) == 0 && StartsWith(m, "EVALUE(") && StripLeft(q) != []
    ensures var u := Strip(q + (" " + m)); |u| > 6 ==> u[6] != '('
  {
    StripLeftAppend(q, " " + m);
    var x, u := StripLeft(q), Strip(q + (" " + m));
    var l := StripLeftEnd(q);
    var r := StripRightEnd(x + (" " + m));
    assert |u| > 6 ==> (u + r)[6] == u[6];
    assert forall i :: 0 <= i < |x| ==> x[i] in q;
    NoClash(x, m);
  }

  lemma NoClash(x: string, m: string)
    requires x != [] && '(' !in x && StartsWith(m, "EVALUE(")
    ensures (x + (" " + m))[6] != '('
  {
    forall i | 0 <= i < 6 ensures m[i] == "EVALUE("[i] && m[i] != '(' { assert m[..7][i] == m[i]; }
  }

  lemma {:induction false} StripLeftAppend(a: string, b: string)
    ensures StripLeft(a + b) == if StripLeft(a) == [] then StripLeft(b) else StripLeft(a) + b
  {
    if a == [] {
      assert a + b == b;
    } else {
      assert (a + b)[1..] == a[1..] + b;
      if IsSpace(a[0]) { StripLeftAppend(a[1..], b); }
    }
  }
}
