/** Membership in regular expressions, and the rewrites that reduce it to lengths and characters. */
module RegExpRules {
  import opened Wrappers

  datatype RegExp =
    | Nothing
    | Str(s: string)
    | AllChar
    | Range(lo: char, hi: char)
    | Union(rs: seq<RegExp>)
    | Inter(rs: seq<RegExp>)
    | Concat(rs: seq<RegExp>)
    | Star(r: RegExp)
    | Complement(r: RegExp)

  function Flatten(parts: seq<string>): string {
    if parts == [] then [] else parts[0] + Flatten(parts[1..])
  }

  ghost predicate In(s: string, r: RegExp)
    decreases r
  {
    match r
    case Nothing => false
    case Str(t) => s == t
    case AllChar => |s| == 1
    case Range(lo, hi) => |s| == 1 && lo <= s[0] <= hi
    case Union(rs) => exists i :: 0 <= i < |rs| && In(s, rs[i])
    case Inter(rs) => forall i :: 0 <= i < |rs| ==> In(s, rs[i])
    case Concat(rs) =>
      exists parts: seq<string> ::
        |parts| == |rs| && Flatten(parts) == s && forall i :: 0 <= i < |rs| ==> In(parts[i], rs[i])
    case Star(q) =>
      exists parts: seq<string> ::
        Flatten(parts) == s && forall i :: 0 <= i < |parts| ==> In(parts[i], q)
    case Complement(q) => !In(s, q)
  }

  // ---------------------------------------------------------------------------
  // Fixed lengths
  // ---------------------------------------------------------------------------

  /** The length of all strings in the expression, if it can be read off. */
  function FixedLength(r: RegExp): Option<nat>
    decreases r, 1
  {
    match r
    case Str(s) => Some(|s|)
    case AllChar => Some(1)
    case Range(_, _) => Some(1)
    case Union(rs) => CommonLength(rs)
    case Inter(rs) => CommonLength(rs)
    case Concat(rs) => TotalLength(rs)
    case Nothing => None
    case Star(_) => None
    case Complement(_) => None
  }

  function CommonLength(rs: seq<RegExp>): Option<nat>
    decreases rs, 0
  {
    if rs == [] then None
    else if |rs| == 1 then FixedLength(rs[0])
    else
      var first, rest := FixedLength(rs[0]), CommonLength(rs[1..]);
      if first == rest then first else None
  }

  function TotalLength(rs: seq<RegExp>): Option<nat>
    decreases rs, 0
  {
    if rs == [] then Some(0)
    else match (FixedLength(rs[0]), TotalLength(rs[1..]))
         case (Some(m), Some(n)) => Some(m + n)
         case _ => None
  }

  lemma {:induction false} FixedLengthIsSound(r: RegExp, s: string)
    requires FixedLength(r).Some? && In(s, r)
    ensures |s| == FixedLength(r).value
    decreases r, 1
  {
    if r.Union? {
      var i :| 0 <= i < |r.rs| && In(s, r.rs[i]);
      CommonLengthIsSound(r.rs, s, i);
    } else if r.Inter? {
      CommonLengthIsSound(r.rs, s, 0);
    } else if r.Concat? {
      var parts :| |parts| == |r.rs| && Flatten(parts) == s && forall i :: 0 <= i < |r.rs| ==> In(parts[i], r.rs[i]);
      TotalLengthIsSound(r.rs, parts);
    }
  }

  lemma {:induction false} CommonLengthIsSound(rs: seq<RegExp>, s: string, i: nat)
    requires CommonLength(rs).Some? && i < |rs| && In(s, rs[i])
    ensures |s| == CommonLength(rs).value
    decreases rs, 0
  {
    if i == 0 {
      FixedLengthIsSound(rs[0], s);
    } else {
      CommonLengthIsSound(rs[1..], s, i - 1);
    }
  }

  lemma {:induction false} TotalLengthIsSound(rs: seq<RegExp>, parts: seq<string>)
    requires TotalLength(rs).Some? && |parts| == |rs|
    requires forall i :: 0 <= i < |rs| ==> In(parts[i], rs[i])
    ensures |Flatten(parts)| == TotalLength(rs).value
    decreases rs, 0
  {
    if rs != [] {
      FixedLengthIsSound(rs[0], parts[0]);
      TotalLengthIsSound(rs[1..], parts[1..]);
    }
  }

  // ---------------------------------------------------------------------------
  // Concatenations in a star of characters
  // ---------------------------------------------------------------------------

  function Characters(s: string): (r: seq<string>)
    ensures |r| == |s| && forall i :: 0 <= i < |s| ==> r[i] == [s[i]]
  {
    seq(|s|, i requires 0 <= i < |s| => [s[i]])
  }

  lemma {:induction false} FlattenCharacters(s: string)
    ensures Flatten(Characters(s)) == s
  {
    if s != [] {
      assert Characters(s)[1..] == Characters(s[1..]);
      FlattenCharacters(s[1..]);
    }
  }

  /** A character of a concatenation is a character of one of its parts. */
  lemma {:induction false} CharacterOfPart(parts: seq<string>, k: nat) returns (i: nat, j: nat)
    requires k < |Flatten(parts)|
    ensures i < |parts| && j < |parts[i]| && parts[i][j] == Flatten(parts)[k]
  {
    if k < |parts[0]| {
      i, j := 0, k;
    } else {
      var i', j' := CharacterOfPart(parts[1..], k - |parts[0]|);
      i, j := i' + 1, j';
    }
  }

  lemma {:induction false} CharacterInWhole(parts: seq<string>, i: nat, j: nat) returns (k: nat)
    requires i < |parts| && j < |parts[i]|
    ensures k < |Flatten(parts)| && Flatten(parts)[k] == parts[i][j]
  {
    if i == 0 {
      k := j;
    } else {
      k := CharacterInWhole(parts[1..], i - 1, j);
      k := k + |parts[0]|;
    }
  }

  /** Every character of a string in the expression is itself in the expression. */
  ghost predicate ByCharacters(r: RegExp) {
    forall s, i :: In(s, r) && 0 <= i < |s| ==> In([s[i]], r)
  }

  ghost predicate CharactersIn(s: string, r: RegExp) {
    forall i :: 0 <= i < |s| ==> In([s[i]], r)
  }

  lemma InStarIffCharacters(s: string, r: RegExp)
    requires ByCharacters(r)
    ensures In(s, Star(r)) <==> CharactersIn(s, r)
  {
    if In(s, Star(r)) {
      var parts :| Flatten(parts) == s && forall i :: 0 <= i < |parts| ==> In(parts[i], r);
      forall k | 0 <= k < |s| ensures In([s[k]], r) {
        var i, j := CharacterOfPart(parts, k);
        assert In(parts[i], r);
      }
    }
    if CharactersIn(s, r) {
      FlattenCharacters(s);
      assert forall i :: 0 <= i < |Characters(s)| ==> In(Characters(s)[i], r);
    }
  }

  lemma {:induction false} OneCharacterInStar(c: char, parts: seq<string>, r: RegExp)
    requires Flatten(parts) == [c] && forall i :: 0 <= i < |parts| ==> In(parts[i], r)
    ensures In([c], r)
  {
    if parts[0] == [] {
      OneCharacterInStar(c, parts[1..], r);
    } else {
      assert Flatten(parts)[0] == parts[0][0] && |parts[0]| == 1;
      assert parts[0] == [c];
    }
  }

  /** Membership of a concatenation in the star may be decided component by component. */
  ghost predicate Separates(r: RegExp) {
    forall ss: seq<string> ::
      In(Flatten(ss), Star(r)) <==> forall i :: 0 <= i < |ss| ==> In(ss[i], Star(r))
  }

  lemma SeparatesForOne(ss: seq<string>, r: RegExp)
    requires ByCharacters(r)
    ensures In(Flatten(ss), Star(r)) <==> forall i :: 0 <= i < |ss| ==> In(ss[i], Star(r))
  {
    InStarIffCharacters(Flatten(ss), r);
    forall i | 0 <= i < |ss| ensures In(ss[i], Star(r)) <==> CharactersIn(ss[i], r) {
      InStarIffCharacters(ss[i], r);
    }
    if CharactersIn(Flatten(ss), r) {
      forall i, j | 0 <= i < |ss| && 0 <= j < |ss[i]| ensures In([ss[i][j]], r) {
        var k := CharacterInWhole(ss, i, j);
      }
    }
    if forall i :: 0 <= i < |ss| ==> CharactersIn(ss[i], r) {
      forall k | 0 <= k < |Flatten(ss)| ensures In([Flatten(ss)[k]], r) {
        var i, j := CharacterOfPart(ss, k);
        assert CharactersIn(ss[i], r);
      }
    }
  }

  lemma SeparatesFrom(r: RegExp, s: string, i: nat)
    requires Separates(r) && In(s, r) && i < |s|
    ensures In([s[i]], r)
  {
    assert Flatten([s][1..]) == [] && Flatten([s]) == s;
    assert In(s, Star(r));
    FlattenCharacters(s);
    assert In(Characters(s)[i], Star(r));
    var parts :| Flatten(parts) == [s[i]] && forall j :: 0 <= j < |parts| ==> In(parts[j], r);
    OneCharacterInStar(s[i], parts, r);
  }

  /** The rewrite is right for an expression exactly when each character of each of its
      strings is one of its strings. */
  lemma SeparatesIffByCharacters(r: RegExp)
    ensures Separates(r) <==> ByCharacters(r)
  {
    if ByCharacters(r) {
      forall ss: seq<string>
        ensures In(Flatten(ss), Star(r)) <==> forall i :: 0 <= i < |ss| ==> In(ss[i], Star(r))
      {
        SeparatesForOne(ss, r);
      }
    } else if Separates(r) {
      forall s, i | In(s, r) && 0 <= i < |s| ensures In([s[i]], r) { SeparatesFrom(r, s, i); }
      assert false;
    }
  }

  lemma LengthOneByCharacters(r: RegExp)
    requires FixedLength(r) == Some(1)
    ensures ByCharacters(r)
  {
    forall s, i | In(s, r) && 0 <= i < |s| ensures In([s[i]], r) {
      FixedLengthIsSound(r, s);
      assert s == [s[i]];
    }
  }

  /** STR_IN_RE_CONCAT_STAR_CHAR: its guard, a fixed length of one, is enough. */
  lemma ConcatStarChar(r: RegExp)
    requires FixedLength(r) == Some(1)
    ensures Separates(r)
  {
    LengthOneByCharacters(r);
    SeparatesIffByCharacters(r);
  }

  // ---------------------------------------------------------------------------
  // Concatenations of arbitrary characters
  // ---------------------------------------------------------------------------

  /** Whether a concatenation has only `re.allchar` components, and their number; none when a
      component is neither `re.allchar` nor its star. */
  function Sigma(rs: seq<RegExp>): Option<(bool, nat)> {
    if rs == [] then Some((true, 0))
    else match (rs[0], Sigma(rs[1..]))
         case (AllChar, Some((strict, n))) => Some((strict, n + 1))
         case (Star(AllChar), Some((_, n))) => Some((false, n))
         case _ => None
  }

  /** The parts are in the expressions one by one. */
  ghost predicate Parts(parts: seq<string>, rs: seq<RegExp>) {
    |parts| == |rs| && forall i :: 0 <= i < |rs| ==> In(parts[i], rs[i])
  }

  lemma ConcatParts(s: string, rs: seq<RegExp>)
    ensures In(s, Concat(rs)) <==> exists parts: seq<string> :: Flatten(parts) == s && Parts(parts, rs)
  {
    if In(s, Concat(rs)) {
      var parts: seq<string> :|
        |parts| == |rs| && Flatten(parts) == s && forall i :: 0 <= i < |rs| ==> In(parts[i], rs[i]);
      assert Parts(parts, rs);
    }
  }

  lemma PartsSplit(part: string, parts: seq<string>, rs: seq<RegExp>)
    requires rs != []
    ensures Parts([part] + parts, rs) <==> In(part, rs[0]) && Parts(parts, rs[1..])
  {
    var all, tail := [part] + parts, rs[1..];
    if Parts(all, rs) {
      assert all[0] == part;
      forall i | 0 <= i < |tail| ensures In(parts[i], tail[i]) {
        assert all[i + 1] == parts[i] && rs[i + 1] == tail[i];
      }
    }
    if In(part, rs[0]) && Parts(parts, tail) {
      forall i | 0 <= i < |rs| ensures In(all[i], rs[i]) {
        if i > 0 { assert all[i] == parts[i - 1] && rs[i] == tail[i - 1]; }
      }
    }
  }

  lemma SplitOff(s: string, rs: seq<RegExp>) returns (k: nat)
    requires rs != [] && In(s, Concat(rs))
    ensures k <= |s| && In(s[..k], rs[0]) && In(s[k..], Concat(rs[1..]))
  {
    ConcatParts(s, rs);
    var parts :| Flatten(parts) == s && Parts(parts, rs);
    k := |parts[0]|;
    FlattenSplit(parts);
    FirstPart(parts, rs);
  }

  lemma FirstPart(parts: seq<string>, rs: seq<RegExp>)
    requires parts != [] && rs != [] && Parts(parts, rs)
    ensures In(parts[0], rs[0]) && In(Flatten(parts[1..]), Concat(rs[1..]))
  {
    assert parts == [parts[0]] + parts[1..];
    PartsSplit(parts[0], parts[1..], rs);
    ConcatParts(Flatten(parts[1..]), rs[1..]);
  }

  lemma FlattenSplit(parts: seq<string>)
    requires parts != []
    ensures var s, k := Flatten(parts), |parts[0]|;
            k <= |s| && s[..k] == parts[0] && s[k..] == Flatten(parts[1..])
  {
  }

  lemma PutTogether(s: string, t: string, rs: seq<RegExp>)
    requires rs != [] && In(s, rs[0]) && In(t, Concat(rs[1..]))
    ensures In(s + t, Concat(rs))
  {
    ConcatParts(t, rs[1..]);
    var rest :| Flatten(rest) == t && Parts(rest, rs[1..]);
    PartsSplit(s, rest, rs);
    assert ([s] + rest)[1..] == rest;
    assert Flatten([s] + rest) == s + t;
    ConcatParts(s + t, rs);
  }

  ghost predicate SplitsAt(s: string, k: nat, rs: seq<RegExp>)
    requires rs != []
  {
    k <= |s| && In(s[..k], rs[0]) && In(s[k..], Concat(rs[1..]))
  }

  lemma ConcatSplit(s: string, rs: seq<RegExp>)
    requires rs != []
    ensures In(s, Concat(rs)) <==> exists k :: SplitsAt(s, k, rs)
  {
    if In(s, Concat(rs)) {
      var k := SplitOff(s, rs);
      assert SplitsAt(s, k, rs);
    }
    if k: nat :| SplitsAt(s, k, rs) {
      assert s == s[..k] + s[k..];
      PutTogether(s[..k], s[k..], rs);
    }
  }

  lemma AnyInStar(s: string)
    ensures In(s, Star(AllChar))
  {
    FlattenCharacters(s);
    assert forall i :: 0 <= i < |Characters(s)| ==> In(Characters(s)[i], AllChar);
  }

  /** STR_IN_RE_SIGMA: the length decides, wherever the stars stand. */
  lemma {:induction false} SigmaDecides(s: string, rs: seq<RegExp>)
    requires Sigma(rs).Some?
    ensures var (strict, n) := Sigma(rs).value;
            In(s, Concat(rs)) <==> if strict then |s| == n else |s| >= n
  {
    if rs == [] {
      if s == [] { assert Flatten([]) == s; }
      assert In(s, Concat(rs)) ==> s == [];
    } else {
      ConcatSplit(s, rs);
      forall k | 0 <= k <= |s|
        ensures var (strict, n) := Sigma(rs[1..]).value;
                In(s[k..], Concat(rs[1..])) <==> if strict then |s| - k == n else |s| - k >= n
      {
        SigmaDecides(s[k..], rs[1..]);
      }
      if rs[0].AllChar? {
        assert |s| >= 1 ==> In(s[..1], rs[0]);
        assert |s| >= 1 ==> (SplitsAt(s, 1, rs) <==> In(s[1..], Concat(rs[1..])));
      } else {
        forall k | 0 <= k <= |s| ensures In(s[..k], rs[0]) { AnyInStar(s[..k]); }
        var (strict, n) := Sigma(rs[1..]).value;
        if |s| >= n {
          assert SplitsAt(s, |s| - n, rs);
        }
      }
    }
  }

  function AllChars(n: nat): (r: seq<RegExp>)
    ensures |r| == n && forall i :: 0 <= i < n ==> r[i] == AllChar
  {
    seq(n, i => AllChar)
  }

  lemma {:induction false} SigmaOfAllChars(n: nat)
    ensures Sigma(AllChars(n)) == Some((true, n))
  {
    if n > 0 {
      assert AllChars(n)[1..] == AllChars(n - 1);
      SigmaOfAllChars(n - 1);
    }
  }

  lemma {:induction false} EqualParts(parts: seq<string>, n: nat)
    requires n >= 1 && forall i :: 0 <= i < |parts| ==> |parts[i]| == n
    ensures |Flatten(parts)| % n == 0
  {
    if parts != [] {
      EqualParts(parts[1..], n);
      AddMultiple(|Flatten(parts[1..])|, n);
    }
  }

  lemma AddMultiple(a: nat, n: nat)
    requires n >= 1
    ensures (a + n) % n == a % n
  {
    var q, r := (a + n) / n, a / n;
    assert n * (q - 1 - r) == a % n - (a + n) % n;
    var d := q - 1 - r;
    assert d >= 1 ==> n * d >= n;
    assert d <= -1 ==> n * d <= 0 - n;
  }

  lemma {:induction false} CutEvenly(s: string, n: nat) returns (parts: seq<string>)
    requires n >= 1 && |s| % n == 0
    ensures Flatten(parts) == s && forall i :: 0 <= i < |parts| ==> |parts[i]| == n
    decreases |s|
  {
    if s == [] {
      parts := [];
    } else {
      assert |s| >= n;
      AddMultiple(|s| - n, n);
      var rest := CutEvenly(s[n..], n);
      parts := [s[..n]] + rest;
      assert parts[1..] == rest;
    }
  }

  lemma InAllChars(s: string, n: nat)
    ensures In(s, Concat(AllChars(n))) <==> |s| == n
  {
    SigmaOfAllChars(n);
    SigmaDecides(s, AllChars(n));
  }

  lemma StarOfAllChars(s: string, n: nat, parts: seq<string>)
    requires Flatten(parts) == s && forall i :: 0 <= i < |parts| ==> |parts[i]| == n
    ensures In(s, Star(Concat(AllChars(n))))
  {
    forall i | 0 <= i < |parts| ensures In(parts[i], Concat(AllChars(n))) { InAllChars(parts[i], n); }
  }

  /** STR_IN_RE_SIGMA_STAR: membership is divisibility of the length. */
  lemma SigmaStar(s: string, n: nat)
    requires n >= 1
    ensures In(s, Star(Concat(AllChars(n)))) <==> |s| % n == 0
  {
    var r := Concat(AllChars(n));
    if In(s, Star(r)) {
      var parts :| Flatten(parts) == s && forall i :: 0 <= i < |parts| ==> In(parts[i], r);
      forall i | 0 <= i < |parts| ensures |parts[i]| == n { InAllChars(parts[i], n); }
      EqualParts(parts, n);
    }
    if |s| % n == 0 {
      var parts := CutEvenly(s, n);
      StarOfAllChars(s, n, parts);
    }
  }

  // ---------------------------------------------------------------------------
  // When a length can be read off
  // ---------------------------------------------------------------------------

  lemma {:induction false} CommonLengthIff(rs: seq<RegExp>, n: nat)
    ensures CommonLength(rs) == Some(n) <==>
            rs != [] && forall i :: 0 <= i < |rs| ==> FixedLength(rs[i]) == Some(n)
  {
    if |rs| > 1 {
      CommonLengthIff(rs[1..], n);
      assert forall i :: 0 < i < |rs| ==> rs[i] == rs[1..][i - 1];
    }
  }

  lemma {:induction false} TotalLengthIff(rs: seq<RegExp>)
    ensures TotalLength(rs).Some? <==> forall i :: 0 <= i < |rs| ==> FixedLength(rs[i]).Some?
  {
    if rs != [] {
      TotalLengthIff(rs[1..]);
      assert forall i :: 0 < i < |rs| ==> rs[i] == rs[1..][i - 1];
    }
  }

  /** Literals, characters and ranges that are not empty, and their unions and concatenations. */
  predicate Positive(r: RegExp)
    decreases r, 1
  {
    match r
    case Str(_) => true
    case AllChar => true
    case Range(lo, hi) => lo <= hi
    case Union(rs) => rs != [] && AllPositive(rs)
    case Concat(rs) => AllPositive(rs)
    case _ => false
  }

  predicate AllPositive(rs: seq<RegExp>)
    decreases rs, 0
  {
    rs == [] || (Positive(rs[0]) && AllPositive(rs[1..]))
  }

  lemma {:induction false} PositiveAt(rs: seq<RegExp>, i: nat)
    requires AllPositive(rs) && i < |rs|
    ensures Positive(rs[i])
  {
    if i > 0 { PositiveAt(rs[1..], i - 1); }
  }

  lemma {:induction false} Inhabited(r: RegExp) returns (s: string)
    requires Positive(r)
    ensures In(s, r)
    decreases r, 1
  {
    match r {
      case Str(t) => s := t;
      case AllChar => s := "a";
      case Range(lo, _) => s := [lo];
      case Union(rs) => s := Inhabited(rs[0]);
      case Concat(rs) => s := InhabitedAll(rs);
    }
  }

  lemma {:induction false} InhabitedAll(rs: seq<RegExp>) returns (s: string)
    requires AllPositive(rs)
    ensures In(s, Concat(rs))
    decreases rs, 0
  {
    if rs == [] {
      s := [];
      assert Flatten([]) == s;
    } else {
      var first := Inhabited(rs[0]);
      var rest := InhabitedAll(rs[1..]);
      s := first + rest;
      PutTogether(first, rest, rs);
    }
  }

  ghost predicate AllOfLength(r: RegExp, n: nat) {
    forall s :: In(s, r) ==> |s| == n
  }

  lemma {:induction false} LengthIsFound(r: RegExp, n: nat)
    requires Positive(r) && AllOfLength(r, n)
    ensures FixedLength(r) == Some(n)
    decreases r, 1
  {
    var s := Inhabited(r);
    assert |s| == n;
    match r {
      case Str(_) =>
      case AllChar =>
      case Range(_, _) =>
      case Union(rs) =>
        forall i | 0 <= i < |rs| ensures FixedLength(rs[i]) == Some(n) {
          PositiveAt(rs, i);
          assert forall t :: In(t, rs[i]) ==> In(t, r);
          LengthIsFound(rs[i], n);
        }
        CommonLengthIff(rs, n);
      case Concat(rs) => TotalIsFound(rs, n);
    }
  }

  lemma {:induction false} TotalIsFound(rs: seq<RegExp>, n: nat)
    requires AllPositive(rs) && AllOfLength(Concat(rs), n)
    ensures TotalLength(rs) == Some(n)
    decreases rs, 0
  {
    if rs == [] {
      NothingIsEmpty(rs, n);
    } else {
      var k := LengthsAdd(rs, n);
      LengthIsFound(rs[0], k);
      TotalIsFound(rs[1..], n - k);
      TotalOfTail(rs, k, n);
    }
  }

  lemma NothingIsEmpty(rs: seq<RegExp>, n: nat)
    requires rs == [] && AllOfLength(Concat(rs), n)
    ensures TotalLength(rs) == Some(n)
  {
    var s: string := [];
    ConcatParts(s, rs);
    assert Flatten([]) == s && Parts([], rs);
    assert In(s, Concat(rs)) ==> |s| == n;
  }

  lemma TotalOfTail(rs: seq<RegExp>, m: nat, n: nat)
    requires rs != [] && m <= n && FixedLength(rs[0]) == Some(m) && TotalLength(rs[1..]) == Some(n - m)
    ensures TotalLength(rs) == Some(n)
  {
  }

  /** When all strings of a concatenation have the same length, so do those of its parts. */
  lemma LengthsAdd(rs: seq<RegExp>, n: nat) returns (k: nat)
    requires rs != [] && AllPositive(rs) && AllOfLength(Concat(rs), n)
    ensures k <= n && AllOfLength(rs[0], k) && AllOfLength(Concat(rs[1..]), n - k)
  {
    var first := Inhabited(rs[0]);
    var rest := InhabitedAll(rs[1..]);
    k := |first|;
    PutTogether(first, rest, rs);
    assert |first + rest| == n;
    forall s | In(s, rs[0]) ensures |s| == k {
      PutTogether(s, rest, rs);
      assert |s + rest| == n;
    }
    forall s | In(s, Concat(rs[1..])) ensures |s| == n - k {
      PutTogether(first, s, rs);
      assert |first + s| == n;
    }
  }

  /** For literals, characters, ranges, unions and concatenations, a length is read off exactly
      when all strings of the expression have it. */
  lemma FixedLengthIff(r: RegExp, n: nat)
    requires Positive(r)
    ensures FixedLength(r) == Some(n) <==> forall s :: In(s, r) ==> |s| == n
  {
    if FixedLength(r) == Some(n) {
      forall s | In(s, r) ensures |s| == n { FixedLengthIsSound(r, s); }
    } else if AllOfLength(r, n) {
      LengthIsFound(r, n);
    }
  }

  /** An intersection is read as a union is, and nothing is read off the others. */
  lemma OtherLengths(r: RegExp, rs: seq<RegExp>)
    ensures FixedLength(Inter(rs)) == FixedLength(Union(rs))
    ensures FixedLength(Star(r)) == FixedLength(Complement(r)) == FixedLength(Nothing) == None
  {
  }

  /** The rewrite applies to exactly the concatenations of `re.allchar` and its stars; a star
      makes the bound a lower one. */
  lemma {:induction false} SigmaIff(rs: seq<RegExp>)
    ensures Sigma(rs).Some? <==> forall i :: 0 <= i < |rs| ==> rs[i] == AllChar || rs[i] == Star(AllChar)
    ensures Sigma(rs).Some? ==> Sigma(rs).value == (Star(AllChar) !in rs, multiset(rs)[AllChar])
  {
    if rs != [] {
      SigmaIff(rs[1..]);
      assert rs == [rs[0]] + rs[1..];
      assert multiset(rs) == multiset{rs[0]} + multiset(rs[1..]);
      assert forall i :: 0 < i < |rs| ==> rs[i] == rs[1..][i - 1];
    }
  }
}
