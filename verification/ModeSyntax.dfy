/** The symbolic mode language the compiler accepts, and a parser for it. */
module ModeSyntax {
  import opened Options

  /** `+` or `-` and the letters behind it. */
  datatype Clause = Clause(add: bool, letters: string)

  /** The letters that choose groups, and the clauses. */
  datatype ModeExpr = ModeExpr(who: string, clauses: seq<Clause>)

  predicate IsWho(c: char) { c == 'u' || c == 'g' || c == 'o' || c == 'a' }

  predicate IsOp(c: char) { c == '+' || c == '-' }

  predicate IsPerm(c: char) { c == 'r' || c == 'w' || c == 'x' }

  predicate IsGroup(c: char) { c == 'u' || c == 'g' || c == 'o' }

  /** Which letters a clause is made of: `ugo` when `copied`, otherwise `rwx`. */
  predicate IsLetter(c: char, copied: bool) {
    if copied then IsGroup(c) else IsPerm(c)
  }

  predicate AllLetters(s: string, copied: bool) {
    forall i :: 0 <= i < |s| ==> IsLetter(s[i], copied)
  }

  predicate WellFormedClause(c: Clause) {
    AllLetters(c.letters, false) || AllLetters(c.letters, true)
  }

  /** Clauses of the grammar `([-+]([rwx]+|[ugo]+))* [-+]([rwx]*|[ugo]*)`. */
  ghost predicate WellFormedClauses(cs: seq<Clause>) {
    && cs != []
    && (forall i :: 0 <= i < |cs| ==> WellFormedClause(cs[i]))
    && (forall i :: 0 <= i < |cs| - 1 ==> cs[i].letters != "")
  }

  /** Derivations of the grammar `[ugoa]* ([-+]([rwx]+|[ugo]+))* [-+]([rwx]*|[ugo]*)`. */
  ghost predicate WellFormed(d: ModeExpr) {
    (forall i :: 0 <= i < |d.who| ==> IsWho(d.who[i])) && WellFormedClauses(d.clauses)
  }

  function OpOf(add: bool): char {
    if add then '+' else '-'
  }

  function ShowClauses(cs: seq<Clause>): string {
    if cs == [] then "" else [OpOf(cs[0].add)] + cs[0].letters + ShowClauses(cs[1..])
  }

  /** The string a derivation derives. */
  function Show(d: ModeExpr): string {
    d.who + ShowClauses(d.clauses)
  }

  // ----- a parser -------------------------------------------------------------------------------

  /** Clauses from `s` on, where `s` begins with the operator of the first one. */
  function ParseClauses(s: string): Option<seq<Clause>>
    requires s != "" && IsOp(s[0])
    decreases |s|, 0
  {
    var add := s[0] == '+';
    if |s| == 1 then Some([Clause(add, "")])
    else if IsGroup(s[1]) then ParseLetters(add, true, "", s[1..])
    else if IsPerm(s[1]) then ParseLetters(add, false, "", s[1..])
    else None
  }

  /** Clauses from the middle of a clause on: `before` are the letters already read, `s` begins with the next
      one. */
  function ParseLetters(add: bool, copied: bool, before: string, s: string): Option<seq<Clause>>
    requires s != "" && IsLetter(s[0], copied)
    decreases |s|, 1
  {
    var letters := before + [s[0]];
    if |s| == 1 then Some([Clause(add, letters)])
    else if IsLetter(s[1], copied) then ParseLetters(add, copied, letters, s[1..])
    else if IsOp(s[1]) then
      match ParseClauses(s[1..])
      case None => None
      case Some(cs) => Some([Clause(add, letters)] + cs)
    else None
  }

  function ParseWho(before: string, s: string): Option<ModeExpr>
    decreases |s|
  {
    if s == "" then None
    else if IsOp(s[0]) then
      match ParseClauses(s)
      case None => None
      case Some(cs) => Some(ModeExpr(before, cs))
    else if IsWho(s[0]) then ParseWho(before + [s[0]], s[1..])
    else None
  }

  function Parse(s: string): Option<ModeExpr> {
    ParseWho("", s)
  }

  // ----- the parser is exact --------------------------------------------------------------------

  lemma {:induction false} ParseClausesSound(s: string)
    requires s != "" && IsOp(s[0]) && ParseClauses(s).Some?
    ensures WellFormedClauses(ParseClauses(s).value) && ShowClauses(ParseClauses(s).value) == s
    decreases |s|, 0
  {
    var add := s[0] == '+';
    if |s| > 1 {
      ParseLettersSound(add, IsGroup(s[1]), "", s[1..]);
    } else {
      assert ShowClauses([Clause(add, "")]) == [s[0]] == s;
    }
  }

  lemma {:induction false} ConsWellFormed(c: Clause, rest: seq<Clause>)
    requires WellFormedClause(c) && c.letters != "" && WellFormedClauses(rest)
    ensures WellFormedClauses([c] + rest) && ShowClauses([c] + rest) == [OpOf(c.add)] + c.letters + ShowClauses(rest)
  {
    var cs := [c] + rest;
    assert cs[1..] == rest;
    assert forall i :: 0 < i < |cs| ==> cs[i] == rest[i - 1];
  }

  lemma {:induction false} ParseLettersSound(add: bool, copied: bool, before: string, s: string)
    requires s != "" && IsLetter(s[0], copied) && AllLetters(before, copied)
    requires ParseLetters(add, copied, before, s).Some?
    ensures var cs := ParseLetters(add, copied, before, s).value;
      WellFormedClauses(cs) && cs[0].letters != "" && ShowClauses(cs) == [OpOf(add)] + before + s
    decreases |s|, 1
  {
    var letters := before + [s[0]];
    if |s| == 1 {
      assert ShowClauses([Clause(add, letters)]) == [OpOf(add)] + letters;
    } else if IsLetter(s[1], copied) {
      ParseLettersSound(add, copied, letters, s[1..]);
      assert letters + s[1..] == before + s;
    } else {
      ParseClausesSound(s[1..]);
      ConsWellFormed(Clause(add, letters), ParseClauses(s[1..]).value);
      assert letters + s[1..] == before + s;
    }
  }

  lemma {:induction false} ParseWhoSound(before: string, s: string)
    requires forall i :: 0 <= i < |before| ==> IsWho(before[i])
    requires ParseWho(before, s).Some?
    ensures WellFormed(ParseWho(before, s).value) && Show(ParseWho(before, s).value) == before + s
    decreases |s|
  {
    if IsOp(s[0]) {
      ParseClausesSound(s);
    } else {
      ParseWhoSound(before + [s[0]], s[1..]);
      assert before + [s[0]] + s[1..] == before + s;
    }
  }

  lemma {:induction false} ParseClausesComplete(cs: seq<Clause>)
    requires WellFormedClauses(cs)
    ensures ShowClauses(cs) != "" && IsOp(ShowClauses(cs)[0])
    ensures ParseClauses(ShowClauses(cs)) == Some(cs)
    decreases |cs|, 1, 0
  {
    var s := ShowClauses(cs);
    var c := cs[0];
    assert WellFormedClause(c);
    assert s == [OpOf(c.add)] + (c.letters + ShowClauses(cs[1..]));
    if c.letters == "" {
      assert |cs| == 1 && cs == [Clause(c.add, "")];
    } else {
      var copied := IsGroup(c.letters[0]);
      assert AllLetters(c.letters, copied);
      assert s[1..] == c.letters + ShowClauses(cs[1..]);
      ParseLettersComplete(cs, copied, 0);
      assert c.letters[..0] == "" && c.letters[0..] == c.letters;
    }
  }

  lemma {:induction false} ParseLettersComplete(cs: seq<Clause>, copied: bool, k: nat)
    requires WellFormedClauses(cs) && k < |cs[0].letters| && AllLetters(cs[0].letters, copied)
    ensures var s := cs[0].letters[k..] + ShowClauses(cs[1..]);
      ParseLetters(cs[0].add, copied, cs[0].letters[..k], s) == Some(cs)
    decreases |cs|, 0, |cs[0].letters| - k
  {
    var c, more := cs[0], ShowClauses(cs[1..]);
    var s := c.letters[k..] + more;
    assert s[0] == c.letters[k] && c.letters[..k] + [c.letters[k]] == c.letters[..k + 1];
    if k + 1 < |c.letters| {
      ParseLettersComplete(cs, copied, k + 1);
      assert s[1..] == c.letters[k + 1..] + more;
    } else {
      assert s == [c.letters[k]] + more && s[1..] == more;
      assert c.letters[..k + 1] == c.letters;
      if |cs| == 1 {
        assert cs == [c];
      } else {
        assert WellFormedClauses(cs[1..]) by {
          assert forall i :: 0 <= i < |cs[1..]| ==> cs[1..][i] == cs[i + 1];
        }
        ParseClausesComplete(cs[1..]);
        assert cs == [c] + cs[1..];
      }
    }
  }

  lemma {:induction false} ParseWhoComplete(before: string, who: string, cs: seq<Clause>, shown: string)
    requires WellFormedClauses(cs) && shown == ShowClauses(cs) && forall i :: 0 <= i < |who| ==> IsWho(who[i])
    ensures ParseWho(before, who + shown) == Some(ModeExpr(before + who, cs))
    decreases |who|
  {
    var s := who + shown;
    if who == "" {
      ParseClausesComplete(cs);
      assert s == shown && before + who == before;
    } else {
      ParseWhoComplete(before + [who[0]], who[1..], cs, shown);
      assert s[0] == who[0] && s[1..] == who[1..] + shown;
      assert before + [who[0]] + who[1..] == before + who;
    }
  }

  /** The parser accepts exactly the derivable strings, and a string has one derivation only. */
  lemma {:induction false} ParseExact(s: string, d: ModeExpr)
    ensures Parse(s) == Some(d) <==> WellFormed(d) && Show(d) == s
  {
    if Parse(s) == Some(d) {
      ParseWhoSound("", s);
      assert "" + s == s;
    }
    if WellFormed(d) && Show(d) == s {
      ParseWhoComplete("", d.who, d.clauses, ShowClauses(d.clauses));
      assert "" + d.who == d.who;
    }
  }

  /** Acceptance is membership in the language of the grammar. */
  lemma {:induction false} AcceptsExactly(s: string)
    ensures Parse(s).Some? <==> exists d :: WellFormed(d) && Show(d) == s
  {
    if Parse(s).Some? {
      ParseExact(s, Parse(s).value);
    }
    forall d | WellFormed(d) && Show(d) == s
      ensures Parse(s).Some?
    {
      ParseExact(s, d);
    }
  }

  // ----- the language of the program's own comment ----------------------------------------------

  /** A clause of `[-+=]([rwxXst]*|[ugo])`. */
  datatype DocClause = DocClause(op: char, letters: string)

  predicate IsDocOp(c: char) { IsOp(c) || c == '=' }

  predicate IsDocPerm(c: char) { IsPerm(c) || c == 'X' || c == 's' || c == 't' }

  predicate DocumentedClause(c: DocClause) {
    && IsDocOp(c.op)
    && ((|c.letters| == 1 && IsGroup(c.letters[0])) || forall i :: 0 <= i < |c.letters| ==> IsDocPerm(c.letters[i]))
  }

  /** Derivations of the comment's `[ugoa]*([-+=]([rwxXst]*|[ugo]))+`. */
  ghost predicate Documented(who: string, cs: seq<DocClause>) {
    && (forall i :: 0 <= i < |who| ==> IsWho(who[i]))
    && cs != [] && (forall i :: 0 <= i < |cs| ==> DocumentedClause(cs[i]))
  }

  function ShowDoc(cs: seq<DocClause>): string {
    if cs == [] then "" else [cs[0].op] + cs[0].letters + ShowDoc(cs[1..])
  }

  function Derived(who: string, cs: seq<DocClause>): string {
    who + ShowDoc(cs)
  }

  /** What the automaton supports of it: no `=`, no `X`, `s` or `t`, and an empty clause at the end only. */
  predicate Supported(cs: seq<DocClause>) {
    && (forall i :: 0 <= i < |cs| ==> IsOp(cs[i].op))
    && (forall i :: 0 <= i < |cs| ==> AllLetters(cs[i].letters, false) || AllLetters(cs[i].letters, true))
    && (forall i :: 0 <= i < |cs| - 1 ==> cs[i].letters != "")
  }

  function Undocument(cs: seq<DocClause>): (out: seq<Clause>)
    ensures |out| == |cs| && forall i :: 0 <= i < |cs| ==> out[i] == Clause(cs[i].op == '+', cs[i].letters)
  {
    if cs == [] then [] else [Clause(cs[0].op == '+', cs[0].letters)] + Undocument(cs[1..])
  }

  predicate IsText(c: char) { IsWho(c) || IsPerm(c) }

  /** Only supported characters, and never an operator behind an operator. */
  predicate Clean(s: string, behindOp: bool) {
    s == "" || (if IsOp(s[0]) then !behindOp && Clean(s[1..], true) else IsText(s[0]) && Clean(s[1..], false))
  }

  lemma {:induction false} CleanLetters(letters: string, rest: string, behindOp: bool)
    requires forall i :: 0 <= i < |letters| ==> !IsOp(letters[i])
    ensures Clean(letters + rest, behindOp) <==>
      (forall i :: 0 <= i < |letters| ==> IsText(letters[i])) && Clean(rest, behindOp && letters == "")
  {
    if letters == "" {
      assert letters + rest == rest;
    } else {
      assert (letters + rest)[1..] == letters[1..] + rest;
      CleanLetters(letters[1..], rest, false);
      assert forall i :: 0 < i < |letters| ==> letters[i] == letters[1..][i - 1];
    }
  }

  lemma {:induction false} ShowIsClean(cs: seq<Clause>)
    requires WellFormedClauses(cs)
    ensures Clean(ShowClauses(cs), false)
    decreases |cs|
  {
    var c, rest := cs[0], ShowClauses(cs[1..]);
    assert WellFormedClause(c);
    assert ShowClauses(cs) == [OpOf(c.add)] + (c.letters + rest);
    if |cs| > 1 {
      assert forall i :: 0 <= i < |cs[1..]| ==> cs[1..][i] == cs[i + 1];
      ShowIsClean(cs[1..]);
    }
    CleanLetters(c.letters, rest, true);
  }

  lemma {:induction false} HeadIsSupported(c: DocClause, rest: string, behindOp: bool)
    requires DocumentedClause(c) && Clean([c.op] + (c.letters + rest), behindOp)
    ensures IsOp(c.op) && !behindOp && Clean(rest, c.letters == "")
    ensures AllLetters(c.letters, false) || AllLetters(c.letters, true)
  {
    assert ([c.op] + (c.letters + rest))[1..] == c.letters + rest;
    CleanLetters(c.letters, rest, true);
  }

  lemma {:induction false} SupportedCons(c: DocClause, cs: seq<DocClause>)
    requires IsOp(c.op) && (AllLetters(c.letters, false) || AllLetters(c.letters, true))
    requires cs == [] || (Supported(cs) && c.letters != "")
    ensures Supported([c] + cs)
  {
    assert forall i :: 0 < i < |[c] + cs| ==> ([c] + cs)[i] == cs[i - 1];
  }

  lemma {:induction false} CleanIsSupported(cs: seq<DocClause>, behindOp: bool)
    requires cs != [] && (forall i :: 0 <= i < |cs| ==> DocumentedClause(cs[i])) && Clean(ShowDoc(cs), behindOp)
    ensures Supported(cs) && !behindOp
    decreases |cs|
  {
    var c, tail := cs[0], cs[1..];
    assert cs == [c] + tail;
    assert Clean([c.op] + (c.letters + ShowDoc(tail)), behindOp) by {
      ShowDocCons(c, tail);
    }
    HeadIsSupported(c, ShowDoc(tail), behindOp);
    if tail != [] {
      forall i | 0 <= i < |tail|
        ensures DocumentedClause(tail[i])
      {
        assert tail[i] == cs[i + 1];
      }
      CleanIsSupported(tail, c.letters == "");
    }
    SupportedCons(c, tail);
  }

  lemma {:induction false} ShowDocCons(c: DocClause, tail: seq<DocClause>)
    ensures ShowDoc([c] + tail) == [c.op] + (c.letters + ShowDoc(tail))
  {
    assert ([c] + tail)[1..] == tail;
  }

  lemma {:induction false} ShowUndocumented(cs: seq<DocClause>)
    requires forall i :: 0 <= i < |cs| ==> IsOp(cs[i].op)
    ensures ShowClauses(Undocument(cs)) == ShowDoc(cs)
    decreases |cs|
  {
    if cs != [] {
      assert forall i :: 0 <= i < |cs[1..]| ==> cs[1..][i] == cs[i + 1];
      ShowUndocumented(cs[1..]);
      assert Undocument(cs)[1..] == Undocument(cs[1..]);
    }
  }

  lemma {:induction false} SupportedDerivation(who: string, cs: seq<DocClause>)
    requires Documented(who, cs) && Supported(cs)
    ensures Parse(Derived(who, cs)) == Some(ModeExpr(who, Undocument(cs)))
  {
    var d := ModeExpr(who, Undocument(cs));
    ShowUndocumented(cs);
    assert WellFormedClauses(d.clauses);
    ParseExact(Show(d), d);
  }

  /** Of the strings the comment documents, the automaton accepts exactly those with a supported derivation. */
  lemma {:induction false} DocumentedAccepted(who: string, cs: seq<DocClause>)
    requires Documented(who, cs)
    ensures Parse(Derived(who, cs)).Some? <==> Supported(cs)
  {
    var s := Derived(who, cs);
    if Parse(s).Some? {
      var d := Parse(s).value;
      ParseExact(s, d);
      ShowIsClean(d.clauses);
      CleanLetters(d.who, ShowClauses(d.clauses), false);
      CleanLetters(who, ShowDoc(cs), false);
      CleanIsSupported(cs, false);
    }
    if Supported(cs) {
      SupportedDerivation(who, cs);
    }
  }

  /** A clause the comment knows: permissions, or one class. */
  predicate ShortCopy(c: Clause) {
    AllLetters(c.letters, false) || |c.letters| == 1
  }

  /** Conversely, of the accepted strings the comment documents exactly those whose clauses copy one class at
      most; `+ug` is accepted and not documented. */
  lemma {:induction false} AcceptedDocumented(s: string, d: ModeExpr)
    requires Parse(s) == Some(d)
    ensures (exists who, cs :: Documented(who, cs) && Derived(who, cs) == s)
       <==> (forall i :: 0 <= i < |d.clauses| ==> ShortCopy(d.clauses[i]))
  {
    ParseExact(s, d);
    forall who, cs | Documented(who, cs) && Derived(who, cs) == s
      ensures forall i :: 0 <= i < |d.clauses| ==> ShortCopy(d.clauses[i])
    {
      DocumentedAccepted(who, cs);
      SupportedDerivation(who, cs);
      assert forall i :: 0 <= i < |cs| ==> DocumentedClause(cs[i]);
    }
    if forall i :: 0 <= i < |d.clauses| ==> ShortCopy(d.clauses[i]) {
      var cs := Document(d.clauses);
      ShowDocument(d.clauses);
      assert forall i :: 0 <= i < |d.clauses| ==> WellFormedClause(d.clauses[i]);
      assert Documented(d.who, cs) && Derived(d.who, cs) == s;
    }
  }

  function Document(cs: seq<Clause>): (out: seq<DocClause>)
    ensures |out| == |cs| && forall i :: 0 <= i < |cs| ==> out[i] == DocClause(OpOf(cs[i].add), cs[i].letters)
  {
    if cs == [] then [] else [DocClause(OpOf(cs[0].add), cs[0].letters)] + Document(cs[1..])
  }

  lemma {:induction false} ShowDocument(cs: seq<Clause>)
    ensures ShowDoc(Document(cs)) == ShowClauses(cs)
    decreases |cs|
  {
    if cs != [] {
      ShowDocument(cs[1..]);
      assert Document(cs)[1..] == Document(cs[1..]);
    }
  }
}
