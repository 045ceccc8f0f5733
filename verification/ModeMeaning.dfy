/** What a mode string does to the permission bits of a file. */
module ModeMeaning {
  import opened ModeSyntax

  /** A word that only bitwise operations touch, as the set of the positions of its one bits: `|` is union,
      `&` is intersection, `& ~` is difference. */
  type Bits = set<nat>

  // Bit positions of the flags. Groups and permissions use the same positions, as in the program.
  const PG_ALL: nat := 0
  const PG_USER: nat := 1
  const PG_GROUP: nat := 2
  const PG_OTHERS: nat := 3
  const P_READ: nat := 0
  const P_WRITE: nat := 1
  const P_EXEC: nat := 2

  const S_IRWXU: Bits := {8, 7, 6}
  const S_IRWXG: Bits := {5, 4, 3}
  const S_IRWXO: Bits := {2, 1, 0}
  const S_READ: Bits := {8, 5, 2}
  const S_WRITE: Bits := {7, 4, 1}
  const S_EXEC: Bits := {6, 3, 0}

  datatype Modificator = MOD_UNDEF | MOD_APPEND | MOD_ERASE

  /** The compiled form of a clause. */
  datatype Perm = Perm(mod: Modificator, copied: bool, flags: Bits)

  // ----- compilation of letters -----------------------------------------------------------------

  function WhoFlag(c: char): Bits {
    if c == 'u' then {PG_USER}
    else if c == 'g' then {PG_GROUP}
    else if c == 'a' then {PG_ALL}
    else if c == 'o' then {PG_OTHERS}
    else {}
  }

  function WhoFlags(who: string): Bits {
    if who == "" then {} else WhoFlags(who[..|who| - 1]) + WhoFlag(who[|who| - 1])
  }

  function LetterFlag(c: char, copied: bool): Bits {
    if copied
    then if c == 'u' then {PG_USER} else if c == 'g' then {PG_GROUP} else if c == 'o' then {PG_OTHERS} else {}
    else if c == 'r' then {P_READ} else if c == 'w' then {P_WRITE} else if c == 'x' then {P_EXEC} else {}
  }

  function LetterFlags(letters: string, copied: bool): Bits {
    if letters == "" then {}
    else LetterFlags(letters[..|letters| - 1], copied) + LetterFlag(letters[|letters| - 1], copied)
  }

  function Copied(letters: string): bool {
    letters != "" && IsGroup(letters[0])
  }

  function CompileClause(c: Clause): Perm {
    Perm(if c.add then MOD_APPEND else MOD_ERASE, Copied(c.letters), LetterFlags(c.letters, Copied(c.letters)))
  }

  function CompileClauses(cs: seq<Clause>): (ps: seq<Perm>)
    ensures |ps| == |cs|
  {
    if cs == [] then [] else CompileClauses(cs[..|cs| - 1]) + [CompileClause(cs[|cs| - 1])]
  }

  // ----- the interpreter ------------------------------------------------------------------------

  /** The bits the chosen groups own; no choice means all. */
  function GroupMask(groups: Bits): Bits {
    var pg := if groups == {} then {PG_ALL} else groups;
    (if PG_OTHERS in pg then S_IRWXO else {})
    + (if PG_GROUP in pg then S_IRWXG else {})
    + (if PG_USER in pg then S_IRWXU else {})
    + (if PG_ALL in pg then S_IRWXO + S_IRWXG + S_IRWXU else {})
  }

  function PermMask(p: Perm): Bits {
    if p.copied then
      (if PG_OTHERS in p.flags then S_IRWXO else {})
      + (if PG_GROUP in p.flags then S_IRWXG else {})
      + (if PG_USER in p.flags then S_IRWXU else {})
    else
      (if P_READ in p.flags then S_READ else {})
      + (if P_WRITE in p.flags then S_WRITE else {})
      + (if P_EXEC in p.flags then S_EXEC else {})
  }

  function ApplyPerm(p: Perm, bmask: Bits, m: Bits): Bits {
    match p.mod
    case MOD_APPEND => m + PermMask(p) * bmask
    case MOD_ERASE => m - PermMask(p) * bmask
    case MOD_UNDEF => m
  }

  /** The fold over the list. */
  function ApplyPerms(ps: seq<Perm>, bmask: Bits, m: Bits): Bits {
    if ps == [] then m
    else ApplyPerm(ps[|ps| - 1], bmask, ApplyPerms(ps[..|ps| - 1], bmask, m))
  }

  /** What the program computes for an accepted string. */
  function Result(d: ModeExpr, m: Bits): Bits {
    ApplyPerms(CompileClauses(d.clauses), GroupMask(WhoFlags(d.who)), m)
  }

  // ----- the meaning of a string, bit by bit ----------------------------------------------------

  function ClassLetter(b: nat): char
    requires b < 9
  {
    if b < 3 then 'o' else if b < 6 then 'g' else 'u'
  }

  function PermLetter(b: nat): char
    requires b < 9
  {
    if b % 3 == 0 then 'x' else if b % 3 == 1 then 'w' else 'r'
  }

  /** The group letters in front choose the bit: its class, or `a`, or nobody was chosen. */
  predicate Chosen(who: string, b: nat) {
    b < 9 && (who == "" || 'a' in who || ClassLetter(b) in who)
  }

  /** A clause covers a bit when it names its permission, or its class: `+u` stands for all three permissions of
      the user class, whatever they currently are. */
  predicate Covers(c: Clause, b: nat) {
    b < 9 && (PermLetter(b) in c.letters || ClassLetter(b) in c.letters)
  }

  /** Last writer wins: the polarity of the last covering clause, or the old value. */
  function LastWriter(cs: seq<Clause>, b: nat, before: bool): bool {
    if cs == [] then before
    else if Covers(cs[|cs| - 1], b) then cs[|cs| - 1].add
    else LastWriter(cs[..|cs| - 1], b, before)
  }

  function Meaning(d: ModeExpr, b: nat, before: bool): bool {
    if Chosen(d.who, b) then LastWriter(d.clauses, b, before) else before
  }

  // ----- compilation preserves the meaning ------------------------------------------------------

  lemma {:induction false} InLast(s: string, x: char)
    requires s != ""
    ensures x in s <==> x in s[..|s| - 1] || x == s[|s| - 1]
  {
    assert s == s[..|s| - 1] + [s[|s| - 1]];
  }

  lemma {:induction false} WhoFlagsMeaning(who: string)
    requires forall i :: 0 <= i < |who| ==> IsWho(who[i])
    ensures PG_USER in WhoFlags(who) <==> 'u' in who
    ensures PG_GROUP in WhoFlags(who) <==> 'g' in who
    ensures PG_OTHERS in WhoFlags(who) <==> 'o' in who
    ensures PG_ALL in WhoFlags(who) <==> 'a' in who
    ensures WhoFlags(who) == {} <==> who == ""
  {
    if who != "" {
      WhoFlagsMeaning(who[..|who| - 1]);
      InLast(who, 'u');
      InLast(who, 'g');
      InLast(who, 'o');
      InLast(who, 'a');
      assert IsWho(who[|who| - 1]);
    }
  }

  lemma {:induction false} CopiedFlagsMeaning(s: string)
    requires AllLetters(s, true)
    ensures PG_USER in LetterFlags(s, true) <==> 'u' in s
    ensures PG_GROUP in LetterFlags(s, true) <==> 'g' in s
    ensures PG_OTHERS in LetterFlags(s, true) <==> 'o' in s
  {
    if s != "" {
      CopiedFlagsMeaning(s[..|s| - 1]);
      InLast(s, 'u');
      InLast(s, 'g');
      InLast(s, 'o');
    }
  }

  lemma {:induction false} PermFlagsMeaning(s: string)
    requires AllLetters(s, false)
    ensures P_READ in LetterFlags(s, false) <==> 'r' in s
    ensures P_WRITE in LetterFlags(s, false) <==> 'w' in s
    ensures P_EXEC in LetterFlags(s, false) <==> 'x' in s
  {
    if s != "" {
      PermFlagsMeaning(s[..|s| - 1]);
      InLast(s, 'r');
      InLast(s, 'w');
      InLast(s, 'x');
    }
  }

  lemma {:induction false} GroupMaskMeaning(who: string, b: nat)
    requires forall i :: 0 <= i < |who| ==> IsWho(who[i])
    ensures b in GroupMask(WhoFlags(who)) <==> Chosen(who, b)
  {
    WhoFlagsMeaning(who);
  }

  lemma {:induction false} PermMaskMeaning(c: Clause, b: nat)
    requires WellFormedClause(c)
    ensures b in PermMask(CompileClause(c)) <==> Covers(c, b)
  {
    assert AllLetters(c.letters, Copied(c.letters));
    if Copied(c.letters) {
      CopiedFlagsMeaning(c.letters);
    } else {
      PermFlagsMeaning(c.letters);
    }
  }

  lemma {:induction false} ApplyPermsMeaning(cs: seq<Clause>, bmask: Bits, m: Bits, b: nat)
    requires forall i :: 0 <= i < |cs| ==> WellFormedClause(cs[i])
    ensures b in ApplyPerms(CompileClauses(cs), bmask, m) <==> if b in bmask then LastWriter(cs, b, b in m) else b in m
  {
    if cs != [] {
      var front, c := cs[..|cs| - 1], cs[|cs| - 1];
      ApplyPermsMeaning(front, bmask, m, b);
      PermMaskMeaning(c, b);
      assert CompileClauses(cs)[..|cs| - 1] == CompileClauses(front);
    }
  }

  /** End-to-end meaning of an accepted string: every bit of the mode gets what the string says; the bits of
      classes that are not chosen and all bits that are no permission bits stay. */
  lemma {:induction false} ResultMeaning(d: ModeExpr, m: Bits, b: nat)
    requires WellFormed(d)
    ensures b in Result(d, m) <==> Meaning(d, b, b in m)
    ensures !Chosen(d.who, b) ==> (b in Result(d, m) <==> b in m)
    ensures b >= 9 ==> (b in Result(d, m) <==> b in m)
  {
    GroupMaskMeaning(d.who, b);
    ApplyPermsMeaning(d.clauses, GroupMask(WhoFlags(d.who)), m, b);
  }

  // ----- consequences ---------------------------------------------------------------------------

  /** The same letters in front, and clause by clause the same sign and the same letters, in any order and any
      number. */
  ghost predicate SameLetters(d: ModeExpr, e: ModeExpr) {
    && (forall c :: c in d.who <==> c in e.who)
    && |d.clauses| == |e.clauses|
    && (forall i :: 0 <= i < |d.clauses| ==> d.clauses[i].add == e.clauses[i].add)
    && (forall i, c :: 0 <= i < |d.clauses| ==> (c in d.clauses[i].letters <==> c in e.clauses[i].letters))
  }

  lemma {:induction false} LastWriterSame(cs: seq<Clause>, ds: seq<Clause>, b: nat, before: bool)
    requires |cs| == |ds|
    requires forall i :: 0 <= i < |cs| ==> cs[i].add == ds[i].add && (Covers(cs[i], b) <==> Covers(ds[i], b))
    ensures LastWriter(cs, b, before) == LastWriter(ds, b, before)
  {
    if cs != [] {
      LastWriterSame(cs[..|cs| - 1], ds[..|ds| - 1], b, before);
    }
  }

  /** Permuting or repeating letters, among the groups or inside a clause, changes nothing. */
  lemma {:induction false} LettersAreSets(d: ModeExpr, e: ModeExpr, m: Bits)
    requires WellFormed(d) && WellFormed(e) && SameLetters(d, e)
    ensures Result(d, m) == Result(e, m)
  {
    assert d.who == "" <==> e.who == "" by {
      assert d.who != "" ==> d.who[0] in e.who;
      assert e.who != "" ==> e.who[0] in d.who;
    }
    forall b: nat
      ensures b in Result(d, m) <==> b in Result(e, m)
    {
      ResultMeaning(d, m, b);
      ResultMeaning(e, m, b);
      LastWriterSame(d.clauses, e.clauses, b, b in m);
    }
  }

  /** The bits a clause list clears before it sets others, and the bits it sets. */
  function NormalForm(ps: seq<Perm>, bmask: Bits): (Bits, Bits) {
    if ps == [] then ({}, {})
    else
      var (e, a) := NormalForm(ps[..|ps| - 1], bmask);
      var mask := PermMask(ps[|ps| - 1]) * bmask;
      match ps[|ps| - 1].mod
      case MOD_APPEND => (e - mask, a + mask)
      case MOD_ERASE => (e + mask, a - mask)
      case MOD_UNDEF => (e, a)
  }

  /** Every clause list acts as `m & ~E | A`, with masks that do not depend on the mode. */
  lemma {:induction false} NormalFormExact(ps: seq<Perm>, bmask: Bits, m: Bits)
    ensures var (e, a) := NormalForm(ps, bmask); ApplyPerms(ps, bmask, m) == m - e + a
  {
    if ps != [] {
      NormalFormExact(ps[..|ps| - 1], bmask, m);
    }
  }

  /** Applying a mode string twice is applying it once. */
  lemma {:induction false} Idempotent(d: ModeExpr, m: Bits)
    ensures Result(d, Result(d, m)) == Result(d, m)
  {
    var ps, bmask := CompileClauses(d.clauses), GroupMask(WhoFlags(d.who));
    NormalFormExact(ps, bmask, m);
    NormalFormExact(ps, bmask, Result(d, m));
  }
}
