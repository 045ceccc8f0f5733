/** What a clause like `g+u` would do if it copied the current permissions of a class, and when the program does
    the same. */
module Borrowing {
  import opened Options
  import opened ModeSyntax
  import opened ModeMeaning

  /** Some class the clause names has the permission of bit `b` in the mode. */
  predicate Borrows(c: Clause, m: Bits, b: nat) {
    b < 9 &&
    (('o' in c.letters && b % 3 in m) || ('g' in c.letters && b % 3 + 3 in m) || ('u' in c.letters && b % 3 + 6 in m))
  }

  /** The bits a clause stands for when named classes lend the permissions they have at that moment. */
  function BorrowedMask(c: Clause, m: Bits): Bits {
    if Copied(c.letters) then set b: nat | b < 9 && Borrows(c, m, b) else PermMask(CompileClause(c))
  }

  function BorrowClause(c: Clause, bmask: Bits, m: Bits): Bits {
    if c.add then m + BorrowedMask(c, m) * bmask else m - BorrowedMask(c, m) * bmask
  }

  function BorrowClauses(cs: seq<Clause>, bmask: Bits, m: Bits): Bits {
    if cs == [] then m else BorrowClause(cs[|cs| - 1], bmask, BorrowClauses(cs[..|cs| - 1], bmask, m))
  }

  /** The borrowing reading of a mode string. */
  function Borrowed(d: ModeExpr, m: Bits): Bits {
    BorrowClauses(d.clauses, GroupMask(WhoFlags(d.who)), m)
  }

  // ----- the two readings, clause by clause -----------------------------------------------------

  predicate Uncopied(cs: seq<Clause>) {
    forall i :: 0 <= i < |cs| ==> !Copied(cs[i].letters)
  }

  lemma {:induction false} UncopiedAgree(cs: seq<Clause>, bmask: Bits, m: Bits)
    requires Uncopied(cs)
    ensures BorrowClauses(cs, bmask, m) == ApplyPerms(CompileClauses(cs), bmask, m)
  {
    if cs != [] {
      UncopiedAgree(cs[..|cs| - 1], bmask, m);
      assert CompileClauses(cs)[..|cs| - 1] == CompileClauses(cs[..|cs| - 1]);
    }
  }

  lemma {:induction false} ApplyLast(cs: seq<Clause>, c: Clause, bmask: Bits, m: Bits)
    ensures ApplyPerms(CompileClauses(cs + [c]), bmask, m)
         == ApplyPerm(CompileClause(c), bmask, ApplyPerms(CompileClauses(cs), bmask, m))
    ensures BorrowClauses(cs + [c], bmask, m) == BorrowClause(c, bmask, BorrowClauses(cs, bmask, m))
  {
    var all, ps := cs + [c], CompileClauses(cs) + [CompileClause(c)];
    assert all[..|all| - 1] == cs && all[|all| - 1] == c;
    assert CompileClauses(all) == ps;
    assert ps[..|ps| - 1] == CompileClauses(cs) && ps[|ps| - 1] == CompileClause(c);
  }

  lemma {:induction false} ApplySplit(cs: seq<Clause>, ds: seq<Clause>, bmask: Bits, m: Bits)
    ensures ApplyPerms(CompileClauses(cs + ds), bmask, m)
         == ApplyPerms(CompileClauses(ds), bmask, ApplyPerms(CompileClauses(cs), bmask, m))
  {
    if ds == [] {
      assert cs + ds == cs;
    } else {
      var front, c := ds[..|ds| - 1], ds[|ds| - 1];
      var middle := ApplyPerms(CompileClauses(cs), bmask, m);
      calc {
        ApplyPerms(CompileClauses(cs + ds), bmask, m);
        { assert cs + ds == cs + front + [c]; }
        ApplyPerms(CompileClauses(cs + front + [c]), bmask, m);
        { ApplyLast(cs + front, c, bmask, m); }
        ApplyPerm(CompileClause(c), bmask, ApplyPerms(CompileClauses(cs + front), bmask, m));
        { ApplySplit(cs, front, bmask, m); }
        ApplyPerm(CompileClause(c), bmask, ApplyPerms(CompileClauses(front), bmask, middle));
        { ApplyLast(front, c, bmask, middle); }
        ApplyPerms(CompileClauses(front + [c]), bmask, middle);
        { assert front + [c] == ds; }
        ApplyPerms(CompileClauses(ds), bmask, middle);
      }
    }
  }

  lemma {:induction false} BorrowSplit(cs: seq<Clause>, ds: seq<Clause>, bmask: Bits, m: Bits)
    ensures BorrowClauses(cs + ds, bmask, m) == BorrowClauses(ds, bmask, BorrowClauses(cs, bmask, m))
  {
    if ds == [] {
      assert cs + ds == cs;
    } else {
      var front, c := ds[..|ds| - 1], ds[|ds| - 1];
      assert cs + ds == cs + front + [c];
      ApplyLast(cs + front, c, bmask, m);
      BorrowSplit(cs, front, bmask, m);
    }
  }

  lemma {:induction false} OneClause(c: Clause, bmask: Bits, m: Bits)
    ensures ApplyPerms(CompileClauses([c]), bmask, m) == ApplyPerm(CompileClause(c), bmask, m)
    ensures BorrowClauses([c], bmask, m) == BorrowClause(c, bmask, m)
  {
    ApplyLast([], c, bmask, m);
    assert [] + [c] == [c];
  }

  /** A string without copied classes means the same in both readings. */
  lemma {:induction false} NoCopyNoDifference(d: ModeExpr, m: Bits)
    requires Uncopied(d.clauses)
    ensures Result(d, m) == Borrowed(d, m)
  {
    UncopiedAgree(d.clauses, GroupMask(WhoFlags(d.who)), m);
  }

  // ----- one copied clause ----------------------------------------------------------------------

  predicate CoveredIn(cs: seq<Clause>, b: nat) {
    exists i :: 0 <= i < |cs| && Covers(cs[i], b)
  }

  lemma {:induction false} LastWriterForgets(cs: seq<Clause>, b: nat)
    ensures if CoveredIn(cs, b) then LastWriter(cs, b, true) == LastWriter(cs, b, false)
            else LastWriter(cs, b, true) && !LastWriter(cs, b, false)
  {
    if cs != [] {
      var front := cs[..|cs| - 1];
      LastWriterForgets(front, b);
      assert CoveredIn(cs, b) <==> Covers(cs[|cs| - 1], b) || CoveredIn(front, b) by {
        if i :| 0 <= i < |front| && Covers(front[i], b) {
          assert Covers(cs[i], b);
        }
      }
    }
  }

  /** One copied clause, in both readings: the code gives the sign to the bits of the named classes, borrowing gives
      it to the bits of every class whose permission a named one has. */
  lemma {:induction false} CopiedClause(c: Clause, bmask: Bits, m: Bits, b: nat)
    requires WellFormedClause(c) && Copied(c.letters)
    ensures b in ApplyPerm(CompileClause(c), bmask, m) <==>
      if b in bmask && b < 9 && ClassLetter(b) in c.letters then c.add else b in m
    ensures b in BorrowClause(c, bmask, m) <==> if b in bmask && Borrows(c, m, b) then c.add else b in m
  {
    PermMaskMeaning(c, b);
    assert AllLetters(c.letters, true);
  }

  /** A string of one copied clause, in both readings. */
  lemma {:induction false} OneClauseBit(who: string, c: Clause, m: Bits, b: nat)
    requires WellFormed(ModeExpr(who, [c])) && Copied(c.letters)
    ensures b in Result(ModeExpr(who, [c]), m) <==>
      if Chosen(who, b) && ClassLetter(b) in c.letters then c.add else b in m
    ensures b in Borrowed(ModeExpr(who, [c]), m) <==> if Chosen(who, b) && Borrows(c, m, b) then c.add else b in m
  {
    var bmask := GroupMask(WhoFlags(who));
    assert WellFormedClause([c][0]);
    OneClause(c, bmask, m);
    CopiedClause(c, bmask, m, b);
    GroupMaskMeaning(who, b);
  }

  lemma {:induction false} ShowGroupPlusUser()
    ensures Show(ModeExpr("g", [Clause(true, "u")])) == "g+u"
  {
    var cs := [Clause(true, "u")];
    assert cs[1..] == [];
    assert ShowClauses(cs) == "+" + "u" + ShowClauses([]) == "+u";
  }

  lemma {:induction false} GroupPlusUserBit(b: nat)
    ensures b in Result(ModeExpr("g", [Clause(true, "u")]), {8}) <==> b == 8
    ensures b in Borrowed(ModeExpr("g", [Clause(true, "u")]), {8}) <==> b == 8 || b == 5
  {
    var c := Clause(true, "u");
    assert WellFormed(ModeExpr("g", [c]));
    OneClauseBit("g", c, {8}, b);
    assert Chosen("g", b) <==> 3 <= b < 6;
    assert Borrows(c, {8}, b) <==> b < 9 && b % 3 == 2;
  }

  /** `g+u` does not borrow: the owner can read, the group cannot, and still cannot afterwards. */
  lemma {:induction false} CopyIsNotBorrowing()
    ensures Parse("g+u") == Some(ModeExpr("g", [Clause(true, "u")]))
    ensures Result(ModeExpr("g", [Clause(true, "u")]), {8}) == {8}
    ensures Borrowed(ModeExpr("g", [Clause(true, "u")]), {8}) == {8, 5}
  {
    var c := Clause(true, "u");
    var d := ModeExpr("g", [c]);
    assert WellFormed(d) && Show(d) == "g+u" by {
      ShowGroupPlusUser();
    }
    ParseExact("g+u", d);
    forall b: nat
      ensures b in Result(d, {8}) <==> b == 8
      ensures b in Borrowed(d, {8}) <==> b == 8 || b == 5
    {
      GroupPlusUserBit(b);
    }
  }

  /** The condition under which the code borrows, for a string whose only copied clause is number `k`. It can be
      read off the string and the old mode: `before` is the mode just before that clause. For every chosen bit that
      clause `k` could change and no later clause overwrites, the bit's class is named exactly when the bit is
      borrowed. */
  ghost predicate BorrowsLikeCode(d: ModeExpr, k: nat, m: Bits)
    requires k < |d.clauses|
  {
    forall b: nat :: LentAsCoded(d, k, m, b)
  }

  predicate LentAsCoded(d: ModeExpr, k: nat, m: Bits, b: nat)
    requires k < |d.clauses|
  {
    var c, before := d.clauses[k], Result(ModeExpr(d.who, d.clauses[..k]), m);
    Chosen(d.who, b) && (b in before) != c.add && !CoveredIn(d.clauses[k + 1..], b) ==>
      (ClassLetter(b) in c.letters <==> Borrows(c, before, b))
  }

  /** The two readings of a string, split at its last copied clause. */
  lemma {:induction false} LastCopySplit(d: ModeExpr, k: nat, m: Bits)
    requires WellFormed(d) && k < |d.clauses| && Uncopied(d.clauses[k + 1..])
    ensures var bmask, c, back := GroupMask(WhoFlags(d.who)), d.clauses[k], d.clauses[k + 1..];
      var front := ModeExpr(d.who, d.clauses[..k]);
      && Result(d, m) == ApplyPerms(CompileClauses(back), bmask, ApplyPerm(CompileClause(c), bmask, Result(front, m)))
      && Borrowed(d, m) == ApplyPerms(CompileClauses(back), bmask, BorrowClause(c, bmask, Borrowed(front, m)))
  {
    var bmask, front, c, back := GroupMask(WhoFlags(d.who)), d.clauses[..k], d.clauses[k], d.clauses[k + 1..];
    assert d.clauses == (front + [c]) + back;
    ApplySplit(front + [c], back, bmask, m);
    BorrowSplit(front + [c], back, bmask, m);
    ApplyLast(front, c, bmask, m);
    UncopiedAgree(back, bmask, BorrowClause(c, bmask, Borrowed(ModeExpr(d.who, front), m)));
  }

  /** Neither reading touches a bit that is not chosen. */
  lemma {:induction false} NotChosenStays(cs: seq<Clause>, bmask: Bits, m: Bits, b: nat)
    requires b !in bmask
    ensures b in ApplyPerms(CompileClauses(cs), bmask, m) <==> b in m
    ensures b in BorrowClauses(cs, bmask, m) <==> b in m
  {
    if cs != [] {
      var front, c := cs[..|cs| - 1], cs[|cs| - 1];
      NotChosenStays(front, bmask, m, b);
      ApplyLast(front, c, bmask, m);
      assert cs == front + [c];
    }
  }

  /** One bit behind the last copied clause, number `k`: if it is chosen and no later clause overwrites it, that
      clause leaves it alike in both readings. `code` and `lent` are the modes they have before the clause. */
  predicate SameBit(d: ModeExpr, k: nat, m: Bits, b: nat)
    requires k < |d.clauses|
  {
    var c, front := d.clauses[k], ModeExpr(d.who, d.clauses[..k]);
    var code, lent := Result(front, m), Borrowed(front, m);
    Chosen(d.who, b) && !CoveredIn(d.clauses[k + 1..], b) ==>
      (if ClassLetter(b) in c.letters then c.add else b in code) == (if Borrows(c, lent, b) then c.add else b in lent)
  }

  /** The condition for any string with a copied clause, the last of which is number `k`. */
  ghost predicate LastCopyAgrees(d: ModeExpr, k: nat, m: Bits)
    requires k < |d.clauses|
  {
    forall b: nat :: SameBit(d, k, m, b)
  }

  /** One bit of the comparison. */
  lemma {:induction false} LastCopyBit(d: ModeExpr, k: nat, m: Bits, b: nat)
    requires WellFormed(d) && k < |d.clauses| && Copied(d.clauses[k].letters) && Uncopied(d.clauses[k + 1..])
    ensures (b in Result(d, m) <==> b in Borrowed(d, m)) <==> SameBit(d, k, m, b)
  {
    var bmask, c, back := GroupMask(WhoFlags(d.who)), d.clauses[k], d.clauses[k + 1..];
    GroupMaskMeaning(d.who, b);
    if b !in bmask {
      NotChosenStays(d.clauses, bmask, m, b);
    } else {
      var front := ModeExpr(d.who, d.clauses[..k]);
      var code, lent := Result(front, m), Borrowed(front, m);
      LastCopySplit(d, k, m);
      assert WellFormedClause(c);
      CopiedClause(c, bmask, code, b);
      CopiedClause(c, bmask, lent, b);
      ApplyPermsMeaning(back, bmask, ApplyPerm(CompileClause(c), bmask, code), b);
      ApplyPermsMeaning(back, bmask, BorrowClause(c, bmask, lent), b);
      LastWriterForgets(back, b);
    }
  }

  /** When copying is borrowing, for every string with a copied clause: the program computes what borrowing would if
      and only if the condition above holds. */
  lemma {:induction false} LastCopyBorrowsExactly(d: ModeExpr, k: nat, m: Bits)
    requires WellFormed(d) && k < |d.clauses| && Copied(d.clauses[k].letters) && Uncopied(d.clauses[k + 1..])
    ensures Result(d, m) == Borrowed(d, m) <==> LastCopyAgrees(d, k, m)
  {
    forall b: nat
      ensures (b in Result(d, m) <==> b in Borrowed(d, m)) <==> SameBit(d, k, m, b)
    {
      LastCopyBit(d, k, m, b);
    }
  }

  /** For a string with one copied clause, anywhere, the condition is about the mode before that clause only. */
  lemma {:induction false} CopyBorrowsExactly(d: ModeExpr, k: nat, m: Bits)
    requires WellFormed(d) && k < |d.clauses| && Copied(d.clauses[k].letters)
    requires Uncopied(d.clauses[..k]) && Uncopied(d.clauses[k + 1..])
    ensures Result(d, m) == Borrowed(d, m) <==> BorrowsLikeCode(d, k, m)
  {
    LastCopyBorrowsExactly(d, k, m);
    forall b: nat
      ensures SameBit(d, k, m, b) <==> LentAsCoded(d, k, m, b)
    {
      NoCopyNoDifference(ModeExpr(d.who, d.clauses[..k]), m);
    }
  }

  // ----- any number of copied clauses -----------------------------------------------------------

  /** Clause `k` borrows where it stands, whether or not later clauses overwrite what it does. */
  ghost predicate BorrowsAt(d: ModeExpr, k: nat, m: Bits)
    requires k < |d.clauses|
  {
    var c, before := d.clauses[k], Result(ModeExpr(d.who, d.clauses[..k]), m);
    Copied(c.letters) ==>
      forall b: nat :: Chosen(d.who, b) && (b in before) != c.add ==>
        (ClassLetter(b) in c.letters <==> Borrows(c, before, b))
  }

  lemma {:induction false} SameStep(d: ModeExpr, k: nat, m: Bits)
    requires WellFormed(d) && k < |d.clauses| && BorrowsAt(d, k, m)
    ensures var bmask, c := GroupMask(WhoFlags(d.who)), d.clauses[k];
      var before := Result(ModeExpr(d.who, d.clauses[..k]), m);
      ApplyPerm(CompileClause(c), bmask, before) == BorrowClause(c, bmask, before)
  {
    var bmask, c, before := GroupMask(WhoFlags(d.who)), d.clauses[k], Result(ModeExpr(d.who, d.clauses[..k]), m);
    assert WellFormedClause(c);
    if Copied(c.letters) {
      forall b: nat
        ensures b in ApplyPerm(CompileClause(c), bmask, before) <==> b in BorrowClause(c, bmask, before)
      {
        GroupMaskMeaning(d.who, b);
        CopiedClause(c, bmask, before, b);
      }
    }
  }

  lemma {:induction false} SameNext(d: ModeExpr, k: nat, m: Bits)
    requires WellFormed(d) && k < |d.clauses| && BorrowsAt(d, k, m)
    requires Result(ModeExpr(d.who, d.clauses[..k]), m) == Borrowed(ModeExpr(d.who, d.clauses[..k]), m)
    ensures Result(ModeExpr(d.who, d.clauses[..k + 1]), m) == Borrowed(ModeExpr(d.who, d.clauses[..k + 1]), m)
  {
    var front, c := d.clauses[..k], d.clauses[k];
    SameStep(d, k, m);
    ApplyLast(front, c, GroupMask(WhoFlags(d.who)), m);
    assert d.clauses[..k + 1] == front + [c];
  }

  /** A string all of whose clauses borrow where they stand means the same in both readings. */
  lemma {:induction false} BorrowsThroughout(d: ModeExpr, n: nat, m: Bits)
    requires WellFormed(d) && n <= |d.clauses| && forall k :: 0 <= k < n ==> BorrowsAt(d, k, m)
    ensures Result(ModeExpr(d.who, d.clauses[..n]), m) == Borrowed(ModeExpr(d.who, d.clauses[..n]), m)
  {
    if n == 0 {
      assert d.clauses[..0] == [];
    } else {
      BorrowsThroughout(d, n - 1, m);
      assert BorrowsAt(d, n - 1, m);
      SameNext(d, n - 1, m);
    }
  }
}
