/** What mode strings mean, letter by letter and digit by digit. */
module ModeStrings {
  import opened Options
  import opened ModeSyntax
  import opened ModeMeaning
  import opened ModeCompiler

  function Pow(b: nat, e: nat): (p: nat)
    ensures b > 0 ==> p > 0
  {
    if e == 0 then 1 else b * Pow(b, e - 1)
  }

  /** Bit `j` of an octal digit. */
  predicate DigitHas(c: char, j: nat) {
    match j
    case 0 => c in "1357"
    case 1 => c in "2367"
    case 2 => c in "4567"
    case _ => false
  }

  /** The value is below 2^64: at most 22 digits behind leading zeros, and the first of 22 is at most 1. */
  predicate FitsWord(s: string) {
    && (forall i :: 0 <= i < |s| - 22 ==> s[i] == '0')
    && (|s| >= 22 ==> s[|s| - 22] <= '1')
  }

  function Digit(c: char): nat
    requires '0' <= c <= '7'
  {
    c as int - '0' as int
  }

  // ----- bits of numbers ------------------------------------------------------------------------

  /** One more bit at the low end. */
  lemma {:induction false} BitsShift(n: nat, low: nat, b: nat)
    requires low < 2
    ensures b in BitsOf(2 * n + low) <==> if b == 0 then low == 1 else b - 1 in BitsOf(n)
  {
    if n > 0 || low > 0 {
      assert (2 * n + low) / 2 == n && (2 * n + low) % 2 == low;
    }
  }

  /** Three more bits, those of an octal digit. */
  lemma {:induction false} BitsOfDigit(n: nat, c: char, b: nat)
    requires '0' <= c <= '7'
    ensures b in BitsOf(8 * n + Digit(c)) <==> if b < 3 then DigitHas(c, b) else b - 3 in BitsOf(n)
  {
    var d := Digit(c);
    var x, y, z := d / 4, d / 2 % 2, d % 2;
    assert d == 4 * x + 2 * y + z;
    assert 8 * n + d == 2 * (2 * (2 * n + x) + y) + z;
    BitsShift(2 * (2 * n + x) + y, z, b);
    if b > 0 {
      BitsShift(2 * n + x, y, b - 1);
    }
    if b > 1 {
      BitsShift(n, x, b - 2);
    }
  }

  /** The bits of the value of an octal string are the bits of its digits. */
  lemma {:induction false} OctalValueBits(s: string, b: nat)
    requires IsOctal(s)
    ensures b in BitsOf(OctalValue(s)) <==> b / 3 < |s| && DigitHas(s[|s| - 1 - b / 3], b % 3)
  {
    if s != "" {
      var front, c := s[..|s| - 1], s[|s| - 1];
      BitsOfDigit(OctalValue(front), c, b);
      if b >= 3 {
        OctalValueBits(front, b - 3);
        assert (b - 3) / 3 == b / 3 - 1 && (b - 3) % 3 == b % 3;
      }
    }
  }

  /** The remainder by a power of two has the low bits. */
  lemma {:induction false} LowBits(n: nat, k: nat, b: nat)
    requires b < k
    ensures b in BitsOf(n % Pow(2, k)) <==> b in BitsOf(n)
  {
    var h, low := n / 2, n % 2;
    HalfRemainder(h, low, Pow(2, k - 1));
    BitsShift(h, low, b);
    BitsShift(h % Pow(2, k - 1), low, b);
    if b > 0 {
      LowBits(h, k - 1, b - 1);
    }
  }

  lemma {:induction false} HalfRemainder(h: nat, low: nat, p: nat)
    requires low < 2 && p > 0
    ensures (2 * h + low) % (2 * p) == 2 * (h % p) + low
  {
    var q, r := h / p, h % p;
    calc {
      2 * h + low;
      2 * (q * p + r) + low;
      q * (2 * p) + (2 * r + low);
    }
    Remainder(q, 2 * p, 2 * r + low);
  }

  lemma {:induction false} Remainder(q: nat, d: nat, r: nat)
    requires r < d
    ensures (q * d + r) % d == r
  {
    if q > 0 {
      Remainder(q - 1, d, r);
      var x := (q - 1) * d + r;
      assert q * d + r == x + d;
      AddDivisor(x, d);
    }
  }

  lemma {:induction false} AddDivisor(x: nat, d: nat)
    requires d > 0
    ensures (x + d) % d == x % d
  {
    var q, r := x / d, x % d;
    assert x == q * d + r;
    assert x + d == (q + 1) * d + r;
    var q', r' := (x + d) / d, (x + d) % d;
    assert x + d == q' * d + r';
    SameQuotient(q + 1, r, q', r', d);
  }

  lemma {:induction false} SameQuotient(q: int, r: int, q': int, r': int, d: int)
    requires q * d + r == q' * d + r' && 0 <= r < d && 0 <= r' < d
    ensures r == r'
  {
    if q > q' {
      AtLeastOnce(q - q', d);
      Distributes(q, q', d);
    } else if q < q' {
      AtLeastOnce(q' - q, d);
      Distributes(q', q, d);
    }
  }

  lemma {:induction false} AtLeastOnce(k: int, d: int)
    requires k >= 1 && d >= 0
    ensures k * d >= d
  {
  }

  lemma {:induction false} Distributes(a: int, b: int, d: int)
    ensures (a - b) * d == a * d - b * d
  {
  }

  /** A word of ones. */
  lemma {:induction false} AllOnes(k: nat, b: nat)
    requires b < k
    ensures b in BitsOf(Pow(2, k) - 1)
  {
    var h: nat := Pow(2, k - 1) - 1;
    assert Pow(2, k) - 1 == 2 * h + 1;
    BitsShift(h, 1, b);
    if b > 0 {
      AllOnes(k - 1, b - 1);
    }
  }

  // ----- the size of the value ------------------------------------------------------------------

  /** The value read from the front. */
  lemma {:induction false} OctalFront(s: string)
    requires IsOctal(s) && s != ""
    ensures OctalValue(s) == Digit(s[0]) * Pow(8, |s| - 1) + OctalValue(s[1..])
    decreases |s|
  {
    var front, last := s[..|s| - 1], Digit(s[|s| - 1]);
    if |s| == 1 {
      assert front == "" && s[1..] == "";
    } else {
      OctalFront(front);
      assert front[1..] == s[1..][..|s| - 2];
      var rest := OctalValue(front[1..]);
      assert OctalValue(s) == 8 * OctalValue(front) + last;
      assert OctalValue(s[1..]) == 8 * rest + last;
      assert Pow(8, |s| - 1) == 8 * Pow(8, |s| - 2);
      Regroups(Digit(s[0]), Pow(8, |s| - 2), rest, last);
    }
  }

  lemma {:induction false} Regroups(d: nat, p: nat, rest: nat, last: nat)
    ensures 8 * (d * p + rest) + last == d * (8 * p) + (8 * rest + last)
  {
  }

  lemma {:induction false} OctalBound(s: string)
    requires IsOctal(s)
    ensures OctalValue(s) < Pow(8, |s|)
  {
    if s != "" {
      OctalBound(s[..|s| - 1]);
    }
  }

  lemma {:induction false} PowersOfEight(n: nat)
    ensures n <= 21 ==> Pow(8, n) <= 0x8000_0000_0000_0000
    ensures n == 21 ==> Pow(8, n) == 0x8000_0000_0000_0000
    ensures n >= 22 ==> Pow(8, n) >= 0x4_0000_0000_0000_0000
    decreases n
  {
    if n > 0 {
      PowersOfEight(n - 1);
    }
    if 0 < n <= 22 {
      SmallPowers();
    }
  }

  lemma {:induction false} SmallPowers()
    ensures forall n :: 0 <= n <= 21 ==> Pow(8, n) <= 0x8000_0000_0000_0000
    ensures Pow(8, 21) == 0x8000_0000_0000_0000
    ensures Pow(8, 22) == 0x4_0000_0000_0000_0000
  {
    assert Pow(8, 4) == 0x1000;
    assert Pow(8, 7) == 0x20_0000;
    assert Pow(8, 11) == 8 * (8 * (8 * (8 * Pow(8, 7)))) == 0x2_0000_0000;
    assert Pow(8, 15) == 8 * (8 * (8 * (8 * Pow(8, 11)))) == 0x2000_0000_0000;
    assert Pow(8, 19) == 8 * (8 * (8 * (8 * Pow(8, 15)))) == 0x200_0000_0000_0000;
    assert Pow(8, 22) == 8 * (8 * (8 * Pow(8, 19))) == 0x4_0000_0000_0000_0000;
    assert Pow(8, 21) == 8 * (8 * Pow(8, 19));
    forall n | 0 <= n <= 21
      ensures Pow(8, n) <= 0x8000_0000_0000_0000
    {
      PowGrows(n, 21);
    }
  }

  lemma {:induction false} PowGrows(m: nat, n: nat)
    requires m <= n
    ensures Pow(8, m) <= Pow(8, n)
    decreases n - m
  {
    if m < n {
      PowGrows(m, n - 1);
    }
  }

  /** The value fits into a word exactly when the digits say so. */
  lemma {:induction false} FitsExactly(s: string)
    requires IsOctal(s)
    ensures FitsWord(s) <==> OctalValue(s) < 0x1_0000_0000_0000_0000
    decreases |s|
  {
    OctalBound(s);
    PowersOfEight(|s|);
    if |s| >= 22 {
      OctalFront(s);
      OctalBound(s[1..]);
      PowersOfEight(|s| - 1);
      FirstDigit(Digit(s[0]), Pow(8, |s| - 1));
      if |s| > 22 {
        FitsExactly(s[1..]);
        FitsRest(s);
      }
    }
  }

  lemma {:induction false} FirstDigit(d: nat, p: nat)
    ensures d == 0 ==> d * p == 0
    ensures d == 1 ==> d * p == p
    ensures d >= 1 ==> d * p >= p
    ensures d >= 2 ==> d * p >= 2 * p
  {
    if d >= 2 {
      AtLeastOnce(d - 1, p);
      Distributes(d, 1, p);
    }
  }

  lemma {:induction false} FitsRest(s: string)
    requires |s| > 22
    ensures FitsWord(s) <==> s[0] == '0' && FitsWord(s[1..])
  {
    assert forall i :: 0 <= i < |s| - 1 ==> s[1..][i] == s[i + 1];
    assert forall i :: 0 < i < |s| ==> s[i] == s[1..][i - 1];
  }

  // ----- what the program does ------------------------------------------------------------------

  lemma {:induction false} TwelveBits(b: nat)
    ensures b in CHMOD_BITS <==> b < 12
  {
  }

  lemma {:induction false} WordOfOnes()
    ensures 0xFFFF_FFFF_FFFF_FFFF % 0x1_0000_0000 == Pow(2, 32) - 1 && Pow(2, 32) == 0x1_0000_0000
  {
    assert Pow(2, 8) == 0x100;
    assert Pow(2, 16) == 2 * (2 * (2 * (2 * (2 * (2 * (2 * (2 * Pow(2, 8)))))))) == 0x1_0000;
    assert Pow(2, 24) == 2 * (2 * (2 * (2 * (2 * (2 * (2 * (2 * Pow(2, 16)))))))) == 0x100_0000;
    assert Pow(2, 32) == 2 * (2 * (2 * (2 * (2 * (2 * (2 * (2 * Pow(2, 24)))))))) == 0x1_0000_0000;
  }

  lemma {:induction false} OctalModeBits(s: string, b: nat)
    requires IsOctal(s) && b < 12
    ensures FitsWord(s) ==> (b in BitsOf(OctalMode(s)) <==> b / 3 < |s| && DigitHas(s[|s| - 1 - b / 3], b % 3))
    ensures !FitsWord(s) ==> b in BitsOf(OctalMode(s))
  {
    FitsExactly(s);
    WordOfOnes();
    if FitsWord(s) {
      LowBits(OctalValue(s), 32, b);
      OctalValueBits(s, b);
    } else {
      AllOnes(32, b);
    }
  }

  lemma {:induction false} OctalNewMode(s: string, before: Bits, b: nat)
    requires IsOctal(s)
    ensures b in NewMode(s, before) <==> if b < 12 then b in BitsOf(OctalMode(s)) else b in before
  {
    TwelveBits(b);
  }

  /** An octal mode string gives every file the mode its last four digits spell, when the value is below 2^64.
      Larger values set all twelve mode bits. All other bits of the mode word stay. */
  lemma {:induction false} OctalMeaning(s: string, before: Bits, b: nat)
    requires forall i :: 0 <= i < |s| ==> '0' <= s[i] <= '7'
    ensures Accepted(s)
    ensures b < 12 && FitsWord(s) ==>
      (b in NewMode(s, before) <==> b / 3 < |s| && DigitHas(s[|s| - 1 - b / 3], b % 3))
    ensures b < 12 && !FitsWord(s) ==> b in NewMode(s, before)
    ensures b >= 12 ==> (b in NewMode(s, before) <==> b in before)
  {
    OctalNewMode(s, before, b);
    if b < 12 {
      OctalModeBits(s, b);
    }
  }

  // ----- the accepted strings, letter by letter -------------------------------------------------

  ghost predicate Among(s: string, letters: string) {
    forall i :: 0 <= i < |s| ==> s[i] in letters
  }

  /** A sign and its letters: of `rwx`, or of `ugo`. */
  ghost predicate Sensible(c: Clause) {
    Among(c.letters, "rwx") || Among(c.letters, "ugo")
  }

  function Spelled(cs: seq<Clause>): string {
    if cs == [] then "" else (if cs[0].add then "+" else "-") + cs[0].letters + Spelled(cs[1..])
  }

  /** `s` is made of letters of `ugoa` and at least one clause, of which only the last may have no letters. */
  ghost predicate Symbolic(s: string, d: ModeExpr) {
    && Among(d.who, "ugoa") && d.clauses != []
    && (forall i :: 0 <= i < |d.clauses| ==> Sensible(d.clauses[i]))
    && (forall i :: 0 <= i < |d.clauses| - 1 ==> d.clauses[i].letters != "")
    && s == d.who + Spelled(d.clauses)
  }

  lemma {:induction false} SpelledIsShown(cs: seq<Clause>)
    ensures Spelled(cs) == ShowClauses(cs)
  {
    if cs != [] {
      SpelledIsShown(cs[1..]);
    }
  }

  lemma {:induction false} SensibleExactly(c: Clause)
    ensures Sensible(c) <==> WellFormedClause(c)
  {
    LettersExactly();
    assert Among(c.letters, "rwx") <==> AllLetters(c.letters, false);
    assert Among(c.letters, "ugo") <==> AllLetters(c.letters, true);
  }

  lemma {:induction false} LettersExactly()
    ensures forall c: char :: c in "rwx" <==> IsLetter(c, false)
    ensures forall c: char :: c in "ugo" <==> IsLetter(c, true)
    ensures forall c: char :: c in "ugoa" <==> IsWho(c)
  {
  }

  lemma {:induction false} SymbolicExactly(s: string, d: ModeExpr)
    ensures Symbolic(s, d) <==> WellFormed(d) && Show(d) == s
  {
    LettersExactly();
    SpelledIsShown(d.clauses);
    forall i | 0 <= i < |d.clauses|
      ensures Sensible(d.clauses[i]) <==> WellFormedClause(d.clauses[i])
    {
      SensibleExactly(d.clauses[i]);
    }
  }

  /** The program accepts exactly the strings of octal digits and the symbolic ones. */
  lemma {:induction false} AcceptedStrings(s: string)
    ensures Accepted(s) <==> (forall i :: 0 <= i < |s| ==> '0' <= s[i] <= '7') || exists d :: Symbolic(s, d)
  {
    AcceptsExactly(s);
    forall d
      ensures Symbolic(s, d) <==> WellFormed(d) && Show(d) == s
    {
      SymbolicExactly(s, d);
    }
  }

  /** What a symbolic string does to the mode word of a file. */
  lemma {:induction false} SymbolicMeaning(s: string, d: ModeExpr, before: Bits, b: nat)
    requires Symbolic(s, d)
    ensures Accepted(s) && (b in NewMode(s, before) <==> Meaning(d, b, b in before))
  {
    SymbolicExactly(s, d);
    ParseExact(s, d);
    NotOctal(d);
    SymbolicMode(d, before);
    ResultMeaning(d, before, b);
  }

  lemma {:induction false} NotOctal(d: ModeExpr)
    requires WellFormed(d)
    ensures !IsOctal(Show(d))
  {
    var s := Show(d);
    assert s[|d.who|] == OpOf(d.clauses[0].add);
  }
}
