/** The automaton that compiles a mode string, and the program around it. */
module ModeCompiler {
  import opened Options
  import opened ModeSyntax
  import opened ModeMeaning
  import opened PermList

  datatype State =
    | STATE_ENTRY | STATE_SET_PERMGROUPS | STATE_SET_MODIFICATOR
    | STATE_SET_PERM | STATE_SET_COPIED_GROUP | STATE_EXIT

  /** The character at an index of a C string: the terminating NUL behind the last one, nothing further. */
  function CharAt(s: string, i: nat): char
    requires i <= |s|
  {
    if i < |s| then s[i] else '\0'
  }

  // ----- octal strings --------------------------------------------------------------------------

  predicate IsOctal(s: string) {
    forall i :: 0 <= i < |s| ==> '0' <= s[i] <= '7'
  }

  function OctalValue(s: string): nat
    requires IsOctal(s)
  {
    if s == "" then 0 else 8 * OctalValue(s[..|s| - 1]) + (s[|s| - 1] as int - '0' as int)
  }

  /** `strtoul` stops at 2^64 - 1; `mode_t` keeps the low 32 bits. */
  function OctalMode(s: string): nat
    requires IsOctal(s)
  {
    (if OctalValue(s) < 0x1_0000_0000_0000_0000 then OctalValue(s) else 0xFFFF_FFFF_FFFF_FFFF) % 0x1_0000_0000
  }

  /** The positions of the one bits of a number. */
  function BitsOf(n: nat): Bits {
    if n == 0 then {} else (if n % 2 == 1 then {0} else {}) + set b | b in BitsOf(n / 2) :: b + 1
  }

  // ----- the automaton --------------------------------------------------------------------------

  /** How far a derivation is: the groups, the finished clauses, and the sign and the letters of an unfinished
      one. */
  datatype Progress = Progress(who: string, done: seq<Clause>, add: bool, letters: string)

  /** The finished clauses in front of what the rest of the string parses to. */
  function Resume(who: string, done: seq<Clause>, rest: Option<seq<Clause>>): Option<ModeExpr> {
    match rest
    case None => None
    case Some(cs) => Some(ModeExpr(who, done + cs))
  }

  predicate InClause(state: State) {
    state == STATE_SET_PERM || state == STATE_SET_COPIED_GROUP
  }

  /** The automaton has read `s` up to `index`, and the string parses to what the progress and the unread part
      parse to. In every state but the first the current character is the one at `index`. */
  ghost predicate Tracks(s: string, state: State, index: int, cur: char, pr: Progress) {
    && -1 <= index <= |s|
    && (state != STATE_ENTRY ==> 0 <= index && cur == CharAt(s, index))
    && (state == STATE_ENTRY || state == STATE_SET_PERMGROUPS ==> pr.done == [])
    && match state
       case STATE_ENTRY => index < |s| && Parse(s) == ParseWho(pr.who, s[index + 1..])
       case STATE_SET_PERMGROUPS => index < |s| && IsWho(cur) && Parse(s) == ParseWho(pr.who, s[index..])
       case STATE_SET_MODIFICATOR =>
         index < |s| && IsOp(cur) && Parse(s) == Resume(pr.who, pr.done, ParseClauses(s[index..]))
       case STATE_SET_PERM =>
         && index < |s| && IsPerm(cur) && AllLetters(pr.letters, false)
         && Parse(s) == Resume(pr.who, pr.done, ParseLetters(pr.add, false, pr.letters, s[index..]))
       case STATE_SET_COPIED_GROUP =>
         && index < |s| && IsGroup(cur) && AllLetters(pr.letters, true)
         && Parse(s) == Resume(pr.who, pr.done, ParseLetters(pr.add, true, pr.letters, s[index..]))
       case STATE_EXIT => index == |s| && Parse(s) == Some(ModeExpr(pr.who, pr.done))
  }

  /** The list the automaton has built. */
  ghost function Built(state: State, pr: Progress): seq<Perm> {
    var copied := state == STATE_SET_COPIED_GROUP;
    CompileClauses(pr.done) +
    if InClause(state)
    then [Perm(if pr.add then MOD_APPEND else MOD_ERASE, copied, LetterFlags(pr.letters, copied))]
    else []
  }

  function Rank(state: State): nat {
    if state == STATE_ENTRY then 0 else if state == STATE_EXIT then 0 else 1
  }

  lemma {:induction false} CompileNext(done: seq<Clause>, c: Clause)
    ensures CompileClauses(done + [c]) == CompileClauses(done) + [CompileClause(c)]
  {
    assert (done + [c])[..|done|] == done;
  }

  /** The list right behind an operator. */
  lemma {:induction false} BuiltStart(pr: Progress, add: bool)
    ensures var mod := if add then MOD_APPEND else MOD_ERASE;
      var start := pr.(add := add, letters := "");
      && Built(STATE_SET_MODIFICATOR, pr) == CompileClauses(pr.done)
      && Built(STATE_SET_COPIED_GROUP, start) == CompileClauses(pr.done) + [Perm(mod, true, {})]
      && Built(STATE_SET_PERM, start) == CompileClauses(pr.done) + [Perm(mod, false, {})]
      && Built(STATE_EXIT, pr.(done := pr.done + [Clause(add, "")])) == CompileClauses(pr.done) + [Perm(mod, false, {})]
  {
    CompileNext(pr.done, Clause(add, ""));
  }

  /** A clause whose letters are read is built as it is compiled. */
  lemma {:induction false} ClauseClosed(state: State, pr: Progress, cur: char)
    requires InClause(state)
    requires var copied := state == STATE_SET_COPIED_GROUP;
      CompileClause(Clause(pr.add, pr.letters + [cur]))
        == Perm(if pr.add then MOD_APPEND else MOD_ERASE, copied, LetterFlags(pr.letters + [cur], copied))
    ensures var closed := pr.(done := pr.done + [Clause(pr.add, pr.letters + [cur])]);
      && Built(state, pr.(letters := pr.letters + [cur])) == Built(STATE_SET_MODIFICATOR, closed)
      && Built(STATE_SET_MODIFICATOR, closed) == Built(STATE_EXIT, closed)
  {
    CompileNext(pr.done, Clause(pr.add, pr.letters + [cur]));
  }

  lemma {:induction false} TrackEntry(s: string, index: int, cur: char, pr: Progress)
    requires Tracks(s, STATE_ENTRY, index, cur, pr)
    ensures var c := CharAt(s, index + 1);
      && (IsOp(c) ==> Tracks(s, STATE_SET_MODIFICATOR, index + 1, c, pr))
      && (IsWho(c) ==> Tracks(s, STATE_SET_PERMGROUPS, index + 1, c, pr))
      && (!IsOp(c) && !IsWho(c) ==> Parse(s) == None)
  {
    if index + 1 < |s| && IsOp(s[index + 1]) && ParseClauses(s[index + 1..]).Some? {
      assert pr.done + ParseClauses(s[index + 1..]).value == ParseClauses(s[index + 1..]).value;
    }
  }

  lemma {:induction false} TrackGroups(s: string, index: int, cur: char, pr: Progress)
    requires Tracks(s, STATE_SET_PERMGROUPS, index, cur, pr)
    ensures Tracks(s, STATE_ENTRY, index, cur, pr.(who := pr.who + [cur]))
    ensures WhoFlags(pr.who + [cur]) == WhoFlags(pr.who) + WhoFlag(cur)
  {
    assert s[index..][1..] == s[index + 1..];
    assert (pr.who + [cur])[..|pr.who|] == pr.who;
  }

  lemma {:induction false} TrackModificator(s: string, index: int, cur: char, pr: Progress)
    requires Tracks(s, STATE_SET_MODIFICATOR, index, cur, pr)
    ensures var c, pr' := CharAt(s, index + 1), pr.(add := cur == '+', letters := "");
      && (IsGroup(c) ==> Tracks(s, STATE_SET_COPIED_GROUP, index + 1, c, pr'))
      && (IsPerm(c) ==> Tracks(s, STATE_SET_PERM, index + 1, c, pr'))
      && (c == '\0' && index + 1 == |s| ==>
          Tracks(s, STATE_EXIT, index + 1, c, pr.(done := pr.done + [Clause(cur == '+', "")])))
      && (!IsGroup(c) && !IsPerm(c) && index + 1 < |s| ==> Parse(s) == None)
  {
    assert s[index..][1..] == s[index + 1..];
  }

  /** One letter of a clause, and what the character behind it means. */
  lemma {:induction false} TrackLetter(s: string, state: State, index: int, cur: char, pr: Progress)
    requires InClause(state) && Tracks(s, state, index, cur, pr)
    ensures var c, copied, letters := CharAt(s, index + 1), state == STATE_SET_COPIED_GROUP, pr.letters + [cur];
      var closed := pr.(done := pr.done + [Clause(pr.add, letters)]);
      && (IsLetter(c, copied) ==> Tracks(s, state, index + 1, c, pr.(letters := letters)))
      && (IsOp(c) ==> Tracks(s, STATE_SET_MODIFICATOR, index + 1, c, closed))
      && (index + 1 == |s| ==> Tracks(s, STATE_EXIT, index + 1, c, closed))
      && (index + 1 < |s| && !IsLetter(c, copied) && !IsOp(c) ==> Parse(s) == None)
      && CompileClause(Clause(pr.add, letters))
         == Perm(if pr.add then MOD_APPEND else MOD_ERASE, copied,
                 LetterFlags(pr.letters, copied) + LetterFlag(cur, copied))
  {
    var copied, letters := state == STATE_SET_COPIED_GROUP, pr.letters + [cur];
    assert s[index..][1..] == s[index + 1..] && s[index..][0] == cur;
    assert letters[..|pr.letters|] == pr.letters;
    assert AllLetters(letters, copied);
    if index + 1 < |s| && IsOp(s[index + 1]) {
      var rest := ParseClauses(s[index + 1..]);
      if rest.Some? {
        assert pr.done + ([Clause(pr.add, letters)] + rest.value) == pr.done + [Clause(pr.add, letters)] + rest.value;
      }
    }
  }

  // ----- the program ----------------------------------------------------------------------------

  type FileModes = map<string, Bits>

  /** `chmod(2)` sets the low twelve bits. */
  function SetMode(before: Bits, mode: Bits): Bits {
    (before - CHMOD_BITS) + mode * CHMOD_BITS
  }

  const CHMOD_BITS: Bits := {0, 1, 2, 3, 4, 5, 6, 7, 8, 9, 10, 11}

  class Chmod {
    const parsed: ParsedMode
    var isNumber: bool

    constructor ()
      ensures !isNumber && fresh(parsed) && parsed.Valid() && parsed.Holds([])
      ensures parsed.permGroups == {} && parsed.nodes == []
    {
      parsed := new ParsedMode();
      isNumber := false;
    }

    ghost predicate Good(state: State, pr: Progress)
      reads this, parsed, parsed.nodes
    {
      parsed.Valid() && parsed.Holds(Built(state, pr)) && parsed.permGroups == WhoFlags(pr.who)
    }

    /** Starts a clause at its operator. */
    method StepModificator(s: string, index: nat, cur: char, ghost pr: Progress)
      returns (ok: bool, state': State, cur': char, ghost pr': Progress)
      requires '\0' !in s && Tracks(s, STATE_SET_MODIFICATOR, index, cur, pr) && Good(STATE_SET_MODIFICATOR, pr)
      modifies parsed`perms, parsed`endPerms, parsed`nodes, parsed.nodes
      ensures |parsed.nodes| == |old(parsed.nodes)| + 1
      ensures parsed.nodes == old(parsed.nodes) + [parsed.nodes[|old(parsed.nodes)|]]
      ensures fresh(parsed.nodes[|old(parsed.nodes)|])
      ensures ok ==> Tracks(s, state', index + 1, cur', pr') && Good(state', pr') && state' != STATE_ENTRY
      ensures !ok ==> Parse(s) == None && parsed.Valid()
    {
      TrackModificator(s, index, cur, pr);
      BuiltStart(pr, cur == '+');
      ghost var before := CompileClauses(pr.done);
      var mod := if cur == '+' then MOD_APPEND else MOD_ERASE;
      parsed.AddClause(mod, before);
      ok, cur', pr' := true, CharAt(s, index + 1), pr.(add := cur == '+', letters := "");
      if IsGroup(cur') {
        parsed.SetLast(Perm(mod, true, {}), before, Perm(mod, false, {}));
        state' := STATE_SET_COPIED_GROUP;
      } else if IsPerm(cur') {
        state' := STATE_SET_PERM;
      } else if cur' == '\0' {
        state', pr' := STATE_EXIT, pr.(done := pr.done + [Clause(cur == '+', "")]);
      } else {
        ok, state' := false, STATE_EXIT;
      }
    }

    /** Adds the flag of a letter to the last clause. */
    method AddLetter(state: State, cur: char, ghost pr: Progress)
      requires InClause(state) && Good(state, pr)
      modifies parsed.endPerms
      ensures parsed.Valid() && parsed.Holds(Built(state, pr.(letters := pr.letters + [cur])))
    {
      var copied := state == STATE_SET_COPIED_GROUP;
      ghost var before := CompileClauses(pr.done);
      ghost var last := Perm(if pr.add then MOD_APPEND else MOD_ERASE, copied, LetterFlags(pr.letters, copied));
      assert Built(state, pr) == before + [last] && (before + [last])[|before|] == last;
      assert parsed.endPerms == parsed.nodes[|before|];
      LetterNext(pr.letters, cur, copied);
      var end := parsed.endPerms;
      parsed.SetLast(Perm(end.mod, end.containsCopiedPg, end.flags + LetterFlag(cur, copied)), before, last);
    }

    /** Reads one letter of a clause. */
    method StepLetter(s: string, state: State, index: nat, cur: char, ghost pr: Progress)
      returns (ok: bool, state': State, cur': char, ghost pr': Progress)
      requires '\0' !in s && InClause(state) && Tracks(s, state, index, cur, pr) && Good(state, pr)
      modifies parsed.endPerms
      ensures ok ==> Tracks(s, state', index + 1, cur', pr') && Good(state', pr') && state' != STATE_ENTRY
      ensures !ok ==> Parse(s) == None && parsed.Valid()
    {
      TrackLetter(s, state, index, cur, pr);
      var copied := state == STATE_SET_COPIED_GROUP;
      ghost var c := Clause(pr.add, pr.letters + [cur]);
      LetterNext(pr.letters, cur, copied);
      ClauseClosed(state, pr, cur);
      AddLetter(state, cur, pr);
      ok, cur' := true, CharAt(s, index + 1);
      if IsLetter(cur', copied) {
        state', pr' := state, pr.(letters := pr.letters + [cur]);
      } else if IsOp(cur') {
        state', pr' := STATE_SET_MODIFICATOR, pr.(done := pr.done + [c]);
      } else if cur' == '\0' {
        state', pr' := STATE_EXIT, pr.(done := pr.done + [c]);
      } else {
        ok, state', pr' := false, STATE_EXIT, pr;
      }
    }

    /** Reads the next character of the group letters. */
    method StepEntry(s: string, index: int, cur: char, ghost pr: Progress) returns (ok: bool, state': State, cur': char)
      requires '\0' !in s && Tracks(s, STATE_ENTRY, index, cur, pr) && Good(STATE_ENTRY, pr)
      ensures ok ==> Tracks(s, state', index + 1, cur', pr) && Good(state', pr)
      ensures !ok ==> Parse(s) == None && parsed.Valid()
    {
      TrackEntry(s, index, cur, pr);
      ok, cur' := true, CharAt(s, index + 1);
      if IsOp(cur') {
        state' := STATE_SET_MODIFICATOR;
      } else if IsWho(cur') {
        state' := STATE_SET_PERMGROUPS;
      } else {
        ok, state' := false, STATE_EXIT;
      }
    }

    /** Adds a group. */
    method StepGroups(s: string, index: int, cur: char, ghost pr: Progress) returns (ghost pr': Progress)
      requires Tracks(s, STATE_SET_PERMGROUPS, index, cur, pr) && Good(STATE_SET_PERMGROUPS, pr)
      modifies parsed`permGroups
      ensures Tracks(s, STATE_ENTRY, index, cur, pr') && Good(STATE_ENTRY, pr')
    {
      TrackGroups(s, index, cur, pr);
      pr' := pr.(who := pr.who + [cur]);
      ghost var ps := Built(STATE_SET_PERMGROUPS, pr);
      assert Built(STATE_ENTRY, pr') == ps;
      parsed.permGroups := parsed.permGroups + WhoFlag(cur);
      assert parsed.Valid() && parsed.Holds(ps);
    }

    /** One round of the automaton's loop. Every round reads on, or leaves the state that does not. */
    method Step(s: string, state: State, index: int, cur: char, ghost pr: Progress)
      returns (ok: bool, state': State, index': int, cur': char, ghost pr': Progress)
      requires '\0' !in s && state != STATE_EXIT && Tracks(s, state, index, cur, pr) && Good(state, pr)
      modifies parsed, parsed.nodes
      ensures ok ==> Tracks(s, state', index', cur', pr') && Good(state', pr')
      ensures index' > index || (index' == index && Rank(state') < Rank(state))
      ensures !ok ==> Parse(s) == None && parsed.Valid()
      ensures |old(parsed.nodes)| <= |parsed.nodes| && forall j :: 0 <= j < |parsed.nodes| ==>
        if j < |old(parsed.nodes)| then parsed.nodes[j] == old(parsed.nodes)[j] else fresh(parsed.nodes[j])
    {
      ok, state', index', cur', pr' := true, state, index + 1, cur, pr;
      match state {
        case STATE_ENTRY =>
          ok, state', cur' := StepEntry(s, index, cur, pr);
        case STATE_SET_PERMGROUPS =>
          pr' := StepGroups(s, index, cur, pr);
          state', index' := STATE_ENTRY, index;
        case STATE_SET_MODIFICATOR =>
          ok, state', cur', pr' := StepModificator(s, index, cur, pr);
        case STATE_SET_COPIED_GROUP =>
          ok, state', cur', pr' := StepLetter(s, state, index, cur, pr);
        case STATE_SET_PERM =>
          ok, state', cur', pr' := StepLetter(s, state, index, cur, pr);
      }
    }

    /** Runs the automaton: it succeeds on exactly the strings that parse, and then the list and the group mask
        are the compiled derivation. */
    method RunAutomaton(modeStr: string) returns (ok: bool)
      requires '\0' !in modeStr
      modifies parsed
      ensures ok <==> Parse(modeStr).Some?
      ensures parsed.Valid() && forall j :: 0 <= j < |parsed.nodes| ==> fresh(parsed.nodes[j])
      ensures ok ==>
        && parsed.Holds(CompileClauses(Parse(modeStr).value.clauses))
        && parsed.permGroups == WhoFlags(Parse(modeStr).value.who)
    {
      var state, index: int := STATE_ENTRY, -1;
      parsed.Reset();
      var cur := '\0';
      ghost var pr := Progress("", [], false, "");
      assert modeStr[0..] == modeStr;
      while state != STATE_EXIT
        invariant Tracks(modeStr, state, index, cur, pr) && Good(state, pr)
        invariant forall j :: 0 <= j < |parsed.nodes| ==> fresh(parsed.nodes[j])
        decreases |modeStr| - index, Rank(state)
      {
        ok, state, index, cur, pr := Step(modeStr, state, index, cur, pr);
        if !ok {
          return false;
        }
      }
      ParseExact(modeStr, ModeExpr(pr.who, pr.done));
      ok := parsed.perms != null;
    }

    /** Compiles a mode string. For octal strings only the number is kept. */
    method ParseModeStr(modeStr: string) returns (ok: bool, mask: Bits)
      requires '\0' !in modeStr
      modifies this`isNumber, parsed
      ensures IsOctal(modeStr) ==> ok && isNumber && mask == BitsOf(OctalMode(modeStr)) && unchanged(parsed)
      ensures !IsOctal(modeStr) ==> isNumber == old(isNumber) && (ok <==> Parse(modeStr).Some?)
      ensures !IsOctal(modeStr) ==> parsed.Valid() && forall j :: 0 <= j < |parsed.nodes| ==> fresh(parsed.nodes[j])
      ensures !IsOctal(modeStr) && ok ==>
        && parsed.Holds(CompileClauses(Parse(modeStr).value.clauses))
        && parsed.permGroups == WhoFlags(Parse(modeStr).value.who)
    {
      mask := {};
      if IsOctal(modeStr) {
        isNumber := true;
        return true, BitsOf(OctalMode(modeStr));
      }
      ok := RunAutomaton(modeStr);
    }

    /** What a successful compilation left: the number, or the list and a group mask that selects the right bits. */
    ghost predicate Compiled(modeStr: string)
      reads this, parsed, parsed.nodes
    {
      && parsed.Valid() && isNumber == IsOctal(modeStr)
      && (!isNumber ==>
        && Parse(modeStr).Some?
        && parsed.Holds(CompileClauses(Parse(modeStr).value.clauses))
        && GroupMask(parsed.permGroups) == GroupMask(WhoFlags(Parse(modeStr).value.who)))
    }

    /** The new mode of one file. */
    method ModeFor(modeStr: string, before: Bits, mask: Bits) returns (mode: Bits)
      requires Compiled(modeStr) && (isNumber ==> mask == BitsOf(OctalMode(modeStr)))
      modifies parsed`permGroups
      ensures Compiled(modeStr) && mode == NewMode(modeStr, before)
    {
      var initialMode := before;
      if !isNumber {
        initialMode := parsed.ApplyModes(before, CompileClauses(Parse(modeStr).value.clauses));
      } else {
        initialMode := mask;
      }
      mode := SetMode(before, initialMode);
    }

    /** The loop over the files: each path in turn gets its new mode, up to the first that does not exist. */
    method ChangeFiles(modeStr: string, paths: seq<string>, files: FileModes, mask: Bits)
      returns (ok: bool, files': FileModes)
      requires Compiled(modeStr) && (isNumber ==> mask == BitsOf(OctalMode(modeStr)))
      modifies parsed`permGroups
      ensures parsed.Valid()
      ensures ok <==> FirstMissing(paths, files) == |paths|
      ensures Accepted(modeStr) && Changed(modeStr, files, files', paths[..FirstMissing(paths, files)])
    {
      files' := files;
      var i := 0;
      while i < |paths|
        invariant 0 <= i <= FirstMissing(paths, files)
        invariant Changed(modeStr, files, files', paths[..i])
        invariant Compiled(modeStr)
      {
        var p := paths[i];
        FirstMissingAt(paths, files, i);
        if p !in files' {
          return false, files';
        }
        var mode := ModeFor(modeStr, files'[p], mask);
        ChangeNext(modeStr, files, files', paths, i);
        files' := files'[p := mode];
        i := i + 1;
      }
      ok := true;
    }

    /** The whole program: compiles the mode, then gives every file in turn its new mode. It stops at the first
        path that does not exist; the files in front of it keep their new modes. Whatever happened, the list is
        freed at the end: `built` are its nodes. */
    method ChangeModes(modeStr: string, paths: seq<string>, files: FileModes)
      returns (ok: bool, files': FileModes, ghost built: seq<ChangedPerm>)
      requires '\0' !in modeStr && !isNumber && parsed.Valid() && parsed.Holds([])
      modifies this, parsed
      ensures parsed.Valid() && parsed.Holds([])
      ensures forall n :: n in built ==> fresh(n) && !n.live
      ensures !IsOctal(modeStr) && paths != [] && Accepted(modeStr) ==> |built| == |Parse(modeStr).value.clauses|
      ensures ok <==> paths != [] && Accepted(modeStr) && FirstMissing(paths, files) == |paths|
      ensures Accepted(modeStr) ==> Changed(modeStr, files, files', paths[..FirstMissing(paths, files)])
      ensures !Accepted(modeStr) ==> files' == files
    {
      files', built := files, [];
      if |paths| == 0 {
        return false, files, [];
      }
      var mask;
      ok, mask := ParseModeStr(modeStr);
      if ok {
        ok, files' := ChangeFiles(modeStr, paths, files, mask);
      }
      built := parsed.nodes;
      parsed.ClearChangedPerm();
    }
  }

  /** The mode strings the program accepts: octal ones, the empty one included, and the derivable ones. */
  predicate Accepted(modeStr: string) {
    IsOctal(modeStr) || Parse(modeStr).Some?
  }

  /** The mode of a file after the program handled it once. */
  function NewMode(modeStr: string, before: Bits): Bits
    requires Accepted(modeStr)
  {
    SetMode(before, if IsOctal(modeStr) then BitsOf(OctalMode(modeStr)) else Result(Parse(modeStr).value, before))
  }

  /** The empty string is no derivation but passes for an octal number: it clears all twelve bits. */
  lemma {:induction false} EmptyStringIsZero(before: Bits)
    ensures Parse("") == None && Accepted("") && OctalMode("") == 0
    ensures NewMode("", before) == before - CHMOD_BITS
  {
    assert BitsOf(0) == {};
  }

  /** How many paths in front exist. */
  function FirstMissing(paths: seq<string>, files: FileModes): (k: nat)
    ensures k <= |paths|
  {
    if paths == [] || paths[0] !in files then 0 else 1 + FirstMissing(paths[1..], files)
  }

  lemma {:induction false} FirstMissingAt(paths: seq<string>, files: FileModes, i: nat)
    requires i <= FirstMissing(paths, files) && i < |paths|
    ensures paths[i] in files <==> i < FirstMissing(paths, files)
  {
    if i > 0 {
      FirstMissingAt(paths[1..], files, i - 1);
    }
  }

  /** A symbolic mode string changes permission bits only, so `chmod` stores exactly what was computed. */
  lemma {:induction false} SymbolicMode(d: ModeExpr, before: Bits)
    requires WellFormed(d)
    ensures SetMode(before, Result(d, before)) == Result(d, before)
  {
    forall b: nat
      ensures b in SetMode(before, Result(d, before)) <==> b in Result(d, before)
    {
      ResultMeaning(d, before, b);
      assert b in CHMOD_BITS <==> b < 12;
    }
  }

  /** Handling a file a second time changes nothing, so repeated paths do no harm and the order of the paths
      does not matter. */
  lemma {:induction false} NewModeTwice(modeStr: string, before: Bits)
    requires Accepted(modeStr)
    ensures NewMode(modeStr, NewMode(modeStr, before)) == NewMode(modeStr, before)
  {
    if !IsOctal(modeStr) {
      var d := Parse(modeStr).value;
      ParseExact(modeStr, d);
      SymbolicMode(d, before);
      SymbolicMode(d, Result(d, before));
      Idempotent(d, before);
    }
  }

  /** The files with the given paths have their new modes, the others their old ones. */
  ghost predicate Changed(modeStr: string, files: FileModes, files': FileModes, paths: seq<string>)
    requires Accepted(modeStr)
  {
    && files'.Keys == files.Keys
    && forall p :: p in files ==> (files'[p] == if p in paths then NewMode(modeStr, files[p]) else files[p])
  }

  /** One more path, whether or not it was among the earlier ones. */
  lemma {:induction false} ChangeNext(modeStr: string, files: FileModes, files': FileModes, paths: seq<string>, i: nat)
    requires Accepted(modeStr) && i < |paths| && paths[i] in files && Changed(modeStr, files, files', paths[..i])
    ensures Changed(modeStr, files, files'[paths[i] := NewMode(modeStr, files'[paths[i]])], paths[..i + 1])
  {
    assert paths[..i + 1] == paths[..i] + [paths[i]];
    NewModeTwice(modeStr, files[paths[i]]);
  }

  lemma {:induction false} LetterNext(letters: string, c: char, copied: bool)
    ensures LetterFlags(letters + [c], copied) == LetterFlags(letters, copied) + LetterFlag(c, copied)
  {
    assert (letters + [c])[..|letters|] == letters;
  }
}
