/** One writer and any number of readers share a string under a mutex; `done` is the stop signal. The threads
    are a state machine whose steps are the accesses to shared data and the calls that may block. */
module Broadcast {
  import opened Options

  /** The shared string: initially empty, `worker wrote num=k`, or `done`. */
  datatype Message = Empty | Num(k: int) | Done

  datatype Thread = Writer | Reader(i: nat)

  datatype WriterPc =
    | WAbsent        // not created yet
    | WLock          // about to lock
    | WIncrement     // (*num)++
    | WPrintNum      // sprintf of the number
    | WCheck         // *num == 6?
    | WPrintDone     // sprintf of the stop signal
    | WUnlock(last: bool)
    | WReturned

  datatype ReaderPc =
    | RAbsent
    | RLock
    | RCompare       // strcmp with the stop signal
    | RPrint
    | RUnlock(last: bool)
    | RReturned

  datatype MainPc = CreateWriter | CreateReader(i: nat) | JoinReader(i: nat) | JoinWriter | Returned

  /** One line of output: who printed it, and the string. */
  datatype Line = Line(reader: nat, message: Message)

  /** `log` is the output, in the order in which the readers printed it. */
  datatype State = State(
    str: Message, num: int, owner: Option<Thread>,
    writer: WriterPc, readers: seq<ReaderPc>, main: MainPc, log: seq<Line>)

  const LAST: int := 6

  ghost predicate Init(s: State) {
    && s.str == Empty && s.num == 0 && s.owner == None
    && s.writer == WAbsent && s.main == CreateWriter
    && s.log == [] && forall i :: 0 <= i < |s.readers| ==> s.readers[i] == RAbsent
  }

  // ----- steps ----------------------------------------------------------------------------------

  /** The only step the writer can take, if it can take one. */
  function WriterStep(s: State): Option<State> {
    match s.writer
    case WAbsent => None
    case WLock => if s.owner == None then Some(s.(owner := Some(Writer), writer := WIncrement)) else None
    case WIncrement => Some(s.(num := s.num + 1, writer := WPrintNum))
    case WPrintNum => Some(s.(str := Num(s.num), writer := WCheck))
    case WCheck => Some(s.(writer := if s.num == LAST then WPrintDone else WUnlock(false)))
    case WPrintDone => Some(s.(str := Done, writer := WUnlock(true)))
    case WUnlock(last) => Some(s.(owner := None, writer := if last then WReturned else WLock))
    case WReturned => None
  }

  function ReaderStep(s: State, i: nat): Option<State>
    requires i < |s.readers|
  {
    match s.readers[i]
    case RAbsent => None
    case RLock =>
      if s.owner == None then Some(s.(owner := Some(Reader(i)), readers := s.readers[i := RCompare])) else None
    case RCompare => Some(s.(readers := s.readers[i := if s.str == Done then RUnlock(true) else RPrint]))
    case RPrint => Some(s.(readers := s.readers[i := RUnlock(false)], log := s.log + [Line(i, s.str)]))
    case RUnlock(last) => Some(s.(owner := None, readers := s.readers[i := if last then RReturned else RLock]))
    case RReturned => None
  }

  /** The main thread creates the writer and the readers, then joins the readers in order and the writer. */
  function MainStep(s: State): Option<State> {
    match s.main
    case CreateWriter => Some(s.(writer := WLock, main := CreateReader(0)))
    case CreateReader(i) =>
      if i < |s.readers| then Some(s.(readers := s.readers[i := RLock], main := CreateReader(i + 1)))
      else Some(s.(main := JoinReader(0)))
    case JoinReader(i) =>
      if i < |s.readers| then (if s.readers[i] == RReturned then Some(s.(main := JoinReader(i + 1))) else None)
      else Some(s.(main := JoinWriter))
    case JoinWriter => if s.writer == WReturned then Some(s.(main := Returned)) else None
    case Returned => None
  }

  ghost predicate Next(s: State, s': State) {
    || WriterStep(s) == Some(s')
    || MainStep(s) == Some(s')
    || exists i :: 0 <= i < |s.readers| && ReaderStep(s, i) == Some(s')
  }

  // ----- the invariant --------------------------------------------------------------------------

  predicate WriterInside(pc: WriterPc) {
    pc == WIncrement || pc == WPrintNum || pc == WCheck || pc == WPrintDone || pc.WUnlock?
  }

  predicate ReaderInside(pc: ReaderPc) {
    pc == RCompare || pc == RPrint || pc.RUnlock?
  }

  function Value(m: Message): int {
    match m
    case Empty => 0
    case Num(k) => k
    case Done => LAST
  }

  /** What the string is while nobody is between the writer's increment and its unlock. */
  predicate Settled(s: State) {
    if s.num == 0 then s.str == Empty
    else if s.num < LAST then s.str == Num(s.num)
    else s.num == LAST && s.str == Done
  }

  /** The writer's view: the number counts up to six, and the string follows it. */
  predicate WriterOk(s: State) {
    match s.writer
    case WAbsent => s.num == 0 && s.str == Empty
    case WLock => 0 <= s.num < LAST && Settled(s)
    case WIncrement => 0 <= s.num < LAST && Settled(s)
    case WPrintNum => 1 <= s.num <= LAST && s.str == if s.num == 1 then Empty else Num(s.num - 1)
    case WCheck => 1 <= s.num <= LAST && s.str == Num(s.num)
    case WPrintDone => s.num == LAST && s.str == Num(LAST)
    case WUnlock(last) => 1 <= s.num <= LAST && Settled(s) && (last <==> s.num == LAST)
    case WReturned => s.num == LAST && s.str == Done
  }

  /** A message a reader may print: the initial empty one, or a number below six. */
  predicate Printable(m: Message) {
    m == Empty || (m.Num? && 1 <= m.k < LAST)
  }

  /** What all the readers printed: printable, never decreasing, not ahead of the writer. */
  ghost predicate LogOk(log: seq<Line>, num: int) {
    && (forall j :: 0 <= j < |log| ==> Printable(log[j].message) && Value(log[j].message) <= num)
    && (forall j, k :: 0 <= j < k < |log| ==> Value(log[j].message) <= Value(log[k].message))
  }

  ghost predicate ReaderOk(s: State, i: nat)
    requires i < |s.readers|
  {
    && (s.readers[i] == RPrint || s.readers[i] == RUnlock(false) ==> s.str != Done)
    && (s.readers[i] == RUnlock(true) || s.readers[i] == RReturned ==> s.str == Done)
  }

  /** Which threads the main thread has created and joined. */
  ghost predicate MainOk(s: State) {
    match s.main
    case CreateWriter => s.writer == WAbsent && forall i :: 0 <= i < |s.readers| ==> s.readers[i] == RAbsent
    case CreateReader(k) =>
      && s.writer != WAbsent && k <= |s.readers|
      && forall i :: 0 <= i < |s.readers| ==> (s.readers[i] == RAbsent <==> k <= i)
    case JoinReader(k) =>
      && s.writer != WAbsent && k <= |s.readers|
      && forall i :: 0 <= i < |s.readers| ==> s.readers[i] != RAbsent && (i < k ==> s.readers[i] == RReturned)
    case JoinWriter => s.writer != WAbsent && forall i :: 0 <= i < |s.readers| ==> s.readers[i] == RReturned
    case Returned => s.writer == WReturned && forall i :: 0 <= i < |s.readers| ==> s.readers[i] == RReturned
  }

  /** The thread inside its critical section is the owner of the mutex, and the owner is inside. */
  ghost predicate LockOk(s: State) {
    && (WriterInside(s.writer) <==> s.owner == Some(Writer))
    && (forall i :: 0 <= i < |s.readers| ==> (ReaderInside(s.readers[i]) <==> s.owner == Some(Reader(i))))
    && (s.owner.Some? && s.owner.value.Reader? ==> s.owner.value.i < |s.readers|)
  }

  ghost predicate Inv(s: State) {
    && LockOk(s) && WriterOk(s) && MainOk(s) && LogOk(s.log, s.num)
    && forall i :: 0 <= i < |s.readers| ==> ReaderOk(s, i)
  }

  lemma {:induction false} InitInv(s: State)
    requires Init(s)
    ensures Inv(s)
  {
  }

  lemma {:induction false} WriterKeeps(s: State, s': State)
    requires Inv(s) && WriterStep(s) == Some(s')
    ensures Inv(s')
  {
    forall i | 0 <= i < |s'.readers|
      ensures ReaderOk(s', i)
    {
      assert ReaderOk(s, i);
    }
  }

  lemma {:induction false} ReaderKeeps(s: State, i: nat, s': State)
    requires Inv(s) && i < |s.readers| && ReaderStep(s, i) == Some(s')
    ensures Inv(s')
  {
    ReaderKeepsLock(s, i, s');
    forall k | 0 <= k < |s'.readers|
      ensures ReaderOk(s', k)
    {
      ReaderKeepsReaders(s, i, s', k);
    }
  }

  lemma {:induction false} ReaderKeepsLock(s: State, i: nat, s': State)
    requires Inv(s) && i < |s.readers| && ReaderStep(s, i) == Some(s')
    ensures LockOk(s') && WriterOk(s') && LogOk(s'.log, s'.num)
  {
    assert ReaderOk(s, i);
  }

  lemma {:induction false} ReaderKeepsReaders(s: State, i: nat, s': State, k: nat)
    requires Inv(s) && i < |s.readers| && ReaderStep(s, i) == Some(s') && k < |s'.readers|
    ensures ReaderOk(s', k)
  {
    assert ReaderOk(s, i) && ReaderOk(s, k);
  }

  lemma {:induction false} MainKeepsReaders(s: State, s': State, i: nat)
    requires Inv(s) && MainStep(s) == Some(s') && i < |s'.readers|
    ensures ReaderOk(s', i)
  {
    assert ReaderOk(s, i);
  }

  lemma {:induction false} MainKeepsOrder(s: State, s': State)
    requires Inv(s) && MainStep(s) == Some(s')
    ensures MainOk(s')
  {
  }

  lemma {:induction false} MainKeepsLock(s: State, s': State)
    requires Inv(s) && MainStep(s) == Some(s')
    ensures LockOk(s') && WriterOk(s')
  {
  }

  lemma {:induction false} MainKeeps(s: State, s': State)
    requires Inv(s) && MainStep(s) == Some(s')
    ensures Inv(s')
  {
    MainKeepsOrder(s, s');
    MainKeepsLock(s, s');
    forall i | 0 <= i < |s'.readers|
      ensures ReaderOk(s', i)
    {
      MainKeepsReaders(s, s', i);
    }
  }

  lemma {:induction false} NextKeeps(s: State, s': State)
    requires Inv(s) && Next(s, s')
    ensures Inv(s')
  {
    if WriterStep(s) == Some(s') {
      WriterKeeps(s, s');
    } else if MainStep(s) == Some(s') {
      MainKeeps(s, s');
    } else {
      var i :| 0 <= i < |s.readers| && ReaderStep(s, i) == Some(s');
      ReaderKeeps(s, i, s');
    }
  }

  // ----- runs -----------------------------------------------------------------------------------

  ghost predicate StepAt(run: seq<State>, k: nat)
    requires 0 < k < |run|
  {
    Next(run[k - 1], run[k])
  }

  /** A finite sequence of states, each a step after its predecessor. */
  ghost predicate IsPath(path: seq<State>) {
    path != [] && forall k :: 0 < k < |path| ==> StepAt(path, k)
  }

  /** A path from an initial state. */
  ghost predicate IsRun(run: seq<State>) {
    IsPath(run) && Init(run[0])
  }

  lemma {:induction false} RunInv(run: seq<State>, k: nat)
    requires IsRun(run) && k < |run|
    ensures Inv(run[k])
  {
    if k == 0 {
      InitInv(run[0]);
    } else {
      RunInv(run, k - 1);
      assert StepAt(run, k);
      NextKeeps(run[k - 1], run[k]);
    }
  }

  ghost predicate Inside(s: State, t: Thread) {
    match t
    case Writer => WriterInside(s.writer)
    case Reader(i) => i < |s.readers| && ReaderInside(s.readers[i])
  }

  /** Mutual exclusion, in every state of every run. */
  lemma {:induction false} MutualExclusion(run: seq<State>, k: nat, t: Thread, u: Thread)
    requires IsRun(run) && k < |run| && Inside(run[k], t) && Inside(run[k], u)
    ensures t == u && run[k].owner == Some(t)
  {
    RunInv(run, k);
  }

  /** Everything any reader ever prints is the empty string or a number from 1 to 5, and in the whole output, over
      all readers, the numbers never decrease. */
  lemma {:induction false} PrintedOk(run: seq<State>, k: nat)
    requires IsRun(run) && k < |run|
    ensures forall j :: 0 <= j < |run[k].log| ==>
      var m := run[k].log[j].message; m == Empty || (m.Num? && 1 <= m.k <= 5)
    ensures forall j, l :: 0 <= j < l < |run[k].log| ==> Value(run[k].log[j].message) <= Value(run[k].log[l].message)
  {
    RunInv(run, k);
  }

  /** The transient string `num=6` exists, but only while the writer is inside its critical section. */
  lemma {:induction false} TransientIsHidden(run: seq<State>, k: nat)
    requires IsRun(run) && k < |run| && run[k].str == Num(6)
    ensures run[k].owner == Some(Writer)
    ensures forall i :: 0 <= i < |run[k].readers| ==> !ReaderInside(run[k].readers[i])
  {
    RunInv(run, k);
  }

  // ----- what a critical section does -----------------------------------------------------------

  ghost predicate Owns(s: State, t: Thread) {
    s.owner == Some(t)
  }

  /** Thread `t` takes the mutex in the step to state `j` and gives it back in the step to state `k`. */
  ghost predicate Section(run: seq<State>, t: Thread, j: nat, k: nat) {
    && 0 < j < k < |run| && !Owns(run[j - 1], t) && !Owns(run[k], t)
    && forall x :: j <= x < k ==> Owns(run[x], t)
  }

  /** How far a reader that took the mutex in state `start` has come. */
  ghost predicate ReaderSince(start: State, s: State, i: nat) {
    && i < |s.readers| && s.str == start.str
    && match s.readers[i]
       case RCompare => s.log == start.log
       case RPrint => s.log == start.log && s.str != Done
       case RUnlock(last) =>
         (last <==> s.str == Done) && s.log == if last then start.log else start.log + [Line(i, s.str)]
       case _ => false
  }

  lemma {:induction false} ReaderTakes(s: State, s': State, i: nat)
    requires Inv(s) && Next(s, s') && !Owns(s, Reader(i)) && Owns(s', Reader(i))
    ensures ReaderSince(s', s', i) && s'.log == s.log && s'.str == s.str
  {
    NextKeeps(s, s');
  }

  lemma {:induction false} ReaderGoesOn(start: State, s: State, s': State, i: nat)
    requires Inv(s) && Next(s, s') && Owns(s, Reader(i)) && ReaderSince(start, s, i)
    ensures Owns(s', Reader(i)) ==> ReaderSince(start, s', i)
    ensures !Owns(s', Reader(i)) ==>
      s'.str == start.str && s'.log == if start.str == Done then start.log else start.log + [Line(i, start.str)]
  {
  }

  lemma {:induction false} ReaderAt(run: seq<State>, i: nat, j: nat, k: nat, x: nat)
    requires IsRun(run) && Section(run, Reader(i), j, k) && j <= x < k
    ensures ReaderSince(run[j], run[x], i)
  {
    RunInv(run, x - 1);
    assert StepAt(run, x);
    if x == j {
      ReaderTakes(run[j - 1], run[j], i);
    } else {
      ReaderAt(run, i, j, k, x - 1);
      ReaderGoesOn(run[j], run[x - 1], run[x], i);
    }
  }

  /** A reader that takes the mutex prints the string it finds, once, unless it is the stop signal; then it prints
      nothing. The string stays the same while the reader has the mutex. */
  lemma {:induction false} ReaderPrints(run: seq<State>, i: nat, j: nat, k: nat)
    requires IsRun(run) && Section(run, Reader(i), j, k)
    ensures run[k].log == if run[j].str == Done then run[j].log else run[j].log + [Line(i, run[j].str)]
    ensures run[k].str == run[j].str == run[j - 1].str && run[j].log == run[j - 1].log
  {
    RunInv(run, j - 1);
    assert StepAt(run, j);
    ReaderTakes(run[j - 1], run[j], i);
    RunInv(run, k - 1);
    assert StepAt(run, k);
    ReaderAt(run, i, j, k, k - 1);
    ReaderGoesOn(run[j], run[k - 1], run[k], i);
  }

  lemma {:induction false} WriterTakes(s: State, s': State)
    requires Inv(s) && Next(s, s') && !Owns(s, Writer) && Owns(s', Writer)
    ensures s'.writer == WIncrement && s'.num == s.num && s'.log == s.log
  {
    NextKeeps(s, s');
  }

  /** How far a writer that took the mutex in state `start` has come. */
  ghost predicate WriterSince(start: State, s: State) {
    && s.log == start.log
    && match s.writer
       case WIncrement => s.num == start.num
       case WPrintNum => s.num == start.num + 1
       case WCheck => s.num == start.num + 1
       case WPrintDone => s.num == start.num + 1
       case WUnlock(_) => s.num == start.num + 1
       case _ => false
  }

  lemma {:induction false} WriterGoesOn(start: State, s: State, s': State)
    requires Inv(s) && Next(s, s') && Owns(s, Writer) && WriterSince(start, s)
    ensures if Owns(s', Writer) then WriterSince(start, s')
            else s'.num == start.num + 1 && s'.log == start.log && s'.str == s.str && s.writer.WUnlock?
  {
  }

  lemma {:induction false} WriterAt(run: seq<State>, j: nat, k: nat, x: nat)
    requires IsRun(run) && Section(run, Writer, j, k) && j <= x < k
    ensures WriterSince(run[j], run[x])
  {
    RunInv(run, x - 1);
    assert StepAt(run, x);
    if x == j {
      WriterTakes(run[j - 1], run[j]);
    } else {
      WriterAt(run, j, k, x - 1);
      WriterGoesOn(run[j], run[x - 1], run[x]);
    }
  }

  /** A writer that takes the mutex counts one further and leaves the new number, or the stop signal at six. It
      prints nothing. */
  lemma {:induction false} WriterWrites(run: seq<State>, j: nat, k: nat)
    requires IsRun(run) && Section(run, Writer, j, k)
    ensures run[k].num == run[j].num + 1 && run[j].num == run[j - 1].num && run[k].log == run[j - 1].log
    ensures run[k].str == if run[k].num == 6 then Done else Num(run[k].num)
  {
    RunInv(run, j - 1);
    assert StepAt(run, j);
    WriterTakes(run[j - 1], run[j]);
    RunInv(run, k - 1);
    assert StepAt(run, k);
    WriterAt(run, j, k, k - 1);
    WriterGoesOn(run[j], run[k - 1], run[k]);
  }

  /** Nothing else prints or writes: the output changes in steps of a reader that has the mutex only, the string and
      the number in steps of a writer that has it only. */
  lemma {:induction false} OnlyOwnersAct(run: seq<State>, k: nat)
    requires IsRun(run) && 0 < k < |run|
    ensures run[k].log != run[k - 1].log ==>
      run[k].owner == run[k - 1].owner && run[k].owner.Some? && run[k].owner.value.Reader?
    ensures run[k].str != run[k - 1].str || run[k].num != run[k - 1].num ==>
      Owns(run[k], Writer) && Owns(run[k - 1], Writer)
  {
    RunInv(run, k - 1);
    assert StepAt(run, k);
  }

  lemma {:induction false} DoneStays(s: State, s': State)
    requires Inv(s) && Next(s, s') && s.str == Done
    ensures s'.str == Done
  {
  }

  /** The stop signal is stable. */
  lemma {:induction false} DoneIsStable(run: seq<State>, j: nat, k: nat)
    requires IsRun(run) && j <= k < |run| && run[j].str == Done
    ensures run[k].str == Done
  {
    if j < k {
      DoneIsStable(run, j, k - 1);
      RunInv(run, k - 1);
      assert StepAt(run, k);
      DoneStays(run[k - 1], run[k]);
    }
  }

  // ----- progress -------------------------------------------------------------------------------

  predicate Final(s: State) {
    s.main == Returned
  }

  lemma {:induction false} ReturnedState(s: State)
    requires Inv(s) && Final(s)
    ensures s.num == LAST && s.str == Done && s.owner == None && s.writer == WReturned
    ensures forall i :: 0 <= i < |s.readers| ==> s.readers[i] == RReturned
  {
    match s.owner
    case None =>
    case Some(Writer) =>
    case Some(Reader(i)) => assert false;
  }

  /** In the final state the counter is six, everybody has returned and the mutex is free. */
  lemma {:induction false} FinalState(run: seq<State>, k: nat)
    requires IsRun(run) && k < |run| && Final(run[k])
    ensures var s := run[k];
      && s.num == 6 && s.str == Done && s.owner == None && s.writer == WReturned
      && (forall i :: 0 <= i < |s.readers| ==> s.readers[i] == RReturned)
  {
    RunInv(run, k);
    ReturnedState(run[k]);
  }

  /** Steps the writer still has to take. */
  function WriterLeft(s: State): int {
    match s.writer
    case WAbsent => 31
    case WLock => 31 - 5 * s.num
    case WIncrement => 30 - 5 * s.num
    case WPrintNum => 34 - 5 * s.num
    case WCheck => 33 - 5 * s.num
    case WPrintDone => 2
    case WUnlock(last) => if last then 1 else 32 - 5 * s.num
    case WReturned => 0
  }

  /** Steps a reader has to take until it waits for the mutex again or, once the signal is given, returns. */
  function ReaderLeft(pc: ReaderPc, done: bool): nat {
    match pc
    case RAbsent => 4
    case RLock => 3
    case RCompare => if done then 2 else 6
    case RPrint => 5
    case RUnlock(last) => if last then 1 else 4
    case RReturned => 0
  }

  function ReadersLeft(pcs: seq<ReaderPc>, done: bool): nat {
    if pcs == [] then 0 else ReaderLeft(pcs[0], done) + ReadersLeft(pcs[1..], done)
  }

  function MainLeft(s: State): int {
    match s.main
    case CreateWriter => 2 * |s.readers| + 4
    case CreateReader(i) => 2 * |s.readers| + 3 - i
    case JoinReader(i) => |s.readers| + 2 - i
    case JoinWriter => 1
    case Returned => 0
  }

  function Measure(s: State): int {
    WriterLeft(s) + ReadersLeft(s.readers, s.str == Done) + MainLeft(s)
  }

  lemma {:induction false} MeasureIsNatural(s: State)
    requires Inv(s)
    ensures Measure(s) >= 0
  {
  }

  lemma {:induction false} OneReader(pcs: seq<ReaderPc>, i: nat, pc: ReaderPc, done: bool)
    requires i < |pcs|
    ensures ReadersLeft(pcs[i := pc], done) == ReadersLeft(pcs, done) - ReaderLeft(pcs[i], done) + ReaderLeft(pc, done)
  {
    if i == 0 {
      assert pcs[i := pc][1..] == pcs[1..];
    } else {
      OneReader(pcs[1..], i - 1, pc, done);
      assert pcs[i := pc][1..] == pcs[1..][i - 1 := pc];
    }
  }

  /** The stop signal changes no reader's share while none of them compares. */
  lemma {:induction false} NobodyCompares(pcs: seq<ReaderPc>)
    requires forall i :: 0 <= i < |pcs| ==> pcs[i] != RCompare
    ensures ReadersLeft(pcs, true) == ReadersLeft(pcs, false)
  {
    if pcs != [] {
      assert pcs[0] != RCompare;
      assert forall i :: 0 <= i < |pcs| - 1 ==> pcs[1..][i] == pcs[i + 1];
      NobodyCompares(pcs[1..]);
    }
  }

  lemma {:induction false} WriterDecreases(s: State, s': State)
    requires Inv(s) && WriterStep(s) == Some(s')
    ensures Measure(s') < Measure(s)
  {
    if s.writer == WPrintDone {
      forall i | 0 <= i < |s.readers|
        ensures s.readers[i] != RCompare
      {
        assert ReaderInside(s.readers[i]) <==> s.owner == Some(Reader(i));
      }
      NobodyCompares(s.readers);
    }
  }

  lemma {:induction false} MainDecreases(s: State, s': State)
    requires Inv(s) && MainStep(s) == Some(s')
    ensures Measure(s') < Measure(s)
  {
    if s.main.CreateReader? && s.main.i < |s.readers| {
      OneReader(s.readers, s.main.i, RLock, s.str == Done);
    }
  }

  /** A reader's step decreases the measure, except for taking the mutex before the signal is given. */
  lemma {:induction false} ReaderDecreases(s: State, i: nat, s': State)
    requires Inv(s) && i < |s.readers| && ReaderStep(s, i) == Some(s')
    requires s.readers[i] != RLock || s.str == Done
    ensures Measure(s') < Measure(s)
  {
    assert ReaderOk(s, i);
    OneReader(s.readers, i, s'.readers[i], s.str == Done);
  }

  /** Once the stop signal is given, every step of every thread decreases a natural measure. */
  lemma {:induction false} DoneDecreases(s: State, s': State)
    requires Inv(s) && Next(s, s') && s.str == Done
    ensures 0 <= Measure(s') < Measure(s)
  {
    NextKeeps(s, s');
    MeasureIsNatural(s');
    if WriterStep(s) == Some(s') {
      WriterDecreases(s, s');
    } else if MainStep(s) == Some(s') {
      MainDecreases(s, s');
    } else {
      var i :| 0 <= i < |s.readers| && ReaderStep(s, i) == Some(s');
      ReaderDecreases(s, i, s');
    }
  }

  /** Hence no run goes on for more steps after the signal than the measure says. */
  lemma {:induction false} DoneEnds(run: seq<State>, j: nat, k: nat)
    requires IsRun(run) && j <= k < |run| && run[j].str == Done
    ensures k - j <= Measure(run[j]) - Measure(run[k])
    ensures Measure(run[k]) >= 0
  {
    assert Measure(run[k]) >= 0 by {
      RunInv(run, k);
      MeasureIsNatural(run[k]);
    }
    if j < k {
      DoneEnds(run, j, k - 1);
      assert Measure(run[k]) < Measure(run[k - 1]) by {
        RunInv(run, k - 1);
        DoneIsStable(run, j, k - 1);
        assert StepAt(run, k);
        DoneDecreases(run[k - 1], run[k]);
      }
    }
  }

  /** No deadlock: in every state that is not final some thread has a step, one that decreases the measure. */
  lemma {:induction false} SomeStep(s: State) returns (s': State)
    requires Inv(s) && !Final(s)
    ensures Next(s, s') && Measure(s') < Measure(s)
  {
    if s.owner.Some? && s.owner.value.Reader? {
      var i := s.owner.value.i;
      assert ReaderInside(s.readers[i]);
      s' := ReaderStep(s, i).value;
      ReaderDecreases(s, i, s');
    } else if s.owner == Some(Writer) || s.writer == WLock {
      s' := WriterStep(s).value;
      WriterDecreases(s, s');
    } else if s.main.JoinReader? && s.main.i < |s.readers| && s.readers[s.main.i] != RReturned {
      s' := WaitingReader(s, s.main.i);
    } else {
      s' := MainStep(s).value;
      MainDecreases(s, s');
    }
  }

  /** The reader the main thread waits for can take the mutex: the writer has returned. */
  lemma {:induction false} WaitingReader(s: State, i: nat) returns (s': State)
    requires Inv(s) && s.owner == None && s.writer != WLock
    requires s.main == JoinReader(i) && i < |s.readers| && s.readers[i] != RReturned
    ensures Next(s, s') && Measure(s') < Measure(s)
  {
    assert !ReaderInside(s.readers[i]);
    s' := ReaderStep(s, i).value;
    ReaderDecreases(s, i, s');
  }

  /** From every reachable state there is a path to the final state, no longer than the measure. */
  lemma {:induction false} PathToFinal(s: State) returns (path: seq<State>)
    requires Inv(s)
    ensures IsPath(path) && path[0] == s && Final(path[|path| - 1]) && |path| <= Measure(s) + 1
    decreases Measure(s) + 1
  {
    MeasureIsNatural(s);
    if Final(s) {
      path := [s];
    } else {
      var s' := SomeStep(s);
      NextKeeps(s, s');
      MeasureIsNatural(s');
      var rest := PathToFinal(s');
      path := [s] + rest;
      forall k | 0 < k < |path|
        ensures StepAt(path, k)
      {
        if k > 1 {
          assert StepAt(rest, k - 1);
        }
      }
    }
  }

  /** No deadlock and a way to the end, from every state of every run. */
  lemma {:induction false} AlwaysCanFinish(run: seq<State>, k: nat)
    requires IsRun(run) && k < |run|
    ensures Final(run[k]) || exists s' :: Next(run[k], s')
    ensures exists path :: IsPath(path) && path[0] == run[k] && Final(path[|path| - 1])
  {
    RunInv(run, k);
    var path := PathToFinal(run[k]);
    if !Final(run[k]) {
      var s' := SomeStep(run[k]);
    }
  }
}
