/** Inserts, one after the other and at once, as commands on the file system. */
module Batches {
  import opened Bytes
  import opened FileInfos
  import opened HeaderScan
  import opened Archive
  import opened Commands
  import opened Refinement
  import opened Laws

  // ----- what the arguments stand for -----------------------------------------------------------

  ghost predicate SameAt(files: Files, files': Files, p: Path) {
    (p in files <==> p in files') && (p in files ==> files[p] == files'[p])
  }

  /** Entries, data and errors depend on nothing but what the arguments denote. */
  lemma {:induction false} SameArguments(files: Files, files': Files, fnames: seq<Path>, scratch: seq<Block>)
    requires AllInsertable(files, fnames) && |scratch| == |fnames|
    requires forall i :: 0 <= i < |fnames| ==> SameAt(files, files', fnames[i])
    ensures AllInsertable(files', fnames)
    ensures NewEntries(files', fnames, scratch) == NewEntries(files, fnames, scratch)
    ensures AddedData(files', fnames) == AddedData(files, fnames)
  {
    forall i | 0 <= i < |fnames|
      ensures Insertable(files', fnames[i])
    {
      assert Insertable(files, fnames[i]) && SameAt(files, files', fnames[i]);
    }
    if fnames != [] {
      assert SameAt(files, files', fnames[0]);
      assert forall i :: 0 <= i < |fnames[1..]| ==> fnames[1..][i] == fnames[i + 1];
      SameArguments(files, files', fnames[1..], scratch[1..]);
      NewEntriesFirst(files, fnames, scratch);
      NewEntriesFirst(files', fnames, scratch);
    }
  }

  /** After an insert the arguments that are neither the archive nor the temporary file denote what they did. */
  lemma {:induction false} SameAfterwards(files: Files, left: Files, archive: Path, p: Path)
    requires OthersSame(files, left, archive) && p != archive && p != TEMP
    ensures SameAt(Opened(left, archive), Opened(files, archive), p)
  {
  }

  /** Whether some argument is missing. */
  lemma {:induction false} StatFailsAppend(files: Files, xs: seq<Path>, ys: seq<Path>)
    ensures StatFails(files, xs + ys) <==> StatFails(files, xs) || StatFails(files, ys)
  {
    forall i | 0 <= i < |xs|
      ensures (xs + ys)[i] == xs[i]
    {
    }
    forall i | 0 <= i < |ys|
      ensures (xs + ys)[|xs| + i] == ys[i]
    {
    }
    assert forall i :: |xs| <= i < |xs + ys| ==> (xs + ys)[i] == ys[i - |xs|];
  }

  // ----- the batch law --------------------------------------------------------------------------

  /** When inserting `xs` and then `ys` is inserting all of them: no argument of `ys` is missing if the archive was
      zero-length, and `ys` stores something unless it yields nothing. */
  predicate Batchable(files: Files, archive: Path, ys: seq<Path>, sy: seq<Block>)
    requires AllInsertable(Opened(files, archive), ys) && |sy| == |ys|
  {
    var start := Opened(files, archive);
    && (ArchiveBytes(files, archive) == [] ==> !StatFails(start, ys))
    && (NewEntries(start, ys, sy) != [] || AddedData(start, ys) == [])
  }

  /** What a first completed insert leaves to the second. */
  lemma {:induction false} AfterFirst(files: Files, archive: Path, es: seq<Entry>, xs: seq<Path>, ys: seq<Path>,
                                      sx: seq<Block>, sy: seq<Block>, g: Garbage, h: Garbage)
    requires Good(files, archive, es) && (es != [] || ArchiveBytes(files, archive) == [])
    requires InsertAllowed(files, archive, xs, sx) && InsertEffect(files, archive, xs, sx, g, h).outcome == Completed
    requires |Layout(es + NewEntries(Opened(files, archive), xs, sx))| < TWO63
    requires archive !in ys && InsertAllowed(InsertEffect(files, archive, xs, sx, g, h).files, archive, ys, sy)
    ensures var start, left := Opened(files, archive), InsertEffect(files, archive, xs, sx, g, h).files;
      && Ready(files, archive, es, Contents(es)) && NewEntries(start, xs, sx) != []
      && Ready(left, archive, es + NewEntries(start, xs, sx), Contents(es) + AddedData(start, xs))
      && AllInsertable(start, ys)
      && NewEntries(Opened(left, archive), ys, sy) == NewEntries(start, ys, sy)
      && AddedData(Opened(left, archive), ys) == AddedData(start, ys)
      && (ArchiveBytes(files, archive) == [] ==> !StatFails(start, xs))
  {
    var start, left := Opened(files, archive), InsertEffect(files, archive, xs, sx, g, h).files;
    assert Ready(files, archive, es, Contents(es));
    InsertionScan(ArchiveBytes(files, archive), es, Contents(es), g, false);
    ReadyOutcome(files, archive, es, Contents(es), xs, sx, g, h);
    ReadyInsert(files, archive, es, Contents(es), xs, sx, g, h);
    InsertStorable(es, start, xs, sx);
    forall i | 0 <= i < |ys|
      ensures SameAt(Opened(left, archive), start, ys[i])
    {
      SameAfterwards(files, left, archive, ys[i]);
    }
    SameArguments(Opened(left, archive), start, ys, sy);
  }

  /** What the two inserts leave. */
  lemma {:induction false} TwoInserts(files: Files, archive: Path, es: seq<Entry>, xs: seq<Path>, ys: seq<Path>,
                                      sx: seq<Block>, sy: seq<Block>, g: Garbage, h: Garbage, g': Garbage, h': Garbage)
    requires Good(files, archive, es) && (es != [] || ArchiveBytes(files, archive) == [])
    requires InsertAllowed(files, archive, xs, sx) && InsertEffect(files, archive, xs, sx, g, h).outcome == Completed
    requires |Layout(es + NewEntries(Opened(files, archive), xs, sx))| < TWO63
    requires archive !in ys && InsertAllowed(InsertEffect(files, archive, xs, sx, g, h).files, archive, ys, sy)
    ensures AllInsertable(Opened(files, archive), ys)
    ensures var start, left := Opened(files, archive), InsertEffect(files, archive, xs, sx, g, h).files;
      var middle, added := es + NewEntries(start, xs, sx), NewEntries(start, ys, sy);
      var data := Contents(es) + AddedData(start, xs);
      ArchiveBytes(InsertEffect(left, archive, ys, sy, g', h').files, archive)
        == if added == [] then Headed(middle, data) else Headed(middle + added, data + AddedData(start, ys))
  {
    var start, left := Opened(files, archive), InsertEffect(files, archive, xs, sx, g, h).files;
    var middle, data := es + NewEntries(start, xs, sx), Contents(es) + AddedData(start, xs);
    AfterFirst(files, archive, es, xs, ys, sx, sy, g, h);
    ReadyOutcome(left, archive, middle, data, ys, sy, g', h');
    if NewEntries(start, ys, sy) != [] {
      ReadyInsert(left, archive, middle, data, ys, sy, g', h');
    }
  }

  lemma {:induction false} JointArguments(files: Files, archive: Path, xs: seq<Path>, ys: seq<Path>, sx: seq<Block>,
                                          sy: seq<Block>)
    requires InsertAllowed(files, archive, xs, sx)
    requires AllInsertable(Opened(files, archive), ys) && |sy| == |ys| && TEMP !in ys
    ensures var start := Opened(files, archive);
      && InsertAllowed(files, archive, xs + ys, sx + sy)
      && NewEntries(start, xs + ys, sx + sy) == NewEntries(start, xs, sx) + NewEntries(start, ys, sy)
      && AddedData(start, xs + ys) == AddedData(start, xs) + AddedData(start, ys)
      && (StatFails(start, xs + ys) <==> StatFails(start, xs) || StatFails(start, ys))
  {
    var start := Opened(files, archive);
    NewEntriesAppend(start, xs, ys, sx, sy);
    AddedDataAppend(start, xs, ys);
    StatFailsAppend(start, xs, ys);
  }

  lemma {:induction false} JointOutcome(files: Files, archive: Path, es: seq<Entry>, xs: seq<Path>, ys: seq<Path>,
                                        sx: seq<Block>, sy: seq<Block>, g: Garbage, h: Garbage)
    requires Ready(files, archive, es, Contents(es)) && InsertAllowed(files, archive, xs, sx)
    requires NewEntries(Opened(files, archive), xs, sx) != []
    requires ArchiveBytes(files, archive) == [] ==> !StatFails(Opened(files, archive), xs)
    requires AllInsertable(Opened(files, archive), ys) && |sy| == |ys| && TEMP !in ys
    ensures InsertAllowed(files, archive, xs + ys, sx + sy)
    ensures var start, effect := Opened(files, archive), InsertEffect(files, archive, xs + ys, sx + sy, g, h);
      && (effect.outcome == Completed <==> !(ArchiveBytes(files, archive) == [] && StatFails(start, ys)))
      && (effect.outcome != Completed ==> ArchiveBytes(effect.files, archive) == ArchiveBytes(files, archive))
  {
    JointArguments(files, archive, xs, ys, sx, sy);
    assert ArchiveBytes(files, archive) == [] <==> es == [] by {
      InsertionScan(ArchiveBytes(files, archive), es, Contents(es), g, false);
    }
    ReadyOutcome(files, archive, es, Contents(es), xs + ys, sx + sy, g, h);
  }

  /** What the joint insert leaves: nothing but the empty archive when a missing argument makes it abort. */
  lemma {:induction false} JointInsert(files: Files, archive: Path, es: seq<Entry>, xs: seq<Path>, ys: seq<Path>,
                                       sx: seq<Block>, sy: seq<Block>, g: Garbage, h: Garbage)
    requires Ready(files, archive, es, Contents(es)) && InsertAllowed(files, archive, xs, sx)
    requires NewEntries(Opened(files, archive), xs, sx) != []
    requires ArchiveBytes(files, archive) == [] ==> !StatFails(Opened(files, archive), xs)
    requires AllInsertable(Opened(files, archive), ys) && |sy| == |ys| && TEMP !in ys
    ensures InsertAllowed(files, archive, xs + ys, sx + sy)
    ensures var start, effect := Opened(files, archive), InsertEffect(files, archive, xs + ys, sx + sy, g, h);
      var all := es + NewEntries(start, xs, sx) + NewEntries(start, ys, sy);
      if ArchiveBytes(files, archive) == [] && StatFails(start, ys)
      then effect.outcome != Completed && ArchiveBytes(effect.files, archive) == []
      else effect.outcome == Completed && ArchiveBytes(effect.files, archive)
             == Headed(all, Contents(es) + AddedData(start, xs) + AddedData(start, ys))
  {
    var start, data := Opened(files, archive), Contents(es);
    JointArguments(files, archive, xs, ys, sx, sy);
    JointOutcome(files, archive, es, xs, ys, sx, sy, g, h);
    if InsertEffect(files, archive, xs + ys, sx + sy, g, h).outcome == Completed {
      ReadyInsert(files, archive, es, data, xs + ys, sx + sy, g, h);
      Associates(es, NewEntries(start, xs, sx), NewEntries(start, ys, sy));
      Associates(data, AddedData(start, xs), AddedData(start, ys));
    }
  }

  /** Batch law, on the file system: an insert of `xs` that completes and then an insert of `ys` leave the archive
      that inserting all of them at once leaves, although every offset is computed anew, if and only if `ys` is
      batchable. The arguments of `ys` do not include the archive, which the first insert changes. */
  lemma {:induction false} BatchLaw(files: Files, archive: Path, es: seq<Entry>, xs: seq<Path>, ys: seq<Path>,
                                    sx: seq<Block>, sy: seq<Block>, g: Garbage, h: Garbage, g': Garbage, h': Garbage,
                                    g'': Garbage, h'': Garbage)
    requires Good(files, archive, es) && (es != [] || ArchiveBytes(files, archive) == [])
    requires InsertAllowed(files, archive, xs, sx) && InsertEffect(files, archive, xs, sx, g, h).outcome == Completed
    requires |Layout(es + NewEntries(Opened(files, archive), xs, sx))| < TWO63
    requires archive !in ys && InsertAllowed(InsertEffect(files, archive, xs, sx, g, h).files, archive, ys, sy)
    ensures InsertAllowed(files, archive, xs + ys, sx + sy) && AllInsertable(Opened(files, archive), ys)
    ensures var left := InsertEffect(files, archive, xs, sx, g, h).files;
      ArchiveBytes(InsertEffect(left, archive, ys, sy, g', h').files, archive)
        == ArchiveBytes(InsertEffect(files, archive, xs + ys, sx + sy, g'', h'').files, archive)
      <==> Batchable(files, archive, ys, sy)
  {
    var start := Opened(files, archive);
    AfterFirst(files, archive, es, xs, ys, sx, sy, g, h);
    TwoInserts(files, archive, es, xs, ys, sx, sy, g, h, g', h');
    JointInsert(files, archive, es, xs, ys, sx, sy, g'', h'');
    var middle, added := es + NewEntries(start, xs, sx), NewEntries(start, ys, sy);
    SameHeaded(middle, added, Contents(es) + AddedData(start, xs), AddedData(start, ys));
  }

  lemma {:induction false} SameHeaded(es: seq<Entry>, added: seq<Entry>, data: seq<byte>, more: seq<byte>)
    ensures Headed(es, data) != []
    ensures added == [] ==> (Headed(es, data) == Headed(es + added, data + more) <==> more == [])
  {
    if added == [] {
      assert es + added == es;
      HeadedPrefix(es, data, more);
      assert |Headed(es, data + more)| == |Headed(es, data)| + |more|;
      assert more == [] ==> data + more == data;
    }
  }

  // ----- where it fails -------------------------------------------------------------------------

  /** One regular file is inserted into an absent or zero-length archive: what the second insert starts from. */
  lemma {:induction false} FirstFile(files: Files, archive: Path, p: Path, q: Path, sp: Block, sq: Block, g: Garbage,
                                     h: Garbage)
    requires Good(files, archive, []) && ArchiveBytes(files, archive) == []
    requires InsertAllowed(files, archive, [p], [sp]) && IsRegular(Opened(files, archive), p)
    requires !IsRegular(Opened(files, archive), q)
    ensures var left := InsertEffect(files, archive, [p], [sp], g, h).files;
      && InsertEffect(files, archive, [p], [sp], g, h).outcome == Completed
      && NewEntries(Opened(files, archive), [p], [sp]) != []
      && archive !in [q] && InsertAllowed(left, archive, [q], [sq])
      && AllInsertable(Opened(files, archive), [q]) && NewEntries(Opened(files, archive), [q], [sq]) == []
      && NewEntries(Opened(left, archive), [q], [sq]) == []
  {
    var start := Opened(files, archive);
    assert Insertable(start, [p][0]);
    OneEntry(start, p, sp);
    assert !StatFails(start, [p]);
    assert Ready(files, archive, [], []);
    ReadyOutcome(files, archive, [], [], [p], [sp], g, h);
    ReadyInsert(files, archive, [], [], [p], [sp], g, h);
    var left := InsertEffect(files, archive, [p], [sp], g, h).files;
    SameAfterwards(files, left, archive, q);
    NoEntry(start, q, sq);
    NoEntry(Opened(left, archive), q, sq);
  }

  lemma {:induction false} NoEntry(files: Files, q: Path, scratch: Block)
    requires !IsRegular(files, q)
    ensures AllInsertable(files, [q]) && NewEntries(files, [q], [scratch]) == []
    ensures AddedData(files, [q]) == ReadBytes(files, q)
    ensures StatFails(files, [q]) <==> q !in files
  {
    assert AllInsertable(files, [q]);
    assert [q][1..] == [] && [scratch][1..] == [] && AddedData(files, []) == [];
    NewEntriesFirst(files, [q], [scratch]);
    assert AddedData(files, [q]) == ReadBytes(files, q) + AddedData(files, []);
    assert q !in files ==> [q][0] !in files;
  }

  /** A second insert that stores nothing writes nothing, so that the bytes of its special file never reach the
      archive. The joint insert appends them. */
  lemma {:induction false} SecondStrayIsLost(files: Files, archive: Path, p: Path, q: Path, sp: Block, sq: Block,
                                             g: Garbage, h: Garbage, g': Garbage, h': Garbage, g'': Garbage,
                                             h'': Garbage)
    requires Good(files, archive, []) && ArchiveBytes(files, archive) == []
    requires InsertAllowed(files, archive, [p], [sp]) && IsRegular(Opened(files, archive), p)
    requires |Layout(NewEntries(Opened(files, archive), [p], [sp]))| < TWO63
    requires q in files && files[q].Special? && files[q].bytes != []
    ensures InsertEffect(files, archive, [p], [sp], g, h).outcome == Completed
    ensures var left := InsertEffect(files, archive, [p], [sp], g, h).files;
      && InsertAllowed(left, archive, [q], [sq]) && InsertAllowed(files, archive, [p] + [q], [sp] + [sq])
      && InsertEffect(left, archive, [q], [sq], g', h').outcome == Failed(NothingInserted)
      && ArchiveBytes(InsertEffect(left, archive, [q], [sq], g', h').files, archive)
         != ArchiveBytes(InsertEffect(files, archive, [p] + [q], [sp] + [sq], g'', h'').files, archive)
  {
    FirstFile(files, archive, p, q, sp, sq, g, h);
    NoEntry(Opened(files, archive), q, sq);
    assert [] + NewEntries(Opened(files, archive), [p], [sp]) == NewEntries(Opened(files, archive), [p], [sp]);
    BatchLaw(files, archive, [], [p], [q], [sp], [sq], g, h, g', h', g'', h'');
    SecondStoresNothing(files, archive, [p], [q], [sp], [sq], g, h, g', h');
  }

  lemma {:induction false} SecondStoresNothing(files: Files, archive: Path, xs: seq<Path>, ys: seq<Path>,
                                               sx: seq<Block>, sy: seq<Block>, g: Garbage, h: Garbage, g': Garbage,
                                               h': Garbage)
    requires Good(files, archive, []) && ArchiveBytes(files, archive) == []
    requires InsertAllowed(files, archive, xs, sx) && InsertEffect(files, archive, xs, sx, g, h).outcome == Completed
    requires |Layout([] + NewEntries(Opened(files, archive), xs, sx))| < TWO63
    requires archive !in ys && InsertAllowed(InsertEffect(files, archive, xs, sx, g, h).files, archive, ys, sy)
    requires ys != [] && NewEntries(Opened(InsertEffect(files, archive, xs, sx, g, h).files, archive), ys, sy) == []
    ensures InsertEffect(InsertEffect(files, archive, xs, sx, g, h).files, archive, ys, sy, g', h').outcome
         == Failed(NothingInserted)
  {
    var start, left := Opened(files, archive), InsertEffect(files, archive, xs, sx, g, h).files;
    AfterFirst(files, archive, [], xs, ys, sx, sy, g, h);
    var middle, data := [] + NewEntries(start, xs, sx), Contents([]) + AddedData(start, xs);
    InsertionScan(ArchiveBytes(left, archive), middle, data, g', false);
  }

  /** A missing path in the second insert does no harm there. In the joint insert into a zero-length archive it sets
      the `errno` that makes the second scan abort, and nothing is stored. */
  lemma {:induction false} MissingPathSpoilsJointInsert(files: Files, archive: Path, p: Path, q: Path, sp: Block,
                                                        sq: Block, g: Garbage, h: Garbage, g': Garbage, h': Garbage,
                                                        g'': Garbage, h'': Garbage)
    requires Good(files, archive, []) && ArchiveBytes(files, archive) == []
    requires InsertAllowed(files, archive, [p], [sp]) && IsRegular(Opened(files, archive), p)
    requires |Layout(NewEntries(Opened(files, archive), [p], [sp]))| < TWO63
    requires q !in Opened(files, archive)
    ensures InsertEffect(files, archive, [p], [sp], g, h).outcome == Completed
    ensures var left := InsertEffect(files, archive, [p], [sp], g, h).files;
      && InsertAllowed(left, archive, [q], [sq]) && InsertAllowed(files, archive, [p] + [q], [sp] + [sq])
      && ArchiveBytes(InsertEffect(left, archive, [q], [sq], g', h').files, archive)
         == Layout(NewEntries(Opened(files, archive), [p], [sp]))
      && ArchiveBytes(InsertEffect(files, archive, [p] + [q], [sp] + [sq], g'', h'').files, archive) == []
  {
    var start := Opened(files, archive);
    var added := NewEntries(start, [p], [sp]);
    FirstFile(files, archive, p, q, sp, sq, g, h);
    NoEntry(start, q, sq);
    assert [] + added == added;
    AfterFirst(files, archive, [], [p], [q], [sp], [sq], g, h);
    TwoInserts(files, archive, [], [p], [q], [sp], [sq], g, h, g', h');
    JointInsert(files, archive, [], [p], [q], [sp], [sq], g'', h'');
    assert Insertable(start, [p][0]);
    OneEntry(start, p, sp);
    assert Contents([]) + AddedData(start, [p]) == Contents(added);
  }
}
