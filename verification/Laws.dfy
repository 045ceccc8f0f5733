/** Laws that span several commands. */
module Laws {
  import opened Bytes
  import opened FileInfos
  import opened HeaderScan
  import opened Archive
  import opened Commands
  import opened Refinement

  /** The stored name of an inserted file is the base name of its path. */
  lemma {:induction false} NewEntryName(files: Files, p: Path, scratch: Block)
    requires IsRegular(files, p) && Insertable(files, p)
    ensures EntryName(NewEntry(files, p, scratch)) == Basename(p)
    ensures NewEntry(files, p, scratch).filename[0] != 0
  {
    var name := Basename(p);
    assert 0 !in name by {
      assert forall i :: 0 <= i < |name| ==> name[i] == p[|p| - |name| + i];
    }
    CStringUnique(NameField(name, scratch), name);
  }

  /** The entry holds the base name, the permission bits and the contents of the file at `p`. */
  predicate Stores(e: Entry, files: Files, p: Path) {
    IsRegular(files, p) && EntryName(e) == Basename(p) && e.content == files[p].bytes && e.mask == files[p].mode % 512
  }

  /** What the new entries are: one for each regular argument, in order. */
  lemma {:induction false} NewEntriesNamed(files: Files, fnames: seq<Path>, scratch: seq<Block>, e: Entry)
    requires AllInsertable(files, fnames) && |scratch| == |fnames|
    requires e in NewEntries(files, fnames, scratch)
    ensures e.filename[0] != 0
    ensures exists i :: 0 <= i < |fnames| && Stores(e, files, fnames[i])
  {
    assert Insertable(files, fnames[0]);
    assert forall i :: 0 <= i < |fnames[1..]| ==> fnames[1..][i] == fnames[i + 1];
    if IsRegular(files, fnames[0]) && e == NewEntry(files, fnames[0], scratch[0]) {
      NewEntryName(files, fnames[0], scratch[0]);
    } else {
      NewEntriesNamed(files, fnames[1..], scratch[1..], e);
      var i :| 0 <= i < |fnames[1..]| && Stores(e, files, fnames[1..][i]);
      assert fnames[1..][i] == fnames[i + 1];
    }
  }

  /** Inserted archives are storable as long as they fit into a file. */
  lemma {:induction false} InsertStorable(es: seq<Entry>, files: Files, fnames: seq<Path>, scratch: seq<Block>)
    requires Storable(es) && AllInsertable(files, fnames) && |scratch| == |fnames|
    requires |Layout(es + NewEntries(files, fnames, scratch))| < TWO63
    ensures Storable(es + NewEntries(files, fnames, scratch))
  {
    var all := es + NewEntries(files, fnames, scratch);
    LayoutData(all);
    forall i | |es| <= i < |all|
      ensures all[i].filename[0] != 0
    {
      NewEntriesNamed(files, fnames, scratch, all[i]);
    }
  }

  /** The slices of the first entries lie in front of the data of the others. */
  lemma {:induction false} FirstSlices(es: seq<Entry>, added: seq<Entry>, names: seq<Path>, i: nat)
    requires Storable(es + added) && i < |Select(HeaderOf(es + added), names, true)|
    requires forall k :: 0 <= k < |added| ==> EntryName(added[k]) in names
    ensures var r := Select(HeaderOf(es + added), names, true)[i];
      r.offset + r.filesize <= DataStart(|es + added|) + |Contents(es)|
  {
    var all := es + added;
    var r := Select(HeaderOf(all), names, true)[i];
    forall k | |es| <= k < |all|
      ensures EntryName(all[k]) in names
    {
      assert all[k] == added[k - |es|];
    }
    SelectKeeps(HeaderOf(all), names, true, r);
    var j :| 0 <= j < |all| && HeaderOf(all)[j] == r;
    LayoutSlice(all, j);
    assert StoredName(r) == EntryName(all[j]);
    assert all[..j] == es[..j] && all[j] == es[j];
    ContentsSplit(es, j);
  }

  /** What remove makes of a file with the right header and the contents of the surviving entries, whatever data
      follow them. */
  lemma {:induction false} RemoveIgnoresData(es: seq<Entry>, added: seq<Entry>, data: seq<byte>, names: seq<Path>,
                                             g: Garbage, h: Garbage)
    requires Storable(es + added)
    requires forall k :: 0 <= k < |added| ==> EntryName(added[k]) in names
    ensures RemovedBytes(Headed(es + added, Contents(es) + data), names, g, h)
         == RemovedBytes(Layout(es + added), names, g, h)
    ensures var file := Headed(es + added, Contents(es) + data);
      |file| < TWO63 ==> InRange(file, Select(ScanHeader(file, 0, h.probe, false, h.node).infos, names, true))
  {
    var all := es + added;
    var file := Headed(all, Contents(es) + data);
    var kept := Select(HeaderOf(all), names, true);
    var prefix := Headed(all, Contents(es));
    ScanHeaded(all, Contents(es) + data, g.probe, false, g.node);
    ScanHeaded(all, Contents(es) + data, h.probe, false, h.node);
    ScanLayout(all, g.probe, false, g.node);
    ScanLayout(all, h.probe, false, h.node);
    forall i | 0 <= i < |kept|
      ensures kept[i].offset + kept[i].filesize <= |prefix|
    {
      FirstSlices(es, added, names, i);
    }
    HeadedPrefix(all, Contents(es), data);
    HeadedPrefix(all, Contents(es), Contents(added));
    ContentsAppend(es, added);
    SlicesOfPrefix(file, Layout(all), prefix, kept);
  }

  /** Removing the names of what was inserted gives the old bytes back, whatever data the insert left behind them. */
  lemma {:induction false} RemoveInserted(es: seq<Entry>, added: seq<Entry>, data: seq<byte>, names: seq<Path>,
                                          g: Garbage, h: Garbage)
    requires Storable(es + added)
    requires forall i :: 0 <= i < |es| ==> EntryName(es[i]) !in names
    requires forall i :: 0 <= i < |added| ==> EntryName(added[i]) in names
    ensures RemovedBytes(Headed(es + added, Contents(es) + data), names, g, h) == Layout(es)
  {
    RemoveIgnoresData(es, added, data, names, g, h);
    RemoveAdded(es, added, names, g, h);
  }

  lemma {:induction false} RemoveAdded(es: seq<Entry>, added: seq<Entry>, names: seq<Path>, g: Garbage, h: Garbage)
    requires Storable(es + added)
    requires forall i :: 0 <= i < |es| ==> EntryName(es[i]) !in names
    requires forall i :: 0 <= i < |added| ==> EntryName(added[i]) in names
    ensures RemovedBytes(Layout(es + added), names, g, h) == Layout(es)
  {
    RemoveRefinesFilter(Layout(es + added), es + added, names, g, h);
    SelectEntriesAppend(es, added, names, true);
    SelectEntriesExtreme(es, names, true, true);
    SelectEntriesExtreme(added, names, true, false);
    assert es + [] == es;
  }

  lemma {:induction false} NewEntriesFirst(files: Files, fnames: seq<Path>, scratch: seq<Block>)
    requires AllInsertable(files, fnames) && |scratch| == |fnames| && fnames != []
    ensures Insertable(files, fnames[0]) && AllInsertable(files, fnames[1..])
    ensures NewEntries(files, fnames, scratch)
         == (if IsRegular(files, fnames[0]) then [NewEntry(files, fnames[0], scratch[0])] else [])
            + NewEntries(files, fnames[1..], scratch[1..])
  {
    assert Insertable(files, fnames[0]);
    assert forall i :: 0 <= i < |fnames[1..]| ==> fnames[1..][i] == fnames[i + 1];
  }

  lemma {:induction false} Associates<T>(a: seq<T>, b: seq<T>, c: seq<T>)
    ensures a + b + c == a + (b + c)
  {
  }

  lemma {:induction false} NewEntriesAppend(files: Files, xs: seq<Path>, ys: seq<Path>, sx: seq<Block>, sy: seq<Block>)
    requires AllInsertable(files, xs) && AllInsertable(files, ys) && |sx| == |xs| && |sy| == |ys|
    ensures AllInsertable(files, xs + ys)
    ensures NewEntries(files, xs + ys, sx + sy) == NewEntries(files, xs, sx) + NewEntries(files, ys, sy)
  {
    assert AllInsertable(files, xs + ys);
    if xs == [] {
      assert xs + ys == ys && sx + sy == sy;
    } else {
      NewEntriesFirst(files, xs, sx);
      NewEntriesFirst(files, xs + ys, sx + sy);
      assert (xs + ys)[1..] == xs[1..] + ys && (sx + sy)[1..] == sx[1..] + sy;
      NewEntriesAppend(files, xs[1..], ys, sx[1..], sy);
      Associates(if IsRegular(files, xs[0]) then [NewEntry(files, xs[0], sx[0])] else [],
                 NewEntries(files, xs[1..], sx[1..]), NewEntries(files, ys, sy));
    }
  }

  lemma {:induction false} AddedDataAppend(files: Files, xs: seq<Path>, ys: seq<Path>)
    ensures AddedData(files, xs + ys) == AddedData(files, xs) + AddedData(files, ys)
  {
    if xs == [] {
      assert xs + ys == ys;
    } else {
      var first := ReadBytes(files, xs[0]);
      calc {
        AddedData(files, xs + ys);
        { assert (xs + ys)[1..] == xs[1..] + ys; }
        first + AddedData(files, xs[1..] + ys);
        { AddedDataAppend(files, xs[1..], ys); }
        first + (AddedData(files, xs[1..]) + AddedData(files, ys));
        first + AddedData(files, xs[1..]) + AddedData(files, ys);
      }
    }
  }

  /** A state that a command can insert into: an archive with the header for `es` and any data behind it, or a
      zero-length one, and no leftover temporary file. */
  ghost predicate Ready(files: Files, archive: Path, es: seq<Entry>, data: seq<byte>) {
    Accessible(files, archive) && TempSize(files) == 0 && Insertion(ArchiveBytes(files, archive), es, data)
  }

  /** No scan of such an archive aborts, unless it is zero-length and an error number is set. */
  lemma {:induction false} InsertionScan(file: seq<byte>, es: seq<Entry>, data: seq<byte>, g: Garbage, errno: bool)
    requires Insertion(file, es, data)
    ensures ScanHeader(file, 0, g.probe, errno, g.node).end == Aborted <==> file == [] && errno
    ensures file == [] <==> es == []
  {
    if es == [] {
      EmptyFileScan(g, errno);
    } else {
      ScanHeaded(es, data, g.probe, errno, g.node);
    }
  }

  /** The outcome of an insert into a ready state. */
  lemma {:induction false} ReadyOutcome(files: Files, archive: Path, es: seq<Entry>, data: seq<byte>,
                                        fnames: seq<Path>, scratch: seq<Block>, g: Garbage, h: Garbage)
    requires Ready(files, archive, es, data) && InsertAllowed(files, archive, fnames, scratch)
    ensures var start, effect := Opened(files, archive), InsertEffect(files, archive, fnames, scratch, g, h);
      var added := NewEntries(start, fnames, scratch);
      && (effect.outcome == Completed <==> added != [] && !(es == [] && StatFails(start, fnames)))
      && (effect.outcome != Completed ==> ArchiveBytes(effect.files, archive) == ArchiveBytes(files, archive))
      && (added == [] ==> effect.files == start)
  {
    InsertionScan(ArchiveBytes(files, archive), es, data, g, false);
    InsertionScan(ArchiveBytes(files, archive), es, data, h, StatFails(Opened(files, archive), fnames));
  }

  /** A completed insert into a ready state keeps the data that are there and appends what the arguments yield. */
  lemma {:induction false} ReadyInsert(files: Files, archive: Path, es: seq<Entry>, data: seq<byte>, fnames: seq<Path>,
                                       scratch: seq<Block>, g: Garbage, h: Garbage)
    requires Ready(files, archive, es, data) && InsertAllowed(files, archive, fnames, scratch)
    requires InsertEffect(files, archive, fnames, scratch, g, h).outcome == Completed
    ensures var start, files' := Opened(files, archive), InsertEffect(files, archive, fnames, scratch, g, h).files;
      && ArchiveBytes(files', archive)
         == Headed(es + NewEntries(start, fnames, scratch), data + AddedData(start, fnames))
      && OthersSame(files, files', archive) && TEMP !in files' && IsRegular(files', archive)
  {
    var start, file := Opened(files, archive), ArchiveBytes(files, archive);
    var bytes := InsertedBytes(file, start, fnames, scratch, g, h);
    InsertAppendsData(file, es, data, start, fnames, scratch, g, h);
    ReplaceExact(start, archive, bytes, bytes);
  }

  /** A completed remove on a file with a header. */
  lemma {:induction false} RemoveHeaded(files: Files, archive: Path, es: seq<Entry>, data: seq<byte>, names: seq<Path>,
                                        g: Garbage, h: Garbage)
    requires Ready(files, archive, es, data) && es != [] && names != []
    ensures var effect := RemoveEffect(files, archive, names, g, h);
      effect.outcome == Completed && ArchiveBytes(effect.files, archive) == RemovedBytes(Headed(es, data), names, g, h)
  {
    var file := ArchiveBytes(files, archive);
    var bytes := RemovedBytes(file, names, g, h);
    InsertionScan(file, es, data, g, false);
    InsertionScan(file, es, data, h, false);
    ReplaceExact(Create(files, TEMP), archive, bytes, bytes);
  }

  /** Remove undoes insert, on the file system: inserting files whose base names do not occur in a non-empty archive,
      successfully or not, and then removing those names leaves the archive byte for byte as it was, whatever
      memory the four scans find, and even when skipped arguments yielded bytes. */
  lemma {:induction false} RemoveUndoesInsert(files: Files, archive: Path, es: seq<Entry>, fnames: seq<Path>,
                                              scratch: seq<Block>, names: seq<Path>, g: Garbage, h: Garbage,
                                              g': Garbage, h': Garbage)
    requires Good(files, archive, es) && es != [] && InsertAllowed(files, archive, fnames, scratch)
    requires |Layout(es + NewEntries(Opened(files, archive), fnames, scratch))| < TWO63
    requires forall i :: 0 <= i < |es| ==> EntryName(es[i]) !in names
    requires forall i :: 0 <= i < |fnames| && IsRegular(Opened(files, archive), fnames[i]) ==>
      Basename(fnames[i]) in names
    ensures var left := InsertEffect(files, archive, fnames, scratch, g, h).files;
      && Accessible(left, archive)
      && ArchiveBytes(RemoveEffect(left, archive, names, g', h').files, archive) == ArchiveBytes(files, archive)
  {
    var start, left := Opened(files, archive), InsertEffect(files, archive, fnames, scratch, g, h).files;
    var added := NewEntries(start, fnames, scratch);
    NamesOfAdded(start, fnames, scratch, names);
    InsertStorable(es, start, fnames, scratch);
    ReadyOutcome(files, archive, es, Contents(es), fnames, scratch, g, h);
    if added == [] {
      assert es + added == es && Contents(es) + [] == Contents(es);
      UndoneOn(left, archive, es, added, [], names, g', h');
    } else {
      ReadyInsert(files, archive, es, Contents(es), fnames, scratch, g, h);
      UndoneOn(left, archive, es, added, AddedData(start, fnames), names, g', h');
    }
  }

  lemma {:induction false} NamesOfAdded(files: Files, fnames: seq<Path>, scratch: seq<Block>, names: seq<Path>)
    requires AllInsertable(files, fnames) && |scratch| == |fnames|
    requires forall i :: 0 <= i < |fnames| && IsRegular(files, fnames[i]) ==> Basename(fnames[i]) in names
    ensures forall i :: 0 <= i < |NewEntries(files, fnames, scratch)| ==>
      EntryName(NewEntries(files, fnames, scratch)[i]) in names
  {
    var added := NewEntries(files, fnames, scratch);
    forall i | 0 <= i < |added|
      ensures EntryName(added[i]) in names
    {
      NewEntriesNamed(files, fnames, scratch, added[i]);
    }
  }

  lemma {:induction false} UndoneOn(left: Files, archive: Path, es: seq<Entry>, added: seq<Entry>, data: seq<byte>,
                                    names: seq<Path>, g: Garbage, h: Garbage)
    requires Ready(left, archive, es + added, Contents(es) + data) && es != []
    requires forall i :: 0 <= i < |es| ==> EntryName(es[i]) !in names
    requires forall i :: 0 <= i < |added| ==> EntryName(added[i]) in names
    requires added == [] ==> data == []
    ensures ArchiveBytes(RemoveEffect(left, archive, names, g, h).files, archive) == Layout(es)
  {
    assert added != [] ==> EntryName(added[0]) in names;
    if names == [] {
      assert es + added == es && Contents(es) + data == Contents(es);
    } else {
      RemoveHeaded(left, archive, es + added, Contents(es) + data, names, g, h);
      RemoveInserted(es, added, data, names, g, h);
    }
  }

  /** Where insert fails: an archive with a header without records. What the command leaves is the layout of the new
      entries if and only if there are none, or the node that was never written holds an offset of at least four
      and no skipped argument yields bytes. Otherwise terminator bytes are copied into the data region. */
  lemma {:induction false} InsertIntoEmptiedArchive(files: Files, archive: Path, fnames: seq<Path>,
                                                    scratch: seq<Block>, g: Garbage, h: Garbage)
    requires InsertAllowed(files, archive, fnames, scratch) && Good(files, archive, [])
    requires ArchiveBytes(files, archive) == [0, 0, 0, 0]
    ensures var start := Opened(files, archive);
      var added := NewEntries(start, fnames, scratch);
      ArchiveBytes(InsertEffect(files, archive, fnames, scratch, g, h).files, archive) == Layout(added)
      <==> added == [] || (4 <= h.node.offset && !Strays(start, fnames))
  {
    var added := NewEntries(Opened(files, archive), fnames, scratch);
    InsertOutcome(files, archive, [], fnames, scratch, g, h);
    if added != [] {
      InsertCommand(files, archive, [], fnames, scratch, g, h);
      assert [] + added == added;
    } else {
      assert Layout([]) == HEADER_ENDING;
    }
  }

  /** Where the two passes disagree: a skipped argument that yields bytes, such as a FIFO, in front of a regular
      file. The insert into an empty archive completes; the bytes precede those of the file, and the archive is not
      the layout of the new entry. */
  lemma {:induction false} StrayBytesSpoilInsert(files: Files, archive: Path, special: Path, p: Path,
                                                 scratch: seq<Block>, g: Garbage, h: Garbage)
    requires Good(files, archive, []) && ArchiveBytes(files, archive) == []
    requires InsertAllowed(files, archive, [special, p], scratch) && IsRegular(Opened(files, archive), p)
    requires special in files && files[special].Special? && files[special].bytes != []
    ensures Insertable(Opened(files, archive), p)
    ensures var start, effect := Opened(files, archive), InsertEffect(files, archive, [special, p], scratch, g, h);
      var e := NewEntry(start, p, scratch[1]);
      && effect.outcome == Completed && NewEntries(start, [special, p], scratch) == [e]
      && ArchiveBytes(effect.files, archive) == Headed([e], files[special].bytes + e.content)
      && ArchiveBytes(effect.files, archive) != Layout([e])
  {
    var start, fnames := Opened(files, archive), [special, p];
    assert Insertable(start, fnames[1]);
    StrayEntries(start, special, p, scratch);
    var e := NewEntry(start, p, scratch[1]);
    assert forall i :: 0 <= i < |fnames| ==> fnames[i] in start;
    ReadyOutcome(files, archive, [], [], fnames, scratch, g, h);
    ReadyInsert(files, archive, [], [], fnames, scratch, g, h);
    assert [] + [e] == [e] && [] + AddedData(start, fnames) == files[special].bytes + e.content;
    LongerData([e], AddedData(start, fnames), Contents([e]));
  }

  lemma {:induction false} LongerData(es: seq<Entry>, data: seq<byte>, data': seq<byte>)
    requires |data| > |data'|
    ensures Headed(es, data) != Headed(es, data')
  {
    assert |Headed(es, data)| > |Headed(es, data')|;
  }

  lemma {:induction false} StrayEntries(files: Files, special: Path, p: Path, scratch: seq<Block>)
    requires special in files && files[special].Special?
    requires IsRegular(files, p) && Insertable(files, p) && |scratch| == 2
    ensures AllInsertable(files, [special, p])
    ensures var e := NewEntry(files, p, scratch[1]);
      && NewEntries(files, [special, p], scratch) == [e]
      && AddedData(files, [special, p]) == files[special].bytes + e.content
      && Contents([e]) == e.content
  {
    var fnames := [special, p];
    assert fnames[1..] == [p] && scratch[1..] == [scratch[1]];
    OneEntry(files, p, scratch[1]);
    NewEntriesFirst(files, fnames, scratch);
  }

  lemma {:induction false} OneEntry(files: Files, p: Path, scratch: Block)
    requires IsRegular(files, p) && Insertable(files, p)
    ensures NewEntries(files, [p], [scratch]) == [NewEntry(files, p, scratch)]
    ensures AddedData(files, [p]) == files[p].bytes
    ensures Contents([NewEntry(files, p, scratch)]) == files[p].bytes
  {
    var e := NewEntry(files, p, scratch);
    assert [p][1..] == [] && [scratch][1..] == [] && [e][1..] == [];
    assert NewEntries(files, [p], [scratch]) == [e] by {
      NewEntriesFirst(files, [p], [scratch]);
      assert NewEntries(files, [], []) == [];
    }
    assert AddedData(files, [p]) == files[p].bytes + AddedData(files, []) == files[p].bytes;
    assert Contents([e]) == e.content + Contents([]) == files[p].bytes;
  }

  /** Where insert leaves something behind: a zero-length archive, a missing path and a file to store. The
      archive stays empty, but the temporary file keeps the header that was written, and the next command
      overwrites it without truncation. */
  lemma {:induction false} AbortLeavesTemporary(files: Files, archive: Path, fnames: seq<Path>, scratch: seq<Block>,
                                                g: Garbage, h: Garbage)
    requires InsertAllowed(files, archive, fnames, scratch) && ArchiveBytes(files, archive) == []
    requires NewEntries(Opened(files, archive), fnames, scratch) != [] && StatFails(Opened(files, archive), fnames)
    ensures var effect := InsertEffect(files, archive, fnames, scratch, g, h);
      && effect.outcome == Failed(HeaderUnreadable)
      && ArchiveBytes(effect.files, archive) == []
      && TempSize(effect.files) >= DataStart(|NewEntries(Opened(files, archive), fnames, scratch)|)
  {
    EmptyFileScan(g, false);
    EmptyFileScan(h, true);
  }

  /** And what becomes of it: an insert into the same archive afterwards, of files that need less room than the
      header that was left, completes with the wrong bytes. */
  lemma {:induction false} InsertAfterAbort(files: Files, archive: Path, fnames: seq<Path>, scratch: seq<Block>,
                                            g: Garbage, h: Garbage, fnames': seq<Path>, scratch': seq<Block>,
                                            g': Garbage, h': Garbage)
    requires InsertAllowed(files, archive, fnames, scratch) && ArchiveBytes(files, archive) == []
    requires NewEntries(Opened(files, archive), fnames, scratch) != [] && StatFails(Opened(files, archive), fnames)
    requires var left := InsertEffect(files, archive, fnames, scratch, g, h).files;
      && InsertAllowed(left, archive, fnames', scratch')
      && InsertEffect(left, archive, fnames', scratch', g', h').outcome == Completed
      && |Layout(NewEntries(Opened(left, archive), fnames', scratch'))|
         < DataStart(|NewEntries(Opened(files, archive), fnames, scratch)|)
    ensures var left := InsertEffect(files, archive, fnames, scratch, g, h).files;
      ArchiveBytes(InsertEffect(left, archive, fnames', scratch', g', h').files, archive)
        != Layout(NewEntries(Opened(left, archive), fnames', scratch'))
  {
    var left := InsertEffect(files, archive, fnames, scratch, g, h).files;
    AbortLeavesTemporary(files, archive, fnames, scratch, g, h);
    InsertCommand(left, archive, [], fnames', scratch', g', h');
    var added := NewEntries(Opened(left, archive), fnames', scratch');
    assert [] + added == added;
  }

  // ----- runs -----------------------------------------------------------------------------------

  /** One step of a run: a command, or anything the host does to a file that is neither the archive nor the
      temporary file. */
  datatype Step =
    | Insert(fnames: seq<Path>, scratch: seq<Block>, g: Garbage, h: Garbage)
    | Remove(names: seq<Path>, g: Garbage, h: Garbage)
    | HostWrites(path: Path, obj: FsObject)
    | HostDeletes(path: Path)

  /** What the step means for the abstract archive. */
  function Meaning(files: Files, archive: Path, es: seq<Entry>, s: Step): seq<Entry>
    requires s.Insert? ==> AllInsertable(Opened(files, archive), s.fnames) && |s.scratch| == |s.fnames|
  {
    match s
    case Insert(fnames, scratch, _, _) => es + NewEntries(Opened(files, archive), fnames, scratch)
    case Remove(names, _, _) => SelectEntries(es, names, true)
    case HostWrites(_, _) => es
    case HostDeletes(_) => es
  }

  function Perform(files: Files, archive: Path, s: Step): Files
    requires Accessible(files, archive)
    requires s.Insert? ==> InsertAllowed(files, archive, s.fnames, s.scratch)
  {
    match s
    case Insert(fnames, scratch, g, h) => InsertEffect(files, archive, fnames, scratch, g, h).files
    case Remove(names, g, h) => RemoveEffect(files, archive, names, g, h).files
    case HostWrites(path, obj) => files[path := obj]
    case HostDeletes(path) => files - {path}
  }

  /** The side conditions under which a step works: an insert whose result fits into a file, that does not
      start from a header without records (or finds a harmless offset there), that skips no missing path when
      the archive is zero-length, and no argument that yields bytes. */
  ghost predicate Sound(files: Files, archive: Path, es: seq<Entry>, s: Step) {
    match s
    case Insert(fnames, scratch, g, h) =>
      && InsertAllowed(files, archive, fnames, scratch)
      && |Layout(Meaning(files, archive, es, s))| < TWO63
      && (es != [] || ArchiveBytes(files, archive) == [] || 4 <= h.node.offset)
      && (ArchiveBytes(files, archive) == [] ==> !StatFails(Opened(files, archive), fnames))
      && !Strays(Opened(files, archive), fnames)
    case Remove(names, _, _) => true
    case HostWrites(path, _) => path != archive && path != TEMP
    case HostDeletes(path) => path != archive && path != TEMP
  }

  ghost predicate Good(files: Files, archive: Path, es: seq<Entry>) {
    Holds(files, archive, es) && TempSize(files) == 0
  }

  lemma {:induction false} InsertStep(files: Files, archive: Path, es: seq<Entry>, s: Step)
    requires s.Insert? && Good(files, archive, es) && Sound(files, archive, es, s)
    ensures Good(Perform(files, archive, s), archive, Meaning(files, archive, es, s))
  {
    var added := NewEntries(Opened(files, archive), s.fnames, s.scratch);
    InsertOutcome(files, archive, es, s.fnames, s.scratch, s.g, s.h);
    if added != [] {
      InsertStepDone(files, archive, es, s);
    } else {
      assert es + added == es;
    }
  }

  lemma {:induction false} InsertStepDone(files: Files, archive: Path, es: seq<Entry>, s: Step)
    requires s.Insert? && Good(files, archive, es) && Sound(files, archive, es, s)
    requires InsertEffect(files, archive, s.fnames, s.scratch, s.g, s.h).outcome == Completed
    ensures Good(Perform(files, archive, s), archive, Meaning(files, archive, es, s))
  {
    var Insert(fnames, scratch, g, h) := s;
    var all := es + NewEntries(Opened(files, archive), fnames, scratch);
    assert Storable(all) by {
      InsertStorable(es, Opened(files, archive), fnames, scratch);
    }
    InsertCommand(files, archive, es, fnames, scratch, g, h);
    Replaced(Perform(files, archive, s), archive, all);
  }

  /** What a completed command leaves. */
  lemma {:induction false} Replaced(files: Files, archive: Path, es: seq<Entry>)
    requires archive != TEMP && TEMP !in files && IsRegular(files, archive)
    requires Storable(es) && ArchiveBytes(files, archive) == Layout(es)
    ensures Good(files, archive, es)
  {
  }

  lemma {:induction false} RemoveStepDone(files: Files, archive: Path, es: seq<Entry>, s: Step)
    requires s.Remove? && Good(files, archive, es) && s.names != [] && archive in files
    ensures Good(Perform(files, archive, s), archive, Meaning(files, archive, es, s))
  {
    var left := SelectEntries(es, s.names, true);
    assert Storable(left) by {
      SelectStorable(es, s.names, true);
    }
    RemoveCommand(files, archive, es, s.names, s.g, s.h);
    Replaced(Perform(files, archive, s), archive, left);
  }

  /** Without an archive file there are no entries. */
  lemma {:induction false} NoArchive(files: Files, archive: Path, es: seq<Entry>)
    requires Holds(files, archive, es) && archive !in files
    ensures es == []
  {
    if es != [] {
      LayoutData(es);
    }
  }

  lemma {:induction false} RemoveStep(files: Files, archive: Path, es: seq<Entry>, s: Step)
    requires s.Remove? && Good(files, archive, es)
    ensures Good(Perform(files, archive, s), archive, Meaning(files, archive, es, s))
  {
    if s.names == [] {
      SelectEntriesExtreme(es, [], true, true);
    } else if archive !in files {
      NoArchive(files, archive, es);
    } else {
      RemoveStepDone(files, archive, es, s);
    }
  }

  /** One step keeps the invariant: the archive's bytes stand for the abstract archive. */
  lemma {:induction false} StepRefines(files: Files, archive: Path, es: seq<Entry>, s: Step)
    requires Good(files, archive, es) && Sound(files, archive, es, s)
    ensures Good(Perform(files, archive, s), archive, Meaning(files, archive, es, s))
  {
    match s
    case Insert(_, _, _, _) => InsertStep(files, archive, es, s);
    case Remove(_, _, _) => RemoveStep(files, archive, es, s);
    case HostWrites(_, _) =>
    case HostDeletes(_) =>
  }

  ghost predicate SoundRun(files: Files, archive: Path, es: seq<Entry>, steps: seq<Step>)
    decreases |steps|
  {
    steps == [] ||
    (Accessible(files, archive) && Sound(files, archive, es, steps[0]) &&
     SoundRun(Perform(files, archive, steps[0]), archive, Meaning(files, archive, es, steps[0]), steps[1..]))
  }

  ghost function FilesAfter(files: Files, archive: Path, es: seq<Entry>, steps: seq<Step>): Files
    requires SoundRun(files, archive, es, steps)
    decreases |steps|
  {
    if steps == [] then files
    else FilesAfter(Perform(files, archive, steps[0]), archive, Meaning(files, archive, es, steps[0]), steps[1..])
  }

  ghost function EntriesAfter(files: Files, archive: Path, es: seq<Entry>, steps: seq<Step>): seq<Entry>
    requires SoundRun(files, archive, es, steps)
    decreases |steps|
  {
    if steps == [] then es
    else EntriesAfter(Perform(files, archive, steps[0]), archive, Meaning(files, archive, es, steps[0]), steps[1..])
  }

  /** Whole-run refinement: after any sequence of inserts, removes and changes to other files, the archive
      file is the layout of the abstract archive those commands build. */
  lemma {:induction false} RunRefines(files: Files, archive: Path, es: seq<Entry>, steps: seq<Step>)
    requires Good(files, archive, es) && SoundRun(files, archive, es, steps)
    ensures Good(FilesAfter(files, archive, es, steps), archive, EntriesAfter(files, archive, es, steps))
    decreases |steps|
  {
    if steps != [] {
      StepRefines(files, archive, es, steps[0]);
      RunRefines(Perform(files, archive, steps[0]), archive, Meaning(files, archive, es, steps[0]), steps[1..]);
    }
  }

  /** From scratch: an absent archive and no leftover temporary file. */
  lemma {:induction false} RunFromNothing(files: Files, archive: Path, steps: seq<Step>)
    requires archive !in files && archive != TEMP && TEMP !in files && SoundRun(files, archive, [], steps)
    ensures var es := EntriesAfter(files, archive, [], steps);
      var file := ArchiveBytes(FilesAfter(files, archive, [], steps), archive);
      Storable(es) && (file == Layout(es) || (file == [] && es == []))
  {
    RunRefines(files, archive, [], steps);
  }
}
