/** The commands refine append, filter and lookup on the abstract archive. */
module Refinement {
  import opened Bytes
  import opened FileInfos
  import opened Descriptors
  import opened HeaderScan
  import opened Archive
  import opened Commands

  /** A file that stands for the entries: their layout, or nothing at all for no entries. */
  ghost predicate Represents(file: seq<byte>, es: seq<Entry>) {
    Storable(es) && (file == Layout(es) || (file == [] && es == []))
  }

  // ----- insert ---------------------------------------------------------------------------------

  lemma {:induction false} StraysFirst(files: Files, fnames: seq<Path>)
    requires fnames != []
    ensures Strays(files, fnames) <==>
      (!IsRegular(files, fnames[0]) && ReadBytes(files, fnames[0]) != []) || Strays(files, fnames[1..])
  {
    assert forall i :: 0 <= i < |fnames[1..]| ==> fnames[1..][i] == fnames[i + 1];
    if i :| 0 <= i < |fnames| && !IsRegular(files, fnames[i]) && ReadBytes(files, fnames[i]) != [] {
      if i > 0 {
        assert fnames[1..][i - 1] == fnames[i];
      }
    }
  }

  lemma {:induction false} ContentsFirst(files: Files, fnames: seq<Path>, scratch: seq<Block>)
    requires AllInsertable(files, fnames) && |scratch| == |fnames| && fnames != []
    ensures AllInsertable(files, fnames[1..])
    ensures Contents(NewEntries(files, fnames, scratch))
         == ContentOf(files, fnames[0]) + Contents(NewEntries(files, fnames[1..], scratch[1..]))
  {
    assert Insertable(files, fnames[0]);
    assert forall i :: 0 <= i < |fnames[1..]| ==> fnames[1..][i] == fnames[i + 1];
    var rest := NewEntries(files, fnames[1..], scratch[1..]);
    if IsRegular(files, fnames[0]) {
      var e := NewEntry(files, fnames[0], scratch[0]);
      assert NewEntries(files, fnames, scratch) == [e] + rest && ([e] + rest)[1..] == rest;
    } else {
      assert NewEntries(files, fnames, scratch) == rest;
    }
  }

  /** Two-pass agreement: the copy pass, which visits every argument, appends exactly the contents of the
      entries the size pass recorded, which skips arguments, if and only if no skipped argument yields bytes.
      Otherwise it appends too much. */
  lemma {:induction false} TwoPassAgreement(files: Files, fnames: seq<Path>, scratch: seq<Block>)
    requires AllInsertable(files, fnames) && |scratch| == |fnames|
    ensures !Strays(files, fnames) ==> AddedData(files, fnames) == Contents(NewEntries(files, fnames, scratch))
    ensures Strays(files, fnames) ==> |AddedData(files, fnames)| > |Contents(NewEntries(files, fnames, scratch))|
  {
    if fnames != [] {
      StraysFirst(files, fnames);
      ContentsFirst(files, fnames, scratch);
      TwoPassAgreement(files, fnames[1..], scratch[1..]);
    }
  }

  /** Header and data region of an insert into a file with the header of a stored archive, whatever its data. */
  lemma {:induction false} InsertedHeaderIsLayout(es: seq<Entry>, data: seq<byte>, added: seq<Entry>, g: Garbage)
    requires Storable(es)
    ensures InsertedHeader(Headed(es, data), Infos(added), g) == EncodeInfos(HeaderOf(es + added)) + HEADER_ENDING
  {
    ScanHeaded(es, data, g.probe, false, g.node);
    OffsetsChangeNothingElse(Infos(es), DataStart(|es|));
    InfosAppend(es, added);
    FreshOffsets(HeaderOf(es) + Infos(added), Infos(es + added), DataStart(|es + added|));
  }

  lemma {:induction false} EmptyFileScan(g: Garbage, errno: bool)
    ensures ScanHeader([], 0, g.probe, errno, g.node) == Scan([], if errno then Aborted else EndOfFile)
  {
  }

  /** A file that a command can insert into: empty, or a header with at least one record and any data. */
  ghost predicate Insertion(file: seq<byte>, es: seq<Entry>, data: seq<byte>) {
    Storable(es) && (if es == [] then file == [] && data == [] else file == Headed(es, data))
  }

  lemma {:induction false} InsertedHeaderOf(file: seq<byte>, es: seq<Entry>, added: seq<Entry>, g: Garbage)
    requires Represents(file, es)
    ensures InsertedHeader(file, Infos(added), g) == EncodeInfos(HeaderOf(es + added)) + HEADER_ENDING
  {
    if file == [] && es == [] {
      EmptyFileScan(g, false);
      assert [] + added == added && [] + Infos(added) == Infos(added);
    } else {
      InsertedHeaderIsLayout(es, Contents(es), added, g);
    }
  }

  /** Behind a header with records the old data are found, whatever they are. */
  lemma {:induction false} HeadedData(es: seq<Entry>, data: seq<byte>, h: Garbage)
    requires Storable(es) && es != []
    ensures var file := Headed(es, data);
      OldData(file, HeadOffset(ScanHeader(file, 0, h.probe, false, h.node).infos, h.node)) == data
  {
    ScanHeaded(es, data, h.probe, false, h.node);
    LayoutSlice(es, 0);
    assert HeaderOf(es)[0].offset == DataStart(|es|);
    assert Headed(es, data)[DataStart(|es|)..] == data;
  }

  /** Insert keeps the data that are there and appends whatever the arguments yield, even when these are no
      contents of entries. */
  lemma {:induction false} InsertAppendsData(file: seq<byte>, es: seq<Entry>, data: seq<byte>, files: Files,
                                             fnames: seq<Path>, scratch: seq<Block>, g: Garbage, h: Garbage)
    requires Insertion(file, es, data) && AllInsertable(files, fnames) && |scratch| == |fnames|
    ensures InsertedBytes(file, files, fnames, scratch, g, h)
         == Headed(es + NewEntries(files, fnames, scratch), data + AddedData(files, fnames))
  {
    var added := NewEntries(files, fnames, scratch);
    if es == [] {
      EmptyFileScan(h, false);
      InsertedHeaderOf(file, es, added, g);
    } else {
      InsertedHeaderIsLayout(es, data, added, g);
      HeadedData(es, data, h);
    }
    var header := EncodeInfos(HeaderOf(es + added)) + HEADER_ENDING;
    assert header + data + AddedData(files, fnames) == header + (data + AddedData(files, fnames));
  }

  /** The old data region is found, except through the offset of a node that was never written. */
  lemma {:induction false} OldDataOf(file: seq<byte>, es: seq<Entry>, h: Garbage)
    requires Represents(file, es)
    ensures var data := OldData(file, HeadOffset(ScanHeader(file, 0, h.probe, false, h.node).infos, h.node));
      if es != [] || file == [] || 4 <= h.node.offset
      then data == Contents(es)
      else |data| > |Contents(es)|
  {
    if file == [] && es == [] {
      EmptyFileScan(h, false);
    } else if es == [] {
      ScanLayout(es, h.probe, false, h.node);
    } else {
      HeadedData(es, Contents(es), h);
    }
  }

  lemma {:induction false} SameParts(a: seq<byte>, b: seq<byte>, b': seq<byte>, c: seq<byte>, c': seq<byte>)
    requires b == b' || |b| > |b'|
    requires c == c' || |c| > |c'|
    ensures a + b + c == a + (b' + c') <==> b == b' && c == c'
    ensures |a + (b' + c')| <= |a + b + c|
  {
    if b == b' && c == c' {
      assert a + b + c == a + (b + c);
    }
  }

  /** Insert refines append, with the exact condition. A header without records in front of its terminator is
      one obstacle: there the offset, read from a node that was never written, has to be at least four. A skipped
      argument that yields bytes in the copy pass is the other one. */
  lemma {:induction false} InsertRefinesAppend(file: seq<byte>, es: seq<Entry>, files: Files, fnames: seq<Path>,
                                               scratch: seq<Block>, g: Garbage, h: Garbage)
    requires Represents(file, es) && AllInsertable(files, fnames) && |scratch| == |fnames|
    ensures InsertedBytes(file, files, fnames, scratch, g, h) == Layout(es + NewEntries(files, fnames, scratch))
       <==> (es != [] || file == [] || 4 <= h.node.offset) && !Strays(files, fnames)
    ensures |Layout(es + NewEntries(files, fnames, scratch))| <= |InsertedBytes(file, files, fnames, scratch, g, h)|
  {
    var added := NewEntries(files, fnames, scratch);
    TwoPassAgreement(files, fnames, scratch);
    ContentsAppend(es, added);
    InsertedHeaderOf(file, es, added, g);
    OldDataOf(file, es, h);
    var header := EncodeInfos(HeaderOf(es + added)) + HEADER_ENDING;
    var data := OldData(file, HeadOffset(ScanHeader(file, 0, h.probe, false, h.node).infos, h.node));
    SameParts(header, data, Contents(es), AddedData(files, fnames), Contents(added));
  }

  /** The archive file as the commands see it; an absent one counts as empty. */
  function ArchiveBytes(files: Files, archive: Path): seq<byte> {
    ContentOf(files, archive)
  }

  ghost predicate Holds(files: Files, archive: Path, es: seq<Entry>) {
    Accessible(files, archive) && Represents(ArchiveBytes(files, archive), es)
  }

  /** Files other than the archive and the temporary file stay as they are. */
  ghost predicate OthersSame(files: Files, files': Files, archive: Path) {
    forall p :: p != archive && p != TEMP ==> (p in files' <==> p in files) && (p in files ==> files'[p] == files[p])
  }

  /** The temporary file is opened without truncation: what it held beyond the new bytes stays. */
  function TempSize(files: Files): nat {
    |ContentOf(files, TEMP)|
  }

  lemma {:induction false} ReplaceExact(files: Files, archive: Path, bytes: seq<byte>, intended: seq<byte>)
    requires IsRegular(files, TEMP) && archive != TEMP && |intended| <= |bytes|
    ensures var files' := Replace(files, archive, bytes);
      && (ArchiveBytes(files', archive) == intended <==> bytes == intended && TempSize(files) <= |intended|)
      && OthersSame(files, files', archive) && TEMP !in files' && IsRegular(files', archive)
  {
    OverlayExact(files[TEMP].bytes, bytes, intended);
  }

  /** The name of the temporary file. */
  lemma {:induction false} TemporaryName()
    ensures |TEMP| == |".supertemp.egleser"|
    ensures forall i :: 0 <= i < |TEMP| ==> TEMP[i] as int == ".supertemp.egleser"[i] as int
  {
  }

  // ----- what the commands leave alone ----------------------------------------------------------

  /** The state after `open` with `O_CREAT` on `p`: an absent file is there, empty and with mode 0666. */
  ghost predicate CreatedEmpty(files: Files, files': Files, p: Path) {
    files' == if p in files then files else files[p := Regular([], 438)]
  }

  /** The temporary file became the archive, with its mode. */
  ghost predicate TookItsPlace(files: Files, files': Files, archive: Path) {
    && TEMP !in files' && archive in files' && files'[archive].Regular?
    && files'[archive].mode == if IsRegular(files, TEMP) then files[TEMP].mode else 438
  }

  /** What an insert leaves. A failure leaves the archive as it was, or created empty. */
  ghost predicate InsertFrame(files: Files, archive: Path, outcome: Outcome, files': Files) {
    && OthersSame(files, files', archive)
    && (outcome == Completed ==> TookItsPlace(files, files', archive))
    && (outcome != Completed ==>
      && TEMP in files' && archive in files'
      && files'[archive] == if archive in files then files[archive] else Regular([], 438))
    && (outcome == Failed(NoFilesGiven) || outcome == Failed(NothingInserted) ==>
      && TEMP in files'
      && files'[TEMP] == if TEMP in files then files[TEMP] else Regular([], 438))
  }

  /** `Replace` after `Create`. */
  lemma {:induction false} ReplaceFrame(files: Files, start: Files, archive: Path, bytes: seq<byte>)
    requires Accessible(files, archive) && (start == Create(files, TEMP) || start == Opened(files, archive))
    ensures IsRegular(start, TEMP)
    ensures OthersSame(files, Replace(start, archive, bytes), archive)
    ensures TookItsPlace(files, Replace(start, archive, bytes), archive)
  {
  }

  /** Opening the files is all that happens to them before the header is read. */
  lemma {:induction false} OpenedAgain(files: Files, archive: Path, fnames: seq<Path>, scratch: seq<Block>,
                                       g: Garbage, h: Garbage)
    requires InsertAllowed(files, archive, fnames, scratch)
    ensures var start := Opened(files, archive);
      && Opened(start, archive) == start && InsertAllowed(start, archive, fnames, scratch)
      && InsertEffect(start, archive, fnames, scratch, g, h) == InsertEffect(files, archive, fnames, scratch, g, h)
  {
    assert Opened(Opened(files, archive), archive) == Opened(files, archive);
  }

  lemma {:induction false} InsertKeepsOthers(files: Files, archive: Path, fnames: seq<Path>, scratch: seq<Block>,
                                             g: Garbage, h: Garbage)
    requires InsertAllowed(files, archive, fnames, scratch)
    ensures var effect := InsertEffect(files, archive, fnames, scratch, g, h);
      && InsertFrame(files, archive, effect.outcome, effect.files)
      && effect.outcome != Failed(OpenFailed)
      && (fnames == [] ==> effect.outcome == Failed(NoFilesGiven) || effect.outcome == Failed(HeaderUnreadable))
  {
    var start, effect := Opened(files, archive), InsertEffect(files, archive, fnames, scratch, g, h);
    if effect.outcome == Completed {
      ReplaceFrame(files, start, archive, InsertedBytes(start[archive].bytes, start, fnames, scratch, g, h));
    } else {
      assert OthersSame(files, start, archive);
    }
  }

  /** What remove leaves: without names or without an archive nothing changes at all; an unreadable header leaves
      an empty temporary file if there was none. */
  ghost predicate RemoveFrame(files: Files, archive: Path, names: seq<Path>, outcome: Outcome, files': Files) {
    && OthersSame(files, files', archive)
    && (names == [] ==> outcome == Failed(NoFilesGiven) && files' == files)
    && (names != [] && archive !in files ==> outcome == Failed(OpenFailed) && files' == files)
    && (names != [] && archive in files ==> outcome == Failed(HeaderUnreadable) || outcome == Completed)
    && (outcome == Failed(HeaderUnreadable) ==> CreatedEmpty(files, files', TEMP))
    && (outcome == Completed ==> TookItsPlace(files, files', archive))
  }

  lemma {:induction false} RemoveKeepsOthers(files: Files, archive: Path, names: seq<Path>, g: Garbage, h: Garbage)
    requires Accessible(files, archive)
    ensures var effect := RemoveEffect(files, archive, names, g, h);
      RemoveFrame(files, archive, names, effect.outcome, effect.files)
  {
    var start, effect := Create(files, TEMP), RemoveEffect(files, archive, names, g, h);
    if effect.outcome == Completed {
      ReplaceFrame(files, start, archive, RemovedBytes(start[archive].bytes, names, g, h));
    }
  }

  /** The insert command on a stored archive. What stands between the outcomes: no arguments; no argument
      that is a regular file; a zero-length archive together with a missing argument, whose stale `errno`
      makes the second scan abort. In the remaining cases the command succeeds. */
  lemma {:induction false} InsertOutcome(files: Files, archive: Path, es: seq<Entry>, fnames: seq<Path>,
                                         scratch: seq<Block>, g: Garbage, h: Garbage)
    requires InsertAllowed(files, archive, fnames, scratch) && Holds(files, archive, es)
    ensures var start := Opened(files, archive);
      InsertEffect(files, archive, fnames, scratch, g, h).outcome ==
        if fnames == [] then Failed(NoFilesGiven)
        else if NewEntries(start, fnames, scratch) == [] then Failed(NothingInserted)
        else if ArchiveBytes(files, archive) == [] && StatFails(start, fnames) then Failed(HeaderUnreadable)
        else Completed
  {
    var file := ArchiveBytes(files, archive);
    if file == [] {
      EmptyFileScan(g, false);
      EmptyFileScan(h, StatFails(Opened(files, archive), fnames));
      if es != [] {
        LayoutData(es);
      }
    } else {
      ScanLayout(es, g.probe, false, g.node);
      ScanLayout(es, h.probe, StatFails(Opened(files, archive), fnames), h.node);
    }
  }

  /** Insert, on the file system. When it succeeds, the archive holds the old entries followed by the new
      ones if and only if no leftover temporary file was longer than that, the old offset was not read from
      memory that was never written, and no skipped argument yielded bytes. Other files do not change, and no
      temporary file remains. */
  lemma {:induction false} InsertCommand(files: Files, archive: Path, es: seq<Entry>, fnames: seq<Path>,
                                         scratch: seq<Block>, g: Garbage, h: Garbage)
    requires InsertAllowed(files, archive, fnames, scratch) && Holds(files, archive, es)
    requires InsertEffect(files, archive, fnames, scratch, g, h).outcome == Completed
    ensures var files' := InsertEffect(files, archive, fnames, scratch, g, h).files;
      var intended := Layout(es + NewEntries(Opened(files, archive), fnames, scratch));
      && (ArchiveBytes(files', archive) == intended
          <==> TempSize(files) <= |intended|
               && (es != [] || ArchiveBytes(files, archive) == [] || 4 <= h.node.offset)
               && !Strays(Opened(files, archive), fnames))
      && OthersSame(files, files', archive) && TEMP !in files' && IsRegular(files', archive)
  {
    var start := Opened(files, archive);
    var file := ArchiveBytes(files, archive);
    InsertRefinesAppend(file, es, start, fnames, scratch, g, h);
    ReplaceExact(start, archive, InsertedBytes(file, start, fnames, scratch, g, h),
                 Layout(es + NewEntries(start, fnames, scratch)));
  }

  // ----- remove ---------------------------------------------------------------------------------

  /** Remove refines the filter by name, with both header lists in lockstep whatever memory they were read into. */
  lemma {:induction false} RemoveRefinesFilter(file: seq<byte>, es: seq<Entry>, names: seq<Path>, g: Garbage,
                                               h: Garbage)
    requires Represents(file, es)
    ensures RemovedBytes(file, names, g, h) == Layout(SelectEntries(es, names, true))
    ensures InRange(file, Select(ScanHeader(file, 0, h.probe, false, h.node).infos, names, true))
  {
    if file == [] && es == [] {
      EmptyFileScan(g, false);
      EmptyFileScan(h, false);
    } else {
      ScanLayout(es, g.probe, false, g.node);
      ScanLayout(es, h.probe, false, h.node);
      SelectOnLayout(es, names, true);
    }
  }

  /** The two lists in lockstep: survivor `i` keeps name, size and mask, and the bytes at its fresh offset in the
      new file are the bytes at its old offset in the old file. */
  lemma {:induction false} RemoveLockstep(es: seq<Entry>, names: seq<Path>, g: Garbage, h: Garbage, i: nat)
    requires Storable(es) && i < |Select(HeaderOf(es), names, true)|
    ensures var kept := Select(HeaderOf(es), names, true);
      var moved := WithOffsets(kept, DataStart(|kept|));
      && moved[i] == kept[i].(offset := moved[i].offset)
      && Window(RemovedBytes(Layout(es), names, g, h), moved[i].offset, moved[i].filesize)
         == Window(Layout(es), kept[i].offset, kept[i].filesize)
  {
    var kept, left := Select(HeaderOf(es), names, true), SelectEntries(es, names, true);
    RemoveRefinesFilter(Layout(es), es, names, g, h);
    SelectOnLayout(es, names, true);
    SelectStorable(es, names, true);
    EntryStored(left, i);
    OffsetsChangeNothingElse(kept, DataStart(|kept|));
    SelectDescribes(es, names, true);
    assert EntryAt(Layout(es), kept[i]) == left[i];
  }

  /** Selected records describe the selected entries. */
  lemma {:induction false} SelectDescribes(es: seq<Entry>, names: seq<Path>, drop: bool)
    requires Storable(es)
    ensures Describes(Layout(es), Select(HeaderOf(es), names, drop), SelectEntries(es, names, drop))
  {
    forall i | 0 <= i < |es|
      ensures EntryAt(Layout(es), HeaderOf(es)[i]) == es[i]
    {
      EntryStored(es, i);
    }
    var keep := Marks(HeaderOf(es), names, drop);
    MarksSelect(HeaderOf(es), es, names, drop);
    MarkedDescribes(Layout(es), HeaderOf(es), es, keep);
  }

  lemma {:induction false} MarkedDescribes(file: seq<byte>, rs: seq<FileInfo>, es: seq<Entry>, keep: seq<bool>)
    requires Describes(file, rs, es) && |keep| == |rs|
    ensures Describes(file, Marked(rs, keep), Marked(es, keep))
  {
    if rs != [] {
      MarkedDescribes(file, rs[1..], es[1..], keep[1..]);
    }
  }

  /** Remove, on the file system: it succeeds on every stored archive, whatever the names, and leaves exactly
      the entries not listed, if and only if no leftover temporary file was longer. */
  lemma {:induction false} RemoveCommand(files: Files, archive: Path, es: seq<Entry>, names: seq<Path>, g: Garbage,
                                         h: Garbage)
    requires Holds(files, archive, es) && names != [] && archive in files
    ensures RemoveInRange(files, archive, names, h)
    ensures var effect := RemoveEffect(files, archive, names, g, h);
      var intended := Layout(SelectEntries(es, names, true));
      && effect.outcome == Completed
      && (ArchiveBytes(effect.files, archive) == intended <==> TempSize(files) <= |intended|)
      && OthersSame(files, effect.files, archive) && TEMP !in effect.files && IsRegular(effect.files, archive)
  {
    var file := ArchiveBytes(files, archive);
    RemoveRefinesFilter(file, es, names, g, h);
    if file == [] && es == [] {
      EmptyFileScan(g, false);
      EmptyFileScan(h, false);
    } else {
      ScanLayout(es, g.probe, false, g.node);
      ScanLayout(es, h.probe, false, h.node);
    }
    ReplaceExact(Create(files, TEMP), archive, RemovedBytes(file, names, g, h), Layout(SelectEntries(es, names, true)));
  }

  /** Selecting keeps an archive storable. */
  lemma {:induction false} SelectStorable(es: seq<Entry>, names: seq<Path>, drop: bool)
    requires Storable(es)
    ensures Storable(SelectEntries(es, names, drop))
    ensures |SelectEntries(es, names, drop)| <= |es| && |Contents(SelectEntries(es, names, drop))| <= |Contents(es)|
  {
    if es != [] {
      SelectStorable(es[1..], names, drop);
      var rest := SelectEntries(es[1..], names, drop);
      assert SelectEntries(es, names, drop) == if (EntryName(es[0]) in names) != drop then [es[0]] + rest else rest;
      assert ([es[0]] + rest)[1..] == rest;
    }
  }
}
