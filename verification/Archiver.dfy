/** The archiver: its commands run on header lists and open files, and have exactly the effects that
    module Commands defines. */
module Archiver {
  import opened Bytes
  import opened FileInfos
  import opened Descriptors
  import opened HeaderList
  import opened HeaderScan
  import opened Archive
  import opened Commands
  import opened Refinement
  import opened Laws

  /** Writes the records of the list and the terminator. */
  method WriteHeader(header: FiNode, fd: Descriptor, ghost nodes: seq<FiNode>, ghost infos: seq<FileInfo>)
    requires Header(header, nodes, infos) && fd.pos <= |fd.bytes|
    modifies fd
    ensures var w := EncodeInfos(infos) + HEADER_ENDING;
      fd.bytes == WriteAt(old(fd.bytes), old(fd.pos), w) && fd.pos == old(fd.pos) + |w| <= |fd.bytes|
  {
    var i := header;
    ghost var k, w: seq<byte> := 0, [];
    assert infos[..0] == [];
    while !i.eof
      invariant 0 <= k < |nodes| && i == nodes[k] && Header(header, nodes, infos)
      invariant w == EncodeInfos(infos[..k])
      invariant fd.bytes == WriteAt(old(fd.bytes), old(fd.pos), w)
      invariant fd.pos == old(fd.pos) + |w| <= |fd.bytes|
      decreases |nodes| - k
    {
      assert i.next == nodes[k + 1];
      fd.Write(EncodeInfo(i.data));
      WriteAtTwice(old(fd.bytes), old(fd.pos), w, EncodeInfo(infos[k]));
      EncodeInfosAppend(infos[..k], infos[k]);
      assert infos[..k + 1] == infos[..k] + [infos[k]];
      w := w + EncodeInfo(infos[k]);
      i, k := i.next, k + 1;
    }
    assert infos[..k] == infos;
    fd.Write(HEADER_ENDING);
    WriteAtTwice(old(fd.bytes), old(fd.pos), w, HEADER_ENDING);
  }

  lemma {:induction false} NewEntriesNext(files: Files, fnames: seq<Path>, scratch: seq<Block>, i: nat)
    requires AllInsertable(files, fnames) && |scratch| == |fnames| && i < |fnames|
    ensures AllInsertable(files, fnames[..i]) && AllInsertable(files, fnames[..i + 1]) && Insertable(files, fnames[i])
    ensures NewEntries(files, fnames[..i + 1], scratch[..i + 1]) ==
      NewEntries(files, fnames[..i], scratch[..i]) +
      if IsRegular(files, fnames[i]) then [NewEntry(files, fnames[i], scratch[i])] else []
  {
    assert fnames[..i + 1] == fnames[..i] + [fnames[i]] && scratch[..i + 1] == scratch[..i] + [scratch[i]];
    assert Insertable(files, [fnames[i]][0]);
    NewEntriesAppend(files, fnames[..i], [fnames[i]], scratch[..i], [scratch[i]]);
    NewEntriesFirst(files, [fnames[i]], [scratch[i]]);
  }

  /** The records the size pass has in the list after `i` arguments. */
  ghost function HeaderAfter(infos: seq<FileInfo>, files: Files, fnames: seq<Path>, scratch: seq<Block>,
                             i: nat): seq<FileInfo>
    requires AllInsertable(files, fnames) && |scratch| == |fnames| && i <= |fnames|
  {
    assert AllInsertable(files, fnames[..i]);
    infos + Infos(NewEntries(files, fnames[..i], scratch[..i]))
  }

  lemma {:induction false} HeaderNext(infos: seq<FileInfo>, files: Files, fnames: seq<Path>, scratch: seq<Block>,
                                      i: nat)
    requires AllInsertable(files, fnames) && |scratch| == |fnames| && i < |fnames|
    ensures Insertable(files, fnames[i])
    ensures HeaderAfter(infos, files, fnames, scratch, i + 1) ==
      if IsRegular(files, fnames[i])
      then HeaderAfter(infos, files, fnames, scratch, i) + [InfoOf(NewEntry(files, fnames[i], scratch[i]))]
      else HeaderAfter(infos, files, fnames, scratch, i)
  {
    assert AllInsertable(files, fnames[..i]) && AllInsertable(files, fnames[..i + 1]) && Insertable(files, fnames[i]);
    var es, es' := NewEntries(files, fnames[..i], scratch[..i]), NewEntries(files, fnames[..i + 1], scratch[..i + 1]);
    assert es' == es + if IsRegular(files, fnames[i]) then [NewEntry(files, fnames[i], scratch[i])] else [] by {
      NewEntriesNext(files, fnames, scratch, i);
    }
    if IsRegular(files, fnames[i]) {
      InfosNext(infos, es, NewEntry(files, fnames[i], scratch[i]));
    } else {
      assert es' == es;
    }
  }

  lemma {:induction false} InfosNext(infos: seq<FileInfo>, es: seq<Entry>, e: Entry)
    ensures infos + Infos(es + [e]) == infos + Infos(es) + [InfoOf(e)]
  {
    InfosAppend(es, [e]);
    assert Infos([e]) == [InfoOf(e)];
  }

  ghost predicate MissingAmong(files: Files, fnames: seq<Path>, n: nat)
    requires n <= |fnames|
  {
    n > 0 && (fnames[n - 1] !in files || MissingAmong(files, fnames, n - 1))
  }

  lemma {:induction false} MissingIsStatFails(files: Files, fnames: seq<Path>, n: nat)
    requires n <= |fnames|
    ensures MissingAmong(files, fnames, n) <==> StatFails(files, fnames[..n])
    ensures fnames[..|fnames|] == fnames
  {
    if n > 0 {
      MissingIsStatFails(files, fnames, n - 1);
      assert forall j :: 0 <= j < n - 1 ==> fnames[..n][j] == fnames[..n - 1][j];
      assert fnames[..n][n - 1] == fnames[n - 1];
    }
  }

  /** The list `nodes'` is `nodes` with new nodes behind it. */
  twostate predicate Extends(nodes: seq<FiNode>, new nodes': seq<FiNode>) {
    && |nodes| <= |nodes'|
    && (forall j :: 0 <= j < |nodes| ==> nodes'[j] == nodes[j])
    && (forall j :: |nodes| <= j < |nodes'| ==> fresh(nodes'[j]))
  }

  /** The size pass for one argument: a missing path fails `stat`, a directory is skipped, a regular file gets
      a record at the end of the list. */
  method InputOne(header: FiNode, files: Files, p: Path, scratch: Block, memory: FileInfo, ghost nodes: seq<FiNode>,
                  ghost infos: seq<FileInfo>)
    returns (stored: bool, missing: bool, ghost nodes': seq<FiNode>)
    requires Header(header, nodes, infos) && Insertable(files, p)
    modifies {nodes[|infos|]}
    ensures (stored <==> IsRegular(files, p)) && (missing <==> p !in files) && Extends(nodes, nodes')
    ensures Header(header, nodes', if stored then infos + [InfoOf(NewEntry(files, p, scratch))] else infos)
  {
    stored, missing, nodes' := false, p !in files, nodes;
    if !missing && files[p].Regular? {
      stored := true;
      var fi := FileInfo(NameField(Basename(p), scratch), |files[p].bytes|, files[p].mode % 512, 0);
      assert fi == InfoOf(NewEntry(files, p, scratch));
      var n: FiNode;
      n, nodes' := AppendInfo(header, fi, memory, nodes, infos);
    }
  }

  /** The size pass: appends a record for every argument that is a regular file, and skips the others.
      `errno` tells whether a `stat` failed. */
  method UpdateHeaderForInput(header: FiNode, files: Files, fnames: seq<Path>, scratch: seq<Block>, memory: FileInfo,
                              ghost nodes: seq<FiNode>, ghost infos: seq<FileInfo>)
    returns (inserted: nat, errno: bool, ghost nodes': seq<FiNode>)
    requires Header(header, nodes, infos) && AllInsertable(files, fnames) && |scratch| == |fnames|
    modifies {nodes[|infos|]}
    ensures Header(header, nodes', infos + Infos(NewEntries(files, fnames, scratch))) && Extends(nodes, nodes')
    ensures inserted == |NewEntries(files, fnames, scratch)| && (errno <==> StatFails(files, fnames))
  {
    inserted, errno, nodes' := 0, false, nodes;
    ghost var all := infos;
    assert infos + Infos([]) == infos;
    for i := 0 to |fnames|
      invariant all == HeaderAfter(infos, files, fnames, scratch, i)
      invariant Header(header, nodes', all) && Extends(nodes, nodes')
      invariant |all| == |infos| + inserted
      invariant errno <==> MissingAmong(files, fnames, i)
    {
      HeaderNext(infos, files, fnames, scratch, i);
      var stored, missing;
      stored, missing, nodes' := InputOne(header, files, fnames[i], scratch[i], memory, nodes', all);
      all := HeaderAfter(infos, files, fnames, scratch, i + 1);
      errno := errno || missing;
      inserted := if stored then inserted + 1 else inserted;
    }
    assert fnames[..|fnames|] == fnames && scratch[..|scratch|] == scratch;
    MissingIsStatFails(files, fnames, |fnames|);
  }

  lemma {:induction false} AddedDataNext(files: Files, fnames: seq<Path>, i: nat)
    requires i < |fnames|
    ensures AddedData(files, fnames[..i + 1]) == AddedData(files, fnames[..i]) + ReadBytes(files, fnames[i])
  {
    assert fnames[..i + 1] == fnames[..i] + [fnames[i]];
    AddedDataAppend(files, fnames[..i], [fnames[i]]);
    assert AddedData(files, [fnames[i]]) == ReadBytes(files, fnames[i]) + AddedData(files, []);
  }

  /** The copy pass over the arguments: every one is opened again and read to its end, whatever it is. */
  method AppendFiles(files: Files, fnames: seq<Path>, newFd: Descriptor)
    requires newFd.pos <= |newFd.bytes|
    modifies newFd
    ensures newFd.bytes == WriteAt(old(newFd.bytes), old(newFd.pos), AddedData(files, fnames))
    ensures newFd.pos == old(newFd.pos) + |AddedData(files, fnames)| <= |newFd.bytes|
  {
    ghost var w: seq<byte> := [];
    for i := 0 to |fnames|
      invariant w == AddedData(files, fnames[..i])
      invariant newFd.bytes == WriteAt(old(newFd.bytes), old(newFd.pos), w)
      invariant newFd.pos == old(newFd.pos) + |w| <= |newFd.bytes|
    {
      AddedDataNext(files, fnames, i);
      var fd := new Descriptor(ReadBytes(files, fnames[i]));
      CopyRest(fd, newFd);
      WriteAtTwice(old(newFd.bytes), old(newFd.pos), w, ReadBytes(files, fnames[i]));
      w := w + ReadBytes(files, fnames[i]);
    }
    assert fnames[..|fnames|] == fnames;
  }

  lemma {:induction false} WriteAtStart(prior: seq<byte>, w: seq<byte>)
    ensures WriteAt(prior, 0, w) == Overlay(prior, w)
  {
    assert prior[..0] == [];
  }

  lemma {:induction false} ThreeWrites(prior: seq<byte>, a: seq<byte>, b: seq<byte>, c: seq<byte>)
    ensures |a| <= |WriteAt(prior, 0, a)|
    ensures |a| + |b| <= |WriteAt(WriteAt(prior, 0, a), |a|, b)|
    ensures WriteAt(WriteAt(WriteAt(prior, 0, a), |a|, b), |a| + |b|, c) == Overlay(prior, a + b + c)
  {
    WriteAtTwice(prior, 0, a, b);
    WriteAtTwice(prior, 0, a + b, c);
    WriteAtStart(prior, a + b + c);
  }

  lemma {:induction false} ThirdWrite(prior: seq<byte>, a: seq<byte>, b: seq<byte>, c: seq<byte>, before: seq<byte>,
                                      after: seq<byte>)
    requires |a| <= |WriteAt(prior, 0, a)| && before == WriteAt(WriteAt(prior, 0, a), |a|, b)
    requires |a| + |b| <= |before| && after == WriteAt(before, |a| + |b|, c)
    ensures after == Overlay(prior, a + b + c)
  {
    ThreeWrites(prior, a, b, c);
  }

  /** Scans the old header once more for the offset of its first record, and copies the old raw data from
      there. Nothing is copied when the scan aborts. */
  method CopyOldData(fd: Descriptor, newFd: Descriptor, errno: bool, h: Garbage) returns (ok: bool)
    requires fd != newFd && fd.pos == 0 && newFd.pos <= |newFd.bytes|
    modifies fd`pos, newFd
    ensures ok <==> ScanHeader(fd.bytes, 0, h.probe, errno, h.node).end != Aborted
    ensures !ok ==> newFd.bytes == old(newFd.bytes) && newFd.pos == old(newFd.pos)
    ensures ok ==>
      var data := OldData(fd.bytes, HeadOffset(ScanHeader(fd.bytes, 0, h.probe, errno, h.node).infos, h.node));
      newFd.bytes == WriteAt(old(newFd.bytes), old(newFd.pos), data) && newFd.pos == old(newFd.pos) + |data|
  {
    var oldh := new FiNode(h.node);
    var end;
    ghost var nodes;
    end, nodes := ReadHeader(oldh, fd, h.node, h.probe, errno);
    if end == Aborted {
      return false;
    }
    ghost var infos := ScanHeader(fd.bytes, 0, h.probe, errno, h.node).infos;
    var off := oldh.data.offset;
    assert off == HeadOffset(infos, h.node) by {
      assert infos != [] ==> nodes[0].data == infos[0];
    }
    FreeList(oldh, nodes);

    var at := fd.SeekEnd();
    if at != 0 {
      var _ := fd.SeekTo(off);
    }
    CopyRest(fd, newFd);
    return true;
  }

  /** What insert writes for a header `w`: only the header when the second scan aborts, otherwise the old and the new
      data as well. */
  function InsertedParts(w: seq<byte>, file: seq<byte>, scan: Scan, h: Garbage, files: Files,
                         fnames: seq<Path>): seq<byte> {
    if scan.end == Aborted then w else w + OldData(file, HeadOffset(scan.infos, h.node)) + AddedData(files, fnames)
  }

  /** Writes the new archive: header, old raw data, new raw data. When the second scan of the old header
      aborts, only the header was written. */
  method InsertFilesRoutine(header: FiNode, fd: Descriptor, newFd: Descriptor, files: Files, fnames: seq<Path>,
                            errno: bool, h: Garbage, ghost nodes: seq<FiNode>, ghost infos: seq<FileInfo>)
    returns (ok: bool)
    requires Header(header, nodes, infos) && fd != newFd && fd.pos == 0 && newFd.pos == 0
    modifies fd`pos, newFd
    ensures var w, scan := EncodeInfos(infos) + HEADER_ENDING, ScanHeader(fd.bytes, 0, h.probe, errno, h.node);
      && (ok <==> scan.end != Aborted)
      && newFd.bytes == Overlay(old(newFd.bytes), InsertedParts(w, fd.bytes, scan, h, files, fnames))
  {
    ghost var w, prior := EncodeInfos(infos) + HEADER_ENDING, newFd.bytes;
    WriteHeader(header, newFd, nodes, infos);
    ok := WriteData(fd, newFd, files, fnames, errno, h, prior, w);
  }

  /** What follows the header `w` in the new archive. */
  method WriteData(fd: Descriptor, newFd: Descriptor, files: Files, fnames: seq<Path>, errno: bool, h: Garbage,
                   ghost prior: seq<byte>, ghost w: seq<byte>)
    returns (ok: bool)
    requires fd != newFd && fd.pos == 0
    requires newFd.bytes == WriteAt(prior, 0, w) && newFd.pos == |w| <= |newFd.bytes|
    modifies fd`pos, newFd
    ensures var scan := ScanHeader(fd.bytes, 0, h.probe, errno, h.node);
      && (ok <==> scan.end != Aborted)
      && newFd.bytes == Overlay(prior, InsertedParts(w, fd.bytes, scan, h, files, fnames))
  {
    ghost var scan := ScanHeader(fd.bytes, 0, h.probe, errno, h.node);
    ghost var data := OldData(fd.bytes, HeadOffset(scan.infos, h.node));
    ok := CopyOldData(fd, newFd, errno, h);
    if ok {
      ghost var before := newFd.bytes;
      AppendFiles(files, fnames, newFd);
      assert newFd.bytes == Overlay(prior, w + data + AddedData(files, fnames)) by {
        ThirdWrite(prior, w, data, AddedData(files, fnames), before, newFd.bytes);
      }
    } else {
      WriteAtStart(prior, w);
    }
  }

  /** Copies the slices of the listed records, one after the other. */
  method CopySlices(header: FiNode, fd: Descriptor, newFd: Descriptor, ghost nodes: seq<FiNode>,
                    ghost infos: seq<FileInfo>)
    returns (ghost w: seq<byte>)
    requires Header(header, nodes, infos) && fd != newFd && newFd.pos <= |newFd.bytes|
    modifies fd`pos, newFd
    ensures Copied(fd.bytes, old(fd.pos), infos, w)
    ensures newFd.bytes == WriteAt(old(newFd.bytes), old(newFd.pos), w)
  {
    var i := header;
    ghost var k := 0;
    w := [];
    assert infos[0..] == infos;
    ContinuesStart(fd.bytes, fd.pos, infos);
    while !i.eof
      invariant 0 <= k < |nodes| && i == nodes[k] && Header(header, nodes, infos)
      invariant Continues(fd.bytes, old(fd.pos), infos, w, fd.pos, infos[k..])
      invariant newFd.bytes == WriteAt(old(newFd.bytes), old(newFd.pos), w)
      invariant newFd.pos == old(newFd.pos) + |w| <= |newFd.bytes|
      decreases |nodes| - k
    {
      assert i.next == nodes[k + 1] && i.data == infos[k] && infos[k..][1..] == infos[k + 1..];
      w := CopySlice(i.data, fd, newFd, old(fd.pos), infos, infos[k..], w, old(newFd.bytes), old(newFd.pos));
      i, k := i.next, k + 1;
    }
    assert Copied(fd.bytes, fd.pos, infos[k..], []) && w + [] == w;
  }

  /** `w` was copied so far: whatever the rest gives from here completes it. */
  ghost predicate Continues(file: seq<byte>, pos: nat, infos: seq<FileInfo>, w: seq<byte>, now: nat,
                            rest: seq<FileInfo>)
  {
    forall v :: Copied(file, now, rest, v) ==> Copied(file, pos, infos, w + v)
  }

  lemma {:induction false} ContinuesStart(file: seq<byte>, pos: nat, infos: seq<FileInfo>)
    ensures Continues(file, pos, infos, [], pos, infos)
  {
    forall v | Copied(file, pos, infos, v)
      ensures Copied(file, pos, infos, [] + v)
    {
      assert [] + v == v;
    }
  }

  /** One round of `CopySlices`. */
  method CopySlice(info: FileInfo, fd: Descriptor, newFd: Descriptor, ghost pos: nat, ghost infos: seq<FileInfo>,
                   ghost rest: seq<FileInfo>, ghost w: seq<byte>, ghost prior: seq<byte>, ghost at: nat)
    returns (ghost w': seq<byte>)
    requires rest != [] && info == rest[0] && fd != newFd
    requires at <= |prior| && newFd.bytes == WriteAt(prior, at, w) && newFd.pos == at + |w| <= |newFd.bytes|
    requires Continues(fd.bytes, pos, infos, w, fd.pos, rest)
    modifies fd`pos, newFd
    ensures newFd.bytes == WriteAt(prior, at, w') && newFd.pos == at + |w'| <= |newFd.bytes|
    ensures Continues(fd.bytes, pos, infos, w', fd.pos, rest[1..])
  {
    ghost var now := fd.pos;
    ghost var written := CopyFile(fd, newFd, info.filesize, info.offset);
    WriteAtTwice(prior, at, w, written);
    ContinuesNext(fd.bytes, pos, infos, w, now, rest, written);
    w' := w + written;
  }

  lemma {:induction false} ContinuesNext(file: seq<byte>, pos: nat, infos: seq<FileInfo>, w: seq<byte>, now: nat,
                                         rest: seq<FileInfo>, piece: seq<byte>)
    requires rest != [] && Continues(file, pos, infos, w, now, rest) && |piece| == rest[0].filesize
    requires Window(file, CopyStart(rest[0].offset, now), |piece|) <= piece
    ensures var start := CopyStart(rest[0].offset, now);
      Continues(file, pos, infos, w + piece, start + |Window(file, start, |piece|)|, rest[1..])
  {
    var start := CopyStart(rest[0].offset, now);
    forall v | Copied(file, start + |Window(file, start, |piece|)|, rest[1..], v)
      ensures Copied(file, pos, infos, w + piece + v)
    {
      CopiedCons(file, now, rest, piece, v);
      Associates(w, piece, v);
    }
  }

  /** The insert command once the header list is read: extends it, computes the offsets, writes the new file. */
  method InsertInto(header: FiNode, fd: Descriptor, newFd: Descriptor, files: Files, fnames: seq<Path>,
                    scratch: seq<Block>, memory: FileInfo, h: Garbage, ghost nodes: seq<FiNode>,
                    ghost infos: seq<FileInfo>)
    returns (outcome: Outcome)
    requires Header(header, nodes, infos) && fd != newFd && fd.pos == 0 && newFd.pos == 0
    requires AllInsertable(files, fnames) && |scratch| == |fnames|
    modifies nodes, fd`pos, newFd
    ensures var added := NewEntries(files, fnames, scratch);
      var all := infos + Infos(added);
      var w := EncodeInfos(WithOffsets(all, DataStart(|all|))) + HEADER_ENDING;
      var scan := ScanHeader(fd.bytes, 0, h.probe, StatFails(files, fnames), h.node);
      && outcome == (if added == [] then Failed(NothingInserted)
                     else if scan.end == Aborted then Failed(HeaderUnreadable)
                     else Completed)
      && (added != [] ==> newFd.bytes == Overlay(old(newFd.bytes), InsertedParts(w, fd.bytes, scan, h, files, fnames)))
  {
    var inserted, errno;
    ghost var nodes';
    inserted, errno, nodes' := UpdateHeaderForInput(header, files, fnames, scratch, memory, nodes, infos);
    ghost var all := infos + Infos(NewEntries(files, fnames, scratch));
    if inserted == 0 {
      FreeList(header, nodes');
      return Failed(NothingInserted);
    }
    var ok := InsertListed(header, fd, newFd, files, fnames, errno, h, nodes', all);
    return if ok then Completed else Failed(HeaderUnreadable);
  }

  /** What insert does with the extended list: computes the offsets, writes the new file, frees the list. */
  method InsertListed(header: FiNode, fd: Descriptor, newFd: Descriptor, files: Files, fnames: seq<Path>, errno: bool,
                      h: Garbage, ghost nodes: seq<FiNode>, ghost all: seq<FileInfo>)
    returns (ok: bool)
    requires Header(header, nodes, all) && fd != newFd && fd.pos == 0 && newFd.pos == 0
    modifies nodes, fd`pos, newFd
    ensures var w := EncodeInfos(WithOffsets(all, DataStart(|all|))) + HEADER_ENDING;
      var scan := ScanHeader(fd.bytes, 0, h.probe, errno, h.node);
      && (ok <==> scan.end != Aborted)
      && newFd.bytes == Overlay(old(newFd.bytes), InsertedParts(w, fd.bytes, scan, h, files, fnames))
    ensures ok ==> forall n :: n in nodes ==> !n.live
  {
    UpdateOffsets(header, nodes, all);
    ok := InsertFilesRoutine(header, fd, newFd, files, fnames, errno, h, nodes, WithOffsets(all, DataStart(|all|)));
    if ok {
      FreeList(header, nodes);
    }
  }

  /** Reads a header into a fresh list. */
  method ReadList(fd: Descriptor, g: Garbage) returns (end: HeaderEnd, header: FiNode, ghost nodes: seq<FiNode>)
    requires fd.pos == 0
    modifies fd`pos
    ensures end == ScanHeader(fd.bytes, 0, g.probe, false, g.node).end
    ensures forall j :: 0 <= j < |nodes| ==> fresh(nodes[j])
    ensures end != Aborted ==>
      fd.pos == 0 && Header(header, nodes, ScanHeader(fd.bytes, 0, g.probe, false, g.node).infos)
  {
    header := new FiNode(g.node);
    end, nodes := ReadHeader(header, fd, g.node, g.probe, false);
  }

  /** Filters a list in place; the nodes of the result are among the nodes of the list. */
  method FilterList(header: FiNode, fnames: seq<Path>, drop: bool, ghost nodes: seq<FiNode>, ghost infos: seq<FileInfo>)
    returns (header': FiNode, ghost nodes': seq<FiNode>)
    requires Header(header, nodes, infos)
    modifies nodes`next, nodes`live
    ensures Header(header', nodes', Select(infos, fnames, drop)) && Among(nodes', nodes)
    ensures forall n :: n in nodes ==> (n.live <==> n in nodes')
  {
    header' := RemoveFilesFromHeader(header, fnames, drop, nodes, infos);
    ghost var keep := Marks(infos, fnames, drop);
    nodes' := Survivors(nodes, keep);
    forall j | 0 <= j < |nodes'|
      ensures nodes'[j] in nodes
    {
      SurvivorsAmong(nodes, keep, j);
    }
  }

  ghost predicate Among(nodes': seq<FiNode>, nodes: seq<FiNode>) {
    forall j :: 0 <= j < |nodes'| ==> nodes'[j] in nodes
  }

  ghost predicate Apart(nodes: seq<FiNode>, others: seq<FiNode>) {
    forall j :: 0 <= j < |nodes| ==> nodes[j] !in others
  }

  /** Filters both lists and gives the first one fresh offsets. */
  method FilterBoth(newHeader: FiNode, oldHeader: FiNode, fnames: seq<Path>, ghost nodes: seq<FiNode>,
                    ghost infos: seq<FileInfo>, ghost oldNodes: seq<FiNode>, ghost oldInfos: seq<FileInfo>)
    returns (newHeader': FiNode, oldHeader': FiNode, ghost nodes': seq<FiNode>, ghost oldNodes': seq<FiNode>)
    requires Header(newHeader, nodes, infos) && Header(oldHeader, oldNodes, oldInfos) && Apart(oldNodes, nodes)
    modifies nodes, oldNodes
    ensures Among(nodes', nodes) && Among(oldNodes', oldNodes) && Apart(oldNodes', nodes')
    ensures var kept := Select(infos, fnames, true); Header(newHeader', nodes', WithOffsets(kept, DataStart(|kept|)))
    ensures Header(oldHeader', oldNodes', Select(oldInfos, fnames, true))
    ensures forall n :: n in nodes ==> (n.live <==> n in nodes')
    ensures forall n :: n in oldNodes ==> (n.live <==> n in oldNodes')
  {
    newHeader', nodes' := FilterList(newHeader, fnames, true, nodes, infos);
    oldHeader', oldNodes' := FilterList(oldHeader, fnames, true, oldNodes, oldInfos);
    UpdateOffsets(newHeader', nodes', Select(infos, fnames, true));
  }

  /** Writes the records of the first list, copies the slices of the second, and frees both. */
  method WriteRemoved(newHeader: FiNode, oldHeader: FiNode, fd: Descriptor, newFd: Descriptor,
                      ghost nodes: seq<FiNode>, ghost infos: seq<FileInfo>, ghost oldNodes: seq<FiNode>,
                      ghost oldInfos: seq<FileInfo>)
    returns (ghost copied: seq<byte>)
    requires Header(newHeader, nodes, infos) && Header(oldHeader, oldNodes, oldInfos) && Apart(oldNodes, nodes)
    requires fd != newFd && newFd.pos == 0
    modifies nodes`live, oldNodes`live, fd`pos, newFd
    ensures Copied(fd.bytes, old(fd.pos), oldInfos, copied)
    ensures forall n :: n in nodes || n in oldNodes ==> !n.live
    ensures newFd.bytes == Overlay(old(newFd.bytes), EncodeInfos(infos) + HEADER_ENDING + copied)
  {
    ghost var w, prior := EncodeInfos(infos) + HEADER_ENDING, newFd.bytes;
    WriteHeader(newHeader, newFd, nodes, infos);
    copied := CopySlices(oldHeader, fd, newFd, oldNodes, oldInfos);
    WriteAtTwice(prior, 0, w, copied);
    WriteAtStart(prior, w + copied);
    FreeList(newHeader, nodes);
    FreeList(oldHeader, oldNodes);
  }

  /** What remove does with the two lists once they are read. In the end every node is freed. */
  method RemoveListed(newHeader: FiNode, oldHeader: FiNode, fd: Descriptor, newFd: Descriptor, fnames: seq<Path>,
                      ghost nodes: seq<FiNode>, ghost infos: seq<FileInfo>, ghost oldNodes: seq<FiNode>,
                      ghost oldInfos: seq<FileInfo>)
    returns (ghost copied: seq<byte>)
    requires Header(newHeader, nodes, infos) && Header(oldHeader, oldNodes, oldInfos) && Apart(oldNodes, nodes)
    requires fd != newFd && newFd.pos == 0
    modifies nodes, oldNodes, fd`pos, newFd
    ensures Copied(fd.bytes, old(fd.pos), Select(oldInfos, fnames, true), copied)
    ensures forall n :: n in nodes || n in oldNodes ==> !n.live
    ensures var kept := Select(infos, fnames, true);
      var w := EncodeInfos(WithOffsets(kept, DataStart(|kept|))) + HEADER_ENDING;
      newFd.bytes == Overlay(old(newFd.bytes), w + copied)
  {
    var newHeader', oldHeader';
    ghost var nodes', oldNodes';
    ghost var kept, oldKept := Select(infos, fnames, true), Select(oldInfos, fnames, true);
    newHeader', oldHeader', nodes', oldNodes' :=
      FilterBoth(newHeader, oldHeader, fnames, nodes, infos, oldNodes, oldInfos);
    copied :=
      WriteRemoved(newHeader', oldHeader', fd, newFd, nodes', WithOffsets(kept, DataStart(|kept|)), oldNodes', oldKept);
  }

  /** Reads the header twice, filters both lists, writes the first with fresh offsets and copies the slices of
      the second by the old ones. `copied` is what was copied. */
  method RemoveInto(fd: Descriptor, newFd: Descriptor, fnames: seq<Path>, g: Garbage, h: Garbage)
    returns (ok: bool, ghost copied: seq<byte>)
    requires fd != newFd && fd.pos == 0 && newFd.pos == 0
    modifies fd`pos, newFd
    ensures var first := ScanHeader(fd.bytes, 0, g.probe, false, g.node);
      var second := ScanHeader(fd.bytes, 0, h.probe, false, h.node);
      && (ok <==> first.end != Aborted && second.end != Aborted)
      && (ok ==> Copied(fd.bytes, 0, RemovedSlices(fd.bytes, fnames, h), copied))
      && newFd.bytes == if ok then Overlay(old(newFd.bytes), RemovedHeader(fd.bytes, fnames, g) + copied)
                        else old(newFd.bytes)
  {
    var end, newHeader, oldHeader;
    ghost var nodes, oldNodes;
    end, newHeader, nodes := ReadList(fd, g);
    if end == Aborted {
      return false, [];
    }
    end, oldHeader, oldNodes := ReadList(fd, h);
    if end == Aborted {
      return false, [];
    }
    copied := RemoveListed(newHeader, oldHeader, fd, newFd, fnames,
                           nodes, ScanHeader(fd.bytes, 0, g.probe, false, g.node).infos,
                           oldNodes, ScanHeader(fd.bytes, 0, h.probe, false, h.node).infos);
    ok := true;
  }

  /** Slices that `extract` can copy: inside the file, and in ascending order should the archive be overwritten. */
  ghost predicate Extractable(file: seq<byte>, rs: seq<FileInfo>, archive: Path) {
    InRange(file, rs) && (Ahead(rs) || forall i :: 0 <= i < |rs| ==> StoredName(rs[i]) != archive)
  }

  /** The slices of the records are in `now` as they are in `file`. */
  ghost predicate SameSlices(file: seq<byte>, now: seq<byte>, rs: seq<FileInfo>) {
    |now| == |file| && forall j :: 0 <= j < |rs| ==>
      Window(now, rs[j].offset, rs[j].filesize) == Window(file, rs[j].offset, rs[j].filesize)
  }

  /** What is left of a list of records after the first. */
  lemma {:induction false} ExtractableRest(file: seq<byte>, rs: seq<FileInfo>, archive: Path)
    requires rs != [] && Extractable(file, rs, archive)
    ensures Extractable(file, rs[1..], archive)
  {
    assert forall i :: 0 <= i < |rs| - 1 ==> rs[1..][i] == rs[i + 1];
  }

  /** Overwriting the archive with one of its slices leaves the later ones alone. */
  lemma {:induction false} SlicesStay(file: seq<byte>, now: seq<byte>, w: seq<byte>, rs: seq<FileInfo>)
    requires rs != [] && Ahead(rs) && SameSlices(file, now, rs) && |w| == rs[0].filesize <= |now|
    ensures SameSlices(file, Overlay(now, w), rs[1..])
  {
    forall j | 0 <= j < |rs[1..]|
      ensures Window(Overlay(now, w), rs[1..][j].offset, rs[1..][j].filesize)
           == Window(file, rs[1..][j].offset, rs[1..][j].filesize)
    {
      assert rs[1..][j] == rs[j + 1];
      BehindOverlay(now, w, rs[j + 1].offset, rs[j + 1].filesize);
    }
  }

  lemma {:induction false} SameSlicesRest(file: seq<byte>, now: seq<byte>, rs: seq<FileInfo>)
    requires rs != [] && SameSlices(file, now, rs)
    ensures SameSlices(file, now, rs[1..])
  {
    assert forall j :: 0 <= j < |rs| - 1 ==> rs[1..][j] == rs[j + 1];
  }

  /** One round on a record whose slice is in the archive: what is written is the slice. */
  lemma {:induction false} StepExact(files: Files, archive: Path, pos: nat, rs: seq<FileInfo>, file: seq<byte>,
                                     mid: Files, next: nat)
    requires IsRegular(files, archive) && rs != [] && Extractable(file, rs, archive)
    requires SameSlices(file, files[archive].bytes, rs) && ExtractStep(files, archive, pos, rs[0], mid, next)
    ensures mid == ExtractOne(files, StoredName(rs[0]), rs[0].mask, Window(file, rs[0].offset, rs[0].filesize))
    ensures IsRegular(mid, archive) && SameSlices(file, mid[archive].bytes, rs[1..])
  {
    var r, now := rs[0], files[archive].bytes;
    assert r.offset + r.filesize <= |now| && Window(now, r.offset, r.filesize) == Window(file, r.offset, r.filesize);
    SameSlicesRest(file, now, rs);
    if Openable(files, StoredName(r)) {
      var piece :| |piece| == r.filesize && Window(now, r.offset, r.filesize) <= piece
                   && mid == ExtractOne(files, StoredName(r), r.mask, piece);
      assert |Window(now, r.offset, r.filesize)| == r.filesize;
      assert piece == Window(file, r.offset, r.filesize);
      if StoredName(r) == archive {
        assert ContentOf(files, archive) == now && Ahead(rs);
        SlicesStay(file, now, piece, rs);
        assert mid[archive].bytes == Overlay(now, piece);
      } else {
        assert mid[archive] == files[archive];
      }
    }
  }

  /** On slices that can be copied the run is the extraction of the slices. */
  lemma {:induction false} RunExact(files: Files, archive: Path, pos: nat, rs: seq<FileInfo>, file: seq<byte>,
                                    files': Files)
    requires IsRegular(files, archive) && Extractable(file, rs, archive)
    requires SameSlices(file, files[archive].bytes, rs) && ExtractRun(files, archive, pos, rs, files')
    ensures files' == ExtractAll(files, file, rs)
    decreases |rs|
  {
    if rs != [] {
      var mid, next: nat :| ExtractStep(files, archive, pos, rs[0], mid, next) && IsRegular(mid, archive)
                            && ExtractRun(mid, archive, next, rs[1..], files');
      StepExact(files, archive, pos, rs, file, mid, next);
      ExtractableRest(file, rs, archive);
      RunExact(mid, archive, next, rs[1..], file, files');
    }
  }

  /** On any archive: a path that is no selected name is not touched. */
  lemma {:induction false} RunTouchesOnlyNames(files: Files, archive: Path, pos: nat, rs: seq<FileInfo>, files': Files,
                                               p: Path)
    requires IsRegular(files, archive) && ExtractRun(files, archive, pos, rs, files')
    requires forall i :: 0 <= i < |rs| ==> StoredName(rs[i]) != p
    ensures (p in files' <==> p in files) && (p in files ==> files'[p] == files[p])
    decreases |rs|
  {
    if rs != [] {
      var mid, next: nat :| ExtractStep(files, archive, pos, rs[0], mid, next) && IsRegular(mid, archive)
                            && ExtractRun(mid, archive, next, rs[1..], files');
      assert forall i :: 0 <= i < |rs| - 1 ==> rs[1..][i] == rs[i + 1];
      assert (p in mid <==> p in files) && (p in files ==> mid[p] == files[p]);
      RunTouchesOnlyNames(mid, archive, next, rs[1..], files', p);
    }
  }

  /** Reads the header and, with names given, keeps the listed records. */
  method ReadExtracted(fd: Descriptor, fnames: seq<Path>, g: Garbage)
    returns (end: HeaderEnd, header: FiNode, ghost nodes: seq<FiNode>)
    requires fd.pos == 0
    modifies fd`pos
    ensures end == ScanHeader(fd.bytes, 0, g.probe, false, g.node).end
    ensures forall j :: 0 <= j < |nodes| ==> fresh(nodes[j])
    ensures end != Aborted ==> fd.pos == 0 && Header(header, nodes, Extracted(fd.bytes, fnames, g))
  {
    end, header, nodes := ReadList(fd, g);
    if end != Aborted && |fnames| != 0 {
      header, nodes := FilterList(header, fnames, false, nodes, ScanHeader(fd.bytes, 0, g.probe, false, g.node).infos);
    }
  }

  /** The file system the commands work on. The fields are the files by path; an open file is a descriptor
      that holds the bytes until the command puts them back. */
  class Host {
    var files: Files

    constructor (files: Files)
      ensures this.files == files
    {
      this.files := files;
    }

    /** The insert command: its effect is the one the theorems are about, and it changes no other path. */
    method InputFiles(archive: Path, fnames: seq<Path>, scratch: seq<Block>, g: Garbage, h: Garbage)
      returns (outcome: Outcome)
      requires InsertAllowed(files, archive, fnames, scratch)
      modifies this
      ensures Effect(outcome, files) == InsertEffect(old(files), archive, fnames, scratch, g, h)
      ensures InsertFrame(old(files), archive, outcome, files)
    {
      InsertKeepsOthers(files, archive, fnames, scratch, g, h);
      OpenedAgain(files, archive, fnames, scratch, g, h);
      files := Opened(files, archive);
      outcome := InputOpened(archive, fnames, scratch, g, h);
    }

    /** The insert command once both files are open. */
    method InputOpened(archive: Path, fnames: seq<Path>, scratch: seq<Block>, g: Garbage, h: Garbage)
      returns (outcome: Outcome)
      requires InsertAllowed(files, archive, fnames, scratch) && Opened(files, archive) == files
      modifies this
      ensures Effect(outcome, files) == InsertEffect(old(files), archive, fnames, scratch, g, h)
    {
      var newFd := new Descriptor(files[TEMP].bytes);
      var fd := new Descriptor(files[archive].bytes);
      var end, newHeader;
      ghost var nodes;
      end, newHeader, nodes := ReadList(fd, g);
      if end == Aborted {
        return Failed(HeaderUnreadable);
      }
      if |fnames| == 0 {
        FreeList(newHeader, nodes);
        return Failed(NoFilesGiven);
      }
      outcome := InsertInto(newHeader, fd, newFd, files, fnames, scratch, g.node, h, nodes,
                            ScanHeader(fd.bytes, 0, g.probe, false, g.node).infos);
      ErrnoAborts(fd.bytes, 0, h.probe, h.node);
      match outcome {
        case Completed =>
          files := (files - {TEMP})[archive := Regular(newFd.bytes, files[TEMP].mode)];
        case Failed(HeaderUnreadable) =>
          files := files[TEMP := files[TEMP].(bytes := newFd.bytes)];
        case Failed(_) =>
      }
    }

    /** The remove command. `copied` is what it copied from the old archive; on archives whose surviving records
        describe slices inside the file nothing about it is open. */
    method RemoveFiles(archive: Path, fnames: seq<Path>, g: Garbage, h: Garbage)
      returns (outcome: Outcome, ghost copied: seq<byte>)
      requires Accessible(files, archive)
      modifies this
      ensures outcome == RemoveEffect(old(files), archive, fnames, g, h).outcome
      ensures RemoveFrame(old(files), archive, fnames, outcome, files)
      ensures outcome != Completed ==> files == RemoveEffect(old(files), archive, fnames, g, h).files
      ensures outcome == Completed ==>
        && IsRegular(old(files), archive)
        && var file := old(files)[archive].bytes;
           Copied(file, 0, RemovedSlices(file, fnames, h), copied)
           && files == Replace(Create(old(files), TEMP), archive, RemovedHeader(file, fnames, g) + copied)
      ensures RemoveInRange(old(files), archive, fnames, h) ==>
        files == RemoveEffect(old(files), archive, fnames, g, h).files
    {
      copied := [];
      ghost var effect := RemoveEffect(files, archive, fnames, g, h);
      assert RemoveFrame(files, archive, fnames, effect.outcome, effect.files) by {
        RemoveKeepsOthers(files, archive, fnames, g, h);
      }
      if |fnames| == 0 {
        return Failed(NoFilesGiven), [];
      }
      if archive !in files {
        return Failed(OpenFailed), [];
      }
      files := Create(files, TEMP);
      var fd := new Descriptor(files[archive].bytes);
      var newFd := new Descriptor(files[TEMP].bytes);
      var ok;
      ok, copied := RemoveInto(fd, newFd, fnames, g, h);
      if !ok {
        return Failed(HeaderUnreadable), [];
      }
      if RemoveInRange(files, archive, fnames, h) {
        CopiedInRange(fd.bytes, 0, RemovedSlices(fd.bytes, fnames, h), copied);
      }
      ReplaceFrame(old(files), files, archive, RemovedHeader(fd.bytes, fnames, g) + copied);
      files := (files - {TEMP})[archive := Regular(newFd.bytes, files[TEMP].mode)];
      outcome := Completed;
    }

    /** The descriptor the archive is read through. */
    ghost predicate Reads(fd: Descriptor, archive: Path)
      reads this, fd
    {
      IsRegular(files, archive) && fd.bytes == files[archive].bytes
    }

    /** Writes one extracted file; what cannot be opened for writing is skipped. When the name is the archive's
        own, what is written shows through the descriptor that reads it. */
    method ExtractFile(archive: Path, fd: Descriptor, info: FileInfo)
      requires Reads(fd, archive)
      modifies this, fd
      ensures Reads(fd, archive)
      ensures ExtractStep(old(files), archive, old(fd.pos), info, files, fd.pos)
    {
      var name := CString(info.filename);
      if !Openable(files, name) {
        return;
      }
      ghost var piece;
      if name == archive {
        piece := CopyWithin(fd, info.filesize, info.offset);
        files := files[name := Regular(fd.bytes, info.mask % 4096)];
      } else {
        var newFd := new Descriptor(if name in files then files[name].bytes else []);
        piece := CopyFile(fd, newFd, info.filesize, info.offset);
        WriteAtStart(ContentOf(files, name), piece);
        files := files[name := Regular(newFd.bytes, info.mask % 4096)];
      }
      assert files == ExtractOne(old(files), name, info.mask, piece);
    }

    /** The extract command. On archives whose selected records describe slices inside the file, in ascending
        order should one of them have the archive's own name, nothing about the run is open. */
    method ExtractFiles(archive: Path, fnames: seq<Path>, g: Garbage) returns (outcome: Outcome)
      requires RegularOrAbsent(files, archive)
      modifies this
      ensures outcome == ExtractEffect(old(files), archive, fnames, g).outcome
      ensures outcome != Completed ==> files == old(files)
      ensures archive !in old(files) ==> outcome == Failed(OpenFailed)
      ensures outcome == Completed ==>
        && IsRegular(old(files), archive)
        && ExtractRun(old(files), archive, 0, Extracted(old(files)[archive].bytes, fnames, g), files)
      ensures (archive in old(files) ==>
        Extractable(old(files)[archive].bytes, Extracted(old(files)[archive].bytes, fnames, g), archive)) ==>
        files == ExtractEffect(old(files), archive, fnames, g).files
    {
      if archive !in files {
        return Failed(OpenFailed);
      }
      var fd := new Descriptor(files[archive].bytes);
      var end, header;
      ghost var nodes;
      end, header, nodes := ReadExtracted(fd, fnames, g);
      if end == Aborted {
        return Failed(HeaderUnreadable);
      }
      ghost var before, file := files, fd.bytes;
      ExtractList(archive, header, fd, nodes, Extracted(file, fnames, g));
      if Extractable(file, Extracted(file, fnames, g), archive) {
        RunExact(before, archive, 0, Extracted(file, fnames, g), file, files);
      }
      FreeList(header, nodes);
      return Completed;
    }

    method ExtractList(archive: Path, header: FiNode, fd: Descriptor, ghost nodes: seq<FiNode>,
                       ghost infos: seq<FileInfo>)
      requires Header(header, nodes, infos) && Reads(fd, archive)
      modifies this, fd
      ensures ExtractRun(old(files), archive, old(fd.pos), infos, files)
    {
      var i := header;
      ghost var k := 0;
      assert infos[0..] == infos;
      while !i.eof
        invariant 0 <= k < |nodes| && i == nodes[k] && Header(header, nodes, infos) && Reads(fd, archive)
        invariant Leads(old(files), old(fd.pos), infos, files, fd.pos, infos[k..], archive)
        decreases |nodes| - k
      {
        assert i.next == nodes[k + 1] && i.data == infos[k] && infos[k..][1..] == infos[k + 1..];
        ghost var mid, pos := files, fd.pos;
        ExtractFile(archive, fd, i.data);
        LeadsNext(old(files), old(fd.pos), infos, mid, pos, infos[k..], files, fd.pos, archive);
        i, k := i.next, k + 1;
      }
      assert ExtractRun(files, archive, fd.pos, infos[k..], files);
    }
  }

  /** The run came this far: whatever the rest leads to completes it. */
  ghost predicate Leads(files: Files, pos: nat, infos: seq<FileInfo>, now: Files, at: nat, rest: seq<FileInfo>,
                        archive: Path)
    requires IsRegular(files, archive) && IsRegular(now, archive)
  {
    forall final :: ExtractRun(now, archive, at, rest, final) ==> ExtractRun(files, archive, pos, infos, final)
  }

  lemma {:induction false} LeadsNext(files: Files, pos: nat, infos: seq<FileInfo>, mid: Files, at: nat,
                                     rest: seq<FileInfo>, now: Files, at': nat, archive: Path)
    requires IsRegular(files, archive) && IsRegular(mid, archive) && IsRegular(now, archive) && rest != []
    requires Leads(files, pos, infos, mid, at, rest, archive) && ExtractStep(mid, archive, at, rest[0], now, at')
    ensures Leads(files, pos, infos, now, at', rest[1..], archive)
  {
    forall final | ExtractRun(now, archive, at', rest[1..], final)
      ensures ExtractRun(files, archive, pos, infos, final)
    {
      assert ExtractRun(mid, archive, at, rest, final);
    }
  }
}
