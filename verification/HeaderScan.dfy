/** Reading the header of an archive: the byte-level scan and the list it builds. */
module HeaderScan {
  import opened Bytes
  import opened FileInfos
  import opened Descriptors
  import opened HeaderList

  datatype HeaderEnd = Terminator | EndOfFile | Aborted

  datatype Scan = Scan(infos: seq<FileInfo>, end: HeaderEnd) {
    function Prepend(before: seq<FileInfo>): Scan {
      Scan(before + infos, end)
    }
  }

  /** What a read leaves in a buffer that held `stale`. */
  function Filled(stale: seq<byte>, chunk: seq<byte>): (s: seq<byte>)
    requires |chunk| <= |stale|
    ensures |s| == |stale|
  {
    chunk + stale[|chunk|..]
  }

  /** Where the seek back after a probe of `got` bytes at `pos` lands: it fails, and leaves the cursor, when
      fewer than four bytes precede it. */
  function AfterSeekBack(pos: nat, got: nat): nat {
    if HEADER_ENDING_SIZE <= pos + got then pos + got - HEADER_ENDING_SIZE else pos + got
  }

  /** The record a round that begins at `pos` reads into memory that held `memory`. */
  function InfoAt(file: seq<byte>, pos: nat, memory: FileInfo): FileInfo {
    DecodeInfo(Filled(EncodeInfo(memory), Window(file, RecordStart(file, pos), INFO_SIZE)))
  }

  function RecordStart(file: seq<byte>, pos: nat): nat {
    AfterSeekBack(pos, |Window(file, pos, HEADER_ENDING_SIZE)|)
  }

  /** Where that round leaves the cursor. */
  function NextPos(file: seq<byte>, pos: nat): (next: nat)
    ensures pos < |file| ==> pos < next <= |file|
  {
    RecordStart(file, pos) + |Window(file, RecordStart(file, pos), INFO_SIZE)|
  }

  predicate SeekFails(file: seq<byte>, pos: nat) {
    pos + |Window(file, pos, HEADER_ENDING_SIZE)| < HEADER_ENDING_SIZE
  }

  /** The scan from position `pos` on. `probe` is what the four-byte probe buffer holds, `errno` tells whether
      an error number is set, `memory` is what `malloc` leaves in a new node. Each round probes four bytes,
      stops at four zeros, seeks back and reads one record, whole or not. */
  function ScanHeader(file: seq<byte>, pos: nat, probe: seq<byte>, errno: bool, memory: FileInfo): Scan
    requires pos <= |file| && |probe| == HEADER_ENDING_SIZE
    decreases |file| - pos
  {
    var got := Window(file, pos, HEADER_ENDING_SIZE);
    if got == [] then Scan([], if errno then Aborted else EndOfFile)
    else if Filled(probe, got) == HEADER_ENDING then Scan([], Terminator)
    else
      ScanHeader(file, NextPos(file, pos), Filled(probe, got), errno || SeekFails(file, pos), memory)
        .Prepend([InfoAt(file, pos, memory)])
  }

  /** Where a round reads its record. A probe that reaches the end of the file is short, and the seek back then lands
      on bytes that were consumed before, or fails in a file of less than four bytes. */
  lemma {:induction false} RecordStartExact(file: seq<byte>, pos: nat)
    requires pos < |file|
    ensures RecordStart(file, pos) == if pos + 4 <= |file| then pos else if |file| >= 4 then |file| - 4 else |file|
    ensures SeekFails(file, pos) <==> |file| < 4
  {
  }

  /** What it reads: the bytes of the file from there on, and behind the end of the file what memory held. */
  lemma {:induction false} InfoAtBytes(file: seq<byte>, pos: nat, memory: FileInfo, i: nat)
    requires i < 280
    ensures var start := RecordStart(file, pos);
      EncodeInfo(InfoAt(file, pos, memory))[i] == if start + i < |file| then file[start + i] else EncodeInfo(memory)[i]
  {
    var chunk := Window(file, RecordStart(file, pos), INFO_SIZE);
    EncodeDecode(Filled(EncodeInfo(memory), chunk));
  }

  /** One node for every whole record, and at most one more. */
  lemma {:induction false} NodeBound(file: seq<byte>, pos: nat, probe: seq<byte>, errno: bool, memory: FileInfo)
    requires pos <= |file| && |probe| == HEADER_ENDING_SIZE
    ensures |ScanHeader(file, pos, probe, errno, memory).infos| <= (|file| - pos) / INFO_SIZE + 1
    decreases |file| - pos
  {
    var got := Window(file, pos, HEADER_ENDING_SIZE);
    if got != [] && Filled(probe, got) != HEADER_ENDING {
      NodeBound(file, NextPos(file, pos), Filled(probe, got), errno || SeekFails(file, pos), memory);
      if NextPos(file, pos) < |file| {
        assert NextPos(file, pos) == pos + INFO_SIZE;
      }
    }
  }

  /** An error number that is already set changes nothing but this: where the scan would stop at the end of
      the file, it aborts. */
  lemma {:induction false} ErrnoAborts(file: seq<byte>, pos: nat, probe: seq<byte>, memory: FileInfo)
    requires pos <= |file| && |probe| == HEADER_ENDING_SIZE
    ensures var clean := ScanHeader(file, pos, probe, false, memory);
      ScanHeader(file, pos, probe, true, memory) == clean.(end := if clean.end == EndOfFile then Aborted else clean.end)
    decreases |file| - pos
  {
    var got := Window(file, pos, HEADER_ENDING_SIZE);
    if got != [] && Filled(probe, got) != HEADER_ENDING {
      ErrnoAborts(file, NextPos(file, pos), Filled(probe, got), memory);
    }
  }

  ghost predicate AllNamed(rs: seq<FileInfo>) {
    forall i :: 0 <= i < |rs| ==> Named(rs[i])
  }

  /** A whole named record at `pos` is read as it was written and is not taken for the terminator. */
  lemma {:induction false} ScanStep(file: seq<byte>, pos: nat, r: FileInfo, probe: seq<byte>, errno: bool,
                                    memory: FileInfo)
    returns (probe': seq<byte>)
    requires |probe| == HEADER_ENDING_SIZE && Named(r)
    requires pos + INFO_SIZE <= |file| && file[pos..pos + INFO_SIZE] == EncodeInfo(r)
    ensures |probe'| == HEADER_ENDING_SIZE
    ensures ScanHeader(file, pos, probe, errno, memory)
         == ScanHeader(file, pos + INFO_SIZE, probe', errno, memory).Prepend([r])
  {
    var got := Window(file, pos, HEADER_ENDING_SIZE);
    assert got == file[pos..pos + INFO_SIZE][..4];
    assert got[0] == EncodeInfo(r)[..256][0] == r.filename[0];
    probe' := Filled(probe, got);
    assert probe'[0] != 0 == HEADER_ENDING[0];
    assert Filled(EncodeInfo(memory), Window(file, pos, INFO_SIZE)) == EncodeInfo(r);
    DecodeEncode(r);
  }

  lemma {:induction false} ScanEnds(file: seq<byte>, pos: nat, probe: seq<byte>, errno: bool, memory: FileInfo)
    requires |probe| == HEADER_ENDING_SIZE
    requires pos + HEADER_ENDING_SIZE <= |file| && file[pos..pos + HEADER_ENDING_SIZE] == HEADER_ENDING
    ensures ScanHeader(file, pos, probe, errno, memory) == Scan([], Terminator)
  {
    assert Filled(probe, HEADER_ENDING) == HEADER_ENDING;
  }

  lemma {:induction false} SplitSlice(file: seq<byte>, pos: nat, mid: nat, end: nat, a: seq<byte>, b: seq<byte>,
                                      c: seq<byte>)
    requires mid == pos + |a| && end == mid + |b| + |c| && end <= |file|
    requires file[pos..end] == a + b + c
    ensures file[pos..mid] == a && file[mid..end] == b + c
  {
    var written := file[pos..end];
    assert file[pos..mid] == written[..|a|];
    assert file[mid..end] == written[|a|..];
  }

  lemma {:induction false} ScanFrom(file: seq<byte>, pos: nat, rs: seq<FileInfo>, probe: seq<byte>, errno: bool,
                                    memory: FileInfo)
    requires |probe| == HEADER_ENDING_SIZE && AllNamed(rs)
    requires pos + DataStart(|rs|) <= |file| && file[pos..pos + DataStart(|rs|)] == EncodeInfos(rs) + HEADER_ENDING
    ensures ScanHeader(file, pos, probe, errno, memory) == Scan(rs, Terminator)
    decreases |rs|
  {
    if rs == [] {
      ScanEnds(file, pos, probe, errno, memory);
    } else {
      var next, end := pos + INFO_SIZE, pos + DataStart(|rs|);
      assert file[pos..next] == EncodeInfo(rs[0]) && file[next..end] == EncodeInfos(rs[1..]) + HEADER_ENDING by {
        assert EncodeInfos(rs) == EncodeInfo(rs[0]) + EncodeInfos(rs[1..]);
        SplitSlice(file, pos, next, end, EncodeInfo(rs[0]), EncodeInfos(rs[1..]), HEADER_ENDING);
      }
      var probe' := ScanStep(file, pos, rs[0], probe, errno, memory);
      ScanFrom(file, pos + INFO_SIZE, rs[1..], probe', errno, memory);
    }
  }

  /** Header codec round trip: scanning written records, the terminator and any tail gives the records back,
      whatever the tail, the probe buffer, `errno` and memory held. */
  lemma {:induction false} ScanWritten(rs: seq<FileInfo>, tail: seq<byte>, probe: seq<byte>, errno: bool,
                                       memory: FileInfo)
    requires |probe| == HEADER_ENDING_SIZE && AllNamed(rs)
    ensures ScanHeader(EncodeInfos(rs) + HEADER_ENDING + tail, 0, probe, errno, memory) == Scan(rs, Terminator)
  {
    var file := EncodeInfos(rs) + HEADER_ENDING + tail;
    assert file[0..DataStart(|rs|)] == EncodeInfos(rs) + HEADER_ENDING;
    ScanFrom(file, 0, rs, probe, errno, memory);
  }

  /** The converse: when a scan of a file long enough for its records and a terminator ends at the
      terminator, the file starts with exactly those records, written, and the terminator. */
  lemma {:induction false} ScanIsExact(file: seq<byte>, pos: nat, probe: seq<byte>, errno: bool, memory: FileInfo)
    requires pos <= |file| && |probe| == HEADER_ENDING_SIZE
    requires var scan := ScanHeader(file, pos, probe, errno, memory);
      scan.end == Terminator && pos + DataStart(|scan.infos|) <= |file|
    ensures var infos := ScanHeader(file, pos, probe, errno, memory).infos;
      file[pos..pos + DataStart(|infos|)] == EncodeInfos(infos) + HEADER_ENDING
    decreases |file| - pos
  {
    var scan := ScanHeader(file, pos, probe, errno, memory);
    var got := Window(file, pos, HEADER_ENDING_SIZE);
    assert Filled(probe, got) == got;
    if got == HEADER_ENDING {
      assert EncodeInfos([]) + HEADER_ENDING == HEADER_ENDING;
    } else {
      var rest := ScanHeader(file, pos + INFO_SIZE, got, errno, memory);
      var chunk := file[pos..pos + INFO_SIZE];
      assert Filled(EncodeInfo(memory), chunk) == chunk;
      assert scan == rest.Prepend([DecodeInfo(chunk)]);
      ScanIsExact(file, pos + INFO_SIZE, got, errno, memory);
      FirstRecord(file, pos, rest.infos);
    }
  }

  lemma {:induction false} FirstRecord(file: seq<byte>, pos: nat, rest: seq<FileInfo>)
    requires pos + INFO_SIZE + DataStart(|rest|) <= |file|
    requires file[pos + INFO_SIZE..pos + INFO_SIZE + DataStart(|rest|)] == EncodeInfos(rest) + HEADER_ENDING
    ensures var infos := [DecodeInfo(file[pos..pos + INFO_SIZE])] + rest;
      file[pos..pos + DataStart(|infos|)] == EncodeInfos(infos) + HEADER_ENDING
  {
    var chunk := file[pos..pos + INFO_SIZE];
    var infos := [DecodeInfo(chunk)] + rest;
    assert EncodeInfos(infos) == chunk + EncodeInfos(rest) by {
      EncodeDecode(chunk);
      assert infos[1..] == rest;
    }
    assert file[pos..pos + DataStart(|infos|)] == chunk + file[pos + INFO_SIZE..pos + INFO_SIZE + DataStart(|rest|)];
  }

  lemma {:induction false} PrependTwice(rest: Scan, info: FileInfo, before: seq<FileInfo>)
    ensures rest.Prepend([info]).Prepend(before) == rest.Prepend(before + [info])
  {
    assert before + ([info] + rest.infos) == before + [info] + rest.infos;
  }

  /** One round of the scan that finds a record. */
  lemma {:induction false} ScanRound(file: seq<byte>, pos: nat, probe: seq<byte>, errno: bool, memory: FileInfo,
                                     before: seq<FileInfo>)
    requires pos < |file| && |probe| == HEADER_ENDING_SIZE
    requires Filled(probe, Window(file, pos, HEADER_ENDING_SIZE)) != HEADER_ENDING
    ensures var probe' := Filled(probe, Window(file, pos, HEADER_ENDING_SIZE));
      ScanHeader(file, pos, probe, errno, memory).Prepend(before)
        == ScanHeader(file, NextPos(file, pos), probe', errno || SeekFails(file, pos), memory)
             .Prepend(before + [InfoAt(file, pos, memory)])
  {
    var got := Window(file, pos, HEADER_ENDING_SIZE);
    var rest := ScanHeader(file, NextPos(file, pos), Filled(probe, got), errno || SeekFails(file, pos), memory);
    PrependTwice(rest, InfoAt(file, pos, memory), before);
  }

  /** Seeks back over the probe made at `pos` and reads one record into a new node at the end of the list. */
  method ReadInfo(header: FiNode, fd: Descriptor, memory: FileInfo, ghost pos: nat, ghost nodes: seq<FiNode>,
                  ghost infos: seq<FileInfo>)
    returns (ok: bool, ghost nodes': seq<FiNode>)
    requires Header(header, nodes, infos) && nodes[|infos|].data == memory
    requires fd.pos == pos + |Window(fd.bytes, pos, HEADER_ENDING_SIZE)|
    modifies {nodes[|infos|]}, fd`pos
    ensures ok == !SeekFails(fd.bytes, pos) && fd.pos == NextPos(fd.bytes, pos)
    ensures Header(header, nodes', infos + [InfoAt(fd.bytes, pos, memory)])
    ensures |nodes'| == |nodes| + 1 && nodes' == nodes + [nodes'[|nodes|]]
    ensures fresh(nodes'[|nodes|]) && nodes'[|nodes|].data == memory
  {
    ok := SeekOver(fd, pos);
    var info: FiNode;
    info, nodes' := MakeNewNode(header, memory, nodes, infos);
    var data := ReadOver(info.data, fd, pos);
    FillNode(info, data, header, nodes', infos);
  }

  /** Seeks back over the probe made at `pos`. */
  method SeekOver(fd: Descriptor, ghost pos: nat) returns (ok: bool)
    requires fd.pos == pos + |Window(fd.bytes, pos, HEADER_ENDING_SIZE)|
    modifies fd`pos
    ensures ok == !SeekFails(fd.bytes, pos) && fd.pos == RecordStart(fd.bytes, pos)
  {
    ok := fd.SeekBack(HEADER_ENDING_SIZE);
  }

  /** Reads a record over the memory of a node; a short read leaves the rest of it. */
  method ReadOver(memory: FileInfo, fd: Descriptor, ghost pos: nat) returns (info: FileInfo)
    requires fd.pos == RecordStart(fd.bytes, pos)
    modifies fd`pos
    ensures info == InfoAt(fd.bytes, pos, memory) && fd.pos == NextPos(fd.bytes, pos)
  {
    var chunk := fd.Read(INFO_SIZE);
    info := DecodeInfo(Filled(EncodeInfo(memory), chunk));
  }

  /** What a round does after a probe that is not the terminator; the rest of the scan remains to be done. */
  method ReadRound(header: FiNode, fd: Descriptor, memory: FileInfo, errno: bool, ghost pos: nat,
                   ghost probe: seq<byte>, ghost nodes: seq<FiNode>, ghost infos: seq<FileInfo>)
    returns (errno': bool, ghost nodes': seq<FiNode>, ghost infos': seq<FileInfo>)
    requires Header(header, nodes, infos) && nodes[|infos|].data == memory
    requires pos < |fd.bytes| && |probe| == HEADER_ENDING_SIZE
    requires fd.pos == pos + |Window(fd.bytes, pos, HEADER_ENDING_SIZE)|
    requires Filled(probe, Window(fd.bytes, pos, HEADER_ENDING_SIZE)) != HEADER_ENDING
    modifies {nodes[|infos|]}, fd`pos
    ensures pos < fd.pos <= |fd.bytes|
    ensures var probe' := Filled(probe, Window(fd.bytes, pos, HEADER_ENDING_SIZE));
      ScanHeader(fd.bytes, pos, probe, errno, memory).Prepend(infos)
        == ScanHeader(fd.bytes, fd.pos, probe', errno', memory).Prepend(infos')
    ensures Header(header, nodes', infos') && nodes'[|infos'|].data == memory
    ensures |nodes'| == |nodes| + 1 && nodes' == nodes + [nodes'[|nodes|]] && fresh(nodes'[|nodes|])
  {
    ScanRound(fd.bytes, pos, probe, errno, memory, infos);
    var ok;
    ok, nodes' := ReadInfo(header, fd, memory, pos, nodes, infos);
    errno', infos' := errno || !ok, infos + [InfoAt(fd.bytes, pos, memory)];
  }

  /** The scan loop; it leaves the cursor where the scan ends. */
  method BuildHeader(header: FiNode, fd: Descriptor, memory: FileInfo, probe: seq<byte>, errno: bool)
    returns (end: HeaderEnd, ghost nodes: seq<FiNode>, ghost infos: seq<FileInfo>)
    requires Header(header, [header], []) && header.data == memory
    requires fd.pos == 0 && |probe| == HEADER_ENDING_SIZE
    modifies header, fd`pos
    ensures Scan(infos, end) == ScanHeader(fd.bytes, 0, probe, errno, memory)
    ensures Grown(header, nodes) && Header(header, nodes, infos) && nodes[|infos|].data == memory
  {
    nodes, infos := [header], [];
    var buf, err := probe, errno;
    ghost var whole := ScanHeader(fd.bytes, 0, probe, errno, memory);
    assert whole == whole.Prepend([]);
    while true
      invariant Header(header, nodes, infos) && nodes[|infos|].data == memory
      invariant Grown(header, nodes)
      invariant |buf| == HEADER_ENDING_SIZE && fd.pos <= |fd.bytes|
      invariant whole == ScanHeader(fd.bytes, fd.pos, buf, err, memory).Prepend(infos)
      decreases |fd.bytes| - fd.pos
    {
      ghost var pos := fd.pos;
      var got := fd.Read(HEADER_ENDING_SIZE);
      if got == [] {
        end := if err then Aborted else EndOfFile;
        break;
      }
      if Filled(buf, got) == HEADER_ENDING {
        end := Terminator;
        break;
      }
      err, nodes, infos := ReadRound(header, fd, memory, err, pos, buf, nodes, infos);
      buf := Filled(buf, got);
    }
  }

  /** Builds the header list. An abort frees the list; otherwise the cursor is rewound. */
  method ReadHeader(header: FiNode, fd: Descriptor, memory: FileInfo, probe: seq<byte>, errno: bool)
    returns (end: HeaderEnd, ghost nodes: seq<FiNode>)
    requires Header(header, [header], []) && header.data == memory
    requires fd.pos == 0 && |probe| == HEADER_ENDING_SIZE
    modifies header, fd`pos
    ensures end == ScanHeader(fd.bytes, 0, probe, errno, memory).end
    ensures Grown(header, nodes)
    ensures end == Aborted ==> forall n :: n in nodes ==> !n.live
    ensures end != Aborted ==>
      && Header(header, nodes, ScanHeader(fd.bytes, 0, probe, errno, memory).infos)
      && (|nodes| == 1 ==> header.data == memory)
      && fd.pos == 0
  {
    ghost var infos;
    end, nodes, infos := BuildHeader(header, fd, memory, probe, errno);
    if end == Aborted {
      FreeList(header, nodes);
      return;
    }
    var _ := fd.SeekTo(0);
  }
}
