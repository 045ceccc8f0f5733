/** The packed 280-byte `file_info` record and sequences of records. */
module FileInfos {
  import opened Bytes

  const FILENAME_LENGTH: nat := 256
  const INFO_SIZE: nat := 280
  const HEADER_ENDING_SIZE: nat := 4
  const HEADER_ENDING: seq<byte> := [0, 0, 0, 0]

  /** A byte string: a path or a file name without its terminating NUL. */
  type Path = seq<byte>

  /** The 256 bytes of the `filename` field: a NUL-terminated name and whatever follows the NUL. */
  type Block = s: seq<byte> | |s| == 256 witness seq(256, _ => 0)

  datatype FileInfo = FileInfo(filename: Block, filesize: uint64, mask: uint64, offset: uint64)

  /** A C string: the bytes before the first NUL. */
  function CString(s: seq<byte>): seq<byte> {
    if s == [] || s[0] == 0 then [] else [s[0]] + CString(s[1..])
  }

  lemma {:induction false} CStringUnique(s: seq<byte>, name: seq<byte>)
    requires |name| < |s| && s[..|name|] == name && s[|name|] == 0 && 0 !in name
    ensures CString(s) == name
  {
    if name != [] {
      assert s[0] == s[..|name|][0];
      assert s[1..][..|name| - 1] == s[..|name|][1..] == name[1..];
      CStringUnique(s[1..], name[1..]);
    }
  }

  function StoredName(r: FileInfo): Path {
    CString(r.filename)
  }

  function EncodeInfo(r: FileInfo): (s: seq<byte>)
    ensures |s| == INFO_SIZE && s[..256] == r.filename
  {
    r.filename + LittleEndian(r.filesize, 8) + LittleEndian(r.mask, 8) + LittleEndian(r.offset, 8)
  }

  function Word(s: seq<byte>): uint64
    requires |s| == 8
  {
    Pow256Of8();
    FromLittleEndian(s)
  }

  function DecodeInfo(s: seq<byte>): FileInfo
    requires |s| == INFO_SIZE
  {
    FileInfo(s[..256], Word(s[256..264]), Word(s[264..272]), Word(s[272..280]))
  }

  lemma {:induction false} DecodeEncode(r: FileInfo)
    ensures DecodeInfo(EncodeInfo(r)) == r
  {
    Pow256Of8();
    var s := EncodeInfo(r);
    assert s[256..264] == LittleEndian(r.filesize, 8);
    assert s[264..272] == LittleEndian(r.mask, 8);
    assert s[272..280] == LittleEndian(r.offset, 8);
    LittleEndianRoundTrip(r.filesize, 8);
    LittleEndianRoundTrip(r.mask, 8);
    LittleEndianRoundTrip(r.offset, 8);
  }

  lemma {:induction false} EncodeDecode(s: seq<byte>)
    requires |s| == INFO_SIZE
    ensures EncodeInfo(DecodeInfo(s)) == s
  {
    FromLittleEndianRoundTrip(s[256..264]);
    FromLittleEndianRoundTrip(s[264..272]);
    FromLittleEndianRoundTrip(s[272..280]);
    assert s == s[..256] + s[256..264] + s[264..272] + s[272..280];
  }

  function EncodeInfos(rs: seq<FileInfo>): (s: seq<byte>)
    ensures |s| == INFO_SIZE * |rs|
  {
    if rs == [] then [] else EncodeInfo(rs[0]) + EncodeInfos(rs[1..])
  }

  lemma {:induction false} EncodeInfosAppend(rs: seq<FileInfo>, r: FileInfo)
    ensures EncodeInfos(rs + [r]) == EncodeInfos(rs) + EncodeInfo(r)
  {
    if rs == [] {
      assert rs + [r] == [r];
    } else {
      calc {
        EncodeInfos(rs + [r]);
        { assert (rs + [r])[1..] == rs[1..] + [r]; }
        EncodeInfo(rs[0]) + EncodeInfos(rs[1..] + [r]);
        { EncodeInfosAppend(rs[1..], r); }
        EncodeInfo(rs[0]) + (EncodeInfos(rs[1..]) + EncodeInfo(r));
        EncodeInfo(rs[0]) + EncodeInfos(rs[1..]) + EncodeInfo(r);
      }
    }
  }

  /** First byte of the name is not NUL; the records the archiver writes are all like this. */
  predicate Named(r: FileInfo) {
    r.filename[0] != 0
  }

  /** Byte position of the raw data after a header of `n` records. */
  function DataStart(n: nat): nat {
    INFO_SIZE * n + HEADER_ENDING_SIZE
  }

  /** `rs` with fresh offsets: the first file's data starts at `off`, every other file's where its
      predecessor's ends; all in wrapping 64-bit arithmetic. */
  function WithOffsets(rs: seq<FileInfo>, off: nat): (out: seq<FileInfo>)
    ensures |out| == |rs|
  {
    if rs == [] then []
    else [rs[0].(offset := Wrap(off))] + WithOffsets(rs[1..], off + rs[0].filesize)
  }

  /** The prefix sums of the sizes, from `base` on. */
  function Sums(rs: seq<FileInfo>, base: nat): (sums: seq<nat>)
    ensures |sums| == |rs| + 1 && sums[0] == base
  {
    if rs == [] then [base] else [base] + Sums(rs[1..], base + rs[0].filesize)
  }

  /** Offset `i` is the start of the data plus the sizes of the earlier files. */
  lemma {:induction false} OffsetIsPrefixSum(rs: seq<FileInfo>, off: nat, base: nat, i: nat)
    requires i < |rs|
    ensures WithOffsets(rs, off + base)[i] == rs[i].(offset := Wrap(off + Sums(rs, base)[i]))
    ensures Sums(rs, base)[i + 1] == Sums(rs, base)[i] + rs[i].filesize
  {
    if i > 0 {
      OffsetIsPrefixSum(rs[1..], off, base + rs[0].filesize, i - 1);
    }
  }

  /** The records a filter keeps: with `drop` those whose name is not listed, otherwise those listed. */
  predicate Keeps(r: FileInfo, names: seq<Path>, drop: bool) {
    if drop then StoredName(r) !in names else StoredName(r) in names
  }

  /** Which records the filter keeps. */
  function Marks(rs: seq<FileInfo>, names: seq<Path>, drop: bool): (keep: seq<bool>)
    ensures |keep| == |rs|
  {
    if rs == [] then [] else [Keeps(rs[0], names, drop)] + Marks(rs[1..], names, drop)
  }

  lemma {:induction false} MarkAt(rs: seq<FileInfo>, names: seq<Path>, drop: bool, i: nat)
    requires i < |rs|
    ensures Marks(rs, names, drop)[i] <==> Keeps(rs[i], names, drop)
  {
    if i > 0 {
      MarkAt(rs[1..], names, drop, i - 1);
    }
  }

  /** The elements whose mark is set. */
  function Marked<T>(s: seq<T>, keep: seq<bool>): (out: seq<T>)
    requires |keep| == |s|
    ensures |out| <= |s|
  {
    if s == [] then []
    else (if keep[0] then [s[0]] else []) + Marked(s[1..], keep[1..])
  }

  function Select(rs: seq<FileInfo>, names: seq<Path>, drop: bool): seq<FileInfo> {
    Marked(rs, Marks(rs, names, drop))
  }

  lemma {:induction false} MarkedIn<T>(s: seq<T>, keep: seq<bool>, x: T)
    requires |s| == |keep|
    ensures x in Marked(s, keep) <==> exists j :: 0 <= j < |s| && keep[j] && s[j] == x
  {
    if s != [] {
      MarkedIn(s[1..], keep[1..], x);
      if j :| 0 <= j < |s| && keep[j] && s[j] == x {
        if j > 0 {
          assert keep[1..][j - 1] && s[1..][j - 1] == x;
        }
      }
    }
  }

  lemma {:induction false} MarkedPartitions<T>(s: seq<T>, keep: seq<bool>, others: seq<bool>)
    requires |s| == |keep| == |others| && forall j :: 0 <= j < |s| ==> others[j] == !keep[j]
    ensures multiset(Marked(s, keep)) + multiset(Marked(s, others)) == multiset(s)
  {
    if s != [] {
      MarkedPartitions(s[1..], keep[1..], others[1..]);
      assert s == [s[0]] + s[1..];
    }
  }

  /** A record survives the filter exactly when the filter keeps its name. */
  lemma {:induction false} SelectKeeps(rs: seq<FileInfo>, names: seq<Path>, drop: bool, r: FileInfo)
    ensures r in Select(rs, names, drop) <==> r in rs && Keeps(r, names, drop)
  {
    var keep := Marks(rs, names, drop);
    MarkedIn(rs, keep, r);
    forall j | 0 <= j < |rs|
      ensures keep[j] <==> Keeps(rs[j], names, drop)
    {
      MarkAt(rs, names, drop, j);
    }
    if r in rs && Keeps(r, names, drop) {
      var j :| 0 <= j < |rs| && rs[j] == r;
      assert keep[j];
    }
  }

  /** The two filter flags split a header into two parts with nothing lost and nothing duplicated. */
  lemma {:induction false} SelectPartitions(rs: seq<FileInfo>, names: seq<Path>)
    ensures multiset(Select(rs, names, true)) + multiset(Select(rs, names, false)) == multiset(rs)
    ensures forall r :: !(r in Select(rs, names, true) && r in Select(rs, names, false))
  {
    forall j | 0 <= j < |rs|
      ensures Marks(rs, names, true)[j] == !Marks(rs, names, false)[j]
    {
      MarkAt(rs, names, true, j);
      MarkAt(rs, names, false, j);
    }
    MarkedPartitions(rs, Marks(rs, names, true), Marks(rs, names, false));
    forall r
      ensures !(r in Select(rs, names, true) && r in Select(rs, names, false))
    {
      SelectKeeps(rs, names, true, r);
      SelectKeeps(rs, names, false, r);
    }
  }
}
