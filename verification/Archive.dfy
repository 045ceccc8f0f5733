/** The abstract archive, a sequence of entries, and the bytes that represent it. */
module Archive {
  import opened Bytes
  import opened FileInfos
  import opened Descriptors
  import opened HeaderScan

  /** A stored file: the 256 name bytes as they are kept, the permission mask and the contents. */
  datatype Entry = Entry(filename: Block, mask: uint64, content: seq<byte>)

  function EntryName(e: Entry): Path {
    CString(e.filename)
  }

  function InfoOf(e: Entry): FileInfo {
    FileInfo(e.filename, Wrap(|e.content|), e.mask, 0)
  }

  function Infos(es: seq<Entry>): (rs: seq<FileInfo>)
    ensures |rs| == |es|
  {
    if es == [] then [] else [InfoOf(es[0])] + Infos(es[1..])
  }

  function Contents(es: seq<Entry>): seq<byte> {
    if es == [] then [] else es[0].content + Contents(es[1..])
  }

  /** The header records of an archive holding `es`. */
  function HeaderOf(es: seq<Entry>): (rs: seq<FileInfo>)
    ensures |rs| == |es|
  {
    WithOffsets(Infos(es), DataStart(|es|))
  }

  /** The records, four zero bytes and any data. */
  function Headed(es: seq<Entry>, data: seq<byte>): seq<byte> {
    EncodeInfos(HeaderOf(es)) + HEADER_ENDING + data
  }

  /** The bytes of an archive: the records, four zero bytes, the contents back to back. */
  function Layout(es: seq<Entry>): seq<byte> {
    Headed(es, Contents(es))
  }

  /** Names are not empty, and the file is not larger than a signed 64-bit offset can address. */
  ghost predicate Storable(es: seq<Entry>) {
    && (forall i :: 0 <= i < |es| ==> es[i].filename[0] != 0)
    && DataStart(|es|) + |Contents(es)| < TWO63
  }

  lemma {:induction false} InfosAppend(xs: seq<Entry>, ys: seq<Entry>)
    ensures Infos(xs + ys) == Infos(xs) + Infos(ys)
  {
    if xs == [] {
      assert xs + ys == ys;
    } else {
      calc {
        Infos(xs + ys);
        { assert (xs + ys)[1..] == xs[1..] + ys; }
        [InfoOf(xs[0])] + Infos(xs[1..] + ys);
        { InfosAppend(xs[1..], ys); }
        [InfoOf(xs[0])] + (Infos(xs[1..]) + Infos(ys));
        [InfoOf(xs[0])] + Infos(xs[1..]) + Infos(ys);
      }
    }
  }

  lemma {:induction false} ContentsAppend(xs: seq<Entry>, ys: seq<Entry>)
    ensures Contents(xs + ys) == Contents(xs) + Contents(ys)
  {
    if xs == [] {
      assert xs + ys == ys;
    } else {
      calc {
        Contents(xs + ys);
        { assert (xs + ys)[1..] == xs[1..] + ys; }
        xs[0].content + Contents(xs[1..] + ys);
        { ContentsAppend(xs[1..], ys); }
        xs[0].content + (Contents(xs[1..]) + Contents(ys));
        xs[0].content + Contents(xs[1..]) + Contents(ys);
      }
    }
  }

  lemma {:induction false} InfosAt(es: seq<Entry>, i: nat)
    requires i < |es|
    ensures Infos(es)[i] == InfoOf(es[i])
  {
    if i > 0 {
      InfosAt(es[1..], i - 1);
    }
  }

  /** Records that differ at most in their offsets. */
  ghost predicate SameButOffset(rs: seq<FileInfo>, ss: seq<FileInfo>) {
    |rs| == |ss| && forall i :: 0 <= i < |rs| ==> rs[i] == ss[i].(offset := rs[i].offset)
  }

  /** Fresh offsets do not depend on the offsets the records had. */
  lemma {:induction false} FreshOffsets(rs: seq<FileInfo>, ss: seq<FileInfo>, off: nat)
    requires SameButOffset(rs, ss)
    ensures WithOffsets(rs, off) == WithOffsets(ss, off)
  {
    if rs != [] {
      FreshOffsets(rs[1..], ss[1..], off + rs[0].filesize);
    }
  }

  lemma {:induction false} OffsetsChangeNothingElse(rs: seq<FileInfo>, off: nat)
    ensures SameButOffset(WithOffsets(rs, off), rs)
  {
    if rs != [] {
      OffsetsChangeNothingElse(rs[1..], off + rs[0].filesize);
    }
  }

  lemma {:induction false} ContentFits(es: seq<Entry>, i: nat)
    requires i < |es|
    ensures |es[i].content| <= |Contents(es)|
  {
    if i > 0 {
      ContentFits(es[1..], i - 1);
    }
  }

  lemma {:induction false} SumsAreLengths(es: seq<Entry>, base: nat, i: nat)
    requires i <= |es| && |Contents(es)| < TWO63
    ensures Sums(Infos(es), base)[i] == base + |Contents(es[..i])|
  {
    if i > 0 {
      SumsAreLengths(es[1..], base + |es[0].content|, i - 1);
      assert es[..i][1..] == es[1..][..i - 1];
    }
  }

  lemma {:induction false} ContentsSplit(es: seq<Entry>, i: nat)
    requires i < |es|
    ensures Contents(es) == Contents(es[..i]) + es[i].content + Contents(es[i + 1..])
  {
    assert es == es[..i] + es[i..];
    ContentsAppend(es[..i], es[i..]);
    assert es[i..][1..] == es[i + 1..];
  }

  lemma {:induction false} HeaderAt(es: seq<Entry>, i: nat)
    requires Storable(es) && i < |es|
    ensures |es[i].content| < TWO63
      && HeaderOf(es)[i] == FileInfo(es[i].filename, |es[i].content|, es[i].mask,
                                     Wrap(DataStart(|es|) + |Contents(es[..i])|))
  {
    ContentFits(es, i);
    assert HeaderOf(es)[i] == InfoOf(es[i]).(offset := Wrap(DataStart(|es|) + |Contents(es[..i])|)) by {
      OffsetIsPrefixSum(Infos(es), DataStart(|es|), 0, i);
      SumsAreLengths(es, 0, i);
      InfosAt(es, i);
    }
  }

  /** In a stored archive, offset `i` is `280 n + 4` plus the sizes of the earlier files, the size is the
      size of the contents, and the slice they describe is exactly the contents of entry `i`. */
  lemma {:induction false} LayoutSlice(es: seq<Entry>, i: nat)
    requires Storable(es) && i < |es|
    ensures var off := DataStart(|es|) + |Contents(es[..i])|;
      && off + |es[i].content| <= |Layout(es)| < TWO63
      && HeaderOf(es)[i] == FileInfo(es[i].filename, |es[i].content|, es[i].mask, off)
      && Window(Layout(es), off, |es[i].content|) == es[i].content
  {
    HeaderAt(es, i);
    ContentsSplit(es, i);
    var header := EncodeInfos(HeaderOf(es)) + HEADER_ENDING;
    SliceOfConcat(header, Contents(es[..i]), es[i].content, Contents(es[i + 1..]));
  }

  lemma {:induction false} SliceOfConcat(a: seq<byte>, b: seq<byte>, c: seq<byte>, d: seq<byte>)
    ensures Window(a + (b + c + d), |a| + |b|, |c|) == c
  {
    var file := a + (b + c + d);
    if c != [] {
      assert file[|a| + |b|..|a| + |b| + |c|] == c;
    }
  }

  /** The data region begins where the first record says. */
  lemma {:induction false} LayoutData(es: seq<Entry>)
    ensures |Layout(es)| == DataStart(|es|) + |Contents(es)|
    ensures Layout(es)[DataStart(|es|)..] == Contents(es)
  {
  }

  lemma {:induction false} HeaderNamed(es: seq<Entry>)
    requires Storable(es)
    ensures AllNamed(HeaderOf(es))
  {
    forall i | 0 <= i < |es|
      ensures Named(HeaderOf(es)[i])
    {
      LayoutSlice(es, i);
    }
  }

  /** Scanning finds the header, whatever data follow it. */
  lemma {:induction false} ScanHeaded(es: seq<Entry>, data: seq<byte>, probe: seq<byte>, errno: bool, memory: FileInfo)
    requires Storable(es) && |probe| == HEADER_ENDING_SIZE
    ensures ScanHeader(Headed(es, data), 0, probe, errno, memory) == Scan(HeaderOf(es), Terminator)
  {
    HeaderNamed(es);
    ScanWritten(HeaderOf(es), data, probe, errno, memory);
  }

  /** Scanning a stored archive finds its header. */
  lemma {:induction false} ScanLayout(es: seq<Entry>, probe: seq<byte>, errno: bool, memory: FileInfo)
    requires Storable(es) && |probe| == HEADER_ENDING_SIZE
    ensures ScanHeader(Layout(es), 0, probe, errno, memory) == Scan(HeaderOf(es), Terminator)
  {
    ScanHeaded(es, Contents(es), probe, errno, memory);
  }

  /** The entry a record describes in a file. */
  function EntryAt(file: seq<byte>, r: FileInfo): Entry {
    Entry(r.filename, r.mask, Window(file, r.offset, r.filesize))
  }

  lemma {:induction false} EntryStored(es: seq<Entry>, i: nat)
    requires Storable(es) && i < |es|
    ensures EntryAt(Layout(es), HeaderOf(es)[i]) == es[i]
  {
    LayoutSlice(es, i);
  }

  /** An archive determines its entries: equal bytes, equal entries. */
  lemma {:induction false} LayoutInjective(xs: seq<Entry>, ys: seq<Entry>)
    requires Storable(xs) && Storable(ys) && Layout(xs) == Layout(ys)
    ensures xs == ys
  {
    var memory := FileInfo(seq(256, _ => 0), 0, 0, 0);
    ScanLayout(xs, HEADER_ENDING, false, memory);
    ScanLayout(ys, HEADER_ENDING, false, memory);
    forall i | 0 <= i < |xs|
      ensures xs[i] == ys[i]
    {
      EntryStored(xs, i);
      EntryStored(ys, i);
    }
  }

  /** The slices a list of records describes, one after the other. */
  function Slices(file: seq<byte>, rs: seq<FileInfo>): seq<byte> {
    if rs == [] then [] else Window(file, rs[0].offset, rs[0].filesize) + Slices(file, rs[1..])
  }

  lemma {:induction false} SlicesOfPrefix(file: seq<byte>, file': seq<byte>, prefix: seq<byte>, rs: seq<FileInfo>)
    requires prefix <= file && prefix <= file'
    requires forall i :: 0 <= i < |rs| ==> rs[i].offset + rs[i].filesize <= |prefix|
    ensures Slices(file, rs) == Slices(file', rs)
  {
    if rs != [] {
      SameWindow(file, prefix, rs[0].offset, rs[0].filesize);
      SameWindow(file', prefix, rs[0].offset, rs[0].filesize);
      SlicesOfPrefix(file, file', prefix, rs[1..]);
    }
  }

  lemma {:induction false} SameWindow(file: seq<byte>, prefix: seq<byte>, pos: nat, n: nat)
    requires prefix <= file && pos + n <= |prefix|
    ensures Window(file, pos, n) == Window(prefix, pos, n)
  {
    assert file[..|prefix|] == prefix;
    assert n > 0 ==> file[pos..pos + n] == prefix[pos..pos + n];
  }

  lemma {:induction false} HeadedPrefix(es: seq<Entry>, x: seq<byte>, y: seq<byte>)
    ensures Headed(es, x) <= Headed(es, x + y)
  {
    assert Headed(es, x + y) == Headed(es, x) + y;
  }

  /** Every slice lies inside the file, so that `copy_file` reads full blocks. */
  predicate InRange(file: seq<byte>, rs: seq<FileInfo>) {
    |file| < TWO63 && forall i :: 0 <= i < |rs| ==> rs[i].offset + rs[i].filesize <= |file|
  }

  /** `w` is what copying the slices of the records one after the other can write, from a descriptor whose cursor
      is at `pos`: every piece has the size of its record and begins with what the file has there; what a piece has
      beyond the end of the file can be anything. */
  ghost predicate Copied(file: seq<byte>, pos: nat, rs: seq<FileInfo>, w: seq<byte>)
    decreases |rs|
  {
    if rs == [] then w == []
    else
      var start, n := CopyStart(rs[0].offset, pos), rs[0].filesize;
      && n <= |w| && Window(file, start, n) <= w
      && Copied(file, start + |Window(file, start, n)|, rs[1..], w[n..])
  }

  /** One piece in front. */
  lemma {:induction false} CopiedCons(file: seq<byte>, pos: nat, rs: seq<FileInfo>, piece: seq<byte>, w: seq<byte>)
    requires rs != [] && |piece| == rs[0].filesize
    requires var start := CopyStart(rs[0].offset, pos);
      && Window(file, start, |piece|) <= piece
      && Copied(file, start + |Window(file, start, |piece|)|, rs[1..], w)
    ensures Copied(file, pos, rs, piece + w)
  {
    var all := piece + w;
    assert all[|piece|..] == w && all[..|piece|] == piece;
    assert Window(file, CopyStart(rs[0].offset, pos), |piece|) <= all;
  }

  /** When every slice lies inside the file, nothing is left open. */
  lemma {:induction false} CopiedInRange(file: seq<byte>, pos: nat, rs: seq<FileInfo>, w: seq<byte>)
    requires InRange(file, rs) && Copied(file, pos, rs, w)
    ensures w == Slices(file, rs)
    decreases |rs|
  {
    if rs != [] {
      var n := rs[0].filesize;
      assert InRange(file, rs[1..]) && rs[0].offset + n <= |file| by {
        assert forall i :: 0 <= i < |rs| - 1 ==> rs[1..][i] == rs[i + 1];
      }
      PieceInside(file, rs[0].offset, n, w);
      CopiedInRange(file, rs[0].offset + n, rs[1..], w[n..]);
    }
  }

  lemma {:induction false} PieceInside(file: seq<byte>, start: nat, n: nat, w: seq<byte>)
    requires start + n <= |file| && n <= |w| && Window(file, start, n) <= w
    ensures |Window(file, start, n)| == n && w == Window(file, start, n) + w[n..]
  {
    assert w == w[..n] + w[n..];
  }

  /** Every slice lies behind what its predecessors would cover if they were written to the start of the file. */
  ghost predicate Ahead(rs: seq<FileInfo>) {
    forall i, j :: 0 <= i < j < |rs| ==> rs[i].filesize <= rs[j].offset
  }

  lemma {:induction false} HeaderAhead(es: seq<Entry>)
    requires Storable(es)
    ensures Ahead(HeaderOf(es))
  {
    forall i, j | 0 <= i < j < |es|
      ensures HeaderOf(es)[i].filesize <= HeaderOf(es)[j].offset
    {
      LayoutSlice(es, i);
      LayoutSlice(es, j);
      assert es[..j][i] == es[i];
      ContentFits(es[..j], i);
    }
  }

  lemma {:induction false} MarkedAhead(rs: seq<FileInfo>, keep: seq<bool>)
    requires Ahead(rs) && |keep| == |rs|
    ensures Ahead(Marked(rs, keep))
  {
    if rs != [] {
      assert Ahead(rs[1..]) by {
        assert forall i :: 0 <= i < |rs| - 1 ==> rs[1..][i] == rs[i + 1];
      }
      MarkedAhead(rs[1..], keep[1..]);
      var tail := Marked(rs[1..], keep[1..]);
      forall j | 0 <= j < |tail|
        ensures rs[0].filesize <= tail[j].offset
      {
        MarkedIn(rs[1..], keep[1..], tail[j]);
        var k :| 0 <= k < |rs[1..]| && rs[1..][k] == tail[j];
        assert rs[1..][k] == rs[k + 1];
      }
      AheadCons(rs[0], tail);
      assert Marked(rs, keep) == if keep[0] then [rs[0]] + tail else tail;
    }
  }

  lemma {:induction false} AheadCons(r: FileInfo, tail: seq<FileInfo>)
    requires Ahead(tail) && forall j :: 0 <= j < |tail| ==> r.filesize <= tail[j].offset
    ensures Ahead([r] + tail)
  {
    assert forall i :: 0 < i < |[r] + tail| ==> ([r] + tail)[i] == tail[i - 1];
  }

  ghost predicate Describes(file: seq<byte>, rs: seq<FileInfo>, es: seq<Entry>) {
    |rs| == |es| && forall i :: 0 <= i < |rs| ==> EntryAt(file, rs[i]) == es[i]
  }

  lemma {:induction false} SlicesOfMarked(file: seq<byte>, rs: seq<FileInfo>, es: seq<Entry>, keep: seq<bool>)
    requires Describes(file, rs, es) && |keep| == |rs|
    ensures Slices(file, Marked(rs, keep)) == Contents(Marked(es, keep))
  {
    if rs != [] {
      SlicesOfMarked(file, rs[1..], es[1..], keep[1..]);
      if keep[0] {
        assert Marked(rs, keep)[1..] == Marked(rs[1..], keep[1..]);
        assert Marked(es, keep)[1..] == Marked(es[1..], keep[1..]);
      } else {
        assert Marked(rs, keep) == Marked(rs[1..], keep[1..]);
        assert Marked(es, keep) == Marked(es[1..], keep[1..]);
      }
    }
  }

  /** The entries the names select: those not listed with `drop`, those listed otherwise. */
  function SelectEntries(es: seq<Entry>, names: seq<Path>, drop: bool): seq<Entry> {
    if es == [] then []
    else (if (EntryName(es[0]) in names) != drop then [es[0]] else []) + SelectEntries(es[1..], names, drop)
  }

  lemma {:induction false} SelectEntriesAppend(xs: seq<Entry>, ys: seq<Entry>, names: seq<Path>, drop: bool)
    ensures SelectEntries(xs + ys, names, drop) == SelectEntries(xs, names, drop) + SelectEntries(ys, names, drop)
  {
    if xs == [] {
      assert xs + ys == ys;
    } else {
      var head := if (EntryName(xs[0]) in names) != drop then [xs[0]] else [];
      calc {
        SelectEntries(xs + ys, names, drop);
        { assert (xs + ys)[1..] == xs[1..] + ys; }
        head + SelectEntries(xs[1..] + ys, names, drop);
        { SelectEntriesAppend(xs[1..], ys, names, drop); }
        head + (SelectEntries(xs[1..], names, drop) + SelectEntries(ys, names, drop));
        head + SelectEntries(xs[1..], names, drop) + SelectEntries(ys, names, drop);
      }
    }
  }

  /** What a selection contains. */
  lemma {:induction false} SelectEntriesExact(es: seq<Entry>, names: seq<Path>, drop: bool, e: Entry)
    ensures e in SelectEntries(es, names, drop) <==> e in es && (EntryName(e) in names) != drop
  {
    if es != [] {
      SelectEntriesExact(es[1..], names, drop, e);
      assert e in es <==> e == es[0] || e in es[1..];
    }
  }

  /** The two selections split an archive: nothing is lost, nothing is doubled. */
  lemma {:induction false} SelectEntriesPartition(es: seq<Entry>, names: seq<Path>)
    ensures multiset(SelectEntries(es, names, true)) + multiset(SelectEntries(es, names, false)) == multiset(es)
  {
    if es != [] {
      SelectEntriesPartition(es[1..], names);
      assert es == [es[0]] + es[1..];
    }
  }

  /** Nothing is selected, or everything, when no name occurs or all do. */
  lemma {:induction false} SelectEntriesExtreme(es: seq<Entry>, names: seq<Path>, drop: bool, all: bool)
    requires forall i :: 0 <= i < |es| ==> ((EntryName(es[i]) in names) != drop) == all
    ensures SelectEntries(es, names, drop) == if all then es else []
  {
    if es != [] {
      assert EntryName(es[0]) in names || EntryName(es[0]) !in names;
      forall i | 0 <= i < |es| - 1
        ensures ((EntryName(es[1..][i]) in names) != drop) == all
      {
        assert es[1..][i] == es[i + 1];
      }
      SelectEntriesExtreme(es[1..], names, drop, all);
    }
  }

  /** The filter on records and the filter on entries mark the same positions. */
  lemma {:induction false} MarksSelect(rs: seq<FileInfo>, es: seq<Entry>, names: seq<Path>, drop: bool)
    requires |rs| == |es| && forall i :: 0 <= i < |rs| ==> rs[i].filename == es[i].filename
    ensures Marked(es, Marks(rs, names, drop)) == SelectEntries(es, names, drop)
  {
    if rs != [] {
      assert StoredName(rs[0]) == EntryName(es[0]);
      MarksSelect(rs[1..], es[1..], names, drop);
      var keep := Marks(rs, names, drop);
      assert keep[0] == Keeps(rs[0], names, drop) && keep[1..] == Marks(rs[1..], names, drop);
    }
  }

  lemma {:induction false} MarkedInfos(rs: seq<FileInfo>, es: seq<Entry>, keep: seq<bool>)
    requires SameButOffset(rs, Infos(es)) && |keep| == |es|
    ensures SameButOffset(Marked(rs, keep), Infos(Marked(es, keep)))
  {
    if rs != [] {
      MarkedInfos(rs[1..], es[1..], keep[1..]);
      var tail := Marked(es[1..], keep[1..]);
      assert Marked(es, keep) == if keep[0] then [es[0]] + tail else tail;
      assert ([es[0]] + tail)[1..] == tail;
      assert Marked(rs, keep) == (if keep[0] then [rs[0]] else []) + Marked(rs[1..], keep[1..]);
    }
  }

  /** Both lists of `remove`, the one with fresh offsets and the one with the old offsets, agree with the
      selected entries: the first is their header, the slices of the second are their contents. */
  lemma {:induction false} SelectOnLayout(es: seq<Entry>, names: seq<Path>, drop: bool)
    requires Storable(es)
    ensures var kept, left := Select(HeaderOf(es), names, drop), SelectEntries(es, names, drop);
      && |kept| == |left|
      && WithOffsets(kept, DataStart(|kept|)) == HeaderOf(left)
      && Slices(Layout(es), kept) == Contents(left)
      && InRange(Layout(es), kept)
  {
    var rs := HeaderOf(es);
    var keep := Marks(rs, names, drop);
    forall i | 0 <= i < |es|
      ensures EntryAt(Layout(es), rs[i]) == es[i]
      ensures rs[i].offset + rs[i].filesize <= |Layout(es)|
    {
      LayoutSlice(es, i);
    }
    MarksSelect(rs, es, names, drop);
    OffsetsChangeNothingElse(Infos(es), DataStart(|es|));
    MarkedInfos(rs, es, keep);
    FreshOffsets(Marked(rs, keep), Infos(Marked(es, keep)), DataStart(|Marked(rs, keep)|));
    SlicesOfMarked(Layout(es), rs, es, keep);
    LayoutData(es);
    forall i | 0 <= i < |Marked(rs, keep)|
      ensures Marked(rs, keep)[i].offset + Marked(rs, keep)[i].filesize <= |Layout(es)|
    {
      var r := Marked(rs, keep)[i];
      MarkedIn(rs, keep, r);
    }
  }
}
