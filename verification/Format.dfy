/** The archive format byte by byte, and what the commands leave in it. */
module Format {
  import opened Bytes
  import opened FileInfos
  import opened Archive
  import opened Commands
  import opened Refinement
  import opened Laws

  /** The sizes of the first `i` entries together. */
  function Sizes(es: seq<Entry>, i: nat): nat
    requires i <= |es|
  {
    if i == 0 then 0 else Sizes(es, i - 1) + |es[i - 1].content|
  }

  /** Eight bytes at `pos`, the least significant first, are the number `v`. */
  ghost predicate WordAt(file: seq<byte>, pos: nat, v: int) {
    && pos + 8 <= |file|
    && v == file[pos] as int + 0x100 * file[pos + 1] as int + 0x1_0000 * file[pos + 2] as int
            + 0x100_0000 * file[pos + 3] as int + 0x1_0000_0000 * file[pos + 4] as int
            + 0x100_0000_0000 * file[pos + 5] as int + 0x1_0000_0000_0000 * file[pos + 6] as int
            + 0x100_0000_0000_0000 * file[pos + 7] as int
  }

  /** Record `i`: 256 bytes of name field, then size, mask and offset as eight bytes each. */
  ghost predicate RecordAt(file: seq<byte>, es: seq<Entry>, i: nat)
    requires i < |es|
  {
    var pos := 280 * i;
    && pos + 280 <= |file|
    && (forall j :: 0 <= j < 256 ==> file[pos + j] == es[i].filename[j])
    && WordAt(file, pos + 256, |es[i].content|)
    && WordAt(file, pos + 264, es[i].mask)
    && WordAt(file, pos + 272, 280 * |es| + 4 + Sizes(es, i))
  }

  /** The contents of entry `i`, behind the contents of the earlier ones. */
  ghost predicate ContentAt(file: seq<byte>, es: seq<Entry>, i: nat)
    requires i < |es|
  {
    var pos := 280 * |es| + 4 + Sizes(es, i);
    pos + |es[i].content| <= |file| && forall j :: 0 <= j < |es[i].content| ==> file[pos + j] == es[i].content[j]
  }

  /** The whole file: the records, four zero bytes, the contents, and nothing else. */
  ghost predicate Formatted(file: seq<byte>, es: seq<Entry>) {
    var n := |es|;
    && |file| == 280 * n + 4 + Sizes(es, n)
    && (forall i :: 0 <= i < n ==> RecordAt(file, es, i))
    && (forall j :: 280 * n <= j < 280 * n + 4 ==> file[j] == 0)
    && (forall i :: 0 <= i < n ==> ContentAt(file, es, i))
  }

  // ----- the layout has the format --------------------------------------------------------------

  lemma {:induction false} SizesAreLengths(es: seq<Entry>, i: nat)
    requires i <= |es|
    ensures Sizes(es, i) == |Contents(es[..i])|
  {
    if i == 0 {
      assert es[..0] == [];
    } else {
      SizesAreLengths(es, i - 1);
      assert es[..i] == es[..i - 1] + [es[i - 1]];
      ContentsAppend(es[..i - 1], [es[i - 1]]);
      assert [es[i - 1]][1..] == [] && Contents([es[i - 1]]) == es[i - 1].content + Contents([]);
    }
  }

  /** The bytes of an encoded word, one by one. */
  lemma {:induction false} EncodedWord(v: uint64)
    ensures WordAt(LittleEndian(v, 8), 0, v)
  {
    var s := LittleEndian(v, 8);
    Pow256Of8();
    LittleEndianRoundTrip(v, 8);
    assert v == FromLittleEndian(s);
    WordValue(s);
  }

  lemma {:induction false} WordValue(s: seq<byte>)
    requires |s| == 8
    ensures WordAt(s, 0, FromLittleEndian(s))
  {
    Horner(s, 0);
    Horner(s, 1);
    Horner(s, 2);
    Horner(s, 3);
    Horner(s, 4);
    Horner(s, 5);
    Horner(s, 6);
    Horner(s, 7);
    assert s[0..] == s && s[8..] == [];
  }

  lemma {:induction false} Horner(s: seq<byte>, i: nat)
    requires i < |s|
    ensures FromLittleEndian(s[i..]) == s[i] as nat + 256 * FromLittleEndian(s[i + 1..])
  {
    assert s[i..][1..] == s[i + 1..];
  }

  lemma {:induction false} WordInside(file: seq<byte>, pos: nat, w: seq<byte>, v: int)
    requires |w| == 8 && WordAt(w, 0, v) && pos + 8 <= |file| && forall k :: 0 <= k < 8 ==> file[pos + k] == w[k]
    ensures WordAt(file, pos, v)
  {
  }

  /** The bytes of a record inside the header. */
  lemma {:induction false} RecordBytes(rs: seq<FileInfo>, i: nat, j: nat)
    requires i < |rs| && j < 280
    ensures 280 * i + j < |EncodeInfos(rs)| && EncodeInfos(rs)[280 * i + j] == EncodeInfo(rs[i])[j]
  {
    if i > 0 {
      RecordBytes(rs[1..], i - 1, j);
    }
  }

  lemma {:induction false} InfoWords(r: FileInfo)
    ensures WordAt(EncodeInfo(r), 256, r.filesize)
    ensures WordAt(EncodeInfo(r), 264, r.mask)
    ensures WordAt(EncodeInfo(r), 272, r.offset)
  {
    EncodedWord(r.filesize);
    EncodedWord(r.mask);
    EncodedWord(r.offset);
    WordInside(EncodeInfo(r), 256, LittleEndian(r.filesize, 8), r.filesize);
    WordInside(EncodeInfo(r), 264, LittleEndian(r.mask, 8), r.mask);
    WordInside(EncodeInfo(r), 272, LittleEndian(r.offset, 8), r.offset);
  }

  lemma {:induction false} ShiftedWord(file: seq<byte>, pos: nat, record: seq<byte>, k: nat, v: int)
    requires k + 8 <= |record| && pos + |record| <= |file| && WordAt(record, k, v)
    requires forall j :: 0 <= j < |record| ==> file[pos + j] == record[j]
    ensures WordAt(file, pos + k, v)
  {
    assert forall j :: k <= j < k + 8 ==> file[pos + j] == record[j];
  }

  lemma {:induction false} LayoutRecordByte(es: seq<Entry>, i: nat, j: nat)
    requires i < |es| && j < 280
    ensures 280 * i + j < |Layout(es)| && Layout(es)[280 * i + j] == EncodeInfo(HeaderOf(es)[i])[j]
  {
    RecordBytes(HeaderOf(es), i, j);
  }

  /** A record found in a file, byte by byte, has its fields there. */
  lemma {:induction false} RecordFields(file: seq<byte>, pos: nat, r: FileInfo)
    requires pos + 280 <= |file| && forall j :: 0 <= j < 280 ==> file[pos + j] == EncodeInfo(r)[j]
    ensures forall j :: 0 <= j < 256 ==> file[pos + j] == r.filename[j]
    ensures WordAt(file, pos + 256, r.filesize) && WordAt(file, pos + 264, r.mask) && WordAt(file, pos + 272, r.offset)
  {
    forall j | 0 <= j < 256
      ensures EncodeInfo(r)[j] == r.filename[j]
    {
      assert EncodeInfo(r)[j] == EncodeInfo(r)[..256][j];
    }
    InfoWords(r);
    ShiftedWord(file, pos, EncodeInfo(r), 256, r.filesize);
    ShiftedWord(file, pos, EncodeInfo(r), 264, r.mask);
    ShiftedWord(file, pos, EncodeInfo(r), 272, r.offset);
  }

  lemma {:induction false} LayoutRecord(es: seq<Entry>, i: nat)
    requires Storable(es) && i < |es|
    ensures RecordAt(Layout(es), es, i)
  {
    var r, file := HeaderOf(es)[i], Layout(es);
    var off := 280 * |es| + 4 + Sizes(es, i);
    assert r.filename == es[i].filename && r.filesize == |es[i].content| && r.mask == es[i].mask && r.offset == off by {
      LayoutSlice(es, i);
      SizesAreLengths(es, i);
    }
    forall j | 0 <= j < 280
      ensures 280 * i + j < |file| && file[280 * i + j] == EncodeInfo(r)[j]
    {
      LayoutRecordByte(es, i, j);
    }
    assert 280 * i + 279 < |file| by {
      LayoutRecordByte(es, i, 279);
    }
    RecordFields(file, 280 * i, r);
  }

  lemma {:induction false} LayoutContent(es: seq<Entry>, i: nat)
    requires Storable(es) && i < |es|
    ensures ContentAt(Layout(es), es, i)
  {
    var file, n := Layout(es), |es[i].content|;
    LayoutSlice(es, i);
    SizesAreLengths(es, i);
    var pos := 280 * |es| + 4 + Sizes(es, i);
    if n > 0 {
      assert file[pos..pos + n] == es[i].content;
    }
  }

  /** Every stored archive is formatted like this. */
  lemma {:induction false} LayoutFormatted(es: seq<Entry>)
    requires Storable(es)
    ensures Formatted(Layout(es), es)
  {
    SizesAreLengths(es, |es|);
    assert es[..|es|] == es;
    LayoutData(es);
    forall i | 0 <= i < |es|
      ensures RecordAt(Layout(es), es, i) && ContentAt(Layout(es), es, i)
    {
      LayoutRecord(es, i);
      LayoutContent(es, i);
    }
  }

  // ----- only one file has the format -----------------------------------------------------------

  lemma {:induction false} WordIsEncoded(file: seq<byte>, pos: nat, v: nat)
    requires WordAt(file, pos, v)
    ensures file[pos..pos + 8] == LittleEndian(v, 8)
  {
    var s := file[pos..pos + 8];
    WordValue(s);
    assert forall k :: 0 <= k < 8 ==> s[k] == file[pos + k];
    FromLittleEndianRoundTrip(s);
  }

  lemma {:induction false} SameWords(f: seq<byte>, g: seq<byte>, pos: nat, v: nat)
    requires WordAt(f, pos, v) && WordAt(g, pos, v)
    ensures forall j :: pos <= j < pos + 8 ==> f[j] == g[j]
  {
    WordIsEncoded(f, pos, v);
    WordIsEncoded(g, pos, v);
    forall j | pos <= j < pos + 8
      ensures f[j] == g[j]
    {
      assert f[j] == f[pos..pos + 8][j - pos] == g[pos..pos + 8][j - pos] == g[j];
    }
  }

  lemma {:induction false} SameRecord(f: seq<byte>, g: seq<byte>, es: seq<Entry>, i: nat, j: nat)
    requires i < |es| && RecordAt(f, es, i) && RecordAt(g, es, i) && 280 * i <= j < 280 * i + 280
    ensures f[j] == g[j]
  {
    var pos := 280 * i;
    if j < pos + 256 {
      assert f[pos + (j - pos)] == es[i].filename[j - pos] == g[pos + (j - pos)];
    } else {
      SameWords(f, g, pos + 256, |es[i].content|);
      SameWords(f, g, pos + 264, es[i].mask);
      SameWords(f, g, pos + 272, 280 * |es| + 4 + Sizes(es, i));
    }
  }

  /** The entry whose contents lie at a position behind the header. */
  lemma {:induction false} EntryAtPosition(es: seq<Entry>, n: nat, x: nat) returns (i: nat)
    requires n <= |es| && x < Sizes(es, n)
    ensures i < n && Sizes(es, i) <= x < Sizes(es, i) + |es[i].content|
  {
    if x < Sizes(es, n - 1) {
      i := EntryAtPosition(es, n - 1, x);
    } else {
      i := n - 1;
    }
  }

  lemma {:induction false} FormatUnique(f: seq<byte>, g: seq<byte>, es: seq<Entry>)
    requires Formatted(f, es) && Formatted(g, es)
    ensures f == g
  {
    forall j | 0 <= j < |f|
      ensures f[j] == g[j]
    {
      var n := |es|;
      if j < 280 * n {
        var i := j / 280;
        SameRecord(f, g, es, i, j);
      } else if j >= 280 * n + 4 {
        var x := j - (280 * n + 4);
        var i := EntryAtPosition(es, n, x);
        var pos := 280 * n + 4 + Sizes(es, i);
        assert ContentAt(f, es, i) && ContentAt(g, es, i);
        assert f[pos + (j - pos)] == es[i].content[j - pos] == g[pos + (j - pos)];
      }
    }
  }

  /** A file is the layout of the entries exactly when it is formatted like this. */
  lemma {:induction false} LayoutIsTheFormat(es: seq<Entry>, file: seq<byte>)
    requires Storable(es)
    ensures file == Layout(es) <==> Formatted(file, es)
  {
    LayoutFormatted(es);
    if Formatted(file, es) {
      FormatUnique(file, Layout(es), es);
    }
  }

  // ----- what the commands leave ----------------------------------------------------------------

  /** A completed insert leaves the old entries and the new ones in this format, under its side conditions. */
  lemma {:induction false} InsertLeavesFormat(files: Files, archive: Path, es: seq<Entry>, fnames: seq<Path>,
                                              scratch: seq<Block>, g: Garbage, h: Garbage)
    requires Good(files, archive, es) && Sound(files, archive, es, Insert(fnames, scratch, g, h))
    requires InsertEffect(files, archive, fnames, scratch, g, h).outcome == Completed
    ensures Formatted(ArchiveBytes(InsertEffect(files, archive, fnames, scratch, g, h).files, archive),
                      es + NewEntries(Opened(files, archive), fnames, scratch))
  {
    var start := Opened(files, archive);
    InsertCommand(files, archive, es, fnames, scratch, g, h);
    InsertStorable(es, start, fnames, scratch);
    LayoutFormatted(es + NewEntries(start, fnames, scratch));
  }

  /** A completed remove leaves the other entries in this format. */
  lemma {:induction false} RemoveLeavesFormat(files: Files, archive: Path, es: seq<Entry>, names: seq<Path>,
                                              g: Garbage, h: Garbage)
    requires Good(files, archive, es) && names != [] && archive in files
    ensures Formatted(ArchiveBytes(RemoveEffect(files, archive, names, g, h).files, archive),
                      SelectEntries(es, names, true))
  {
    RemoveCommand(files, archive, es, names, g, h);
    SelectStorable(es, names, true);
    LayoutFormatted(SelectEntries(es, names, true));
  }

  /** After every run from nothing the archive is empty, or it has this format. */
  lemma {:induction false} RunLeavesFormat(files: Files, archive: Path, steps: seq<Step>)
    requires archive !in files && archive != TEMP && TEMP !in files && SoundRun(files, archive, [], steps)
    ensures var es := EntriesAfter(files, archive, [], steps);
      var file := ArchiveBytes(FilesAfter(files, archive, [], steps), archive);
      Formatted(file, es) || (file == [] && es == [])
  {
    RunFromNothing(files, archive, steps);
    LayoutFormatted(EntriesAfter(files, archive, [], steps));
  }

  /** And whatever wrote a file in this format, a scan reads its records. */
  lemma {:induction false} FormatIsRead(file: seq<byte>, es: seq<Entry>)
    requires Storable(es) && Formatted(file, es)
    ensures Represents(file, es)
  {
    LayoutIsTheFormat(es, file);
  }
}
