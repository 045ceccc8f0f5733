/** Extraction gives back what was stored. */
module Extraction {
  import opened Options
  import opened Bytes
  import opened FileInfos
  import opened Descriptors
  import opened Archive
  import opened Commands
  import opened Refinement
  import opened Laws

  function Lookup(files: Files, p: Path): Option<FsObject> {
    if p in files then Some(files[p]) else None
  }

  /** Extraction on entries instead of bytes. */
  function ExtractEntries(files: Files, es: seq<Entry>): Files
    decreases |es|
  {
    if es == [] then files
    else ExtractEntries(ExtractOne(files, EntryName(es[0]), es[0].mask, es[0].content), es[1..])
  }

  lemma {:induction false} ExtractAllIsExtractEntries(files: Files, file: seq<byte>, rs: seq<FileInfo>, es: seq<Entry>)
    requires Describes(file, rs, es)
    ensures ExtractAll(files, file, rs) == ExtractEntries(files, es)
    decreases |rs|
  {
    if rs != [] {
      assert EntryAt(file, rs[0]) == es[0];
      var content := Window(file, rs[0].offset, rs[0].filesize);
      ExtractAllIsExtractEntries(ExtractOne(files, StoredName(rs[0]), rs[0].mask, content), file, rs[1..], es[1..]);
    }
  }

  ghost predicate DistinctNames(es: seq<Entry>) {
    forall i, j :: 0 <= i < j < |es| ==> EntryName(es[i]) != EntryName(es[j])
  }

  /** Paths that are no stored name are not touched; nothing is assumed about the names. */
  lemma {:induction false} ExtractTouchesOnlyNames(files: Files, es: seq<Entry>, p: Path)
    requires forall i :: 0 <= i < |es| ==> EntryName(es[i]) != p
    ensures Lookup(ExtractEntries(files, es), p) == Lookup(files, p)
    decreases |es|
  {
    if es != [] {
      assert EntryName(es[0]) != p;
      forall i | 0 <= i < |es| - 1
        ensures EntryName(es[1..][i]) != p
      {
        assert es[1..][i] == es[i + 1];
      }
      ExtractTouchesOnlyNames(ExtractOne(files, EntryName(es[0]), es[0].mask, es[0].content), es[1..], p);
    }
  }

  /** What `open` refuses: no name, a directory, a special file, and a regular file without the owner's write
      permission, the bit of value 128. */
  ghost predicate Refused(files: Files, p: Path, a: nat, b: nat) {
    p == [] || (p in files && (!files[p].Regular? || (b < 128 && files[p].mode == 256 * a + b)))
  }

  /** What it opens: an absent name and a regular file with that bit. */
  ghost predicate Accepted(files: Files, p: Path, a: nat, b: nat) {
    p != [] && (p in files ==> files[p].Regular? && b < 128 && files[p].mode == 256 * a + 128 + b)
  }

  lemma {:induction false} WriteBit(mode: nat, a: nat, b: nat)
    requires b < 128
    ensures mode == 256 * a + b ==> !OwnerWrites(mode)
    ensures mode == 256 * a + 128 + b ==> OwnerWrites(mode)
  {
    if mode == 256 * a + b {
      Quotient(mode, 2 * a, b);
    } else if mode == 256 * a + 128 + b {
      Quotient(mode, 2 * a + 1, b);
    }
  }

  lemma {:induction false} RefusedIsNotOpenable(files: Files, p: Path, a: nat, b: nat)
    ensures Refused(files, p, a, b) ==> !Openable(files, p)
    ensures Accepted(files, p, a, b) ==> Openable(files, p)
  {
    if p in files && files[p].Regular? && b < 128 {
      WriteBit(files[p].mode, a, b);
    }
  }

  lemma {:induction false} StaysClosed(files: Files, es: seq<Entry>, p: Path)
    requires !Openable(files, p)
    ensures Lookup(ExtractEntries(files, es), p) == Lookup(files, p)
    decreases |es|
  {
    if es != [] {
      var first := ExtractOne(files, EntryName(es[0]), es[0].mask, es[0].content);
      assert Lookup(first, p) == Lookup(files, p);
      StaysClosed(first, es[1..], p);
    }
  }

  /** A name that cannot be opened stays as it is, whatever the entries are. */
  lemma {:induction false} ExtractSkips(files: Files, es: seq<Entry>, p: Path, a: nat, b: nat)
    requires Refused(files, p, a, b)
    ensures Lookup(ExtractEntries(files, es), p) == Lookup(files, p)
  {
    RefusedIsNotOpenable(files, p, a, b);
    StaysClosed(files, es, p);
  }

  /** Entry `i` is the last one that is written under its name: the name can be opened, no earlier entry of the
      name takes the owner's write permission away, and behind it either the entry itself does or the name does
      not occur. */
  ghost predicate WrittenLast(files: Files, es: seq<Entry>, i: nat) {
    && i < |es| && Openable(files, EntryName(es[i]))
    && (forall j :: 0 <= j < i && EntryName(es[j]) == EntryName(es[i]) ==> OwnerWrites(es[j].mask))
    && (OwnerWrites(es[i].mask) ==> forall j :: i < j < |es| ==> EntryName(es[j]) != EntryName(es[i]))
  }

  /** Nothing longer was under the name of entry `i` before it. */
  ghost predicate Unspoilt(files: Files, es: seq<Entry>, i: nat)
    requires i < |es|
  {
    var p, n := EntryName(es[i]), |es[i].content|;
    && |ContentOf(files, p)| <= n
    && forall j :: 0 <= j < i && EntryName(es[j]) == p ==> |es[j].content| <= n
  }

  lemma {:induction false} OwnerWritesLow(mask: nat)
    ensures OwnerWrites(mask % 4096) <==> OwnerWrites(mask)
  {
    var q, r := mask / 4096, mask % 4096;
    assert mask == 128 * (32 * q + r / 128) + r % 128;
    assert mask / 128 == 32 * q + r / 128 by {
      Quotient(mask, 32 * q + r / 128, r % 128);
    }
    EvenSummand(16 * q, r / 128);
  }

  lemma {:induction false} Quotient(x: nat, q: nat, r: nat)
    requires x == 128 * q + r && r < 128
    ensures x / 128 == q
  {
  }

  lemma {:induction false} EvenSummand(a: nat, b: nat)
    ensures (2 * a + b) % 2 == b % 2
  {
  }

  /** Extraction without truncation, on any entries: the entry that is written last under a name comes out with
      its mask and exactly its contents if and only if nothing of that name was longer. */
  lemma {:induction false} ExtractLast(files: Files, es: seq<Entry>, i: nat)
    requires WrittenLast(files, es, i)
    ensures Lookup(ExtractEntries(files, es), EntryName(es[i])) == Some(Regular(es[i].content, es[i].mask % 4096))
       <==> Unspoilt(files, es, i)
    decreases |es|
  {
    var p := EntryName(es[i]);
    var first := ExtractOne(files, EntryName(es[0]), es[0].mask, es[0].content);
    assert forall j :: 0 <= j < |es| - 1 ==> es[1..][j] == es[j + 1];
    if i == 0 {
      assert Lookup(ExtractEntries(first, es[1..]), p) == Lookup(first, p) by {
        if OwnerWrites(es[0].mask) {
          ExtractTouchesOnlyNames(first, es[1..], p);
        } else {
          OwnerWritesLow(es[0].mask);
          StaysClosed(first, es[1..], p);
        }
      }
      OverlayExact(ContentOf(files, p), es[0].content, es[0].content);
    } else {
      StillLast(files, es, i);
      ExtractLast(first, es[1..], i - 1);
    }
  }

  lemma {:induction false} StillLast(files: Files, es: seq<Entry>, i: nat)
    requires 0 < i && WrittenLast(files, es, i)
    ensures var first := ExtractOne(files, EntryName(es[0]), es[0].mask, es[0].content);
      WrittenLast(first, es[1..], i - 1) && (Unspoilt(first, es[1..], i - 1) <==> Unspoilt(files, es, i))
  {
    var p, e := EntryName(es[i]), es[0];
    var first := ExtractOne(files, EntryName(e), e.mask, e.content);
    assert forall j :: 0 <= j < |es| - 1 ==> es[1..][j] == es[j + 1];
    assert forall j :: 0 < j < |es| ==> es[j] == es[1..][j - 1];
    if EntryName(e) == p {
      OwnerWritesLow(e.mask);
      assert ContentOf(first, p) == Overlay(ContentOf(files, p), e.content);
    } else {
      assert Lookup(first, p) == Lookup(files, p);
    }
  }

  /** Every name that occurs and can be opened has an entry that is written last, so ExtractLast and
      ExtractSkips together say what every name denotes in the end. */
  lemma {:induction false} SomeoneWrites(files: Files, es: seq<Entry>, p: Path, n: nat) returns (k: nat)
    requires Openable(files, p) && n <= |es|
    requires exists i :: n <= i < |es| && EntryName(es[i]) == p
    requires forall j :: 0 <= j < n && EntryName(es[j]) == p ==> OwnerWrites(es[j].mask)
    ensures WrittenLast(files, es, k) && EntryName(es[k]) == p
    decreases |es| - n
  {
    if EntryName(es[n]) != p {
      k := SomeoneWrites(files, es, p, n + 1);
    } else if OwnerWrites(es[n].mask) && exists i :: n + 1 <= i < |es| && EntryName(es[i]) == p {
      k := SomeoneWrites(files, es, p, n + 1);
    } else {
      k := n;
    }
  }

  /** Repeated names do harm: of two entries of one name, a shorter one behind a longer one does not come out. */
  lemma {:induction false} ShorterBehindLonger(files: Files, a: Entry, b: Entry)
    requires EntryName(a) == EntryName(b) && Openable(files, EntryName(a)) && |b.content| < |a.content|
    ensures Lookup(ExtractEntries(files, [a, b]), EntryName(b)) != Some(Regular(b.content, b.mask % 4096))
  {
    var p := EntryName(a);
    var first := ExtractOne(files, p, a.mask, a.content);
    assert [a, b][1..] == [b] && [b][1..] == [];
    var second := ExtractOne(first, p, b.mask, b.content);
    assert ExtractEntries(files, [a, b]) == ExtractEntries(first, [b]) == ExtractEntries(second, []) == second;
    assert |ContentOf(first, p)| >= |a.content|;
  }

  /** So does an entry without the owner's write permission in front, such as one of mask 0444: the one behind it
      is skipped. */
  lemma {:induction false} ReadOnlyInFront(files: Files, first: Entry, second: Entry, x: nat, y: nat, a: nat, b: nat)
    requires EntryName(first) == EntryName(second) && Accepted(files, EntryName(first), x, y)
    requires b < 128 && first.mask == 256 * a + b
    ensures ExtractEntries(files, [first, second]) == ExtractEntries(files, [first])
  {
    var p := EntryName(first);
    WriteBit(first.mask, a, b);
    RefusedIsNotOpenable(files, p, x, y);
    OwnerWritesLow(first.mask);
    assert [first, second][1..] == [second] && [second][1..] == [] && [first][1..] == [];
    assert !Openable(ExtractOne(files, p, first.mask, first.content), p);
  }

  /** The entries the command extracts. */
  function Chosen(es: seq<Entry>, names: seq<Path>): seq<Entry> {
    if names == [] then es else SelectEntries(es, names, false)
  }

  /** Extract refines lookup: on a stored archive it extracts exactly the chosen entries. */
  lemma {:induction false} ExtractRefinesLookup(files: Files, archive: Path, es: seq<Entry>, names: seq<Path>,
                                                g: Garbage)
    requires Holds(files, archive, es) && archive in files
    ensures var rs := Extracted(files[archive].bytes, names, g); InRange(files[archive].bytes, rs) && Ahead(rs)
    ensures ExtractEffect(files, archive, names, g) == Effect(Completed, ExtractEntries(files, Chosen(es, names)))
  {
    var file := files[archive].bytes;
    if file == [] && es == [] {
      EmptyFileScan(g, false);
    } else {
      ScanLayout(es, g.probe, false, g.node);
      var rs := Extracted(file, names, g);
      DescribesChosen(es, names);
      ExtractAllIsExtractEntries(files, file, rs, Chosen(es, names));
    }
  }

  lemma {:induction false} DescribesChosen(es: seq<Entry>, names: seq<Path>)
    requires Storable(es)
    ensures var rs := if names == [] then HeaderOf(es) else Select(HeaderOf(es), names, false);
      Describes(Layout(es), rs, Chosen(es, names)) && InRange(Layout(es), rs) && Ahead(rs)
  {
    HeaderAhead(es);
    MarkedAhead(HeaderOf(es), Marks(HeaderOf(es), names, false));
    if names == [] {
      forall i | 0 <= i < |es|
        ensures EntryAt(Layout(es), HeaderOf(es)[i]) == es[i]
        ensures HeaderOf(es)[i].offset + HeaderOf(es)[i].filesize <= |Layout(es)|
      {
        LayoutSlice(es, i);
      }
      LayoutData(es);
    } else {
      SelectDescribes(es, names, false);
      SelectOnLayout(es, names, false);
    }
  }

  /** Round trip, with the exact condition: of the chosen entries of one name, the one that is written last comes
      out with its mask and exactly its contents if and only if neither the file there nor an earlier entry of that
      name was longer. */
  lemma {:induction false} ExtractExact(files: Files, archive: Path, es: seq<Entry>, names: seq<Path>, g: Garbage,
                                        i: nat)
    requires Holds(files, archive, es) && archive in files && WrittenLast(files, Chosen(es, names), i)
    ensures var e := Chosen(es, names)[i];
      Lookup(ExtractEffect(files, archive, names, g).files, EntryName(e)) == Some(Regular(e.content, e.mask % 4096))
      <==> Unspoilt(files, Chosen(es, names), i)
  {
    ExtractRefinesLookup(files, archive, es, names, g);
    ExtractLast(files, Chosen(es, names), i);
  }

  /** Extracting over an existing file, by its permission bits: with the owner's write permission, the bit of value
      128, it gets the contents and the mask of the one entry of its name if it was not longer. */
  lemma {:induction false} ExistingFileReplaced(files: Files, archive: Path, es: seq<Entry>, names: seq<Path>,
                                                g: Garbage, i: nat, a: nat, b: nat)
    requires Holds(files, archive, es) && archive in files && i < |Chosen(es, names)|
    requires forall j :: 0 <= j < |Chosen(es, names)| && j != i ==>
      EntryName(Chosen(es, names)[j]) != EntryName(Chosen(es, names)[i])
    requires var p := EntryName(Chosen(es, names)[i]);
      && p != [] && p in files && files[p].Regular? && b < 128 && files[p].mode == 256 * a + 128 + b
      && |files[p].bytes| <= |Chosen(es, names)[i].content|
    ensures var e := Chosen(es, names)[i];
      Lookup(ExtractEffect(files, archive, names, g).files, EntryName(e)) == Some(Regular(e.content, e.mask % 4096))
  {
    WriteBit(files[EntryName(Chosen(es, names)[i])].mode, a, b);
    ExtractExact(files, archive, es, names, g, i);
  }

  /** Without that bit, and for directories and special files, it stays as it is, whatever the entries are. */
  lemma {:induction false} ExistingFileStays(files: Files, archive: Path, es: seq<Entry>, names: seq<Path>,
                                             g: Garbage, p: Path, a: nat, b: nat)
    requires Holds(files, archive, es) && archive in files && p in files
    requires !files[p].Regular? || (b < 128 && files[p].mode == 256 * a + b)
    ensures Lookup(ExtractEffect(files, archive, names, g).files, p) == Some(files[p])
  {
    ExtractRefinesLookup(files, archive, es, names, g);
    ExtractSkips(files, Chosen(es, names), p, a, b);
  }

  /** Extracting into a place that holds none of the names recreates exactly the chosen entries and touches
      nothing else. */
  lemma {:induction false} ExtractRoundTrip(files: Files, archive: Path, es: seq<Entry>, names: seq<Path>, g: Garbage)
    requires Holds(files, archive, es) && archive in files && DistinctNames(Chosen(es, names))
    requires var chosen := Chosen(es, names);
      forall i :: 0 <= i < |chosen| ==> EntryName(chosen[i]) != [] && EntryName(chosen[i]) !in files
    ensures var files', chosen := ExtractEffect(files, archive, names, g).files, Chosen(es, names);
      && (forall i :: 0 <= i < |chosen| ==>
          Lookup(files', EntryName(chosen[i])) == Some(Regular(chosen[i].content, chosen[i].mask % 4096)))
      && (forall p ::
          (forall i :: 0 <= i < |chosen| ==> EntryName(chosen[i]) != p) ==> Lookup(files', p) == Lookup(files, p))
  {
    var chosen := Chosen(es, names);
    ExtractRefinesLookup(files, archive, es, names, g);
    forall i | 0 <= i < |chosen|
      ensures Lookup(ExtractEntries(files, chosen), EntryName(chosen[i]))
           == Some(Regular(chosen[i].content, chosen[i].mask % 4096))
    {
      ExtractExact(files, archive, es, names, g, i);
    }
    forall p | forall i :: 0 <= i < |chosen| ==> EntryName(chosen[i]) != p
      ensures Lookup(ExtractEntries(files, chosen), p) == Lookup(files, p)
    {
      ExtractTouchesOnlyNames(files, chosen, p);
    }
  }

  lemma {:induction false} NewEntriesHave(files: Files, fnames: seq<Path>, scratch: seq<Block>, i: nat)
    returns (j: nat)
    requires AllInsertable(files, fnames) && |scratch| == |fnames| && i < |fnames| && IsRegular(files, fnames[i])
    ensures j < |NewEntries(files, fnames, scratch)| && Stores(NewEntries(files, fnames, scratch)[j], files, fnames[i])
  {
    assert Insertable(files, fnames[0]);
    assert forall k :: 0 <= k < |fnames[1..]| ==> fnames[1..][k] == fnames[k + 1];
    if i == 0 {
      NewEntryName(files, fnames[0], scratch[0]);
      j := 0;
    } else {
      j := NewEntriesHave(files, fnames[1..], scratch[1..], i - 1);
      if IsRegular(files, fnames[0]) {
        j := j + 1;
      }
    }
  }

  lemma {:induction false} SmallMask(mask: nat, bound: nat)
    requires mask < bound <= 4096
    ensures mask % 4096 == mask
  {
  }

  lemma {:induction false} FetchEntry(place: Files, archive: Path, all: seq<Entry>, k: Garbage, j: nat)
    requires Holds(place, archive, all) && archive in place
    requires DistinctNames(all) && j < |all| && EntryName(all[j]) != [] && EntryName(all[j]) !in place
    ensures Lookup(ExtractEffect(place, archive, [], k).files, EntryName(all[j]))
         == Some(Regular(all[j].content, all[j].mask % 4096))
  {
    ExtractExact(place, archive, all, [], k, j);
  }

  /** Extracting everything gives an entry back as the file it was made from. */
  lemma {:induction false} FetchStored(place: Files, archive: Path, all: seq<Entry>, k: Garbage, j: nat, start: Files,
                                       p: Path)
    requires Holds(place, archive, all) && archive in place
    requires DistinctNames(all) && j < |all| && Stores(all[j], start, p)
    requires Basename(p) != [] && Basename(p) !in place
    ensures Lookup(ExtractEffect(place, archive, [], k).files, Basename(p))
         == Some(Regular(start[p].bytes, start[p].mode % 512))
  {
    FetchEntry(place, archive, all, k, j);
    assert all[j].mask == start[p].mode % 512;
    SmallMask(all[j].mask, 512);
  }

  lemma {:induction false} InsertedHolds(files: Files, archive: Path, es: seq<Entry>, s: Step, place: Files)
    requires Good(files, archive, es) && Sound(files, archive, es, s)
    requires Accessible(place, archive) && archive in place
    requires archive in Perform(files, archive, s) && place[archive] == Perform(files, archive, s)[archive]
    ensures Holds(place, archive, Meaning(files, archive, es, s))
  {
    StepRefines(files, archive, es, s);
  }

  /** Store and fetch: after an insert, extracting everything at a place that holds none of the names gives
      every inserted file back under its base name, with its contents and its permission bits. */
  lemma {:induction false} InsertThenExtract(files: Files, archive: Path, es: seq<Entry>, fnames: seq<Path>,
                                             scratch: seq<Block>, g: Garbage, h: Garbage, place: Files, k: Garbage,
                                             i: nat)
    requires Good(files, archive, es) && Sound(files, archive, es, Insert(fnames, scratch, g, h))
    requires InsertEffect(files, archive, fnames, scratch, g, h).outcome == Completed
    requires DistinctNames(es + NewEntries(Opened(files, archive), fnames, scratch))
    requires Accessible(place, archive) && archive in place
    requires archive in InsertEffect(files, archive, fnames, scratch, g, h).files
    requires place[archive] == InsertEffect(files, archive, fnames, scratch, g, h).files[archive]
    requires i < |fnames| && IsRegular(Opened(files, archive), fnames[i]) && Basename(fnames[i]) !in place
    ensures var stored := Opened(files, archive)[fnames[i]];
      Lookup(ExtractEffect(place, archive, [], k).files, Basename(fnames[i]))
        == Some(Regular(stored.bytes, stored.mode % 512))
  {
    var start := Opened(files, archive);
    var added := NewEntries(start, fnames, scratch);
    InsertedHolds(files, archive, es, Insert(fnames, scratch, g, h), place);
    var j := NewEntriesHave(start, fnames, scratch, i);
    assert (es + added)[|es| + j] == added[j];
    assert Insertable(start, fnames[i]);
    FetchStored(place, archive, es + added, k, |es| + j, start, fnames[i]);
  }
}
