/** What the archiver's three commands do to the file system, as functions of the state they start from. */
module Commands {
  import opened Bytes
  import opened FileInfos
  import opened Descriptors
  import opened HeaderScan
  import opened Archive

  /** What a path can denote. A special file, such as a FIFO or a device, is no regular file, but `bytes` is
      what one who opens it reads from it. */
  datatype FsObject = Regular(bytes: seq<byte>, mode: nat) | Directory | Special(bytes: seq<byte>)

  type Files = map<Path, FsObject>

  /** `.supertemp.egleser` */
  const TEMP: Path := [46, 115, 117, 112, 101, 114, 116, 101, 109, 112, 46, 101, 103, 108, 101, 115, 101, 114]

  const SLASH: byte := 47
  const CREATE_MODE: nat := 438  // 0666

  type Word4 = s: seq<byte> | |s| == 4 witness [0, 0, 0, 0]

  /** What the uninitialised memory of one `read_header` call holds: the probe buffer and the nodes. */
  datatype Garbage = Garbage(probe: Word4, node: FileInfo)

  datatype Failure = OpenFailed | NoFilesGiven | NothingInserted | HeaderUnreadable

  datatype Outcome = Completed | Failed(reason: Failure)

  datatype Effect = Effect(outcome: Outcome, files: Files)

  predicate IsRegular(files: Files, p: Path) {
    p in files && files[p].Regular?
  }

  predicate RegularOrAbsent(files: Files, p: Path) {
    p in files ==> files[p].Regular?
  }

  /** `open` with `O_CREAT`: an absent file is created empty. */
  function Create(files: Files, p: Path): Files {
    if p in files then files else files[p := Regular([], CREATE_MODE)]
  }

  /** The part of a path behind its last slash. */
  function Basename(p: Path): (b: Path)
    ensures |b| <= |p| && b == p[|p| - |b|..] && forall i :: 0 <= i < |b| ==> b[i] as int != '/' as int
    ensures |b| < |p| ==> p[|p| - |b| - 1] as int == '/' as int
  {
    if p == [] || p[|p| - 1] == SLASH then [] else Basename(p[..|p| - 1]) + [p[|p| - 1]]
  }

  /** The name field: the name, its NUL, and what the stack slot held behind them. */
  function NameField(name: Path, scratch: Block): Block
    requires |name| < FILENAME_LENGTH
  {
    name + [0] + scratch[|name| + 1..]
  }

  /** A file the host can hand to the archiver: its name is a C string of 1 to 255 bytes, and its size and
      mode fit their types. */
  predicate Insertable(files: Files, p: Path) {
    IsRegular(files, p) ==>
      0 < |Basename(p)| < FILENAME_LENGTH && 0 !in p && |files[p].bytes| < TWO63
  }

  ghost predicate AllInsertable(files: Files, fnames: seq<Path>) {
    forall i :: 0 <= i < |fnames| ==> Insertable(files, fnames[i])
  }

  function NewEntry(files: Files, p: Path, scratch: Block): Entry
    requires IsRegular(files, p) && Insertable(files, p)
  {
    Entry(NameField(Basename(p), scratch), files[p].mode % 512, files[p].bytes)
  }

  /** The entries the arguments stand for; arguments that are not regular files are skipped. */
  function NewEntries(files: Files, fnames: seq<Path>, scratch: seq<Block>): (es: seq<Entry>)
    requires AllInsertable(files, fnames) && |scratch| == |fnames|
  {
    if fnames == [] then []
    else
      assert Insertable(files, fnames[0]);
      assert forall i :: 0 <= i < |fnames[1..]| ==> fnames[1..][i] == fnames[i + 1];
      (if IsRegular(files, fnames[0]) then [NewEntry(files, fnames[0], scratch[0])] else [])
      + NewEntries(files, fnames[1..], scratch[1..])
  }

  /** `stat` fails on a missing path and sets `errno`. */
  predicate StatFails(files: Files, fnames: seq<Path>) {
    exists i :: 0 <= i < |fnames| && fnames[i] !in files
  }

  /** What the regular file at `p` holds. */
  function ContentOf(files: Files, p: Path): seq<byte> {
    if IsRegular(files, p) then files[p].bytes else []
  }

  /** What the copy pass reads from an argument. It tests no argument: a missing path or a directory yields
      nothing, but a special file yields its bytes. */
  function ReadBytes(files: Files, p: Path): seq<byte> {
    if p !in files || files[p].Directory? then [] else files[p].bytes
  }

  function AddedData(files: Files, fnames: seq<Path>): seq<byte> {
    if fnames == [] then [] else ReadBytes(files, fnames[0]) + AddedData(files, fnames[1..])
  }

  /** Some argument is skipped by the size pass and yields bytes in the copy pass. */
  predicate Strays(files: Files, fnames: seq<Path>) {
    exists i :: 0 <= i < |fnames| && !IsRegular(files, fnames[i]) && ReadBytes(files, fnames[i]) != []
  }

  /** The raw data copied from the old archive, found by the offset stored in the head node: memory contents
      when the header is empty. */
  function OldData(file: seq<byte>, offset: uint64): seq<byte> {
    if file == [] || TWO63 <= offset then [] else Rest(file, offset)
  }

  function HeadOffset(infos: seq<FileInfo>, node: FileInfo): uint64 {
    if infos == [] then node.offset else infos[0].offset
  }

  function InsertedHeader(file: seq<byte>, added: seq<FileInfo>, g: Garbage): seq<byte> {
    var infos := ScanHeader(file, 0, g.probe, false, g.node).infos + added;
    EncodeInfos(WithOffsets(infos, DataStart(|infos|))) + HEADER_ENDING
  }

  /** The bytes the insert command writes: new header, old data, new data. */
  function InsertedBytes(file: seq<byte>, files: Files, fnames: seq<Path>, scratch: seq<Block>, g: Garbage,
                         h: Garbage): seq<byte>
    requires AllInsertable(files, fnames) && |scratch| == |fnames|
  {
    InsertedHeader(file, Infos(NewEntries(files, fnames, scratch)), g)
    + OldData(file, HeadOffset(ScanHeader(file, 0, h.probe, false, h.node).infos, h.node))
    + AddedData(files, fnames)
  }

  /** The temporary file takes the archive's place. */
  function Replace(files: Files, archive: Path, bytes: seq<byte>): Files
    requires IsRegular(files, TEMP)
  {
    (files - {TEMP})[archive := Regular(Overlay(files[TEMP].bytes, bytes), files[TEMP].mode)]
  }

  function Opened(files: Files, archive: Path): Files {
    Create(Create(files, TEMP), archive)
  }

  ghost predicate Accessible(files: Files, archive: Path) {
    archive != TEMP && RegularOrAbsent(files, archive) && RegularOrAbsent(files, TEMP)
  }

  ghost predicate InsertAllowed(files: Files, archive: Path, fnames: seq<Path>, scratch: seq<Block>) {
    && Accessible(files, archive) && |scratch| == |fnames|
    && TEMP !in fnames && AllInsertable(Opened(files, archive), fnames)
  }

  /** The insert command. `g` and `h` are the memory its two header scans find. */
  function InsertEffect(files: Files, archive: Path, fnames: seq<Path>, scratch: seq<Block>, g: Garbage,
                        h: Garbage): Effect
    requires InsertAllowed(files, archive, fnames, scratch)
  {
    var start := Opened(files, archive);
    var file := start[archive].bytes;
    var added := NewEntries(start, fnames, scratch);
    if ScanHeader(file, 0, g.probe, false, g.node).end == Aborted then Effect(Failed(HeaderUnreadable), start)
    else if fnames == [] then Effect(Failed(NoFilesGiven), start)
    else if added == [] then Effect(Failed(NothingInserted), start)
    else if ScanHeader(file, 0, h.probe, StatFails(start, fnames), h.node).end == Aborted then
      var header := InsertedHeader(file, Infos(added), g);
      Effect(Failed(HeaderUnreadable), start[TEMP := start[TEMP].(bytes := Overlay(start[TEMP].bytes, header))])
    else Effect(Completed, Replace(start, archive, InsertedBytes(file, start, fnames, scratch, g, h)))
  }

  /** The header the remove command writes: the surviving records with fresh offsets. */
  function RemovedHeader(file: seq<byte>, names: seq<Path>, g: Garbage): seq<byte> {
    var kept := Select(ScanHeader(file, 0, g.probe, false, g.node).infos, names, true);
    EncodeInfos(WithOffsets(kept, DataStart(|kept|))) + HEADER_ENDING
  }

  /** The records whose slices remove copies. */
  function RemovedSlices(file: seq<byte>, names: seq<Path>, h: Garbage): seq<FileInfo> {
    Select(ScanHeader(file, 0, h.probe, false, h.node).infos, names, true)
  }

  /** The bytes the remove command writes: its header, then the survivors' slices, found by the old offsets. */
  function RemovedBytes(file: seq<byte>, names: seq<Path>, g: Garbage, h: Garbage): seq<byte> {
    RemovedHeader(file, names, g) + Slices(file, RemovedSlices(file, names, h))
  }

  /** The slices `remove` copies lie inside the archive. */
  predicate RemoveInRange(files: Files, archive: Path, names: seq<Path>, h: Garbage) {
    IsRegular(files, archive) ==> InRange(files[archive].bytes, RemovedSlices(files[archive].bytes, names, h))
  }

  function RemoveEffect(files: Files, archive: Path, names: seq<Path>, g: Garbage, h: Garbage): Effect
    requires Accessible(files, archive)
  {
    if names == [] then Effect(Failed(NoFilesGiven), files)
    else if archive !in files then Effect(Failed(OpenFailed), files)
    else
      var start := Create(files, TEMP);
      var file := start[archive].bytes;
      if ScanHeader(file, 0, g.probe, false, g.node).end == Aborted
        || ScanHeader(file, 0, h.probe, false, h.node).end == Aborted
      then Effect(Failed(HeaderUnreadable), start)
      else Effect(Completed, Replace(start, archive, RemovedBytes(file, names, g, h)))
  }

  /** A mode with the owner's write permission, 0200. */
  predicate OwnerWrites(mode: nat) {
    mode / 128 % 2 == 1
  }

  /** A path that `open` with `O_CREAT | O_WRONLY` opens for an ordinary user who owns the files: an absent one or
      a regular file with the owner's write permission. */
  predicate Openable(files: Files, p: Path) {
    p != [] && (p in files ==> files[p].Regular? && OwnerWrites(files[p].mode))
  }

  /** One file written by `extract`: opened without truncation, given the stored mask, overwritten from the
      start. A name that cannot be opened is skipped. */
  function ExtractOne(files: Files, name: Path, mask: uint64, content: seq<byte>): Files {
    if !Openable(files, name) then files
    else files[name := Regular(Overlay(ContentOf(files, name), content), mask % 4096)]
  }

  function ExtractAll(files: Files, file: seq<byte>, rs: seq<FileInfo>): Files
    decreases |rs|
  {
    if rs == [] then files
    else
      var content := Window(file, rs[0].offset, rs[0].filesize);
      ExtractAll(ExtractOne(files, StoredName(rs[0]), rs[0].mask, content), file, rs[1..])
  }

  /** The records `extract` handles: all of them when no names are given, otherwise the listed ones. */
  function Extracted(file: seq<byte>, names: seq<Path>, g: Garbage): seq<FileInfo> {
    var infos := ScanHeader(file, 0, g.probe, false, g.node).infos;
    if names == [] then infos else Select(infos, names, false)
  }

  function ExtractEffect(files: Files, archive: Path, names: seq<Path>, g: Garbage): Effect
    requires RegularOrAbsent(files, archive)
  {
    if archive !in files then Effect(Failed(OpenFailed), files)
    else
      var file := files[archive].bytes;
      if ScanHeader(file, 0, g.probe, false, g.node).end == Aborted then Effect(Failed(HeaderUnreadable), files)
      else Effect(Completed, ExtractAll(files, file, Extracted(file, names, g)))
  }

  /** One round of `extract` on any record, from an archive whose cursor is at `pos`. The name is skipped, or gets
      a piece as `copy_file` copies it: as long as the record says, and beginning with what the archive has there.
      Only when the archive itself is overwritten is the cursor left open. */
  ghost predicate ExtractStep(files: Files, archive: Path, pos: nat, r: FileInfo, files': Files, pos': nat)
    requires IsRegular(files, archive)
  {
    var name, start := StoredName(r), CopyStart(r.offset, pos);
    var got := Window(files[archive].bytes, start, r.filesize);
    if !Openable(files, name) then files' == files && pos' == pos
    else
      && (exists piece :: |piece| == r.filesize && got <= piece && files' == ExtractOne(files, name, r.mask, piece))
      && (name != archive ==> pos' == start + |got|)
  }

  /** `extract` on any list of records: one round after the other. */
  ghost predicate ExtractRun(files: Files, archive: Path, pos: nat, rs: seq<FileInfo>, files': Files)
    requires IsRegular(files, archive)
    decreases |rs|
  {
    if rs == [] then files' == files
    else exists mid, next: nat {:trigger ExtractStep(files, archive, pos, rs[0], mid, next)} ::
      && ExtractStep(files, archive, pos, rs[0], mid, next) && IsRegular(mid, archive)
      && ExtractRun(mid, archive, next, rs[1..], files')
  }
}
