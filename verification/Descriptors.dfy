/** Open files: the bytes of the file and the cursor that `read`, `write` and `lseek` share. */
module Descriptors {
  import opened Bytes

  const BUFFER_SIZE: nat := 1024

  /** The bytes a read of `n` bytes at `pos` delivers: fewer than `n` only at the end of the file. */
  function Window(file: seq<byte>, pos: nat, n: nat): (w: seq<byte>)
    ensures |w| <= n
  {
    if |file| <= pos then []
    else if pos + n <= |file| then file[pos..pos + n]
    else file[pos..]
  }

  lemma {:induction false} WriteAtTwice(prior: seq<byte>, pos: nat, x: seq<byte>, y: seq<byte>)
    requires pos <= |prior|
    ensures pos + |x| <= |WriteAt(prior, pos, x)|
    ensures WriteAt(WriteAt(prior, pos, x), pos + |x|, y) == WriteAt(prior, pos, x + y)
  {
    var once := WriteAt(prior, pos, x);
    assert once[..pos + |x|] == prior[..pos] + x;
    if pos + |x + y| <= |prior| {
      assert once[pos + |x| + |y|..] == prior[pos + |x + y|..];
    }
  }

  class Descriptor {
    var bytes: seq<byte>
    var pos: nat

    constructor (bytes: seq<byte>)
      ensures this.bytes == bytes && pos == 0
    {
      this.bytes, pos := bytes, 0;
    }

    /** A read that delivers a full block unless the file ends first. */
    method Read(n: nat) returns (chunk: seq<byte>)
      modifies this`pos
      ensures chunk == Window(bytes, old(pos), n) && pos == old(pos) + |chunk|
    {
      chunk := if |bytes| <= pos then [] else if pos + n <= |bytes| then bytes[pos..pos + n] else bytes[pos..];
      pos := pos + |chunk|;
    }

    /** A read that may deliver less than it was asked for, but nothing only at the end of the file. */
    method ReadSome(n: nat) returns (chunk: seq<byte>)
      requires 0 < n
      modifies this`pos
      ensures chunk <= Window(bytes, old(pos), n) && pos == old(pos) + |chunk|
      ensures chunk == [] <==> |bytes| <= old(pos)
    {
      if |bytes| <= pos {
        return [];
      }
      var k: nat :| 1 <= k <= n && pos + k <= |bytes|;
      chunk := bytes[pos..pos + k];
      assert Window(bytes, pos, n)[..k] == chunk;
      pos := pos + k;
    }

    method Write(data: seq<byte>)
      requires pos <= |bytes|
      modifies this
      ensures bytes == WriteAt(old(bytes), old(pos), data) && pos == old(pos) + |data|
    {
      bytes := bytes[..pos] + data + if pos + |data| <= |bytes| then bytes[pos + |data|..] else [];
      pos := pos + |data|;
    }

    /** A write at `at` through another descriptor of the same file; the cursor of this one stays. */
    method WrittenElsewhere(at: nat, data: seq<byte>)
      requires at <= |bytes|
      modifies this`bytes
      ensures bytes == WriteAt(old(bytes), at, data)
    {
      bytes := bytes[..at] + data + if at + |data| <= |bytes| then bytes[at + |data|..] else [];
    }

    /** `lseek(fd, off, SEEK_SET)`: the unsigned offset is taken as a signed one, and a negative one fails. */
    method SeekTo(off: uint64) returns (ok: bool)
      modifies this`pos
      ensures ok <==> off < TWO63
      ensures pos == if ok then off else old(pos)
    {
      ok := off < TWO63;
      if ok {
        pos := off;
      }
    }

    /** `lseek(fd, -n, SEEK_CUR)`. */
    method SeekBack(n: nat) returns (ok: bool)
      modifies this`pos
      ensures ok <==> n <= old(pos)
      ensures pos == if ok then old(pos) - n else old(pos)
    {
      ok := n <= pos;
      if ok {
        pos := pos - n;
      }
    }

    /** `lseek(fd, 0, SEEK_END)`. */
    method SeekEnd() returns (at: nat)
      modifies this`pos
      ensures at == pos == |bytes|
    {
      pos := |bytes|;
      at := pos;
    }
  }

  /** Where `copy_file` starts to read. */
  function CopyStart(offset: uint64, cursor: nat): nat {
    if offset < TWO63 then offset else cursor
  }

  /** Appends `bytes` bytes of `source` to `target`, in blocks. `written` is what was written: always
      `bytes` long, beginning with the bytes that exist at `offset`; past the end of `source` it is stale
      buffer contents. */
  method CopyFile(source: Descriptor, target: Descriptor, bytes: uint64, offset: uint64)
    returns (ghost written: seq<byte>)
    requires source != target && target.pos <= |target.bytes|
    modifies source`pos, target
    ensures |written| == bytes
    ensures Window(source.bytes, CopyStart(offset, old(source.pos)), bytes) <= written
    ensures target.bytes == WriteAt(old(target.bytes), old(target.pos), written)
    ensures target.pos == old(target.pos) + bytes
    ensures var start := CopyStart(offset, old(source.pos));
      source.pos == start + |Window(source.bytes, start, bytes)|
  {
    var _ := source.SeekTo(offset);
    ghost var start := source.pos;
    var memory := new byte[BUFFER_SIZE];  // holds anything at all; what a short read leaves is stale
    var buf := memory[..];
    var left: uint64 := bytes;
    written := [];
    while left > BUFFER_SIZE
      invariant |buf| == BUFFER_SIZE && |written| + left == bytes
      invariant source.pos == start + |Window(source.bytes, start, |written|)|
      invariant Window(source.bytes, start, |written|) <= written
      invariant target.bytes == WriteAt(old(target.bytes), old(target.pos), written)
      invariant target.pos == old(target.pos) + |written| <= |target.bytes|
    {
      buf, written := CopyBlock(source, target, BUFFER_SIZE, buf, start, written, old(target.bytes), old(target.pos));
      left := left - BUFFER_SIZE;
    }
    if left > 0 {
      buf, written := CopyBlock(source, target, left, buf, start, written, old(target.bytes), old(target.pos));
    }
  }

  /** One block of `CopyFile`: reads up to `n` bytes into the buffer and writes `n` bytes of the buffer. */
  method CopyBlock(source: Descriptor, target: Descriptor, n: nat, buf: seq<byte>, ghost start: nat,
                   ghost written: seq<byte>, ghost prior: seq<byte>, ghost at: nat)
    returns (buf': seq<byte>, ghost written': seq<byte>)
    requires source != target && |buf| == BUFFER_SIZE && n <= BUFFER_SIZE && at <= |prior|
    requires source.pos == start + |Window(source.bytes, start, |written|)|
    requires Window(source.bytes, start, |written|) <= written
    requires target.bytes == WriteAt(prior, at, written) && target.pos == at + |written|
    modifies source`pos, target
    ensures |buf'| == BUFFER_SIZE && |written'| == |written| + n
    ensures source.pos == start + |Window(source.bytes, start, |written'|)|
    ensures Window(source.bytes, start, |written'|) <= written'
    ensures target.bytes == WriteAt(prior, at, written') && target.pos == at + |written'| <= |target.bytes|
  {
    WriteAtTwice(prior, at, written, []);
    var chunk := source.Read(n);
    buf' := chunk + buf[|chunk|..];
    var block := buf'[..n];
    assert chunk <= block;
    written' := written + block;
    CopyStep(source.bytes, start, written, block);
    WriteAtTwice(prior, at, written, block);
    target.Write(block);
  }

  lemma {:induction false} CopyStep(file: seq<byte>, start: nat, written: seq<byte>, block: seq<byte>)
    requires Window(file, start, |written|) <= written
    requires Window(file, start + |Window(file, start, |written|)|, |block|) <= block
    ensures var first, w := Window(file, start, |written|), Window(file, start, |written + block|);
      w <= written + block && |w| == |first| + |Window(file, start + |first|, |block|)|
  {
    var first := Window(file, start, |written|);
    var second := Window(file, start + |first|, |block|);
    var w := Window(file, start, |written + block|);
    if start < |file| && |first| == |written| {
      assert w[..|first|] == first == written;
      assert w[|first|..] == second == block[..|second|];
      assert w == written + block[..|second|];
    } else {
      assert second == [] && w == first;
      assert w == written[..|first|] == (written + block)[..|first|];
    }
  }

  /** `copy_file` between two descriptors of one file, with the target's cursor at the start. Every block is read
      before the copy overwrites it, so what exists at `offset` arrives as it was. */
  method CopyWithin(source: Descriptor, bytes: uint64, offset: uint64) returns (ghost written: seq<byte>)
    modifies source
    ensures |written| == bytes
    ensures Window(old(source.bytes), CopyStart(offset, old(source.pos)), bytes) <= written
    ensures source.bytes == Overlay(old(source.bytes), written)
  {
    var _ := source.SeekTo(offset);
    ghost var before, start := source.bytes, source.pos;
    var memory := new byte[BUFFER_SIZE];  // holds anything at all; what a short read leaves is stale
    var buf := memory[..];
    var left: uint64 := bytes;
    var at: nat := 0;
    written := [];
    assert Overlay(before, []) == before;
    while left > BUFFER_SIZE
      invariant |buf| == BUFFER_SIZE && at + left == bytes
      invariant CopiedWithin(source.bytes, source.pos, before, start, at, written)
    {
      buf, written := CopyBlockWithin(source, BUFFER_SIZE, buf, at, before, start, written);
      left, at := left - BUFFER_SIZE, at + BUFFER_SIZE;
    }
    if left > 0 {
      buf, written := CopyBlockWithin(source, left, buf, at, before, start, written);
    }
  }

  /** `at` bytes were copied: they are `written` over the start of the file, they begin with what existed at `start`,
      and while no read was short the cursor is behind what was read. */
  ghost predicate CopiedWithin(now: seq<byte>, pos: nat, before: seq<byte>, start: nat, at: nat, written: seq<byte>) {
    && |written| == at && Window(before, start, at) <= written
    && now == Overlay(before, written)
    && (|Window(before, start, at)| == at ==> pos == start + at)
  }

  /** One block of `CopyWithin`. */
  method CopyBlockWithin(source: Descriptor, n: nat, buf: seq<byte>, at: nat, ghost before: seq<byte>,
                         ghost start: nat, ghost written: seq<byte>)
    returns (buf': seq<byte>, ghost written': seq<byte>)
    requires |buf| == BUFFER_SIZE && n <= BUFFER_SIZE
    requires CopiedWithin(source.bytes, source.pos, before, start, at, written)
    modifies source
    ensures |buf'| == BUFFER_SIZE
    ensures CopiedWithin(source.bytes, source.pos, before, start, at + n, written')
  {
    ghost var now, pos := source.bytes, source.pos;
    var chunk := source.Read(n);
    buf' := chunk + buf[|chunk|..];
    var block := buf'[..n];
    assert chunk <= block;
    written' := written + block;
    OneMoreBlock(now, pos, before, start, at, written, chunk, block);
    source.WrittenElsewhere(at, block);
  }

  lemma {:induction false} OneMoreBlock(now: seq<byte>, pos: nat, before: seq<byte>, start: nat, at: nat,
                                        written: seq<byte>, chunk: seq<byte>, block: seq<byte>)
    requires CopiedWithin(now, pos, before, start, at, written)
    requires chunk == Window(now, pos, |block|) && chunk <= block
    ensures at <= |now|
    ensures CopiedWithin(WriteAt(now, at, block), pos + |chunk|, before, start, at + |block|, written + block)
  {
    OverlayAgain(before, written, block);
    if |Window(before, start, at)| == at {
      BehindOverlay(before, written, pos, |block|);
      assert at == 0 ==> Window(before, start, at) == [] == written;
      CopyStep(before, start, written, block);
    } else {
      ShortWindow(before, start, at, at + |block|);
      assert (written + block)[..|written|] == written;
    }
  }

  lemma {:induction false} OverlayAgain(before: seq<byte>, written: seq<byte>, block: seq<byte>)
    ensures |written| <= |Overlay(before, written)|
    ensures WriteAt(Overlay(before, written), |written|, block) == Overlay(before, written + block)
  {
    var now := Overlay(before, written);
    assert now[..|written|] == written;
    if |written + block| < |before| {
      assert now[|written + block|..] == before[|written + block|..];
    }
  }

  /** What lies behind an overlay is as it was. */
  lemma {:induction false} BehindOverlay(before: seq<byte>, w: seq<byte>, pos: nat, n: nat)
    requires |w| <= pos
    ensures Window(Overlay(before, w), pos, n) == Window(before, pos, n)
  {
  }

  /** A window that ends with the file does not grow. */
  lemma {:induction false} ShortWindow(file: seq<byte>, start: nat, m: nat, n: nat)
    requires |Window(file, start, m)| < m <= n
    ensures Window(file, start, n) == Window(file, start, m)
  {
  }

  /** The bytes from `pos` to the end. */
  function Rest(file: seq<byte>, pos: nat): seq<byte> {
    if |file| <= pos then [] else file[pos..]
  }

  lemma {:induction false} WindowExtends(file: seq<byte>, start: nat, m: nat, chunk: seq<byte>, n: nat)
    requires chunk <= Window(file, start + m, n)
    ensures Window(file, start, m) + chunk == Window(file, start, m + |chunk|) || chunk == []
  {
    if chunk != [] {
      assert chunk == file[start + m..start + m + |chunk|];
    }
  }

  /** Copies the rest of `source`, whatever amounts the single reads deliver. */
  method CopyRest(source: Descriptor, target: Descriptor)
    requires source != target && target.pos <= |target.bytes|
    modifies source`pos, target
    ensures target.bytes == WriteAt(old(target.bytes), old(target.pos), Rest(source.bytes, old(source.pos)))
    ensures target.pos == old(target.pos) + |Rest(source.bytes, old(source.pos))|
  {
    ghost var start, written: seq<byte> := source.pos, [];
    while true
      invariant start <= source.pos && written == Window(source.bytes, start, source.pos - start)
      invariant target.bytes == WriteAt(old(target.bytes), old(target.pos), written)
      invariant target.pos == old(target.pos) + |written| <= |target.bytes|
      decreases |source.bytes| - source.pos
    {
      ghost var m := source.pos - start;
      var chunk := source.ReadSome(BUFFER_SIZE);
      if chunk == [] {
        break;
      }
      WindowExtends(source.bytes, start, m, chunk, BUFFER_SIZE);
      WriteAtTwice(old(target.bytes), old(target.pos), written, chunk);
      target.Write(chunk);
      written := written + chunk;
    }
    assert written == Rest(source.bytes, start);
  }
}
