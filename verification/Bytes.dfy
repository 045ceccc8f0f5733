/** Bytes, 64-bit words and their little-endian encoding. */
module Bytes {
  newtype byte = x: int | 0 <= x < 256

  const TWO64: int := 0x1_0000_0000_0000_0000
  const TWO63: int := 0x8000_0000_0000_0000

  type uint64 = x: int | 0 <= x < TWO64

  /** Conversion of a mathematical integer to `uint64_t`. */
  function Wrap(x: nat): uint64 {
    x % TWO64
  }

  /** The running sum of `update_offsets_in_header` wraps at every addition; the result is the wrapped sum. */
  lemma {:induction false} WrapSum(x: nat, y: nat)
    ensures Wrap(Wrap(x) + y) == Wrap(x + y)
  {
    if x >= TWO64 {
      WrapSum(x - TWO64, y);
      WrapDrop(x);
      WrapDrop(x + y);
    }
  }

  lemma {:induction false} WrapDrop(x: nat)
    requires x >= TWO64
    ensures Wrap(x) == Wrap(x - TWO64)
  {
    var q, r := (x - TWO64) / TWO64, (x - TWO64) % TWO64;
    assert x == (q + 1) * TWO64 + r;
  }

  function Pow256(n: nat): (p: nat)
    ensures p > 0
  {
    if n == 0 then 1 else 256 * Pow256(n - 1)
  }

  lemma {:induction false} Pow256Of8()
    ensures Pow256(8) == TWO64
  {
    assert Pow256(4) == 0x1_0000_0000;
    assert Pow256(8) == 256 * (256 * (256 * (256 * Pow256(4))));
  }

  /** The `n` low bytes of `v`, least significant first. */
  function LittleEndian(v: nat, n: nat): (s: seq<byte>)
    ensures |s| == n
  {
    if n == 0 then [] else [(v % 256) as byte] + LittleEndian(v / 256, n - 1)
  }

  function FromLittleEndian(s: seq<byte>): (v: nat)
    ensures v < Pow256(|s|)
  {
    if s == [] then 0 else s[0] as nat + 256 * FromLittleEndian(s[1..])
  }

  lemma {:induction false} LittleEndianRoundTrip(v: nat, n: nat)
    requires v < Pow256(n)
    ensures FromLittleEndian(LittleEndian(v, n)) == v
  {
    if n > 0 {
      LittleEndianRoundTrip(v / 256, n - 1);
      assert LittleEndian(v, n)[1..] == LittleEndian(v / 256, n - 1);
    }
  }

  lemma {:induction false} FromLittleEndianRoundTrip(s: seq<byte>)
    ensures LittleEndian(FromLittleEndian(s), |s|) == s
  {
    if s != [] {
      FromLittleEndianRoundTrip(s[1..]);
      var rest := FromLittleEndian(s[1..]);
      assert (s[0] as nat + 256 * rest) / 256 == rest;
      assert (s[0] as nat + 256 * rest) % 256 == s[0] as nat;
      assert s == [s[0]] + s[1..];
    }
  }

  /** `Overlay(prior, w)` is what a file holding `prior` holds after `w` was written from position 0
      without truncation. */
  function Overlay(prior: seq<byte>, w: seq<byte>): seq<byte> {
    if |prior| <= |w| then w else w + prior[|w|..]
  }

  /** The bytes a write of `data` at position `pos` leaves in a file holding `prior`. */
  function WriteAt(prior: seq<byte>, pos: nat, data: seq<byte>): seq<byte>
    requires pos <= |prior|
  {
    prior[..pos] + data + (if pos + |data| <= |prior| then prior[pos + |data|..] else [])
  }

  /** What was written without truncation is exactly `intended` if and only if the intended bytes were
      written and the file was not longer before. */
  lemma {:induction false} OverlayExact(prior: seq<byte>, w: seq<byte>, intended: seq<byte>)
    requires |intended| <= |w|
    ensures Overlay(prior, w) == intended <==> w == intended && |prior| <= |intended|
  {
    assert |w| <= |Overlay(prior, w)|;
  }
}
