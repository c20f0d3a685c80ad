// Byte buffers and the two C library calls the memory builders use on them:
// memset to zero and memcpy of a constant block at an offset.

module Bytes {

  type byte = bv8

  /** A buffer of `n` zero bytes. */
  function Zeros(n: nat): (z: seq<byte>)
    ensures |z| == n
    ensures forall i :: 0 <= i < n ==> z[i] == 0
  {
    seq(n, _ => 0)
  }

  /** `buf` after `src` is copied over it starting at byte `off`; nothing outside
      [off, off + |src|) changes. */
  function Overlay(buf: seq<byte>, off: nat, src: seq<byte>): (r: seq<byte>)
    requires off + |src| <= |buf|
    ensures |r| == |buf|
  {
    buf[..off] + src + buf[off + |src|..]
  }

  /** Byte `i` of an overlay: from `src` inside [off, off + |src|), from `buf`
      everywhere else. */
  lemma OverlayAt(buf: seq<byte>, off: nat, src: seq<byte>, i: nat)
    requires off + |src| <= |buf| && i < |buf|
    ensures Overlay(buf, off, src)[i] == if off <= i < off + |src| then src[i - off] else buf[i]
  {
    var r := Overlay(buf, off, src);
    if i < off {
      assert r[i] == buf[..off][i];
    } else if i < off + |src| {
      assert r[i] == src[i - off];
    } else {
      assert r[i] == buf[off + |src|..][i - off - |src|];
    }
  }

  /** The copied block reads back whole, and nothing outside it changes. */
  lemma OverlayContents(buf: seq<byte>, off: nat, src: seq<byte>)
    requires off + |src| <= |buf|
    ensures Overlay(buf, off, src)[off..off + |src|] == src
    ensures forall i :: 0 <= i < |buf| && !(off <= i < off + |src|) ==> Overlay(buf, off, src)[i] == buf[i]
  {
    forall i | 0 <= i < |buf|
      ensures Overlay(buf, off, src)[i] == if off <= i < off + |src| then src[i - off] else buf[i]
    {
      OverlayAt(buf, off, src, i);
    }
    assert Overlay(buf, off, src)[off..off + |src|] == src;
  }

  /** memset(a, 0, a.Length) */
  method ZeroFill(a: array<byte>)
    modifies a
    ensures a[..] == Zeros(a.Length)
  {
    forall i | 0 <= i < a.Length {
      a[i] := 0;
    }
  }

  /** memcpy(a + off, src, |src|) */
  method CopyInto(a: array<byte>, off: nat, src: seq<byte>)
    requires off + |src| <= a.Length
    modifies a
    ensures a[..] == Overlay(old(a[..]), off, src)
  {
    forall i | 0 <= i < |src| {
      a[off + i] := src[i];
    }
    forall i | 0 <= i < a.Length
      ensures a[..][i] == Overlay(old(a[..]), off, src)[i]
    {
      OverlayAt(old(a[..]), off, src, i);
    }
  }
}
