// Initial contents of the two guest regions: the reset trampoline built by
// VmpPrepareSystemMemory (simplevm.c:122-132) and main memory, zero-filled with
// the guest code at its start (prepare_vm_mem.c:52-53, simplevm.c:157-158).
// Instruction bytes are opaque here; their encodings are not interpreted.

module GuestMemory {
  import opened Bytes
  import Layout

  /** s_cArm64ResetVector: `svc #0; brk #0`. */
  const ResetVector: seq<byte> := [0x01, 0x00, 0x00, 0xD4, 0x00, 0x00, 0x20, 0xD4]

  /** s_cArm64ResetTramp: `mov x0, #0x80000000; br x0; brk #0`. */
  const ResetTramp: seq<byte> := [0x00, 0x00, 0xB0, 0xD2, 0x00, 0x00, 0x1F, 0xD6, 0x00, 0x00, 0x20, 0xD4]

  /** s_ckVMCode as the VM declares it: `mov; add; sub; smc; hvc; brk`. */
  const VmCode: seq<byte> := [
    0x40, 0x00, 0x80, 0xD2,
    0x00, 0x08, 0x00, 0x91,
    0x00, 0x04, 0x00, 0xD1,
    0x03, 0x00, 0x00, 0xD4,
    0x02, 0x00, 0x00, 0xD4,
    0x00, 0x00, 0x20, 0xD4]

  /** The stub loop runs while the offset is below this bound. */
  const SlotLimit: nat := 0x780

  /** Number of stubs the loop copies, 0x80 bytes (one vector-table entry) apart:
      offsets 0, 0x80, ..., 0x700. */
  const SlotCount: nat := 15

  /** Offset of the reset vector inside the trampoline. */
  const VectorOffset: nat := 0x800

  // ---------------------------------------------------------------------
  // Reset trampoline

  /** The trampoline buffer after the memset and the first `n` copies of `stub`,
      0x80 bytes apart. */
  function StubsCopied(n: nat, stub: seq<byte>): (r: seq<byte>)
    requires n <= SlotCount && |stub| <= 0x80
    ensures |r| == Layout.TrampolineSize
  {
    if n == 0 then Zeros(Layout.TrampolineSize)
    else Overlay(StubsCopied(n - 1, stub), (n - 1) * 0x80, stub)
  }

  /** The trampoline once VmpPrepareSystemMemory has filled it. */
  function TrampolineImage(): (r: seq<byte>)
    ensures |r| == Layout.TrampolineSize
  {
    Overlay(StubsCopied(SlotCount, ResetTramp), VectorOffset, ResetVector)
  }

  /** Byte `i` lies in the copy of the stub made at some slot offset below SlotLimit. */
  predicate InStub(i: nat) {
    i < SlotLimit && i % 0x80 < |ResetTramp|
  }

  /** Byte `i` lies in the reset vector. */
  predicate InVector(i: nat) {
    VectorOffset <= i < VectorOffset + |ResetVector|
  }

  /** The stub is present at offset `o` of `img`. */
  predicate StubAt(img: seq<byte>, o: nat) {
    o + |ResetTramp| <= |img| && forall k :: 0 <= k < |ResetTramp| ==> img[o + k] == ResetTramp[k]
  }

  /** After `n` copies, byte `i` holds the stub byte if one of the first `n` slots
      covers it and zero otherwise. */
  lemma StubsCopiedAt(n: nat, i: nat)
    requires n <= SlotCount && i < Layout.TrampolineSize
    ensures StubsCopied(n, ResetTramp)[i] ==
      if i < n * 0x80 && i % 0x80 < |ResetTramp| then ResetTramp[i % 0x80] else 0
  {
    var q, r := i / 0x80, i % 0x80;
    assert i == q * 0x80 + r;
    StubsCopiedInSlot(n, ResetTramp, q, r);
  }

  /** Byte `r` of slot `q` after `n` copies of any stub, by induction on `n`. */
  lemma {:induction false} StubsCopiedInSlot(n: nat, stub: seq<byte>, q: nat, r: nat)
    requires n <= SlotCount && |stub| <= 0x80 && r < 0x80 && q * 0x80 + r < Layout.TrampolineSize
    ensures StubsCopied(n, stub)[q * 0x80 + r] == if q < n && r < |stub| then stub[r] else 0
  {
    if n > 0 {
      var o := (n - 1) * 0x80;
      var i := q * 0x80 + r;
      OverlayAt(StubsCopied(n - 1, stub), o, stub, i);
      StubsCopiedInSlot(n - 1, stub, q, r);
      if q == n - 1 {
        assert i - o == r;
      } else {
        assert !(o <= i < o + |stub|);
      }
    }
  }

  /** Byte-level description of the finished trampoline: the stub at every slot
      below SlotLimit, the reset vector at VectorOffset, zero everywhere else. */
  lemma TrampolineImageAt(i: nat)
    requires i < Layout.TrampolineSize
    ensures TrampolineImage()[i] ==
      if InStub(i) then ResetTramp[i % 0x80]
      else if InVector(i) then ResetVector[i - VectorOffset]
      else 0
  {
    var q, r := i / 0x80, i % 0x80;
    assert i == q * 0x80 + r;
    StubsCopiedInSlot(SlotCount, ResetTramp, q, r);
    VectorInSlot(StubsCopied(SlotCount, ResetTramp), ResetVector, q, r,
      if q < SlotCount && r < |ResetTramp| then ResetTramp[r] else 0);
    if q < SlotCount {
      assert i < SlotLimit && !InVector(i);
    } else if q == 0x10 {
      assert !InStub(i) && (InVector(i) <==> r < |ResetVector|) && i - VectorOffset == r;
    } else {
      assert !InStub(i) && !InVector(i);
    }
  }

  /** Placing `vector` at VectorOffset over a buffer whose byte `r` of slot `q` is
      `b` leaves `b` there unless the vector covers it. */
  lemma VectorInSlot(base: seq<byte>, vector: seq<byte>, q: nat, r: nat, b: byte)
    requires |base| == Layout.TrampolineSize && |vector| <= 0x80
    requires r < 0x80 && q * 0x80 + r < Layout.TrampolineSize && base[q * 0x80 + r] == b
    ensures Overlay(base, VectorOffset, vector)[q * 0x80 + r] ==
      if q == 0x10 && r < |vector| then vector[r] else b
  {
    var i := q * 0x80 + r;
    OverlayAt(base, VectorOffset, vector, i);
    if q < 0x10 {
      assert i < VectorOffset;
    } else if q == 0x10 {
      assert i - VectorOffset == r;
    } else {
      assert i >= VectorOffset + 0x80;
    }
  }

  /** Every slot offset below SlotLimit holds the stub. */
  lemma StubsInEverySlot(o: nat)
    requires o < SlotLimit && o % 0x80 == 0
    ensures StubAt(TrampolineImage(), o)
  {
    forall k | 0 <= k < |ResetTramp|
      ensures TrampolineImage()[o + k] == ResetTramp[k]
    {
      SlotOffset(o, k);
      TrampolineImageAt(o + k);
    }
  }

  /** Byte `k` of the slot at `o` is byte `k` of its stub, and lies below SlotLimit. */
  lemma SlotOffset(o: nat, k: nat)
    requires o < SlotLimit && o % 0x80 == 0 && k < |ResetTramp|
    ensures (o + k) % 0x80 == k && InStub(o + k)
  {
    var q := o / 0x80;
    assert o == q * 0x80;
    assert q <= 14;
  }

  /** The reset vector sits at VectorOffset. */
  lemma ResetVectorPresent()
    ensures TrampolineImage()[VectorOffset..VectorOffset + |ResetVector|] == ResetVector
  {
    var img := TrampolineImage();
    forall k | 0 <= k < |ResetVector|
      ensures img[VectorOffset + k] == ResetVector[k]
    {
      TrampolineImageAt(VectorOffset + k);
    }
  }

  /** The three promises the trampoline builder keeps. */
  lemma TrampolineImageLayout()
    ensures forall o :: 0 <= o < SlotLimit && o % 0x80 == 0 ==> StubAt(TrampolineImage(), o)
    ensures TrampolineImage()[VectorOffset..VectorOffset + |ResetVector|] == ResetVector
    ensures forall i :: 0 <= i < Layout.TrampolineSize && !InStub(i) && !InVector(i) ==> TrampolineImage()[i] == 0
  {
    forall o | 0 <= o < SlotLimit && o % 0x80 == 0
      ensures StubAt(TrampolineImage(), o)
    {
      StubsInEverySlot(o);
    }
    ResetVectorPresent();
    forall i | 0 <= i < Layout.TrampolineSize && !InStub(i) && !InVector(i)
      ensures TrampolineImage()[i] == 0
    {
      TrampolineImageAt(i);
    }
  }

  /** The slot at SlotLimit, the last 0x80 bytes below the reset vector, stays zero. */
  lemma LastSlotEmpty()
    ensures forall i :: SlotLimit <= i < VectorOffset ==> TrampolineImage()[i] == 0
  {
    forall i | SlotLimit <= i < VectorOffset
      ensures TrampolineImage()[i] == 0
    {
      TrampolineImageAt(i);
    }
  }

  /** Zero-fill `mem`, copy the stub at every 0x80 step below 0x780, then the reset
      vector at 0x800 (simplevm.c:127-132). */
  method BuildTrampoline(mem: array<byte>)
    requires mem.Length == Layout.TrampolineSize
    modifies mem
    ensures mem[..] == TrampolineImage()
  {
    ZeroFill(mem);
    var offset: nat := 0;
    ghost var copied: nat := 0;
    while offset < SlotLimit
      invariant copied <= SlotCount && offset == copied * 0x80
      invariant mem[..] == StubsCopied(copied, ResetTramp)
    {
      CopyInto(mem, offset, ResetTramp);
      offset := offset + 0x80;
      copied := copied + 1;
    }
    assert copied == SlotCount;
    CopyInto(mem, VectorOffset, ResetVector);
  }

  // ---------------------------------------------------------------------
  // Main memory

  /** A `size`-byte main memory holding `code` at its start and zero after it. */
  function MainImage(size: nat, code: seq<byte>): (r: seq<byte>)
    requires |code| <= size
  {
    Overlay(Zeros(size), 0, code)
  }

  /** The main image starts with the code and is zero after it. */
  lemma MainImageLayout(size: nat, code: seq<byte>)
    requires |code| <= size
    ensures |MainImage(size, code)| == size
    ensures MainImage(size, code)[..|code|] == code
    ensures forall i :: |code| <= i < size ==> MainImage(size, code)[i] == 0
  {
  }

  /** memset the whole buffer to zero, then memcpy `code` to its start. */
  method BuildMainMemory(mem: array<byte>, code: seq<byte>)
    requires |code| <= mem.Length
    modifies mem
    ensures mem[..] == MainImage(mem.Length, code)
  {
    ZeroFill(mem);
    CopyInto(mem, 0, code);
  }
}
