// Guest physical address space of the VM: the reset-trampoline region that
// VBAR_EL1 points at, and guest main memory (simplevm.c:67-71, 135, 162).

module Layout {
  import Shm

  /** Access rights of a guest mapping (HV_MEMORY_READ / WRITE / EXEC). */
  datatype Perm = Read | Write | Exec

  /** A guest-physical mapping of `size` bytes at `base`. */
  datatype Region = Region(base: nat, size: nat, perms: set<Perm>)

  /** Guest addresses are 64-bit. */
  const AddressLimit: nat := 0x1_0000_0000_0000_0000

  const TrampolineBase: nat := 0xF000_0000
  const TrampolineSize: nat := 0x1_0000
  const MainBase: nat := 0x8000_0000
  const MainSize: nat := Shm.ShmSize

  /** Reset trampoline: read and execute only. */
  const TrampolineRegion: Region := Region(TrampolineBase, TrampolineSize, {Read, Exec})

  /** Guest main memory: read, write and execute. */
  const MainRegion: Region := Region(MainBase, MainSize, {Read, Write, Exec})

  /** The regions in the order they are mapped. */
  const GuestLayout: seq<Region> := [TrampolineRegion, MainRegion]

  /** Guest address `addr` lies in region `r`. */
  predicate Contains(r: Region, addr: int) {
    r.base <= addr < r.base + r.size
  }

  /** The two address ranges lie one entirely below the other. */
  predicate Disjoint(a: Region, b: Region) {
    a.base + a.size <= b.base || b.base + b.size <= a.base
  }

  predicate Aligned(r: Region, granule: nat)
    requires granule > 0
  {
    r.base % granule == 0 && r.size % granule == 0
  }

  /** Every region is non-empty and inside the 64-bit space, and no two overlap. */
  predicate WellFormed(layout: seq<Region>) {
    && (forall i :: 0 <= i < |layout| ==> 0 < layout[i].size && layout[i].base + layout[i].size <= AddressLimit)
    && (forall i, j :: 0 <= i < j < |layout| ==> Disjoint(layout[i], layout[j]))
  }

  /** For non-empty regions the interval test is exactly "no guest address is in both". */
  lemma DisjointIffNoSharedAddress(a: Region, b: Region)
    requires 0 < a.size && 0 < b.size
    ensures Disjoint(a, b) <==> forall addr :: !(Contains(a, addr) && Contains(b, addr))
  {
    if !Disjoint(a, b) {
      var w := if a.base < b.base then b.base else a.base;
      assert Contains(a, w) && Contains(b, w);
    }
  }

  /** The two guest regions are well formed, with the source's alignments and rights. */
  lemma GuestLayoutValid()
    ensures WellFormed(GuestLayout)
    ensures Disjoint(TrampolineRegion, MainRegion)
    ensures Aligned(TrampolineRegion, 0x1_0000)
    ensures Aligned(MainRegion, 0x1000)
    ensures TrampolineRegion.perms == {Read, Exec}
    ensures MainRegion.perms == {Read, Write, Exec}
  {
  }
}
