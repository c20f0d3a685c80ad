// The producer (prepare_vm_mem.c): creates the shared-memory object the VM maps
// as main memory, sizes it, writes the guest code into it through a mapping and
// drops the mapping. Each step that can fail ends the program with its code.

module Producer {
  import opened Bytes
  import GuestMemory
  import PosixShm
  import Shm
  import Layout
  import opened Errno

  /** The producer's own copy of the object name. */
  const ShmId: string := "/vhost-user-memory"

  /** The producer's own copy of s_ckVMCode. */
  const VmCode: seq<byte> := [
    0x40, 0x00, 0x80, 0xD2,
    0x00, 0x08, 0x00, 0x91,
    0x00, 0x04, 0x00, 0xD1,
    0x03, 0x00, 0x00, 0xD4,
    0x02, 0x00, 0x00, 0xD4,
    0x00, 0x00, 0x20, 0xD4]

  const MainMemAddress: nat := 0x8000_0000
  const MainMemSize: nat := 0x100_0000

  /** What the host answers to each call, where the model does not decide it. */
  datatype HostFaults = HostFaults(
    unlinkRefused: bool,
    openFails: bool,
    truncateFails: bool,
    mapFails: bool,
    unmapFails: bool)

  /** The steps of the producer, in program order. */
  datatype Phase = Unlink | Open | Truncate | Map | Fill | Unmap

  const AllPhases: seq<Phase> := [Unlink, Open, Truncate, Map, Fill, Unmap]

  /** The exclusive create succeeds: the host does not refuse it, and no object of
      that name is left, because the preceding unlink removed any stale one. */
  predicate CreateSucceeds(stale: map<string, nat>, f: HostFaults) {
    !f.openFails && !(ShmId in stale && f.unlinkRefused)
  }

  /** The program `main`: returns its exit code, the steps it ran (the last one is
      the one that failed, if any) and, once the fill ran, the bytes it wrote. */
  method PrepareVmMem(ns: PosixShm.Namespace, f: HostFaults) returns (rc: int, steps: seq<Phase>, image: array?<byte>)
    modifies ns
    ensures 2 <= |steps| <= |AllPhases| && steps == AllPhases[..|steps|] && |steps| != 5
    ensures 2 < |steps| <==> CreateSucceeds(old(ns.objects), f)
    ensures 3 < |steps| <==> CreateSucceeds(old(ns.objects), f) && !f.truncateFails
    ensures 4 < |steps| <==> CreateSucceeds(old(ns.objects), f) && !f.truncateFails && !f.mapFails
    ensures rc == -ENOMEM <==> |steps| < |AllPhases|
    ensures rc == 40 <==> |steps| == |AllPhases| && f.unmapFails
    ensures rc == 0 <==> |steps| == |AllPhases| && !f.unmapFails
    ensures |steps| == |AllPhases| ==>
      image != null && fresh(image) && image[..] == GuestMemory.MainImage(MainMemSize, VmCode)
    ensures var unlinked := if f.unlinkRefused then old(ns.objects) else old(ns.objects) - {ShmId};
      ns.objects ==
        if 3 < |steps| then unlinked[ShmId := MainMemSize]
        else if 2 < |steps| then unlinked[ShmId := 0]
        else unlinked
  {
    image := null;
    // The result of the unlink is ignored: the name is usually absent.
    var _ := ns.Unlink(ShmId, f.unlinkRefused);
    steps := [Unlink, Open];
    var created := ns.CreateExclusive(ShmId, f.openFails);
    if !created {
      return -ENOMEM, steps, image;
    }
    steps := steps + [Truncate];
    var sized := ns.Truncate(ShmId, MainMemSize, f.truncateFails);
    if !sized {
      return -ENOMEM, steps, image;
    }
    steps := steps + [Map];
    if f.mapFails {
      return -ENOMEM, steps, image;
    }
    image := new byte[MainMemSize];
    steps := steps + [Fill];
    GuestMemory.BuildMainMemory(image, VmCode);
    steps := steps + [Unmap];
    if f.unmapFails {
      return 40, steps, image;
    }
    return 0, steps, image;
  }

  /** Unless the host refuses the unlink, a stale object of the same name never
      makes the exclusive create fail. */
  lemma StaleObjectHarmless(stale: map<string, nat>, f: HostFaults)
    requires !f.unlinkRefused
    ensures CreateSucceeds(stale, f) <==> !f.openFails
  {
  }

  /** The producer and the VM agree on the object name, its size, the guest code
      and where main memory sits. */
  lemma AgreesWithVm()
    ensures ShmId == Shm.ShmId
    ensures MainMemSize == Shm.ShmSize == Layout.MainSize
    ensures MainMemAddress == Layout.MainBase
    ensures VmCode == GuestMemory.VmCode
  {
  }

  /** What the producer leaves in the object's first 24 bytes is the guest code,
      and every byte after it is zero. */
  lemma ImageLayout()
    ensures |GuestMemory.MainImage(MainMemSize, VmCode)| == MainMemSize
    ensures GuestMemory.MainImage(MainMemSize, VmCode)[..24] == VmCode
    ensures forall i :: 24 <= i < MainMemSize ==> GuestMemory.MainImage(MainMemSize, VmCode)[i] == 0
  {
    GuestMemory.MainImageLayout(MainMemSize, VmCode);
  }
}
