// The VM program (simplevm.c) as built with SHM and SHM_UDS defined: memory
// preparation in VmpPrepareSystemMemory, the private-memory alternative used
// when SHM is not defined, and `main` from vCPU creation through teardown.
// The hypervisor calls the program asserts on are taken to succeed; the results
// of the two destroy calls are ignored by the program and have no failure here.

module SimpleVm {
  import opened Bytes
  import opened Layout
  import GuestMemory
  import opened Registers
  import opened ExitDispatch
  import opened VirtualCpu
  import PosixShm
  import Shm
  import opened Errno

  /** VmpPrepareSystemMemory: allocate and fill the trampoline and map it, then map
      the main memory received from the producer. Returns the code, the trampoline
      buffer when it was allocated, and the guest regions mapped in order.
      `trampolineAllocated` is the outcome of posix_memalign, `memfd` what
      RecvRemoteMemFd returned, and `mainMapped` whether mmap succeeded. */
  method PrepareSystemMemory(trampolineAllocated: bool, memfd: int, mainMapped: bool)
    returns (rc: int, trampoline: array?<byte>, mapped: seq<Region>)
    ensures rc == 0 || rc == -ENOMEM
    ensures rc == 0 <==> trampolineAllocated && 0 <= memfd && mainMapped
    ensures (trampoline != null) == trampolineAllocated
    ensures trampoline != null ==> fresh(trampoline) && trampoline[..] == GuestMemory.TrampolineImage()
    ensures mapped == if rc == 0 then GuestLayout else if trampolineAllocated then [TrampolineRegion] else []
  {
    mapped := [];
    if !trampolineAllocated {
      return -ENOMEM, null, mapped;
    }
    trampoline := new byte[TrampolineSize];
    GuestMemory.BuildTrampoline(trampoline);
    mapped := mapped + [TrampolineRegion];
    if memfd < 0 {
      return -ENOMEM, trampoline, mapped;
    }
    if !mainMapped {
      return -ENOMEM, trampoline, mapped;
    }
    mapped := mapped + [MainRegion];
    rc := 0;
  }

  /** The branch taken when SHM is not defined: main memory is private, allocated
      here and filled with the guest code by the VM itself. */
  method PreparePrivateMainMemory(memalignSucceeded: bool) returns (rc: int, main: array?<byte>)
    ensures rc == 0 || rc == -ENOMEM
    ensures rc == 0 <==> memalignSucceeded
    ensures (main != null) == memalignSucceeded
    ensures main != null ==> fresh(main) && main[..] == GuestMemory.MainImage(MainSize, GuestMemory.VmCode)
  {
    if !memalignSucceeded {
      return -ENOMEM, null;
    }
    main := new byte[MainSize];
    GuestMemory.BuildMainMemory(main, GuestMemory.VmCode);
    rc := 0;
  }

  /** Host calls made when the program shuts down. */
  datatype HostCall = DestroyVcpu | DestroyVm | FreeTrampoline | UnmapMain | UnlinkShm

  const ReleaseCalls: seq<HostCall> := [DestroyVcpu, DestroyVm, FreeTrampoline, UnmapMain]

  /** Teardown: the vCPU goes before the VM, then the memory; a failed munmap ends
      the program with 40 before the name is removed, a failed shm_unlink with 100. */
  method Teardown(ns: PosixShm.Namespace, unmapFails: bool, unlinkRefused: bool)
    returns (rc: int, calls: seq<HostCall>)
    modifies ns
    ensures calls == ReleaseCalls + (if unmapFails then [] else [UnlinkShm])
    ensures rc == 40 <==> unmapFails
    ensures rc == 100 <==> !unmapFails && (Shm.ShmId !in old(ns.objects) || unlinkRefused)
    ensures rc == 0 <==> !unmapFails && Shm.ShmId in old(ns.objects) && !unlinkRefused
    ensures ns.objects == if rc == 0 then old(ns.objects) - {Shm.ShmId} else old(ns.objects)
  {
    calls := [DestroyVcpu, DestroyVm, FreeTrampoline, UnmapMain];
    if unmapFails {
      return 40, calls;
    }
    calls := calls + [UnlinkShm];
    var unlinked := ns.Unlink(Shm.ShmId, unlinkRefused);
    if !unlinked {
      return 100, calls;
    }
    rc := 0;
  }

  /** How the program ends: abort() when memory preparation fails, else an exit code. */
  datatype Outcome = Aborted | Exited(code: int)

  /** `main`: prepare memory, create and seed the vCPU, run the dispatch loop over
      `exits` (what successive hv_vcpu_run calls return), tear down. Besides the
      outcome it returns the vCPU as it stood when destroyed, the trampoline
      buffer and the guest regions mapped. */
  method RunVm(
    ns: PosixShm.Namespace, initial: RegFile,
    trampolineAllocated: bool, memfd: int, mainMapped: bool,
    exits: seq<Exit>, unmapFails: bool, unlinkRefused: bool)
    returns (outcome: Outcome, events: seq<Event>, calls: seq<HostCall>,
             vcpu: Vcpu?, trampoline: array?<byte>, mapped: seq<Region>)
    requires Complete(initial)
    modifies ns
    ensures outcome == Aborted <==> !(trampolineAllocated && 0 <= memfd && mainMapped)
    ensures outcome == Aborted ==>
      && events == [] && calls == [] && vcpu == null && ns.objects == old(ns.objects)
      && mapped == (if trampolineAllocated then [TrampolineRegion] else [])
    ensures (trampoline != null) == trampolineAllocated
    ensures trampoline != null ==> fresh(trampoline) && trampoline[..] == GuestMemory.TrampolineImage()
    ensures outcome != Aborted ==>
      && mapped == GuestLayout
      && vcpu != null && fresh(vcpu) && vcpu.Valid()
      && vcpu.trapDebugExceptions
      && vcpu.regs == Run(Seeded(initial), exits).regs
      && vcpu.accesses == SeedWrites + Run(Seeded(initial), exits).accesses
      && events == Run(Seeded(initial), exits).events
      && calls == ReleaseCalls + (if unmapFails then [] else [UnlinkShm])
      && outcome.code in {0, 40, 100}
      && (outcome.code == 40 <==> unmapFails)
      && (outcome.code == 0 <==> !unmapFails && Shm.ShmId in old(ns.objects) && !unlinkRefused)
      && ns.objects == if outcome.code == 0 then old(ns.objects) - {Shm.ShmId} else old(ns.objects)
  {
    var rc;
    rc, trampoline, mapped := PrepareSystemMemory(trampolineAllocated, memfd, mainMapped);
    if rc != 0 {
      return Aborted, [], [], null, trampoline, mapped;
    }
    vcpu := new Vcpu(initial);
    vcpu.Seed();
    events := vcpu.RunLoop(exits);
    var code;
    code, calls := Teardown(ns, unmapFails, unlinkRefused);
    outcome := Exited(code);
  }

  /** Each image is exactly as long as the guest region it is mapped as. */
  lemma ImagesFillRegions()
    ensures |GuestMemory.TrampolineImage()| == TrampolineRegion.size
    ensures |GuestMemory.MainImage(MainRegion.size, GuestMemory.VmCode)| == MainRegion.size
  {
    GuestMemory.MainImageLayout(MainRegion.size, GuestMemory.VmCode);
  }
}
