// The virtual CPU as the VM drives it: its initial register seeding
// (simplevm.c:184-200) and the exit-dispatch loop (simplevm.c:203-261), each
// proved against the functions of ExitDispatch.

module VirtualCpu {
  import opened Registers
  import opened ExitDispatch
  import Layout

  /** VBAR_EL1: the exception vectors are the reset trampoline. */
  const SeedVbar: bv64 := 0xF000_0000

  /** CPSR 0x3c4: EL1 with SP_EL0 (EL1t), D, A, I and F all masked. */
  const SeedCpsr: bv64 := 0x3c4

  /** PC: the first byte of main memory, where the guest code starts. */
  const SeedPc: bv64 := 0x8000_0000

  /** SP_EL0 and SP_EL1: main memory base plus 0x4000 and plus 0x8000. */
  const SeedSpEl0: bv64 := 0x8000_4000
  const SeedSpEl1: bv64 := 0x8000_8000

  /** The register file after seeding, from the one the vCPU was created with. */
  function Seeded(regs: RegFile): (r: RegFile)
    requires Complete(regs)
  {
    regs[VbarEl1 := SeedVbar][CPSR := SeedCpsr][PC := SeedPc][SpEl0 := SeedSpEl0][SpEl1 := SeedSpEl1]
  }

  /** The register writes seeding makes, in order. */
  const SeedWrites: seq<Access> :=
    [Write(VbarEl1, SeedVbar), Write(CPSR, SeedCpsr), Write(PC, SeedPc), Write(SpEl0, SeedSpEl0), Write(SpEl1, SeedSpEl1)]

  /** After seeding, the vCPU starts at main memory in EL1t with interrupts masked,
      takes exceptions through the trampoline, and both stack pointers lie inside
      main memory, SP_EL0 below SP_EL1; X0..X4 keep their creation values. */
  lemma SeededState(regs: RegFile)
    requires Complete(regs)
    ensures Complete(Seeded(regs))
    ensures Seeded(regs)[VbarEl1] as int == Layout.TrampolineBase
    ensures Seeded(regs)[PC] as int == Layout.MainBase
    ensures Seeded(regs)[CPSR] & 0xF == 0x4
    ensures (Seeded(regs)[CPSR] >> 6) & 0xF == 0xF
    ensures Layout.Contains(Layout.MainRegion, Seeded(regs)[SpEl0] as int)
    ensures Layout.Contains(Layout.MainRegion, Seeded(regs)[SpEl1] as int)
    ensures Seeded(regs)[SpEl0] < Seeded(regs)[SpEl1]
    ensures Dump(Seeded(regs)) == Dump(regs)
  {
  }

  /** A run that follows the accesses `log` and the events `events` already made. */
  function After(log: seq<Access>, events: seq<Event>, r: RunResult): (after: RunResult) {
    RunResult(r.regs, log + r.accesses, events + r.events)
  }

  /** Handling the first exit moves its accesses and event from the run into the
      record of what has already happened. */
  lemma AfterStep(log: seq<Access>, events: seq<Event>, regs: RegFile, exits: seq<Exit>)
    requires Complete(regs) && exits != []
    ensures var s := Step(regs, exits[0]);
      After(log, events, Run(regs, exits)) ==
        if s.event.Stopped? then RunResult(s.regs, log + s.accesses, events + [s.event])
        else After(log + s.accesses, events + [s.event], Run(s.regs, exits[1..]))
  {
    var s := Step(regs, exits[0]);
    if !s.event.Stopped? {
      var rest := Run(s.regs, exits[1..]);
      AppendAssoc(log, s.accesses, rest.accesses);
      AppendAssoc(events, [s.event], rest.events);
    }
  }

  /** Appending three elements one at a time appends the three of them. */
  lemma AppendThree<T>(a: seq<T>, x: T, y: T, z: T)
    ensures a + [x] + [y] + [z] == a + [x, y, z]
  {
  }

  /** Concatenation is associative. */
  lemma AppendAssoc<T>(a: seq<T>, b: seq<T>, c: seq<T>)
    ensures a + (b + c) == (a + b) + c
  {
  }

  class Vcpu {
    var regs: RegFile
    var trapDebugExceptions: bool
    /** Every register access made on this vCPU, oldest first. */
    ghost var accesses: seq<Access>

    ghost predicate Valid()
      reads this
    {
      Complete(regs)
    }

    /** hv_vcpu_create. The registers a new vCPU holds are the host's business,
        so they are a parameter. */
    constructor (initial: RegFile)
      requires Complete(initial)
      ensures Valid() && regs == initial && !trapDebugExceptions && accesses == []
    {
      regs := initial;
      trapDebugExceptions := false;
      accesses := [];
    }

    /** hv_vcpu_get_reg */
    method GetReg(r: Reg) returns (v: bv64)
      requires Valid()
      modifies this`accesses
      ensures v == regs[r]
      ensures accesses == old(accesses) + [Read(r)]
    {
      v := regs[r];
      accesses := accesses + [Read(r)];
    }

    /** hv_vcpu_set_reg and hv_vcpu_set_sys_reg */
    method SetReg(r: Reg, v: bv64)
      requires Valid()
      modifies this`regs, this`accesses
      ensures Valid()
      ensures regs == old(regs)[r := v]
      ensures accesses == old(accesses) + [Write(r, v)]
    {
      regs := regs[r := v];
      accesses := accesses + [Write(r, v)];
    }

    /** Seeding as built, without USE_EL0_TRAMPOILNE: VBAR_EL1, CPSR, PC, both
        stack pointers, then trapping of debug exceptions so BRK reaches the loop. */
    method Seed()
      requires Valid()
      modifies this
      ensures Valid()
      ensures regs == Seeded(old(regs))
      ensures trapDebugExceptions
      ensures accesses == old(accesses) + SeedWrites
    {
      SetReg(VbarEl1, SeedVbar);
      SetReg(CPSR, SeedCpsr);
      SetReg(PC, SeedPc);
      SetReg(SpEl0, SeedSpEl0);
      SetReg(SpEl1, SeedSpEl1);
      trapDebugExceptions := true;
    }

    /** One pass of the loop body after hv_vcpu_run has returned exit `e`. */
    method HandleExit(e: Exit) returns (ev: Event)
      requires Valid()
      modifies this`regs, this`accesses
      ensures Valid()
      ensures regs == Step(old(regs), e).regs
      ensures accesses == old(accesses) + Step(old(regs), e).accesses
      ensures ev == Step(old(regs), e).event
    {
      if e.reason == Exception {
        var syndrome := e.syndrome;
        var ec := ExceptionClass(syndrome);
        if ec == EcHvc {
          ev := HandleHvc(e);
        } else if ec == EcSmc {
          ev := HandleSmc(e);
        } else if ec == EcBrk {
          ev := HandleBrk(e);
        } else {
          UnexpectedStep(regs, e);
          ev := Stopped(UnexpectedException(syndrome, ec, e.virtualAddress, e.physicalAddress));
        }
      } else {
        UnexpectedStep(regs, e);
        ev := Stopped(UnexpectedExit(e.reason));
      }
    }

    /** HVC: report X0 and go round again. */
    method HandleHvc(e: Exit) returns (ev: Event)
      requires Valid() && Classify(e) == Hvc
      modifies this`accesses
      ensures regs == Step(old(regs), e).regs
      ensures accesses == old(accesses) + Step(old(regs), e).accesses
      ensures ev == Step(old(regs), e).event
    {
      HvcStep(regs, e);
      var x0 := GetReg(X0);
      ev := HvcCall(x0);
    }

    /** SMC: report X0, step PC over the trapping instruction and go round again. */
    method HandleSmc(e: Exit) returns (ev: Event)
      requires Valid() && Classify(e) == Smc
      modifies this`regs, this`accesses
      ensures Valid()
      ensures regs == Step(old(regs), e).regs
      ensures accesses == old(accesses) + Step(old(regs), e).accesses
      ensures ev == Step(old(regs), e).event
    {
      SmcStep(regs, e);
      var x0 := GetReg(X0);
      var pc := GetReg(PC);
      pc := pc + 4;
      SetReg(PC, pc);
      ev := SmcCall(x0);
      AppendThree(old(accesses), Read(X0), Read(PC), Write(PC, pc));
    }

    /** BRK: read X0, dump X0..X4 and stop. */
    method HandleBrk(e: Exit) returns (ev: Event)
      requires Valid() && Classify(e) == Brk
      modifies this`accesses
      ensures regs == Step(old(regs), e).regs
      ensures accesses == old(accesses) + Step(old(regs), e).accesses
      ensures ev == Step(old(regs), e).event
    {
      BrkStep(regs, e);
      var x0 := GetReg(X0);
      var dump := DumpRegisters();
      ev := Stopped(BreakpointHit(dump));
      AppendAssoc(old(accesses), [Read(X0)], DumpReads);
    }

    /** The BRK register dump `for (reg = HV_REG_X0; reg < HV_REG_X5; reg++)`. */
    method DumpRegisters() returns (dump: seq<bv64>)
      requires Valid()
      modifies this`accesses
      ensures dump == Dump(regs)
      ensures accesses == old(accesses) + DumpReads
    {
      dump := [];
      for reg := 0 to 5
        invariant dump == Dump(regs)[..reg]
        invariant accesses == old(accesses) + DumpReads[..reg]
      {
        var s := GetReg(GeneralReg(reg));
        dump := dump + [s];
      }
      assert Dump(regs)[..5] == Dump(regs);
      assert DumpReads[..5] == DumpReads;
    }

    /** The `while (true)` loop over a finite sequence of exits: handle each in turn
        and leave at the first one that does not resume, or when none are left. */
    method RunLoop(exits: seq<Exit>) returns (events: seq<Event>)
      requires Valid()
      modifies this`regs, this`accesses
      ensures Valid()
      ensures regs == Run(old(regs), exits).regs
      ensures accesses == old(accesses) + Run(old(regs), exits).accesses
      ensures events == Run(old(regs), exits).events
    {
      events := [];
      var i := 0;
      while i < |exits|
        invariant Valid() && i <= |exits|
        invariant After(old(accesses), [], Run(old(regs), exits)) == After(accesses, events, Run(regs, exits[i..]))
      {
        AfterStep(accesses, events, regs, exits[i..]);
        assert exits[i..][0] == exits[i] && exits[i..][1..] == exits[i + 1..];
        var ev := HandleExit(exits[i]);
        events := events + [ev];
        i := i + 1;
        if ev.Stopped? {
          break;
        }
      }
      assert [] + Run(old(regs), exits).events == Run(old(regs), exits).events;
    }
  }
}
