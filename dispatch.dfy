// Classification of vCPU exits and the effect of handling each one
// (simplevm.c:203-261), as functions of the exit record and the register file.
// Handling an exit changes at most PC; the loop over a finite sequence of exits
// stands in for repeated hv_vcpu_run calls.

module ExitDispatch {
  import opened Registers

  /** hv_exit_reason_t. */
  datatype ExitReason = Canceled | Exception | VtimerActivated | Unknown

  /** The exit record hv_vcpu_run fills in. */
  datatype Exit = Exit(reason: ExitReason, syndrome: bv64, virtualAddress: bv64, physicalAddress: bv64)

  /** Exception classes the loop recognises (ESR_EL2.EC). */
  const EcHvc: bv8 := 0x16
  const EcSmc: bv8 := 0x17
  const EcBrk: bv8 := 0x3C

  // ---------------------------------------------------------------------
  // Exception class

  /** `(syndrome >> 26) & 0x3f`, stored in a uint8_t. */
  function ExceptionClass(syndrome: bv64): (ec: bv8)
    ensures ec < 0x40
  {
    ((syndrome >> 26) & 0x3f) as bv8
  }

  /** An ESR_EL2 value assembled from its fields as the Arm Architecture Reference
      Manual lays them out: EC in bits [31:26], IL in bit 25, ISS in bits [24:0]. */
  function Esr(ec: bv8, il: bool, iss: bv64): (s: bv64)
    requires ec < 0x40 && iss < 0x200_0000
    ensures s < 0x1_0000_0000
  {
    (ec as bv64 << 26) | (if il then 0x200_0000 else 0) | iss
  }

  /** The decoded class is exactly bits [31:26] of the syndrome. */
  lemma ExceptionClassIsBits31To26(syndrome: bv64)
    ensures (ExceptionClass(syndrome) as bv64) << 26 == syndrome & 0xFC00_0000
  {
  }

  /** Decoding recovers the EC field of any assembled syndrome. */
  lemma ExceptionClassOfEsr(ec: bv8, il: bool, iss: bv64)
    requires ec < 0x40 && iss < 0x200_0000
    ensures ExceptionClass(Esr(ec, il, iss)) == ec
  {
  }

  /** Every 32-bit syndrome is the assembly of its decoded class, IL bit and ISS. */
  lemma EsrOfExceptionClass(syndrome: bv64)
    requires syndrome < 0x1_0000_0000
    ensures syndrome == Esr(ExceptionClass(syndrome), syndrome & 0x200_0000 != 0, syndrome & 0x1FF_FFFF)
  {
  }

  // ---------------------------------------------------------------------
  // Classification

  /** What the loop does with an exit. */
  datatype Class = Hvc | Smc | Brk | OtherException(ec: bv8) | OtherExit(reason: ExitReason)

  function Classify(e: Exit): (c: Class)
    ensures c.OtherExit? <==> e.reason != Exception
    ensures c.OtherExit? ==> c.reason == e.reason
    ensures c.OtherException? <==> e.reason == Exception && ExceptionClass(e.syndrome) !in {EcHvc, EcSmc, EcBrk}
    ensures c.OtherException? ==> c.ec == ExceptionClass(e.syndrome)
    ensures c == Hvc <==> e.reason == Exception && ExceptionClass(e.syndrome) == EcHvc
    ensures c == Smc <==> e.reason == Exception && ExceptionClass(e.syndrome) == EcSmc
  {
    if e.reason != Exception then OtherExit(e.reason)
    else
      var ec := ExceptionClass(e.syndrome);
      if ec == EcHvc then Hvc
      else if ec == EcSmc then Smc
      else if ec == EcBrk then Brk
      else OtherException(ec)
  }

  /** The loop goes round again after handling an exit of this class. */
  predicate Resumes(c: Class) {
    c == Hvc || c == Smc
  }

  /** Only an exception exit with class HVC or SMC lets the loop continue. */
  lemma ResumesIff(e: Exit)
    ensures Resumes(Classify(e)) <==> e.reason == Exception && ExceptionClass(e.syndrome) in {EcHvc, EcSmc}
  {
  }

  /** Classification ignores every syndrome bit outside [31:26]. */
  lemma ClassifyIgnoresOtherBits(e: Exit, f: Exit)
    requires e.reason == f.reason
    requires e.syndrome & 0xFC00_0000 == f.syndrome & 0xFC00_0000
    ensures Classify(e) == Classify(f)
  {
    assert ExceptionClass(e.syndrome) == ExceptionClass(f.syndrome);
  }

  // ---------------------------------------------------------------------
  // Handling one exit

  /** Why the loop stopped. */
  datatype Stop =
    | BreakpointHit(dump: seq<bv64>)
    | UnexpectedException(syndrome: bv64, ec: bv8, virtualAddress: bv64, physicalAddress: bv64)
    | UnexpectedExit(reason: ExitReason)

  /** What handling one exit reports. */
  datatype Event = HvcCall(x0: bv64) | SmcCall(x0: bv64) | Stopped(stop: Stop)

  datatype StepResult = StepResult(regs: RegFile, accesses: seq<Access>, event: Event)

  /** The register-dump loop `for (reg = HV_REG_X0; reg < HV_REG_X5; reg++)`. */
  const DumpReads: seq<Access> := [Read(X0), Read(X1), Read(X2), Read(X3), Read(X4)]

  function Dump(regs: RegFile): (d: seq<bv64>)
    requires Complete(regs)
  {
    [regs[X0], regs[X1], regs[X2], regs[X3], regs[X4]]
  }

  /** Handle one exit: the new registers, the accesses made, and the outcome. */
  function Step(regs: RegFile, e: Exit): (r: StepResult)
    requires Complete(regs)
    ensures Complete(r.regs)
  {
    match Classify(e)
    case Hvc => StepResult(regs, [Read(X0)], HvcCall(regs[X0]))
    case Smc =>
      var pc := regs[PC] + 4;
      StepResult(regs[PC := pc], [Read(X0), Read(PC), Write(PC, pc)], SmcCall(regs[X0]))
    case Brk => StepResult(regs, [Read(X0)] + DumpReads, Stopped(BreakpointHit(Dump(regs))))
    case OtherException(ec) =>
      StepResult(regs, [], Stopped(UnexpectedException(e.syndrome, ec, e.virtualAddress, e.physicalAddress)))
    case OtherExit(reason) => StepResult(regs, [], Stopped(UnexpectedExit(reason)))
  }

  /** HVC: X0 is read and reported, nothing is written, the loop resumes. */
  lemma HvcStep(regs: RegFile, e: Exit)
    requires Complete(regs) && Classify(e) == Hvc
    ensures Step(regs, e).regs == regs
    ensures Step(regs, e).accesses == [Read(X0)]
    ensures Step(regs, e).event == HvcCall(regs[X0])
  {
  }

  /** SMC: X0 and PC are read, PC moves past the trapping instruction (modulo
      2^64) and is the only register written, and the loop resumes. */
  lemma SmcStep(regs: RegFile, e: Exit)
    requires Complete(regs) && Classify(e) == Smc
    ensures Step(regs, e) ==
      StepResult(regs[PC := regs[PC] + 4], [Read(X0), Read(PC), Write(PC, regs[PC] + 4)], SmcCall(regs[X0]))
    ensures WritesOf(Step(regs, e).accesses) == {PC}
  {
    var acc := Step(regs, e).accesses;
    assert acc[2] == Write(PC, regs[PC] + 4);
  }

  /** BRK: the loop stops after reading exactly X0..X4, whatever they hold, and
      writes nothing. */
  lemma BrkStep(regs: RegFile, e: Exit)
    requires Complete(regs) && Classify(e) == Brk
    ensures Step(regs, e).regs == regs
    ensures ReadsOf(Step(regs, e).accesses) == {X0, X1, X2, X3, X4}
    ensures WritesOf(Step(regs, e).accesses) == {}
    ensures Step(regs, e).event == Stopped(BreakpointHit(Dump(regs)))
  {
    assert Step(regs, e).accesses == [Read(X0)] + DumpReads;
    BreakpointAccesses();
  }

  /** The accesses of a breakpoint exit read X0..X4 and write nothing. */
  lemma BreakpointAccesses()
    ensures ReadsOf([Read(X0)] + DumpReads) == {X0, X1, X2, X3, X4}
    ensures WritesOf([Read(X0)] + DumpReads) == {}
  {
    var acc := [Read(X0)] + DumpReads;
    assert acc == [Read(X0), Read(X0), Read(X1), Read(X2), Read(X3), Read(X4)];
    assert acc[1].reg == X0 && acc[2].reg == X1 && acc[3].reg == X2 && acc[4].reg == X3 && acc[5].reg == X4;
    assert forall a :: a in acc ==> a.Read?;
  }

  /** Any other exit stops the loop without touching a register and reports the
      exit record's syndrome and addresses as they were. */
  lemma UnexpectedStep(regs: RegFile, e: Exit)
    requires Complete(regs) && !Resumes(Classify(e)) && Classify(e) != Brk
    ensures Step(regs, e).regs == regs && Step(regs, e).accesses == []
    ensures e.reason != Exception ==> Step(regs, e).event == Stopped(UnexpectedExit(e.reason))
    ensures e.reason == Exception ==>
      Step(regs, e).event == Stopped(UnexpectedException(e.syndrome, ExceptionClass(e.syndrome), e.virtualAddress, e.physicalAddress))
  {
  }

  /** Handling an exit stops the loop exactly when the class does not resume it,
      and never changes a register other than PC. */
  lemma StepShape(regs: RegFile, e: Exit)
    requires Complete(regs)
    ensures Step(regs, e).event.Stopped? <==> !Resumes(Classify(e))
    ensures Step(regs, e).regs == regs[PC := Step(regs, e).regs[PC]]
    ensures WritesOf(Step(regs, e).accesses) <= {PC}
  {
    match Classify(e)
    case Smc => SmcStep(regs, e);
    case Brk => BrkStep(regs, e);
    case _ =>
  }

  // ---------------------------------------------------------------------
  // The loop

  datatype RunResult = RunResult(regs: RegFile, accesses: seq<Access>, events: seq<Event>)

  /** Handle `exits` in order until one stops the loop or none are left. */
  function Run(regs: RegFile, exits: seq<Exit>): (r: RunResult)
    requires Complete(regs)
    ensures Complete(r.regs)
    ensures |r.events| <= |exits|
    decreases |exits|
  {
    if exits == [] then RunResult(regs, [], [])
    else
      var s := Step(regs, exits[0]);
      if s.event.Stopped? then RunResult(s.regs, s.accesses, [s.event])
      else
        var rest := Run(s.regs, exits[1..]);
        RunResult(rest.regs, s.accesses + rest.accesses, [s.event] + rest.events)
  }

  /** Number of SMC exits in `exits`. */
  function SmcCount(exits: seq<Exit>): (n: nat) {
    if exits == [] then 0
    else (if Classify(exits[0]) == Smc then 1 else 0) + SmcCount(exits[1..])
  }

  /** `pc` moved past `n` instructions of 4 bytes each, wrapping at 2^64. */
  function Advance(pc: bv64, n: nat): (r: bv64)
    decreases n
  {
    if n == 0 then pc else Advance(pc + 4, n - 1)
  }

  /** `events` report `exits` handled in order up to and including the first one
      that does not resume the loop; all of `exits` only when that one is last or
      absent. */
  predicate StopsAtFirst(events: seq<Event>, exits: seq<Exit>)
    requires |events| <= |exits|
  {
    && (forall i :: 0 <= i < |events| ==> (events[i].Stopped? <==> !Resumes(Classify(exits[i]))))
    && (forall i :: 0 <= i < |events| - 1 ==> Resumes(Classify(exits[i])))
    && (|events| < |exits| ==> 0 < |events| && !Resumes(Classify(exits[|events| - 1])))
    && (exits != [] ==> 0 < |events|)
  }

  /** The loop handles exits up to and including the first one that does not
      resume it; it consumes the whole sequence only when that one is last or absent. */
  lemma {:induction false} RunStopsAtFirstStop(regs: RegFile, exits: seq<Exit>)
    requires Complete(regs)
    ensures StopsAtFirst(Run(regs, exits).events, exits)
  {
    if exits != [] {
      var s := Step(regs, exits[0]);
      StepShape(regs, exits[0]);
      if !s.event.Stopped? {
        RunStopsAtFirstStop(s.regs, exits[1..]);
        var rest := Run(s.regs, exits[1..]);
        assert Run(regs, exits).events == [s.event] + rest.events;
        assert exits == [exits[0]] + exits[1..];
        StopsAtFirstCons(s.event, exits[0], rest.events, exits[1..]);
      }
    }
  }

  /** A resumed exit reported in front keeps StopsAtFirst. */
  lemma StopsAtFirstCons(ev: Event, e: Exit, events: seq<Event>, exits: seq<Exit>)
    requires |events| <= |exits| && StopsAtFirst(events, exits)
    requires !ev.Stopped? && Resumes(Classify(e))
    ensures StopsAtFirst([ev] + events, [e] + exits)
  {
    forall i | 1 <= i < 1 + |events|
      ensures ([ev] + events)[i] == events[i - 1] && ([e] + exits)[i] == exits[i - 1]
    {
    }
  }

  /** Over the whole loop only PC changes, by 4 for each SMC handled. */
  lemma {:induction false} RunOnlyMovesPc(regs: RegFile, exits: seq<Exit>)
    requires Complete(regs)
    ensures var r := Run(regs, exits);
      r.regs == regs[PC := Advance(regs[PC], SmcCount(exits[..|r.events|]))]
  {
    if exits == [] {
      assert exits[..0] == [];
      assert regs[PC := regs[PC]] == regs;
    } else if Step(regs, exits[0]).event.Stopped? {
      StoppedMovesPc(regs, exits);
    } else {
      var s := Step(regs, exits[0]);
      RunOnlyMovesPc(s.regs, exits[1..]);
      var rest := Run(s.regs, exits[1..]);
      StepMovesPc(regs, exits[0]);
      PrefixMovesPc(regs, s.regs, rest.regs, exits, |rest.events|);
      assert Run(regs, exits).regs == rest.regs && |Run(regs, exits).events| == |rest.events| + 1;
    }
  }

  /** RunOnlyMovesPc when the first exit stops the loop. */
  lemma StoppedMovesPc(regs: RegFile, exits: seq<Exit>)
    requires Complete(regs) && exits != [] && Step(regs, exits[0]).event.Stopped?
    ensures var r := Run(regs, exits);
      r.regs == regs[PC := Advance(regs[PC], SmcCount(exits[..|r.events|]))]
  {
    StepMovesPc(regs, exits[0]);
    assert |Run(regs, exits).events| == 1;
    assert exits[..1] == [exits[0]];
  }

  /** Moving PC past the first exit and then past `k` more is moving it past the
      first `k + 1` exits. */
  lemma PrefixMovesPc(regs: RegFile, mid: RegFile, last: RegFile, exits: seq<Exit>, k: nat)
    requires PC in regs && k < |exits|
    requires mid == regs[PC := Advance(regs[PC], SmcCount([exits[0]]))]
    requires last == mid[PC := Advance(mid[PC], SmcCount(exits[1..][..k]))]
    ensures last == regs[PC := Advance(regs[PC], SmcCount(exits[..k + 1]))]
  {
    TakeCons(exits, k);
    SmcCountAppend([exits[0]], exits[1..][..k]);
    ComposePcMoves(regs, mid, last, SmcCount([exits[0]]), SmcCount(exits[1..][..k]));
  }

  /** Moving PC by n0 and then by n1 is moving it by n0 + n1. */
  lemma ComposePcMoves(regs: RegFile, mid: RegFile, last: RegFile, n0: nat, n1: nat)
    requires PC in regs
    requires mid == regs[PC := Advance(regs[PC], n0)]
    requires last == mid[PC := Advance(mid[PC], n1)]
    ensures last == regs[PC := Advance(regs[PC], n0 + n1)]
  {
    AdvanceAdd(regs[PC], n0, n1);
    SetPcTwice(regs, Advance(regs[PC], n0), Advance(regs[PC], n0 + n1));
  }

  /** Setting PC twice keeps only the second value. */
  lemma SetPcTwice(regs: RegFile, a: bv64, b: bv64)
    ensures regs[PC := a][PC := b] == regs[PC := b]
  {
  }

  /** The first k + 1 exits are the first one followed by k of the rest. */
  lemma TakeCons(exits: seq<Exit>, k: nat)
    requires k < |exits|
    ensures exits[..k + 1] == [exits[0]] + exits[1..][..k]
  {
  }

  /** Handling one exit moves PC by 4 if it is an SMC and leaves it otherwise. */
  lemma StepMovesPc(regs: RegFile, e: Exit)
    requires Complete(regs)
    ensures Step(regs, e).regs == regs[PC := Advance(regs[PC], SmcCount([e]))]
  {
    assert [e][1..] == [];
    if Classify(e) == Smc {
      SmcStep(regs, e);
      assert Advance(regs[PC], 1) == Advance(regs[PC] + 4, 0);
    } else {
      StepShape(regs, e);
    }
  }

  /** Advancing by `a` and then by `b` instructions is advancing by `a + b`. */
  lemma {:induction false} AdvanceAdd(pc: bv64, a: nat, b: nat)
    ensures Advance(Advance(pc, a), b) == Advance(pc, a + b)
    decreases a
  {
    if a > 0 {
      AdvanceAdd(pc + 4, a - 1, b);
    }
  }

  /** The SMC count of two runs of exits back to back is the sum of their counts. */
  lemma {:induction false} SmcCountAppend(xs: seq<Exit>, ys: seq<Exit>)
    ensures SmcCount(xs + ys) == SmcCount(xs) + SmcCount(ys)
  {
    if xs != [] {
      assert (xs + ys)[0] == xs[0] && (xs + ys)[1..] == xs[1..] + ys;
      SmcCountAppend(xs[1..], ys);
    } else {
      assert xs + ys == ys;
    }
  }

  /** Event `k` of the loop is what handling exit `k` reports, from the initial
      registers with PC moved past the SMCs among the first `k` exits. */
  lemma {:induction false} RunEventAt(regs: RegFile, exits: seq<Exit>, k: nat)
    requires Complete(regs) && k < |Run(regs, exits).events|
    ensures Run(regs, exits).events[k] ==
      Step(regs[PC := Advance(regs[PC], SmcCount(exits[..k]))], exits[k]).event
  {
    var s := Step(regs, exits[0]);
    if k == 0 {
      assert exits[..0] == [];
      assert regs[PC := regs[PC]] == regs;
    } else {
      var rest := Run(s.regs, exits[1..]);
      assert !s.event.Stopped? && Run(regs, exits).events == [s.event] + rest.events;
      RunEventAt(s.regs, exits[1..], k - 1);
      StepMovesPc(regs, exits[0]);
      PrefixMovesPc(regs, s.regs, s.regs[PC := Advance(s.regs[PC], SmcCount(exits[1..][..k - 1]))], exits, k - 1);
    }
  }

  /** What the loop reports for exit `k`, by its class: the initial X0 for HVC and
      SMC, the initial X0..X4 for a breakpoint, and the exit record unmodified for
      anything else. */
  lemma RunReportsAt(regs: RegFile, exits: seq<Exit>, k: nat)
    requires Complete(regs) && k < |Run(regs, exits).events|
    ensures Classify(exits[k]) == Hvc ==> Run(regs, exits).events[k] == HvcCall(regs[X0])
    ensures Classify(exits[k]) == Smc ==> Run(regs, exits).events[k] == SmcCall(regs[X0])
    ensures Classify(exits[k]) == Brk ==> Run(regs, exits).events[k] == Stopped(BreakpointHit(Dump(regs)))
    ensures exits[k].reason != Exception ==> Run(regs, exits).events[k] == Stopped(UnexpectedExit(exits[k].reason))
    ensures exits[k].reason == Exception && !Resumes(Classify(exits[k])) && Classify(exits[k]) != Brk ==>
      Run(regs, exits).events[k] ==
        Stopped(UnexpectedException(exits[k].syndrome, ExceptionClass(exits[k].syndrome), exits[k].virtualAddress, exits[k].physicalAddress))
  {
    RunEventAt(regs, exits, k);
    var moved := regs[PC := Advance(regs[PC], SmcCount(exits[..k]))];
    assert moved[X0] == regs[X0] && Dump(moved) == Dump(regs);
    match Classify(exits[k])
    case Hvc => HvcStep(moved, exits[k]);
    case Smc => SmcStep(moved, exits[k]);
    case Brk => BrkStep(moved, exits[k]);
    case _ =>
  }

  /** PC is the only register the loop ever writes. */
  lemma {:induction false} RunWritesOnlyPc(regs: RegFile, exits: seq<Exit>)
    requires Complete(regs)
    ensures WritesOf(Run(regs, exits).accesses) <= {PC}
  {
    if exits != [] {
      var s := Step(regs, exits[0]);
      StepShape(regs, exits[0]);
      if !s.event.Stopped? {
        RunWritesOnlyPc(s.regs, exits[1..]);
        var rest := Run(s.regs, exits[1..]);
        assert WritesOf(s.accesses + rest.accesses) == WritesOf(s.accesses) + WritesOf(rest.accesses);
      }
    }
  }

  /** X0 is never written, so every HVC and SMC the loop reports carries the X0
      the loop started with. */
  lemma {:induction false} RunReportsInitialX0(regs: RegFile, exits: seq<Exit>)
    requires Complete(regs)
    ensures forall ev :: ev in Run(regs, exits).events && !ev.Stopped? ==> ev.x0 == regs[X0]
  {
    if exits != [] {
      var s := Step(regs, exits[0]);
      StepShape(regs, exits[0]);
      if !s.event.Stopped? {
        RunReportsInitialX0(s.regs, exits[1..]);
        var rest := Run(s.regs, exits[1..]);
        var r := Run(regs, exits);
        assert s.event.x0 == regs[X0] by {
          if Classify(exits[0]) == Hvc { HvcStep(regs, exits[0]); } else { SmcStep(regs, exits[0]); }
        }
        assert r.events == [s.event] + rest.events;
        assert s.regs[X0] == regs[X0];
      }
    }
  }

  /** A first exit that is a breakpoint ends the loop there, with X0..X4 dumped,
      whatever the registers hold. */
  lemma BreakpointEndsRun(regs: RegFile, exits: seq<Exit>)
    requires Complete(regs) && exits != [] && Classify(exits[0]) == Brk
    ensures Run(regs, exits) == RunResult(regs, [Read(X0)] + DumpReads, [Stopped(BreakpointHit(Dump(regs)))])
  {
  }
}
