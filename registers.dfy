// The vCPU registers the VM touches, and a record of each register access it makes
// through hv_vcpu_get_reg / hv_vcpu_set_reg / hv_vcpu_set_sys_reg.

module Registers {

  /** General registers X0..X4, PC and CPSR, and the system registers VBAR_EL1,
      SP_EL0 and SP_EL1. */
  datatype Reg = X0 | X1 | X2 | X3 | X4 | PC | CPSR | VbarEl1 | SpEl0 | SpEl1

  /** Register values are 64 bits wide. */
  type RegFile = map<Reg, bv64>

  /** The register file has a value for every register. */
  predicate Complete(regs: RegFile) {
    forall r: Reg :: r in regs
  }

  /** General register number `n` (HV_REG_X0 + n). */
  function GeneralReg(n: nat): (r: Reg)
    requires n < 5
  {
    match n
    case 0 => X0
    case 1 => X1
    case 2 => X2
    case 3 => X3
    case _ => X4
  }

  /** One register read or write made on the vCPU. */
  datatype Access = Read(reg: Reg) | Write(reg: Reg, value: bv64)

  /** The registers read in a sequence of accesses. */
  function ReadsOf(accesses: seq<Access>): (regs: set<Reg>) {
    set a | a in accesses && a.Read? :: a.reg
  }

  /** The registers written in a sequence of accesses. */
  function WritesOf(accesses: seq<Access>): (regs: set<Reg>) {
    set a | a in accesses && a.Write? :: a.reg
  }
}
