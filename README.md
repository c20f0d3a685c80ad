# hvf_vm_shm: verified model of the VM bootstrap and exit dispatch

`simplevm` boots a one-vCPU virtual machine on Apple's Hypervisor.framework. It
builds a reset trampoline at guest address 0xF0000000 and maps it read/exec. It
maps 16 MiB of main memory at 0x80000000 read/write/exec. It seeds the vCPU's
registers and runs a loop that handles each exit of the vCPU. HVC and SMC traps
resume the guest. A breakpoint, any other exception class, or any other exit
reason stops the loop, and the program tears down. Main memory is a POSIX
shared-memory object. A separate producer, `prepare_vm_mem`, creates that
object, sizes it and writes the guest code into it.

This project models the build configuration of `shm.h`: `SHM` and `SHM_UDS` are
defined, and `USE_EL0_TRAMPOILNE` is not. It proves the properties below in
Dafny.

Modules, one per component:

- `Bytes`: byte buffers, `memset` (`ZeroFill`) and `memcpy` (`CopyInto`) on an `array<bv8>`.
- `Shm`: the constants of `shm.h`.
- `Layout`: the guest regions, their disjointness and alignment.
- `GuestMemory`: the trampoline and main-memory images. These are in-place builders over arrays, proved against byte-level descriptions.
- `Registers`: the registers the program touches, and a record of register reads and writes.
- `ExitDispatch`: decoding of the exception class, classification of exits, and the effect of handling one exit (`Step`) and of the loop over a finite sequence of exits (`Run`). All of these are pure.
- `VirtualCpu`: the vCPU as a class over a register map. Seeding is proved equal to the function `Seeded`. Handling one exit and the dispatch loop are proved equal to `Step` and `Run` of `ExitDispatch`.
- `PosixShm`: the host's named shared-memory objects, with removal, exclusive creation and sizing.
- `Errno`: the error number ENOMEM both programs return.
- `Producer`: `main` of `prepare_vm_mem.c`.
- `SimpleVm`: `VmpPrepareSystemMemory`, the private-memory branch, teardown, and `main`.

Notes on what the code does:

- The stub loop copies only while the offset is below 0x780, so it fills 15 slots (0x000 to 0x700). The slot at 0x780, just below the reset vector, stays zero (`GuestMemory.LastSlotEmpty`).
- The producer returns the same code, -ENOMEM, whether creation, sizing or mapping fails. It returns 40 only when unmapping fails.
- The VM exits with 0, 40 or 100 according to teardown alone. There is no separate code for an unexpected exit or trap.
- After an HVC the loop resumes, because the `break` is commented out.
- When SHM is defined, the VM does not fill main memory itself. The producer fills it.

## Model

| member | source | states |
|---|---|---|
| `Bytes.ZeroFill` | simplevm.c:127 | every byte of the buffer becomes zero |
| `Bytes.CopyInto` | simplevm.c:129 | the buffer becomes `Overlay` of its old contents: `src` copied in at `off` |
| `Bytes.OverlayAt` | simplevm.c:129 | byte i of an overlay is `src[i - off]` inside [off, off+\|src\|) and the old byte everywhere else |
| `Bytes.OverlayContents` | simplevm.c:129 | the copied block reads back as `src`, and no byte outside it changes |
| `GuestMemory.BuildTrampoline` | simplevm.c:127-132 | after memset, the 15 stub copies and the vector copy, the 0x10000-byte buffer equals `TrampolineImage()` whatever it held before |
| `GuestMemory.StubsCopiedAt` | simplevm.c:127-130 | after n passes of the loop, byte i holds stub byte i mod 0x80 if i < n·0x80 and i mod 0x80 < 12, and zero otherwise |
| `GuestMemory.TrampolineImageAt` | simplevm.c:127-132 | each byte of the finished trampoline is a stub byte inside a copied slot, a reset-vector byte in [0x800, 0x808), and zero everywhere else |
| `GuestMemory.StubsInEverySlot` | simplevm.c:128-129 | every offset o < 0x780 with o mod 0x80 = 0 holds the 12-byte `s_cArm64ResetTramp` in [o, o+12) |
| `GuestMemory.ResetVectorPresent` | simplevm.c:132 | bytes [0x800, 0x808) equal `s_cArm64ResetVector` |
| `GuestMemory.TrampolineImageLayout` | simplevm.c:127-132 | the three trampoline promises together: stub in every slot below 0x780, vector at 0x800, every other byte zero |
| `GuestMemory.LastSlotEmpty` | simplevm.c:128 | the slot [0x780, 0x800) is left all zero, because the loop bound is exclusive |
| `GuestMemory.MainImageLayout` | prepare_vm_mem.c:52-53 | the main image has the buffer's size, starts with the code, and is zero after it |
| `GuestMemory.BuildMainMemory` | simplevm.c:157-158 | after memset and memcpy, the buffer equals the main image of the code, whatever it held before |
| `Layout.DisjointIffNoSharedAddress` | simplevm.c:67-71 | for non-empty regions, the interval test holds exactly when no guest address lies in both regions |
| `Layout.GuestLayoutValid` | simplevm.c:67-71 | trampoline [0xF0000000, +0x10000) and main [0x80000000, +0x1000000) are non-empty, fit in 64 bits and do not overlap; trampoline base and size are 0x10000-aligned, main base and size 0x1000-aligned; the trampoline's rights are exactly read and exec, main's exactly read, write and exec |
| `ExitDispatch.ExceptionClass` | simplevm.c:211 | the decoded class is below 64 |
| `ExitDispatch.ExceptionClassIsBits31To26` | simplevm.c:209-211 | the class shifted back to bit 26 equals the syndrome masked to bits [31:26], so the class is exactly ESR_EL2.EC |
| `ExitDispatch.ExceptionClassOfEsr` | simplevm.c:209-211 | decoding a syndrome assembled from EC, IL and ISS returns that EC |
| `ExitDispatch.EsrOfExceptionClass` | simplevm.c:209-211 | every 32-bit syndrome is the assembly of its decoded EC, its IL bit and its ISS |
| `ExitDispatch.Classify` | simplevm.c:207-260 | a non-exception exit is classified by its reason; an exception exit is HVC or SMC exactly when its class is 0x16 or 0x17; other classes except 0x3C keep the decoded class |
| `ExitDispatch.ResumesIff` | simplevm.c:207-260 | the loop continues after an exit exactly when it is an exception with class 0x16 or 0x17 |
| `ExitDispatch.ClassifyIgnoresOtherBits` | simplevm.c:211 | two exits with the same reason whose syndromes agree on bits [31:26] are classified the same |
| `ExitDispatch.Step` | simplevm.c:207-260 | the loop body as a function of the registers and one exit: it keeps the register file complete; its meaning case by case is stated by `HvcStep`, `SmcStep`, `BrkStep`, `UnexpectedStep`, `StepShape` and `StepMovesPc` |
| `ExitDispatch.HvcStep` | simplevm.c:213-219 | HVC: X0 is read and reported, no register changes, and the loop resumes |
| `ExitDispatch.SmcStep` | simplevm.c:220-235 | SMC: X0 and then PC are read, PC becomes old PC + 4 modulo 2^64 and is the only register written, every other register is unchanged, X0 is reported, and the loop resumes |
| `ExitDispatch.BrkStep` | simplevm.c:236-247 | BRK: the loop stops; the registers read are exactly X0..X4; nothing is written; the stop record holds the values of X0..X4 |
| `ExitDispatch.UnexpectedStep` | simplevm.c:248-260 | any other class or exit reason stops the loop with no register access; the record carries the exit's syndrome, class and addresses, or its reason, unmodified |
| `ExitDispatch.BreakpointAccesses` | simplevm.c:238-246 | the accesses of a breakpoint exit (X0, then the X0..X4 dump) read exactly X0..X4 and write nothing |
| `ExitDispatch.StepMovesPc` | simplevm.c:213-260 | handling one exit moves PC by one 4-byte instruction if it is an SMC and leaves every register as it was otherwise |
| `ExitDispatch.StepShape` | simplevm.c:207-260 | one exit stops the loop exactly when its class does not resume it; only PC can change and only PC is written |
| `ExitDispatch.Run` | simplevm.c:203-261 | the loop over a finite sequence of exits: it reports at most one event per exit and keeps the register file complete; its meaning is stated by `RunStopsAtFirstStop`, `RunEventAt`, `RunReportsAt`, `RunOnlyMovesPc`, `RunWritesOnlyPc`, `RunReportsInitialX0` and `BreakpointEndsRun` |
| `ExitDispatch.RunStopsAtFirstStop` | simplevm.c:203-261 | the events of the loop satisfy `StopsAtFirst`: event k is a stop exactly when exit k does not resume, every exit before the last handled one resumes, the loop leaves exits unhandled only after a stop, and it handles at least one exit when there is one |
| `ExitDispatch.RunOnlyMovesPc` | simplevm.c:203-261 | after the loop, every register except PC has its initial value, and PC has advanced by 4 (wrapping) per SMC exit handled |
| `ExitDispatch.RunWritesOnlyPc` | simplevm.c:203-261 | the loop writes no register other than PC |
| `ExitDispatch.RunEventAt` | simplevm.c:203-260 | event k of the loop is the report of handling exit k from the initial registers with PC moved 4 bytes past each SMC among the first k exits |
| `ExitDispatch.RunReportsAt` | simplevm.c:207-260 | for every exit the loop handles, at any position: an HVC or SMC reports the initial X0, a breakpoint stops with the initial X0..X4, and any other exit stops with its reason, or its syndrome, class and addresses, unmodified |
| `ExitDispatch.RunReportsInitialX0` | simplevm.c:216-227 | every HVC and SMC report carries the X0 value the loop started with |
| `ExitDispatch.BreakpointEndsRun` | simplevm.c:236-247 | a breakpoint as the first exit ends the loop at once, with X0..X4 dumped, whatever the registers hold |
| `VirtualCpu.SeededState` | simplevm.c:184-197 | after seeding: VBAR_EL1 is the trampoline base and PC is the main-memory base; CPSR selects EL1 with SP_EL0 and masks D, A, I and F; SP_EL0 and SP_EL1 lie inside main memory with SP_EL0 below SP_EL1; X0..X4 are unchanged |
| `VirtualCpu.Vcpu.constructor` | simplevm.c:181 | a new vCPU holds the host-given registers, does not trap debug exceptions, and has no accesses recorded |
| `VirtualCpu.Vcpu.GetReg` | simplevm.c:217 | returns the register's value and records one read; no register changes |
| `VirtualCpu.Vcpu.SetReg` | simplevm.c:235 | changes exactly one register and records one write |
| `VirtualCpu.Vcpu.Seed` | simplevm.c:184-200 | writes VBAR_EL1 = 0xF0000000, CPSR = 0x3c4, PC = 0x80000000, SP_EL0 = 0x80004000 and SP_EL1 = 0x80008000 in that order; the other registers keep their values; debug exceptions are trapped |
| `VirtualCpu.Vcpu.DumpRegisters` | simplevm.c:242-246 | reads X0..X4 in order and returns their values |
| `VirtualCpu.Vcpu.HandleHvc` | simplevm.c:213-219 | reads X0 once, changes no register and reports an HVC call with X0's value, as `Step` does |
| `VirtualCpu.Vcpu.HandleSmc` | simplevm.c:220-235 | reads X0 and PC, writes PC + 4 and reports an SMC call with X0's value, as `Step` does |
| `VirtualCpu.Vcpu.HandleBrk` | simplevm.c:236-247 | reads X0, dumps X0..X4, changes no register and stops with the dump, as `Step` does |
| `VirtualCpu.Vcpu.HandleExit` | simplevm.c:207-260 | the new registers, the accesses made and the result equal `Step` of the old registers and the exit |
| `VirtualCpu.Vcpu.RunLoop` | simplevm.c:203-261 | the final registers, all accesses made and the events reported equal `Run` of the initial registers and the exits |
| `PosixShm.Namespace.Unlink` | prepare_vm_mem.c:28 | succeeds exactly when the name exists and the host allows it, and then removes only that name |
| `PosixShm.Namespace.CreateExclusive` | prepare_vm_mem.c:32 | succeeds exactly when the name is free and the host allows it, and then adds an empty object |
| `PosixShm.Namespace.Truncate` | prepare_vm_mem.c:39 | sets the object's size unless the host refuses |
| `Producer.PrepareVmMem` | prepare_vm_mem.c:25-62 | the steps unlink, open, truncate, map, fill and unmap run in order and stop at the first that fails; the exclusive create fails only if the host refuses it or a stale object survived a refused unlink; create, truncate or map failure returns -ENOMEM; unmap failure returns 40; otherwise 0; after the fill the written bytes are the 0x1000000-byte main image of the guest code; the object is left sized 0x1000000 once truncation succeeds |
| `Producer.StaleObjectHarmless` | prepare_vm_mem.c:27-32 | when the unlink is not refused, creation fails only because the host refuses it, whether or not a stale object existed |
| `Producer.AgreesWithVm` | prepare_vm_mem.c:8-21 | the producer's object name, size, main-memory address and guest code equal the VM's |
| `Producer.ImageLayout` | prepare_vm_mem.c:51-53 | the producer's image is 0x1000000 bytes; bytes [0, 24) are `s_ckVMCode` and bytes [24, 0x1000000) are zero |
| `SimpleVm.PrepareSystemMemory` | simplevm.c:118-165 | returns 0 exactly when posix_memalign, the descriptor receipt and mmap all succeed, and -ENOMEM otherwise; once allocated, the trampoline holds `TrampolineImage()`; it maps the trampoline before main memory is received, and both regions on success |
| `SimpleVm.PreparePrivateMainMemory` | simplevm.c:150-158 | without SHM: returns 0 exactly when allocation succeeds, and the buffer then holds the main image of `s_ckVMCode` |
| `SimpleVm.Teardown` | simplevm.c:263-285 | destroys the vCPU, then the VM, then frees the trampoline and unmaps main memory; returns 40 if munmap fails, without unlinking; returns 100 if shm_unlink fails; otherwise returns 0 and the name is removed |
| `SimpleVm.RunVm` | simplevm.c:167-286 | aborts exactly when memory preparation fails, with no vCPU created and the shared objects untouched; the trampoline, once allocated, holds `TrampolineImage()`; otherwise both regions are mapped, and the vCPU is left with debug trapping on, the registers of `Run` from the `Seeded` registers and the accesses `SeedWrites` followed by those of `Run`; the events are those of `Run`; teardown makes its calls in order; the exit code is 40 exactly when munmap fails, 0 exactly when unmapping and unlinking succeed, and 100 otherwise; the object name is removed exactly on 0 |
| `SimpleVm.ImagesFillRegions` | simplevm.c:135-162 | the trampoline image is exactly as long as the trampoline region, and the main image exactly as long as main memory |

## Left out

- `RecvRemoteMemFd` (simplevm.c:76-116), `send_fd` and `recv_fd` (uds_fd.h). These pass a descriptor over a Unix socket, which is kernel behaviour. The descriptor the VM receives is an input (`memfd`). `recv_fd` does not check for a missing control message, so no property about a missing descriptor is claimed.
- Hypervisor.framework calls (`hv_vm_create`, `hv_vm_map`, `hv_vcpu_create`, `hv_vcpu_run`, register access). The program asserts that each succeeds, so the model takes success as given. The program ignores the results of `hv_vcpu_destroy` and `hv_vm_destroy`, so the model gives them no failure branch and records only their order. The VM is represented by the list of mapped regions and the vCPU by its register map. `hv_vcpu_run` becomes an input sequence of exits.
- POSIX calls (`shm_open`, `ftruncate`, `mmap`, `munmap`, `shm_unlink`, `posix_memalign`, `free`) are reduced to success or failure. Only the name-to-size table of shared objects is kept.
- The sharing of bytes between the producer's and the VM's mappings of one object is not modelled. The producer's written bytes are returned as an array.
- Host buffer alignment from `posix_memalign` (0x10000 and 0x1000) is not modelled, because the model has no host addresses. The alignment of the guest regions is proved.
- Host page protections (`PROT_WRITE` on the mappings) are not modelled.
- The instruction encodings of the stubs and the guest code are opaque bytes. Guest execution is not emulated.
- `printf`/`fprintf` text is not modelled. What the HVC and SMC messages report (X0) and what a stop reports are kept as events.
- Termination of the dispatch loop in general is not modelled. The loop runs over a finite sequence of exits and ends when the sequence is exhausted.
- `SimpleVm.RunVm`: when the exits run out before one of them stops the loop, the model still tears down and returns 0, 40 or 100. The program would instead call `hv_vcpu_run` again and would not reach teardown (simplevm.c:264) until a stopping exit arrives. The exit code is therefore meaningful only when the last event is a stop.
- The `USE_EL0_TRAMPOILNE` branch (PC at the trampoline's reset vector) is not modelled, because it is not compiled.
- `main` returns `-ENOMEM` in the producer; the host truncates that to an 8-bit exit status, which the model does not do.
- `VirtualCpu.Vcpu.constructor`: the host's initial value of the debug-trap setting is taken to be off; the source never reads it before setting it.
