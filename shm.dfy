// The build configuration shared by the VM and the producer (shm.h).
//
// As built, SHM and SHM_UDS are both defined: main memory comes from a named
// POSIX shared-memory object, and its descriptor is passed over a Unix socket.

module Shm {

  /** Name of the shared-memory object holding guest main memory. */
  const ShmId: string := "/vhost-user-memory"

  /** Size in bytes of the shared-memory object, i.e. of guest main memory. */
  const ShmSize: nat := 0x100_0000
}
