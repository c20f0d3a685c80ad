// The host error number both programs report (<errno.h> on macOS).

module Errno {

  /** ENOMEM: cannot allocate memory. */
  const ENOMEM: int := 12
}
