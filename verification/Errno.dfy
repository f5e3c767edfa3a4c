/** The error numbers that the operations return. */
module Errno {
  const ENOENT: int := -2
  const EIO: int := -5
  const EAGAIN: int := -11
  const ENOMEM: int := -12
  const EEXIST: int := -17
  const EINVAL: int := -22
  const ENOSPC: int := -28
}
