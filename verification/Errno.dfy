/** The error numbers that the services return negated. */
module Errno {
  const ENOENT := 2
  const EAGAIN := 11
  const EBUSY := 16
  const EINVAL := 22
  const ENOSPC := 28
  const EPROTO := 71
  const EBADMSG := 74
  const EMSGSIZE := 90
  const ETIMEDOUT := 110
}
