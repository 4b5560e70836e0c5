/**
  The error numbers of errno.h that the modelled functions return, negated.
 */
module Errors {
  const ENOMEM := 12
  const EBUSY := 16
  const EINVAL := 22
  const ERANGE := 34
  const EOVERFLOW := 75
  const ETIMEDOUT := 110
}
