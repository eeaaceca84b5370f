/** The error codes of components/hcfota/source/hcfota.h and the two of <errno.h> that are passed on. */
module Errors {

  const ERR_HEADER_CRC := -10
  const ERR_LOADFOTA := -13
  const ERR_DECOMPRESS := -14
  const ERR_UPGRADE := -15
  const ERR_VERSION := -16
  const ENOMEM := 12
}
