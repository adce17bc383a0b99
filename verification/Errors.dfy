/** The errno values the modelled code returns, and results that carry one. */
module Errors {

  datatype Errno = EINVAL | E2BIG | ENOENT | ENOMEM | ENOSPC | EMSGSIZE | EBADMSG | EPROTO | EPROTONOSUPPORT | EIO

  datatype Result<+T> = Ok(value: T) | Err(error: Errno)
}
