/** Optional values and the kernel's error codes (include/error.h). */
module Common {

  datatype Option<T> = None | Some(value: T)

  datatype Error =
    | ENONE | ENOMEM | EINVAL | ENOTSUP | ENOTFOUND | ENOIODATA | EBUSY | EDRVR | EABORT | ECLOSE | ETIMEOUT
    | EEXISTS | EINTERNAL | EERROR
}
