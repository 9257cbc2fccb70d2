/** The result codes of whefs_rc and whio_rc that the modelled calls can return. */
module ReturnCodes {

  datatype Rc =
    | OK
    | ArgError
    | IOError
    | ConsistencyError
    | BadMagicError
    | InternalError
    | RangeError
    | FSFull
    | AccessError
    | AllocError
    | UnsupportedError
}
