/** Error outcomes of the TFS core.

    The C++ library signals failure with exceptions (std::runtime_error,
    std::bad_variant_access, std::out_of_range) or not at all (undefined
    behaviour). The model turns each of these into a value. */
module Results {

  datatype Error =
    | TypeMismatch      // runtime_error "this is not a ... vector"
    | BadVariantAccess  // std::get on the inactive alternative of a std::variant
    | NotImplemented    // runtime_error "not implemented" / "not yet implemented"
    | KeyNotFound       // runtime_error "couldn't find key"
    | OutOfRange        // std::out_of_range from vector::at or map::at
    | Undefined         // the source has undefined behaviour here (out-of-bounds operator[], ...)
    | EndOfStream       // a binary read ran past the end of the input

  datatype Result<+T> = Ok(value: T) | Err(error: Error)

  datatype Outcome = Pass | Fail(error: Error)

  datatype Option<+T> = None | Some(value: T)
}
