/** Outcomes shared by all modules; an Error stands for the exception the source raises. */
module Results {

  datatype Option<+T> = None | Some(value: T)

  datatype Error =
    | AssertionError
    | IndexError
    | KeyError
    | ValueError
    | StructError       // a value does not fit the integer width it is packed to
    | ChecksumError     // IOError
    | OverlapError      // RuntimeError
    | MappedError       // QlMemoryMappedError
    | OutOfMemory       // QlOutOfMemory
    | GdtError          // QlGDTError
    | HookError         // QlErrorCoreHook
    | EngineError       // UcError

  datatype Result<+T> = Ok(value: T) | Err(error: Error)
}
