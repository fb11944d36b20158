/** Types shared by the bus-interface (BIF) model: the resource manager's
    status codes and an optional value standing for a pointer that may be NULL. */
module NvTypes {

  /** The NV_STATUS values the AD102 bus-interface code returns or passes on.
      `ErrOther` stands for any other code a foreign routine may return. */
  datatype Status =
    | Ok                  // NV_OK
    | ErrTimeout          // NV_ERR_TIMEOUT
    | ErrNoMemory         // NV_ERR_NO_MEMORY
    | ErrInvalidArgument  // NV_ERR_INVALID_ARGUMENT
    | ErrOther(code: bv32)

  datatype Option<T> = None | Some(value: T)
}
