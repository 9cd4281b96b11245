/** EFI_STATUS values returned by the modelled services. */
module EfiStatus {

  datatype Status =
    | Success
    | InvalidParameter
    | OutOfResources
    | BufferTooSmall
    | DeviceError
    | NotFound
    | Timeout
    | Unsupported

  /** EFI_ERROR: every status except EFI_SUCCESS is an error here (no warnings are modelled). */
  predicate IsError(s: Status)
  {
    !s.Success?
  }
}
