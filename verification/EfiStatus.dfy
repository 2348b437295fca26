/** The status codes of the drivers. */
module EfiStatus {
  datatype Status =
    | Success
    | InvalidParameter
    | Unsupported
    | BadBufferSize
    | NotReady
    | DeviceError
    | OutOfResources
    | NotFound
    | AccessDenied
    | Timeout
}
