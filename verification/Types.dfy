/** Types shared by the modules: optional values, and the result codes of include/hackrf.h. */
module Types {
  datatype Option<T> = None | Some(value: T)

  datatype Code =
    | Success | True | InvalidParam | NotFound | Busy | NoMem | LibusbError | ThreadError
    | StreamingThreadErr | StreamingStopped | StreamingExitCalled | UsbApiVersion | NotLastDevice | Other
}
