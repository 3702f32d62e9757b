/** The status codes every entry and every parser answers with. */
module Cudec {
  datatype Status = Okay | InvalidArgument | CorruptInput | OutputTooSmall | DeviceError | NotImplemented | Unsupported
}
