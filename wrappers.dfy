/** Option and Result values, and the ways a webhook request can end abnormally. */
module Wrappers {

  datatype Option<+T> = None | Some(value: T)

  /** Why a request did not complete.  In the Go program every one of these ends the
      process (log.Fatal or a runtime panic); here they are returned as values. */
  datatype Failure =
    | UnparsableRequest                    // the request body is not a webhook request
    | InviteCodeNotNumeric(code: string)   // strconv.Atoi rejected the invite code
    | StoreReadFailed(readRange: string)   // the sheet store refused a read
    | StoreWriteFailed(sheet: string)      // an append or batch update was refused
    | MalformedInviteCell(entry: nat)      // a directory row whose invite cell is not a number
    | IndexOutOfRange                      // Go runtime panic on a slice index

  datatype Result<+T> = Ok(value: T) | Err(failure: Failure)
}
