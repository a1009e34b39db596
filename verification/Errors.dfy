/** What can go wrong between a call and its answer. */
module Errors {
  datatype Error =
    | Io
    | Encode
    | Decode
    | RequestTooLarge(size: nat)
    | ResponseTooLarge(announced: nat)
    | ConnectionClosed
    | Server(message: string)
    | Query(message: string)
    | NotConnected
    | Unsupported(what: string)
    | MultipleStatements
    | UnexpectedResponse
    | InvalidArgument(message: string)
    | ServerShutdown
}
