/** The closed set of ways one scan can fail (`ScanError`, src/main.rs). */
module Errors {

  datatype ScanError =
    | ConnectError(cause: string)   // the TCP connect failed; the cause's text
    | WriteError                    // sending the handshake failed
    | ReadError                     // the packet-id byte could not be read
    | PacketFormatError             // a VarInt did not decode, or the packet id is not 0x00
    | PleaseNoDoSError              // the declared payload length is over the cap
    | JsonReadError                 // the declared payload could not be read in full
    | JsonParseError(message: string) // the payload is not the expected JSON; the parser's message
}
