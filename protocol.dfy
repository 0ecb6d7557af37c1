/**
 * The envelope that opens every connection to the server, and the record the
 * server keeps per joined client (Request, JoinChatRequest, FileTransferRequest
 * and ClientDetails folded into datatypes).
 */
module Protocol {

  /** The identity of one accepted socket; sockets compare by identity. */
  type ConnId = nat

  /** A peer's network address (an InetAddress), compared only for equality. */
  datatype Address = Address(id: nat)

  /** Where a client's file listener can be reached. */
  datatype ClientDetails = ClientDetails(address: Address, listenPort: int)

  /**
   * The first object read from a new connection: a JOIN_CHAT request, a
   * FILE_REQUEST request, or anything else (another request type, or an object
   * stream that fails to deserialize or to cast).
   */
  datatype Request =
    | Join(username: string, clientListenPort: int)
    | FileRequest(fileOwner: string, filename: string)
    | Malformed

  /** The outcome of printUsage: invalid or missing command-line arguments. */
  datatype UsageError = Usage
}
