# Chat broker with file relay — a Dafny model

This project models the core of a small Java chat system. A central server (the
broker) keeps a registry of joined clients and the list of their broadcast
connections. It fans every chat message out to all other clients. When one
client asks for a file that another client owns, it relays the file from the
owner's file listener back to the requester. The model covers:

- the server's accept loop (`ChatServer`): the three-way dispatch on the first
  request of a connection (join, file request, anything else), the
  `clientFileServers` map and the `connectedClients` list, and the check of the
  server's single port argument;
- the per-client handler (`ServerClientHandler`): fan-out of one message to
  every other connected socket in list order, isolation of failed writes, and
  removal of the handler's own socket when its stream fails;
- the relay (`ServerFileTransferProxy`): the filename sent to the owner, the
  8-byte length header forwarded unchanged, the payload copied in buffer-loads
  of at most 1500 bytes, and the requester shut down and then closed on every
  path, unless `shutdownOutput` throws;
- the owner's file listener (`FileRequestHandler`): the header (the file
  length, or 0 when the file is missing, unreadable or empty), the chunked
  file contents, and a reply cut short by a failed write;
- the requester (`FileRequester`): the FILE_REQUEST envelope, the stop on a 0
  header, the local file built from the bytes that follow, and whether that
  file is closed;
- the client's command line (`ChatClient`): `-l`, `-p` and `-s`, with
  printUsage as a usage error.

Supporting modules: `Wrappers` (Option, Result), `Bytes` (bytes,
`writeLong`/`readLong` as 8 big-endian bytes, the 1500-byte buffer, and
`InputStream.read(byte[])`), `JavaInt` (`Integer.parseInt`), `Protocol` (the
request envelope and `ClientDetails`), and `Scenario` (the components run one
after another).

Abstractions. A socket is a `ConnId` and an `InetAddress` is an opaque
`Address`. Everything a peer sends on a connection is one `InStream`: its bytes
and whether the stream then ends or breaks. `read(buffer)` returns any number of
bytes from one to the buffer's length (a nondeterministic choice), so each
contract holds for every way the network or the disk splits the data. Which
writes and which `shutdownOutput` calls throw is an input of the fan-out, the
disconnect, the relay, the file listener and the requester, so their paths
where an IOException is swallowed are modelled too. A file
system is a map from names that exist to (readable, contents). Each
`synchronized` section is one atomic step. One method call is one turn of a
`while (true)` loop.

The model follows the code, including where the code departs from the
behaviour the system is meant to have:

- A client that disconnects is removed from `connectedClients` only. Its name
  stays in `clientFileServers`, so the name stays taken (`NameStaysTaken`).
  Disconnecting is meant to unregister the whole session.
- The handler learns the username from the client. The model takes it as a
  parameter. The server constructs the handler with two arguments, but the
  handler class has only a one-argument constructor.
- Fan-out follows the order of `connectedClients`.
- The relay does not stop on a 0 header. It forwards the header and then
  whatever the owner sends until end of stream (`ServerFileTransferProxy.Run`).
- When the owner cannot be reached, the relay closes the requester without
  writing any header. The requester is meant to receive a 0 header then.
- The requester never checks the header against the number of bytes it
  receives.
- Each socket is closed only after a successful `shutdownOutput`. When that
  call throws, the exception is swallowed and the socket stays open. The
  relay, the handler and the file listener all behave this way.

## Model

| member | source | states |
|---|---|---|
| `ChatServer.Broker.constructor` | ChatServer.java:33-35 | The server starts with an empty name map and an empty connection list. |
| `ChatServer.Broker.Dispatch` | ChatServer.java:60-131 | A join whose name is taken gets the "already taken" text, and both map and list stay unchanged. A join with a fresh name maps it to (peer address, announced port) and appends the socket. A file request for an unknown owner gets eight zero bytes, with nothing changed. A file request for a known owner starts a relay with the filename and that owner's address and port. Anything else is closed with nothing changed. The registry invariant is kept. |
| `ChatServer.Admit` | ChatServer.java:67-127 | A join succeeds exactly when its name is not registered yet. Only a successful join changes the registry, and it adds exactly one name. |
| `ChatServer.AdmitKeepsConsistent` | ChatServer.java:89-95 | For a newly accepted socket, dispatch keeps the list free of repeated sockets. The list is never longer than the name map. |
| `ChatServer.DistinctJoinsAllRegistered` | ChatServer.java:89-95 | Starting empty, N joins with distinct names give N names and the N sockets in arrival order. Each name resolves to its own address and port. |
| `ChatServer.ServerArgs` | ChatServer.java:40-45 | The server starts exactly when there is one argument and parseInt accepts it. The port is the parsed value. |
| `ChatServer.ServerArgsAcceptDecimal` | ChatServer.java:40-45 | The decimal text of every `int` is accepted as the port. |
| `JavaInt.ParseInt` | ChatClient.java:102 | A parsed port is a 32-bit `int`. The text is an optional '+' or '-' followed by at least one ASCII digit and nothing else. A '-' gives a value of at most 0; anything else gives at least 0. |
| `JavaInt.ParseDecimal` | ChatClient.java:102 | parseInt reads back the decimal text of every `int`. |
| `ServerClientHandler.Tagged` | ServerClientHandler.java:54 | The delivered text is the username, then ": ", then the message, and each part can be read back. |
| `ServerClientHandler.Recipients` | ServerClientHandler.java:50-51 | Only sockets from the list that are not the sender's and are reachable receive the message. |
| `ServerClientHandler.RecipientsCount` | ServerClientHandler.java:50-51 | Every reachable socket other than the sender's receives one copy per listing. The sender receives none. |
| `ServerClientHandler.RecipientsAppend` | ServerClientHandler.java:50 | Recipients are visited in list order: the filter distributes over concatenation. |
| `ServerClientHandler.ExactlyOneCopy` | ServerClientHandler.java:50-54 | On the server's list, which has no repeats, each other reachable client receives exactly one copy and the sender zero. |
| `ServerClientHandler.FailuresIsolated` | ServerClientHandler.java:52-57 | A recipient whose write does not fail receives as many copies as it would if no write had failed. |
| `ServerClientHandler.Broadcast` | ServerClientHandler.java:45-60 | The sockets that receive the text are the connected, non-failing, non-sender sockets of `connectedClients`, in list order. The text is `username + ": " + message`. |
| `ServerClientHandler.RemoveFirst` | ServerClientHandler.java:65 | Removing an absent socket changes nothing. Removing a present one shortens the list by one. |
| `ServerClientHandler.RemoveFirstCount` | ServerClientHandler.java:65 | Removal takes away one occurrence of the socket, if there is one, and changes no other socket's count. |
| `ServerClientHandler.RemoveFirstAt` | ServerClientHandler.java:65 | When the first occurrence is at position i, removal deletes exactly position i. |
| `ServerClientHandler.RemoveFirstSplits` | ServerClientHandler.java:65 | Only the first occurrence is removed, and the order of the rest is kept. |
| `ServerClientHandler.RemoveFirstKeepsDistinct` | ServerClientHandler.java:64-66 | On a list without repeats, removal leaves the socket absent and adds nothing. |
| `ServerClientHandler.Leave` | ServerClientHandler.java:64-66 | A departing handler leaves the name map untouched and takes one copy of its socket out of the connection list. |
| `ServerClientHandler.LeaveKeepsConsistent` | ServerClientHandler.java:62-72 | Leaving keeps the registry invariant. Leaving twice is the same as leaving once. |
| `ServerClientHandler.NameStaysTaken` | ServerClientHandler.java:62-72 | After a client leaves, a new join with its name is still rejected. |
| `ServerClientHandler.Disconnect` | ServerClientHandler.java:62-77 | On read failure only the handler's own socket leaves `connectedClients`, and the name map is untouched. The handler closes the socket itself only on an unexpected exception, and only when `shutdownOutput` does not throw. |
| `Bytes.WriteLong` | ServerFileTransferProxy.java:61 | writeLong produces 8 bytes whose big-endian unsigned value is the `long` modulo 2^64. |
| `Bytes.ReadLong` | ServerFileTransferProxy.java:60 | readLong gives the `long` that is congruent, modulo 2^64, to the big-endian unsigned value of the 8 bytes. |
| `Bytes.ReadWriteLong` | ServerFileTransferProxy.java:60-61 | readLong gives back every `long` that writeLong wrote. |
| `Bytes.WriteReadLong` | ServerFileTransferProxy.java:60-61 | writeLong(readLong(h)) reproduces the 8 header bytes, so the relay forwards the header unchanged. |
| `Bytes.ZeroHeader` | ChatServer.java:111-112 | The "not found" header is eight zero bytes. |
| `Bytes.ReadChunk` | ServerFileTransferProxy.java:66-67 | A read fills the front of the buffer with the next 1 to 1500 bytes of the stream and leaves the rest of the buffer as it was. |
| `Bytes.FlattenAppend` | ServerFileTransferProxy.java:67-70 | Concatenating chunk sequences concatenates their bytes. |
| `ServerFileTransferProxy.CopyPayload` | ServerFileTransferProxy.java:64-70 | The copy loop passes on every byte after the header, in order, in chunks of 1 to 1500 bytes. |
| `ServerFileTransferProxy.Run` | ServerFileTransferProxy.java:49-89 | The owner gets the bare filename exactly when it can be reached and that write succeeds. With the filename delivered, a writable requester and a full header, the requester gets exactly what the owner sent: the same 8 header bytes, then the in-order concatenation of chunks of 1 to 1500 bytes. This holds whether the owner's stream ends or breaks. A bare 0 from the owner reaches the requester as eight zero bytes. Nothing reaches the requester only when the owner is unreachable, the filename write fails, the owner sends fewer than 8 bytes, or the first write to the requester fails. The requester is closed exactly when `shutdownOutput` does not throw. |
| `FileRequestHandler.Response` | FileRequestHandler.java:51-79 | A connection whose filename was read gets at least the 8-byte header. The header is followed by the whole file when the file can be served, and by nothing otherwise. A connection whose filename read failed gets nothing. |
| `FileRequestHandler.ResponseFramed` | FileRequestHandler.java:54-79 | The reply's header announces exactly the number of bytes that follow. Those bytes are the file contents when the file exists, is readable and is non-empty. Otherwise the header is 0 and nothing follows. |
| `FileRequestHandler.SendContents` | FileRequestHandler.java:72-79 | The file goes out in chunks of 1 to 1500 bytes after the header. The sent bytes are always a prefix of header plus file that the peer accepted. The copy completes exactly when the whole of it fits, and then the chunks make up the file. |
| `FileRequestHandler.Serve` | FileRequestHandler.java:45-84 | The bytes sent are a prefix of `Response`, and all of it unless a write throws. A write throws once the peer accepts no more. The reply is the header and then the file in chunks of 1 to 1500 bytes; a missing, unreadable or empty file gets only a 0 header. The connection is closed exactly when the filename was read, every write succeeded and `shutdownOutput` did not throw. |
| `FileRequestHandler.ServeAll` | FileRequestHandler.java:44-85 | A failed read or write does not end the loop. Every connection gets a prefix of the reply its own request calls for, and all of it when its writes succeed. |
| `FileRequester.ReceiveFile` | FileRequester.java:61-68 | The copy loop appends every byte after the header to the local file, in order, in chunks of 1 to 1500 bytes. |
| `FileRequester.Run` | FileRequester.java:47-76 | A FILE_REQUEST with the given owner and filename is sent exactly when the connection is made and the write of the request succeeds. A local file is written exactly when the request was sent and the header is non-zero. It holds every byte after the header, written in chunks of 1 to 1500 bytes, with no check against the header. The file is closed exactly when the server's stream ends normally rather than breaking. |
| `ChatClient.ParseArguments` | ChatClient.java:97-120 | The result equals `Parse`: flag/value pairs only, the last value of each flag wins, both ports are required (a port of -1 counts as missing), and the host defaults to "localhost". |
| `ChatClient.BadPairFails` | ChatClient.java:99-119 | These are usage failures: an unknown token where a flag belongs, a flag with no value, a port parseInt rejects, and a host starting with '-'. |
| `ChatClient.OddLengthFails` | ChatClient.java:99-118 | An odd number of arguments is always a usage failure: some flag lacks its value. |
| `ChatClient.OptionsCommute` | ChatClient.java:97-115 | Two adjacent options with different flags can be given in either order. |
| `ChatClient.RepeatedFlagLastWins` | ChatClient.java:99-110 | An earlier occurrence of a repeated flag has no effect. |
| `Scenario.FileTransferEndToEnd` | FileRequester.java:55-69 | Listener, relay and requester together yield a local file equal to the owner's file when the owner can serve it, and no file otherwise. |
| `Scenario.AliceAndBobJoin` | ChatServer.java:89-95 | Two joins register both names with their addresses and ports, and both sockets in order. |
| `Scenario.AliceSaysHello` | ServerClientHandler.java:50-54 | Only bob receives alice's message, as "alice: hello". |
| `Scenario.BobRequestsNotes` | ChatServer.java:107-123 | bob's request for alice's file starts a relay to alice's address and listen port. |

## Left out

- Threads and `synchronized`: each synchronized section is one atomic step, and the interleaving of handlers is not modelled.
- Sockets and Java serialization (`ObjectInputStream`/`ObjectOutputStream`): the first request is the `Request` datatype, and a failed decode or cast is `Malformed`.
- `writeUTF`/`readUTF` encoding: the rejection text, chat text and filenames are strings, not length-prefixed bytes.
- `InetAddress`: an opaque `Address`. `isConnected()` is a set of connected sockets given as a parameter. A failing write is a set of failing sockets given as a parameter.
- The real file system: a map from existing names to (readable, contents). A file that changes between `length()` and reading is not modelled, and neither is a name that exists and is readable but cannot be opened, such as a directory.
- `ServerFileTransferProxy.Run`: a requester that fails partway through the relay is not modelled (writes to it either all succeed or fail from the first). The model does not record the order of the write to the owner relative to the reads from it. It does not track the owner socket, which the source never closes. A `shutdownOutput` that throws on the normal path is retried in the handler, and the model assumes it throws there too.
- `FileRequestHandler.Serve`: the `FileInputStream` left open after a failed write is not tracked.
- `FileRequester.Run`: a failure to create the local file is not modelled.
- `ChatServer.Broker.Dispatch`: the write of the rejection text or of the zero header, and the `shutdownOutput` after it, are assumed to succeed. If one of them throws, the socket is still closed by the catch block, and the registry changes in neither case.
- `Integer.parseInt`: only ASCII digits are modelled. Java also accepts other Unicode decimal digits.
- Binding the server socket on the parsed port (out-of-range ports) and the accept itself: `ServerArgs` models only the argument check.
- Sender, Receiver, `ChatClient.main` and `setUsername`: console loops and `System.exit`.
- printUsage: only its outcome, a usage error, is modelled. The printing and the exit are not.
- The `while (true)` loops: one request or one message per call. `FileRequestHandler.ServeAll` runs the listener loop over a finite run of requests.
