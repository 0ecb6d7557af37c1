/**
 * The client side of a file request: send a FILE_REQUEST envelope to the
 * server, read the 8-byte length header, stop on 0, and otherwise write every
 * byte that follows, one buffer-load at a time, into a local file with the
 * requested name.
 */
module FileRequester {
  import opened Wrappers
  import opened Bytes
  import opened Protocol

  datatype LocalFile = LocalFile(name: string, contents: seq<byte>)

  /**
   * What one request did: the envelope sent, the local file written, the writes
   * into it, and whether the file was closed afterwards.
   */
  datatype Fetch = Fetch(sent: Option<Request>, localFile: Option<LocalFile>, chunks: seq<seq<byte>>, fileClosed: bool)

  /**
   * The requester's copy loop after a non-zero header: read the server's stream
   * one buffer-load at a time and append each load to the local file, until the
   * stream ends.
   */
  method ReceiveFile(data: seq<byte>) returns (fileOutput: seq<byte>, chunks: seq<seq<byte>>)
    requires |data| >= 8
    ensures fileOutput == Flatten(chunks) == data[8..] && BufferedChunks(chunks)
  {
    fileOutput := [];
    chunks := [];
    var fileBuffer := new byte[BufferSize];
    var pos := 8;
    while pos < |data|
      invariant 8 <= pos <= |data|
      invariant BufferedChunks(chunks)
      invariant fileOutput == Flatten(chunks) == data[8..pos]
      decreases |data| - pos
    {
      var bytesReceived := ReadChunk(fileBuffer, data, pos);
      var chunk := fileBuffer[..bytesReceived];
      assert Flatten(chunks + [chunk]) == Flatten(chunks) + chunk by {
        FlattenAppend(chunks, [chunk]);
      }
      assert data[8..pos] + chunk == data[8..pos + bytesReceived];
      chunks := chunks + [chunk];
      fileOutput := fileOutput + chunk;
      pos := pos + bytesReceived;
    }
  }

  /**
   * `serverReachable`: whether connecting to the server succeeds.
   * `requestWriteFails`: whether sending the request object throws.
   * `serverIn`: everything the server sends back, and how its stream ends.
   * The header is not checked against the number of bytes that follow. A
   * broken stream ends the copy like the end of the stream does, but the
   * exception skips closing the local file.
   */
  method Run(fileOwner: string, filename: string, serverReachable: bool, requestWriteFails: bool, serverIn: InStream)
    returns (fetch: Fetch)
    ensures fetch.sent == if serverReachable && !requestWriteFails then Some(FileRequest(fileOwner, filename)) else None
    ensures fetch.localFile.Some? <==>
      serverReachable && !requestWriteFails && |serverIn.data| >= 8 && ReadLong(serverIn.data[..8]) != 0
    ensures fetch.localFile.Some? ==>
      && fetch.localFile.value == LocalFile(filename, serverIn.data[8..])
      && Flatten(fetch.chunks) == serverIn.data[8..]
      && BufferedChunks(fetch.chunks)
    ensures fetch.localFile.None? ==> fetch.chunks == []
    ensures fetch.fileClosed <==> fetch.localFile.Some? && serverIn.end == EndOfStream
  {
    if !serverReachable {
      return Fetch(None, None, [], false);
    }
    if requestWriteFails {
      // writeObject throws: an IOException, reported and dropped; no file is created.
      return Fetch(None, None, [], false);
    }
    var sent := Some(FileRequest(fileOwner, filename));
    var data := serverIn.data;
    if |data| < 8 {
      // readLong meets the end of the stream: an IOException, reported and dropped.
      return Fetch(sent, None, [], false);
    }
    var fileSize := ReadLong(data[..8]);
    if fileSize == 0 {
      return Fetch(sent, None, [], false);
    }
    var fileOutput, chunks := ReceiveFile(data);
    // End of stream ends the loop and closes the file; a broken stream throws
    // after the same writes, before the close.
    fetch := Fetch(sent, Some(LocalFile(filename, fileOutput)), chunks, serverIn.end == EndOfStream);
  }
}
