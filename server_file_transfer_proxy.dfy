/**
 * The server's relay for one file request: connect to the owner's file
 * listener, send it the bare filename, forward its 8-byte length header to the
 * requester, then copy what the owner sends, one buffer-load at a time, until
 * the owner's stream ends. On every path the requester's connection is shut
 * down and then closed; a failing `shutdownOutput` is swallowed and skips the
 * `close`.
 */
module ServerFileTransferProxy {
  import opened Bytes

  /** What one relay did: sent to the owner, sent to the requester, and the requester-side writes after the header. */
  datatype Relay = Relay(toOwner: seq<string>, toRequester: seq<byte>, chunks: seq<seq<byte>>, requesterClosed: bool)

  /**
   * The relay's copy loop after the header: read the owner's stream one
   * buffer-load at a time and write each load to the requester, until the
   * owner's stream ends.
   */
  method CopyPayload(data: seq<byte>) returns (chunks: seq<seq<byte>>)
    requires |data| >= 8
    ensures BufferedChunks(chunks) && Flatten(chunks) == data[8..]
  {
    chunks := [];
    var dataBuffer := new byte[BufferSize];
    var pos := 8;
    while pos < |data|
      invariant 8 <= pos <= |data|
      invariant BufferedChunks(chunks)
      invariant Flatten(chunks) == data[8..pos]
      decreases |data| - pos
    {
      var bytesReceived := ReadChunk(dataBuffer, data, pos);
      var chunk := dataBuffer[..bytesReceived];
      assert Flatten(chunks + [chunk]) == Flatten(chunks) + chunk by {
        FlattenAppend(chunks, [chunk]);
      }
      assert data[8..pos] + chunk == data[8..pos + bytesReceived];
      chunks := chunks + [chunk];
      pos := pos + bytesReceived;
    }
  }

  /**
   * `ownerReachable`: whether connecting to the owner's listener succeeds.
   * `ownerWriteFails`: whether sending the filename to the owner throws.
   * `ownerIn`: everything the owner sends back, and how its stream ends.
   * `requesterWritable`: whether writes to the requester succeed (when they do
   * not, the first one throws).
   * `shutdownFails`: whether `shutdownOutput` on the requester's socket throws.
   * How the owner's stream ends (end of stream or broken) makes no difference.
   */
  method Run(filename: string, ownerReachable: bool, ownerWriteFails: bool, ownerIn: InStream,
             requesterWritable: bool, shutdownFails: bool)
    returns (relay: Relay)
    ensures relay.requesterClosed <==> !shutdownFails
    ensures relay.toOwner == if ownerReachable && !ownerWriteFails then [filename] else []
    ensures !ownerReachable || ownerWriteFails || !requesterWritable || |ownerIn.data| < 8 ==>
      relay.toRequester == [] && relay.chunks == []
    ensures ownerReachable && !ownerWriteFails && requesterWritable && |ownerIn.data| >= 8 ==>
      && relay.toRequester == ownerIn.data
      && relay.toRequester[..8] == ownerIn.data[..8]
      && relay.toRequester[8..] == Flatten(relay.chunks) == ownerIn.data[8..]
      && BufferedChunks(relay.chunks)
    ensures ownerReachable && !ownerWriteFails && requesterWritable && ownerIn.data == WriteLong(0) ==>
      relay.toRequester == [0, 0, 0, 0, 0, 0, 0, 0]
  {
    if !ownerReachable {
      // new Socket(ownerAddress, ownerListenPort) throws: shut down and close the requester.
      return Relay([], [], [], !shutdownFails);
    }
    if ownerWriteFails {
      // writeUTF(filename) throws: nothing reached the owner; shut down and close the requester.
      return Relay([], [], [], !shutdownFails);
    }
    var toOwner := [filename];
    var data := ownerIn.data;
    if |data| < 8 {
      // readLong meets the end of the owner's stream (or a broken one): close the requester.
      return Relay(toOwner, [], [], !shutdownFails);
    }
    var fileSize := ReadLong(data[..8]);
    if !requesterWritable {
      // writeLong to the requester throws: close the requester.
      return Relay(toOwner, [], [], !shutdownFails);
    }
    WriteReadLong(data[..8]);
    var chunks := CopyPayload(data);
    var out := WriteLong(fileSize) + Flatten(chunks);
    // read returns -1 at the end of the owner's stream, or throws on a broken
    // one; both paths shut down the requester and, unless that throws, close it.
    assert out == data[..8] + data[8..] == data;
    if data == WriteLong(0) {
      ZeroHeader();
    }
    relay := Relay(toOwner, out, chunks, !shutdownFails);
  }
}
