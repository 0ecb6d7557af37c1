/**
 * The client-side file listener: for each connection the server's relay opens,
 * read the filename, answer with the file's length (or 0 when the file is
 * missing, unreadable or empty) and then the file's bytes, one buffer-load at
 * a time.
 */
module FileRequestHandler {
  import opened Wrappers
  import opened Bytes

  /** What the local file system reports for one name: `canRead()` and the file's bytes. */
  datatype FileEntry = FileEntry(readable: bool, contents: seq<byte>)

  /** The names that `exists()`, with what they hold. */
  type FileSystem = map<string, FileEntry>

  /** The file exists, can be read, and its length is positive. */
  predicate Servable(fs: FileSystem, filename: string) {
    filename in fs && fs[filename].readable && |fs[filename].contents| > 0
  }

  /** Every file is shorter than 2^63 bytes, so its length fits a `long`. */
  predicate Plausible(fs: FileSystem) {
    forall name :: name in fs ==> |fs[name].contents| < TwoTo63
  }

  /**
   * Everything one connection is sent when every write succeeds; `None` when
   * reading the filename failed.
   */
  function Response(fs: FileSystem, request: Option<string>): (r: seq<byte>)
    ensures r == [] <==> request.None?
    ensures request.Some? ==>
      |r| == 8 + if Servable(fs, request.value) then |fs[request.value].contents| else 0
  {
    match request
    case None => []
    case Some(filename) =>
      if Servable(fs, filename) then WriteLong(|fs[filename].contents|) + fs[filename].contents
      else WriteLong(0)
  }

  /**
   * The reply to a request is a well-formed transfer stream: an 8-byte header
   * announcing exactly the number of bytes that follow, which are the file's
   * contents when the file can be served, and none (header 0) otherwise.
   */
  lemma ResponseFramed(fs: FileSystem, filename: string)
    requires Plausible(fs)
    ensures var reply := Response(fs, Some(filename));
      && |reply| >= 8
      && ReadLong(reply[..8]) == |reply| - 8
      && reply[8..] == if Servable(fs, filename) then fs[filename].contents else []
  {
    var reply := Response(fs, Some(filename));
    if Servable(fs, filename) {
      var c := fs[filename].contents;
      assert reply[..8] == WriteLong(|c|);
      ReadWriteLong(|c|);
    } else {
      assert reply[..8] == WriteLong(0);
      ReadWriteLong(0);
    }
  }

  /** What one connection got: the bytes written, the file-read chunks among them, and whether it was closed. */
  datatype Served = Served(reply: seq<byte>, chunks: seq<seq<byte>>, closed: bool)

  /**
   * One accepted connection: the filename read from it (`None` when `readUTF`
   * throws), how many bytes the peer takes before a write throws (`None`: every
   * write succeeds), and whether `shutdownOutput` throws.
   */
  datatype Incoming = Incoming(request: Option<string>, accepts: Option<nat>, shutdownFails: bool)

  /** `n` bytes written in full do not exceed what the peer takes. */
  predicate Fits(accepts: Option<nat>, n: nat) {
    accepts.None? || n <= accepts.value
  }

  /**
   * The file-copy loop after the header `header` went out: read the file one
   * buffer-load at a time and write each load to the peer, until the file ends
   * or a write throws. `complete` says whether every write succeeded.
   */
  method SendContents(header: seq<byte>, contents: seq<byte>, accepts: Option<nat>)
    returns (out: seq<byte>, chunks: seq<seq<byte>>, complete: bool)
    requires Fits(accepts, |header|)
    ensures out <= header + contents && Fits(accepts, |out|)
    ensures out == header + Flatten(chunks) && BufferedChunks(chunks)
    ensures complete <==> Fits(accepts, |header| + |contents|)
    ensures complete ==> Flatten(chunks) == contents
  {
    out := header;
    chunks := [];
    var fileBuffer := new byte[BufferSize];
    var pos := 0;
    while pos < |contents|
      invariant 0 <= pos <= |contents|
      invariant BufferedChunks(chunks)
      invariant Flatten(chunks) == contents[..pos]
      invariant out == header + Flatten(chunks)
      invariant Fits(accepts, |out|)
      decreases |contents| - pos
    {
      var bytesRead := ReadChunk(fileBuffer, contents, pos);
      var chunk := fileBuffer[..bytesRead];
      assert contents[..pos] + chunk == contents[..pos + bytesRead];
      if !Fits(accepts, |out| + |chunk|) {
        // The write throws: the reply stops after the writes that succeeded.
        assert out == (header + contents)[..|out|];
        return out, chunks, false;
      }
      assert Flatten(chunks + [chunk]) == Flatten(chunks) + chunk by {
        FlattenAppend(chunks, [chunk]);
      }
      chunks := chunks + [chunk];
      out := out + chunk;
      pos := pos + bytesRead;
    }
    assert contents[..pos] == contents;
    complete := true;
  }

  /**
   * One turn of the accept loop. Every IOException is swallowed: after a failed
   * filename read or a failed write the connection is left open, and so is the
   * file being sent; a failed `shutdownOutput` skips the close.
   */
  method Serve(fs: FileSystem, conn: Incoming) returns (served: Served)
    ensures served.reply <= Response(fs, conn.request)
    ensures Fits(conn.accepts, |served.reply|)
    ensures Fits(conn.accepts, |Response(fs, conn.request)|) ==> served.reply == Response(fs, conn.request)
    ensures served.closed <==>
      conn.request.Some? && Fits(conn.accepts, |Response(fs, conn.request)|) && !conn.shutdownFails
    ensures conn.request.Some? && Servable(fs, conn.request.value) && Fits(conn.accepts, 8) ==>
      && BufferedChunks(served.chunks)
      && served.reply == WriteLong(|fs[conn.request.value].contents|) + Flatten(served.chunks)
    ensures conn.request.Some? && Servable(fs, conn.request.value)
            && Fits(conn.accepts, |Response(fs, conn.request)|) ==>
      Flatten(served.chunks) == fs[conn.request.value].contents
    ensures !(conn.request.Some? && Servable(fs, conn.request.value)) ==> served.chunks == []
  {
    if conn.request.None? {
      return Served([], [], false);
    }
    var filename := conn.request.value;
    if !(filename in fs && fs[filename].readable && |fs[filename].contents| > 0) {
      // Missing, unreadable or empty: a 0 header, then shut down and close.
      if !Fits(conn.accepts, 8) {
        return Served([], [], false);
      }
      return Served(WriteLong(0), [], !conn.shutdownFails);
    }
    var contents := fs[filename].contents;
    var header := WriteLong(|contents|);
    if !Fits(conn.accepts, |header|) {
      return Served([], [], false);
    }
    var out, chunks, complete := SendContents(header, contents, conn.accepts);
    if !complete {
      return Served(out, chunks, false);
    }
    served := Served(out, chunks, !conn.shutdownFails);
  }

  /**
   * `reply` is a prefix of the reply the request calls for, and all of it when
   * every write to that peer succeeds.
   */
  predicate Answered(fs: FileSystem, conn: Incoming, reply: seq<byte>) {
    && reply <= Response(fs, conn.request)
    && (Fits(conn.accepts, |Response(fs, conn.request)|) ==> reply == Response(fs, conn.request))
  }

  /**
   * The listener's `while (true)` loop over a run of incoming connections: a
   * failed request or write does not end the loop, and every connection gets a
   * prefix of the reply its own request calls for: all of it unless a write to
   * that peer fails.
   */
  method ServeAll(fs: FileSystem, conns: seq<Incoming>) returns (replies: seq<seq<byte>>)
    ensures |replies| == |conns|
    ensures forall i :: 0 <= i < |conns| ==> Answered(fs, conns[i], replies[i])
  {
    replies := [];
    for i := 0 to |conns|
      invariant |replies| == i
      invariant forall k :: 0 <= k < i ==> Answered(fs, conns[k], replies[k])
    {
      var served := Serve(fs, conns[i]);
      replies := replies + [served.reply];
    }
  }
}
