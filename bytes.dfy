/**
 * Bytes on the wire: the 8-byte big-endian `long` that DataOutputStream.writeLong
 * writes and DataInputStream.readLong reads, the 1500-byte transfer buffer, and
 * the abstraction of InputStream.read(byte[]) used by every relay loop.
 */
module Bytes {

  newtype byte = x: int | 0 <= x < 256

  /** Size of every transfer buffer (`new byte[1500]`). */
  const BufferSize: nat := 1500

  const TwoTo63: int := 0x8000_0000_0000_0000
  const TwoTo64: int := 0x1_0000_0000_0000_0000

  /** The range of a Java `long`. */
  predicate IsLong(v: int) {
    -TwoTo63 <= v < TwoTo63
  }

  /** Everything a peer sends on a connection, and whether its stream then ends normally or breaks. */
  datatype InStream = InStream(data: seq<byte>, end: StreamEnd)
  datatype StreamEnd = EndOfStream | Broken

  /** The concatenation of a sequence of chunks, in order. */
  function Flatten(chunks: seq<seq<byte>>): seq<byte>
  {
    if chunks == [] then [] else Flatten(chunks[..|chunks| - 1]) + chunks[|chunks| - 1]
  }

  lemma {:induction false} FlattenAppend(a: seq<seq<byte>>, b: seq<seq<byte>>)
    ensures Flatten(a + b) == Flatten(a) + Flatten(b)
    decreases |b|
  {
    if b == [] {
      assert a + b == a;
    } else {
      assert (a + b)[..|a + b| - 1] == a + b[..|b| - 1];
      FlattenAppend(a, b[..|b| - 1]);
    }
  }

  /** Every chunk holds at least one byte and fits in the transfer buffer. */
  predicate BufferedChunks(chunks: seq<seq<byte>>) {
    forall i :: 0 <= i < |chunks| ==> 0 < |chunks[i]| <= BufferSize
  }

  function Pow256(k: nat): (p: nat)
    ensures p > 0
  {
    if k == 0 then 1 else 256 * Pow256(k - 1)
  }

  /** The low `k` bytes of `n`, most significant first. */
  function EncodeUnsigned(n: nat, k: nat): (r: seq<byte>)
    ensures |r| == k
  {
    if k == 0 then [] else EncodeUnsigned(n / 256, k - 1) + [(n % 256) as byte]
  }

  /** The unsigned big-endian value of `bs`. */
  function DecodeUnsigned(bs: seq<byte>): (n: nat)
    ensures n < Pow256(|bs|)
  {
    if bs == [] then 0 else DecodeUnsigned(bs[..|bs| - 1]) * 256 + bs[|bs| - 1] as int
  }

  /** DataOutputStream.writeLong: the value modulo 2^64 as 8 big-endian bytes. */
  function WriteLong(v: int): (r: seq<byte>)
    ensures |r| == 8
    ensures DecodeUnsigned(r) == v % TwoTo64
  {
    Pow256Eight();
    DecodeEncode(v % TwoTo64, 8);
    EncodeUnsigned(v % TwoTo64, 8)
  }

  /** DataInputStream.readLong: 8 big-endian bytes read as a two's-complement `long`. */
  function ReadLong(bs: seq<byte>): (v: int)
    requires |bs| == 8
    ensures IsLong(v)
    ensures v % TwoTo64 == DecodeUnsigned(bs)
  {
    Pow256Eight();
    var u := DecodeUnsigned(bs);
    if u >= TwoTo63 then u - TwoTo64 else u
  }

  lemma Pow256Eight()
    ensures Pow256(8) == TwoTo64
  {
    assert Pow256(2) == 0x1_0000;
    assert Pow256(4) == 0x1_0000_0000 by { assert Pow256(3) == 0x100_0000; }
    assert Pow256(6) == 0x1_0000_0000_0000 by { assert Pow256(5) == 0x100_0000_0000; }
    assert Pow256(7) == 0x100_0000_0000_0000;
  }

  lemma {:induction false} DecodeEncode(n: nat, k: nat)
    requires n < Pow256(k)
    ensures DecodeUnsigned(EncodeUnsigned(n, k)) == n
  {
    if k > 0 {
      var e := EncodeUnsigned(n, k);
      assert e[..k - 1] == EncodeUnsigned(n / 256, k - 1);
      assert n / 256 < Pow256(k - 1);
      DecodeEncode(n / 256, k - 1);
    }
  }

  lemma {:induction false} EncodeDecode(bs: seq<byte>)
    ensures EncodeUnsigned(DecodeUnsigned(bs), |bs|) == bs
  {
    if bs != [] {
      var init, last := bs[..|bs| - 1], bs[|bs| - 1];
      var n := DecodeUnsigned(bs);
      assert n == DecodeUnsigned(init) * 256 + last as int;
      assert n / 256 == DecodeUnsigned(init) && n % 256 == last as int;
      EncodeDecode(init);
      assert bs == init + [last];
    }
  }

  /** readLong recovers every `long` that writeLong wrote. */
  lemma ReadWriteLong(v: int)
    requires IsLong(v)
    ensures ReadLong(WriteLong(v)) == v
  {
    Pow256Eight();
    DecodeEncode(v % TwoTo64, 8);
  }

  /** writeLong reproduces every 8 bytes that readLong read. */
  lemma WriteReadLong(bs: seq<byte>)
    requires |bs| == 8
    ensures WriteLong(ReadLong(bs)) == bs
  {
    Pow256Eight();
    var u := DecodeUnsigned(bs);
    assert 0 <= u < TwoTo64;
    var v := ReadLong(bs);
    assert v == u || v == u - TwoTo64;
    assert v % TwoTo64 == u;
    EncodeDecode(bs);
  }

  lemma {:induction false} EncodeZero(k: nat)
    ensures forall i :: 0 <= i < k ==> EncodeUnsigned(0, k)[i] == 0
  {
    if k > 0 {
      EncodeZero(k - 1);
    }
  }

  /** The "not found / empty" header is eight zero bytes. */
  lemma ZeroHeader()
    ensures WriteLong(0) == [0, 0, 0, 0, 0, 0, 0, 0]
  {
    EncodeZero(8);
  }

  /**
   * InputStream.read(buffer) on a stream that still holds bytes from `pos` on:
   * it fills the front of the buffer with between one byte and a full buffer of
   * the next bytes (how many depends on the network or the file system),
   * leaves the rest of the buffer as it was, and returns that count.
   */
  method ReadChunk(buffer: array<byte>, data: seq<byte>, pos: nat) returns (n: nat)
    requires 0 < buffer.Length && pos < |data|
    modifies buffer
    ensures 0 < n <= buffer.Length && pos + n <= |data|
    ensures buffer[..n] == data[pos..pos + n]
    ensures buffer[n..] == old(buffer[n..])
  {
    var most := if buffer.Length < |data| - pos then buffer.Length else |data| - pos;
    n :| 0 < n <= most;
    forall k | 0 <= k < n {
      buffer[k] := data[pos + k];
    }
  }
}
