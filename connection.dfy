/** An accepted client socket, seen only through the two calls the server makes on
    it. What the peer sends is fixed in advance as the successive results of `recv`;
    whether a `send` goes through is decided by a limit on the number of sends. */
module Sockets {
  import opened Framing

  /** Size of the receive buffer: one `recv` delivers at most this many bytes. */
  const ChunkSize: nat := 1024

  /** How the stream ends once every chunk has been read: `recv` returns 0 or fails. */
  datatype EndOfStream = OrderlyClose | RecvError

  /** Unbounded: every send goes through. FailsAfter(n): the first n sends go
      through and every later one fails. */
  datatype SendLimit = Unbounded | FailsAfter(n: nat)

  /** The limit lets k more sends go through. */
  predicate Allows(lim: SendLimit, k: nat)
  {
    lim.Unbounded? || k <= lim.n
  }

  /** The limit left after k sends went through. */
  function Spend(lim: SendLimit, k: nat): SendLimit
    requires Allows(lim, k)
  {
    if lim.Unbounded? then Unbounded else FailsAfter(lim.n - k)
  }

  /** Every successful `recv` into a buffer of ChunkSize bytes delivers 1 to ChunkSize bytes. */
  predicate WellFormedChunks(chunks: seq<seq<uint8>>)
  {
    forall i :: 0 <= i < |chunks| ==> 0 < |chunks[i]| <= ChunkSize
  }

  class Connection {
    /** The socket's file descriptor; the server returns it on success. */
    const fd: nat
    /** What the remaining successful `recv` calls deliver, in order. */
    var chunks: seq<seq<uint8>>
    /** What `recv` reports after the last chunk. */
    const finish: EndOfStream
    /** Which of the coming sends go through. */
    var limit: SendLimit
    /** Every byte sent on this socket so far, in order. */
    ghost var sent: seq<uint8>

    ghost predicate Valid()
      reads this`chunks
    {
      WellFormedChunks(chunks)
    }

    constructor (fd: nat, chunks: seq<seq<uint8>>, finish: EndOfStream, limit: SendLimit)
      requires WellFormedChunks(chunks)
      ensures Valid()
      ensures this.fd == fd && this.chunks == chunks && this.finish == finish
      ensures this.limit == limit && sent == []
    {
      this.fd := fd;
      this.chunks := chunks;
      this.finish := finish;
      this.limit := limit;
      sent := [];
    }

    /** `send(fd, &b, 1, 0)`: 1 when the byte went out, -1 when the send failed. */
    method Send(b: uint8) returns (n: int)
      modifies this`limit, this`sent
      ensures n == 1 || n == -1
      ensures n == 1 <==> Allows(old(limit), 1)
      ensures n == 1 ==> limit == Spend(old(limit), 1) && sent == old(sent) + [b]
      ensures n == -1 ==> limit == old(limit) && sent == old(sent)
    {
      if Allows(limit, 1) {
        limit := Spend(limit, 1);
        sent := sent + [b];
        n := 1;
      } else {
        n := -1;
      }
    }

    /** `recv(fd, buf, ChunkSize, 0)`: the next chunk is copied to the front of buf and
        its length returned; after the last chunk, 0 on an orderly close and -1 on a
        receive error, with buf untouched. */
    method Recv(buf: array<uint8>) returns (n: int)
      requires Valid() && buf.Length == ChunkSize
      modifies this`chunks, buf
      ensures Valid()
      ensures old(chunks) != [] ==>
        && 0 < n <= ChunkSize
        && n == |old(chunks)[0]|
        && buf[..n] == old(chunks)[0]
        && buf[n..] == old(buf[n..])
        && chunks == old(chunks)[1..]
      ensures old(chunks) == [] ==>
        && n == (if finish == OrderlyClose then 0 else -1)
        && buf[..] == old(buf[..])
        && chunks == []
    {
      if chunks == [] {
        n := if finish == OrderlyClose then 0 else -1;
      } else {
        var c := chunks[0];
        for i := 0 to |c|
          invariant chunks == old(chunks)
          invariant buf[..i] == c[..i]
          invariant forall j :: i <= j < buf.Length ==> buf[j] == old(buf[j])
        {
          buf[i] := c[i];
          assert buf[..i + 1] == buf[..i] + [c[i]];
        }
        n := |c|;
        assert buf[n..] == old(buf[n..]);
        chunks := chunks[1..];
      }
    }
  }
}
