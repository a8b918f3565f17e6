/**
 * What travels over the connection socket: text lines written by a
 * PrintWriter's `println`, and raw byte chunks written by the resource copy
 * loop. The trace of writes is the observable behaviour of both servers.
 */
module Transfer {

  newtype byte = x: int | 0 <= x < 256

  /** The size of the copy buffer, and so the most bytes one socket write carries. */
  const CHUNK_SIZE := 1500

  /** One write to the socket. */
  datatype Chunk = Text(text: string) | Bytes(data: seq<byte>)

  /** What a handler sends: lines, each printed with `println`, then the bytes of a resource. */
  datatype Reply = Reply(lines: seq<string>, body: seq<byte>)

  /** `cs` is a series of byte writes of 1 to CHUNK_SIZE bytes each that together carry `body` in order. */
  predicate Chunked(cs: seq<Chunk>, body: seq<byte>)
    decreases |cs|
  {
    if cs == [] then body == []
    else
      && cs[0].Bytes?
      && 0 < |cs[0].data| <= CHUNK_SIZE
      && |cs[0].data| <= |body|
      && body[..|cs[0].data|] == cs[0].data
      && Chunked(cs[1..], body[|cs[0].data|..])
  }

  /** One more write of a few bytes carries those bytes after the ones already sent. */
  lemma {:induction false} ChunkedSnoc(cs: seq<Chunk>, body: seq<byte>, piece: seq<byte>)
    requires Chunked(cs, body)
    requires 0 < |piece| <= CHUNK_SIZE
    ensures Chunked(cs + [Bytes(piece)], body + piece)
    decreases |cs|
  {
    if cs == [] {
      assert [Bytes(piece)][1..] == [];
      assert (body + piece)[..|piece|] == piece;
      assert (body + piece)[|piece|..] == [];
    } else {
      var n := |cs[0].data|;
      ChunkedSnoc(cs[1..], body[n..], piece);
      assert (cs + [Bytes(piece)])[1..] == cs[1..] + [Bytes(piece)];
      assert (body + piece)[..n] == body[..n];
      assert (body + piece)[n..] == body[n..] + piece;
    }
  }

  /** The chunks of a body carry exactly that many bytes. */
  lemma {:induction false} ChunkedLength(cs: seq<Chunk>, body: seq<byte>)
    requires Chunked(cs, body)
    ensures |body| == BytesSent(cs)
    decreases |cs|
  {
    if cs != [] {
      ChunkedLength(cs[1..], body[|cs[0].data|..]);
    }
  }

  /** The number of raw bytes among a series of writes. */
  function BytesSent(cs: seq<Chunk>): nat
  {
    if cs == [] then 0
    else (if cs[0].Bytes? then |cs[0].data| else 0) + BytesSent(cs[1..])
  }

  /**
   * The copy loop of `sendResource`: read from the file into a buffer of
   * CHUNK_SIZE bytes and write what was read, until the end of the file.
   * A read may deliver fewer bytes than the buffer holds, so each read's
   * length is any number from 1 to what fits and what is left.
   */
  method CopyInChunks(data: seq<byte>) returns (writes: seq<Chunk>)
    ensures Chunked(writes, data)
  {
    var buf := new byte[CHUNK_SIZE];
    var pos := 0;
    writes := [];
    while pos < |data|
      invariant 0 <= pos <= |data|
      invariant Chunked(writes, data[..pos])
    {
      var len :| 0 < len <= CHUNK_SIZE && len <= |data| - pos;
      forall i | 0 <= i < len {
        buf[i] := data[pos + i];
      }
      ChunkedSnoc(writes, data[..pos], buf[..len]);
      assert data[..pos] + buf[..len] == data[..pos + len];
      writes := writes + [Bytes(buf[..len])];
      pos := pos + len;
    }
    assert data[..pos] == data;
  }

  /** `println` of each line: the line followed by the platform line separator. */
  function Printed(lines: seq<string>, newline: string): (cs: seq<Chunk>)
    ensures |cs| == |lines|
    ensures forall i :: 0 <= i < |lines| ==> cs[i] == Text(lines[i] + newline)
  {
    if lines == [] then [] else [Text(lines[0] + newline)] + Printed(lines[1..], newline)
  }

  /**
   * The socket trace went from `before` to `after` by sending `reply`: its
   * lines, each printed with `println`, then its body in chunks.
   */
  predicate Transmits(before: seq<Chunk>, after: seq<Chunk>, reply: Reply, newline: string)
  {
    var k := |before| + |reply.lines|;
    && k <= |after|
    && after[..|before|] == before
    && after[|before|..k] == Printed(reply.lines, newline)
    && Chunked(after[k..], reply.body)
  }

  /** Sending lines and then a body is sending the reply that has both. */
  lemma TransmitsThen(a: seq<Chunk>, b: seq<Chunk>, c: seq<Chunk>, lines: seq<string>, body: seq<byte>, newline: string)
    requires Transmits(a, b, Reply(lines, []), newline)
    requires Transmits(b, c, Reply([], body), newline)
    ensures Transmits(a, c, Reply(lines, body), newline)
  {
    assert b == a + Printed(lines, newline);
    assert c == b + c[|b|..];
  }

  /** Printing one line after another reply's lines. */
  lemma TransmitsMore(a: seq<Chunk>, b: seq<Chunk>, c: seq<Chunk>, lines: seq<string>, more: seq<string>, newline: string)
    requires Transmits(a, b, Reply(lines, []), newline)
    requires Transmits(b, c, Reply(more, []), newline)
    ensures Transmits(a, c, Reply(lines + more, []), newline)
  {
    PrintedAppend(lines, more, newline);
    var k := |a| + |lines| + |more|;
    assert c[..|a|] == a;
    assert c[|a|..k] == Printed(lines, newline) + Printed(more, newline) by {
      assert c[|a|..k] == c[|a|..|b|] + c[|b|..k];
      assert c[|a|..|b|] == b[|a|..|b|];
    }
    assert c[k..] == c[|b| + |more|..];
  }

  lemma PrintedAppend(lines: seq<string>, more: seq<string>, newline: string)
    ensures Printed(lines + more, newline) == Printed(lines, newline) + Printed(more, newline)
  {
    var p, q := Printed(lines, newline), Printed(more, newline);
    assert forall i :: 0 <= i < |lines| + |more| ==> (lines + more)[i] == if i < |lines| then lines[i] else more[i - |lines|];
    assert Printed(lines + more, newline) == p + q;
  }
}
