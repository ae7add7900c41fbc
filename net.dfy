/** The connection the leaf future owns, modelled without a network. The
    service at the fixed address (`localhost:8080`) is a value: whether it
    accepts the connection, and the scripted outcomes that successive
    non-blocking reads on that connection return. A chunk of bytes is data,
    an empty chunk is the peer closing the connection (end of stream), and a
    failure carries the error kind the read reports. */
module Net {
  import opened Utf8

  /** The size of the scratch buffer every read fills (`[0u8; 1024]`). */
  const ReadBufferSize := 1024

  /** The error kinds the read loop tells apart (`std::io::ErrorKind`). */
  datatype ErrorKind = Interrupted | WouldBlock | Other(code: nat)

  predicate Transient(kind: ErrorKind) {
    kind == Interrupted || kind == WouldBlock
  }

  /** One scripted outcome of the peer side of a read. */
  datatype Reply = Chunk(bytes: seq<byte>) | Failure(kind: ErrorKind)

  /** The service listening at the fixed address, as the leaf sees it. */
  datatype Service = Service(listening: bool, replies: seq<Reply>)

  /** An open, non-blocking connection: the replies still to come. */
  datatype Conn = Conn(pending: seq<Reply>)

  /** What one `read` call returns (`io::Result<usize>`). */
  datatype ReadResult = Read(n: nat) | ReadError(kind: ErrorKind)

  /** Why the program stops with a panic. */
  datatype Fatal = ConnectFailed | ReadFailed(kind: ErrorKind)

  /** A result that is either a value or a panic. */
  datatype Result<T> = Ok(value: T) | Err(error: Fatal)

  /** How the peer's script ends: it closes the connection, a read fails
      with an error that is not transient, or the script runs out. */
  datatype Ending = Closed | Broken(kind: ErrorKind) | Open

  // ---- the stream the peer sends, independent of how it is cut into reads

  /** The bytes the peer sends before it closes the connection (or before a
      non-transient failure), in order; transient failures carry no data. */
  function Received(replies: seq<Reply>): seq<byte> {
    if replies == [] then []
    else match replies[0]
      case Chunk(bytes) => if bytes == [] then [] else bytes + Received(replies[1..])
      case Failure(kind) => if Transient(kind) then Received(replies[1..]) else []
  }

  function EndingOf(replies: seq<Reply>): Ending {
    if replies == [] then Open
    else match replies[0]
      case Chunk(bytes) => if bytes == [] then Closed else EndingOf(replies[1..])
      case Failure(kind) => if Transient(kind) then EndingOf(replies[1..]) else Broken(kind)
  }

  /** Replies that neither close the connection nor fail for good. */
  predicate Live(replies: seq<Reply>) {
    forall i :: 0 <= i < |replies| ==>
      (replies[i].Chunk? && replies[i].bytes != []) || (replies[i].Failure? && Transient(replies[i].kind))
  }

  /** A measure that every consuming read decreases. */
  function Weight(replies: seq<Reply>): nat {
    if replies == [] then 0
    else (if replies[0].Chunk? then 1 + |replies[0].bytes| else 1) + Weight(replies[1..])
  }

  // ---- one read

  /** What a read returns, the bytes it places in the scratch buffer and the
      replies left afterwards. */
  datatype ReadStep = ReadStep(result: ReadResult, bytes: seq<byte>, rest: seq<Reply>)

  /** One non-blocking read into a buffer of `ReadBufferSize` bytes. With no
      scripted reply left there is nothing to read yet (would block). A chunk
      longer than the buffer is delivered over several reads, and a closed
      connection keeps reading zero bytes. */
  function NextRead(pending: seq<Reply>): (s: ReadStep)
    ensures s.result.Read? ==> s.result.n == |s.bytes| <= ReadBufferSize
    ensures s.result.ReadError? ==> s.bytes == []
    ensures pending == [] ==> s.result == ReadError(WouldBlock) && s.rest == []
    ensures s.result == Read(0) ==> EndingOf(pending) == Closed && Received(pending) == []
    ensures pending != [] && s.result != Read(0) ==> Weight(s.rest) < Weight(pending)
    ensures s.result.Read? || (s.result.ReadError? && Transient(s.result.kind)) ==>
      s.bytes + Received(s.rest) == Received(pending) && EndingOf(s.rest) == EndingOf(pending)
    ensures s.result.ReadError? && !Transient(s.result.kind) ==>
      EndingOf(pending) == Broken(s.result.kind) && Received(pending) == []
  {
    if pending == [] then ReadStep(ReadError(WouldBlock), [], [])
    else match pending[0]
      case Chunk(bytes) =>
        if bytes == [] then ReadStep(Read(0), [], pending)
        else if |bytes| <= ReadBufferSize then ReadStep(Read(|bytes|), bytes, pending[1..])
        else
          var rest := [Chunk(bytes[ReadBufferSize..])] + pending[1..];
          assert rest[1..] == pending[1..];
          assert bytes == bytes[..ReadBufferSize] + bytes[ReadBufferSize..];
          ReadStep(Read(ReadBufferSize), bytes[..ReadBufferSize], rest)
      case Failure(kind) => ReadStep(ReadError(kind), [], pending[1..])
  }

  /** `read(&mut buf)` on the connection: the bytes of the step land at the
      front of `buf`, and the connection moves on to the remaining replies. */
  method ReadInto(conn: Conn, buf: array<byte>) returns (result: ReadResult, next: Conn)
    requires buf.Length == ReadBufferSize
    modifies buf
    ensures result == NextRead(conn.pending).result
    ensures next == Conn(NextRead(conn.pending).rest)
    ensures result.Read? ==> result.n <= buf.Length && buf[..result.n] == NextRead(conn.pending).bytes
  {
    var step := NextRead(conn.pending);
    forall i | 0 <= i < |step.bytes| {
      buf[i] := step.bytes[i];
    }
    result, next := step.result, Conn(step.rest);
  }

  // ---- how the peer cuts its stream does not matter

  lemma {:induction false} ReceivedAppend(prefix: seq<Reply>, suffix: seq<Reply>)
    requires Live(prefix)
    ensures Received(prefix + suffix) == Received(prefix) + Received(suffix)
    ensures EndingOf(prefix + suffix) == EndingOf(suffix)
  {
    if prefix == [] {
      assert prefix + suffix == suffix;
    } else {
      assert (prefix + suffix)[0] == prefix[0];
      assert (prefix + suffix)[1..] == prefix[1..] + suffix;
      ReceivedAppend(prefix[1..], suffix);
    }
  }

  /** Splitting one chunk into two changes neither the bytes received nor how
      the stream ends. */
  lemma SplitChunk(before: seq<Reply>, a: seq<byte>, b: seq<byte>, after: seq<Reply>)
    requires Live(before) && a != [] && b != []
    ensures Received(before + [Chunk(a + b)] + after) == Received(before + [Chunk(a), Chunk(b)] + after)
    ensures EndingOf(before + [Chunk(a + b)] + after) == EndingOf(before + [Chunk(a), Chunk(b)] + after)
  {
    var whole := [Chunk(a + b)] + after;
    var split := [Chunk(a), Chunk(b)] + after;
    assert before + [Chunk(a + b)] + after == before + whole;
    assert before + [Chunk(a), Chunk(b)] + after == before + split;
    ReceivedAppend(before, whole);
    ReceivedAppend(before, split);
    assert split[1..] == [Chunk(b)] + after && ([Chunk(b)] + after)[1..] == after;
    assert whole[1..] == after;
  }

  /** A would-block or interrupted read anywhere before the end changes
      neither the bytes received nor how the stream ends. */
  lemma TransientIgnored(before: seq<Reply>, kind: ErrorKind, after: seq<Reply>)
    requires Live(before) && Transient(kind)
    ensures Received(before + [Failure(kind)] + after) == Received(before + after)
    ensures EndingOf(before + [Failure(kind)] + after) == EndingOf(before + after)
  {
    var rest := [Failure(kind)] + after;
    assert before + [Failure(kind)] + after == before + rest;
    ReceivedAppend(before, rest);
    ReceivedAppend(before, after);
    assert rest[1..] == after;
  }
}
