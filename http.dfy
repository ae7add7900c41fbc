/** The leaf future of src/http.rs. `HttpFuture` owns an optional connection,
    an append-only byte buffer and the request path. Its first poll connects,
    writes the request and answers `NotReady`; every later poll reads until
    the peer closes the connection (answer `Ready` with the decoded buffer),
    until nothing more can be read right now (`NotReady`), or until a read
    fails for good (a panic, here `Err`). An interrupted read is retried.

    The class is specified by the pure function `Step`, which gives the
    answer and the next state of one poll; the lemmas below it are about
    `Step` and about the read loop's function `Drain`. */
module Http {
  import opened Wrappers
  import opened Utf8
  import opened Net
  import opened Futures

  // ---- the request

  const Crlf := "\r\n"

  /** Everything in the request after the target: the rest of the request
      line, the two header field lines and the empty line. */
  const RequestTail := " HTTP/1.1" + Crlf + ("Host: localhost" + Crlf + ("Connection: close" + Crlf + Crlf))

  /** The request text `get_req` builds for `path`. */
  function GetReq(path: string): (req: string)
    ensures |req| == |path| + 4 + |RequestTail|
    ensures req[..4] == "GET " && req[4..|req| - |RequestTail|] == path && req[|req| - |RequestTail|..] == RequestTail
  {
    "GET " + path + RequestTail
  }

  /** Reads the request target back out of a request built by `GetReq`. */
  function TargetOf(req: string): (path: Option<string>)
    ensures path.Some? ==> GetReq(path.value) == req
  {
    if |req| >= 4 + |RequestTail| && req[..4] == "GET " && req[|req| - |RequestTail|..] == RequestTail then
      var p := req[4..|req| - |RequestTail|];
      assert req == req[..4] + p + req[|req| - |RequestTail|..];
      Some(p)
    else
      None
  }

  /** The target can always be read back, so different paths give different
      requests. */
  lemma TargetOfGetReq(path: string)
    ensures TargetOf(GetReq(path)) == Some(path)
  {
  }

  /** The position of the first CRLF in `s`. */
  function FindCrlf(s: string): (i: Option<nat>)
    ensures i.Some? ==> i.value + 2 <= |s| && s[i.value..i.value + 2] == Crlf
    ensures i.Some? ==> '\r' !in s[..i.value]
  {
    if |s| < 2 then None
    else if s[0] == '\r' && s[1] == '\n' then Some(0)
    else match FindCrlf(s[1..])
      case None => None
      case Some(j) =>
        assert s[1..][..j] == s[1..j + 1];
        if s[0] == '\r' then None else Some(j + 1)
  }

  /** The CRLF-terminated lines of `s` (a trailing unterminated line is kept). */
  function Lines(s: string): seq<string>
    decreases |s|
  {
    match FindCrlf(s)
    case None => if s == [] then [] else [s]
    case Some(i) => [s[..i]] + Lines(s[i + 2..])
  }

  lemma {:induction false} FindCrlfAfter(line: string, rest: string)
    requires '\r' !in line
    ensures FindCrlf(line + Crlf + rest) == Some(|line|)
  {
    var s := line + Crlf + rest;
    if line != [] {
      assert s[1..] == line[1..] + Crlf + rest;
      assert '\r' !in line[1..] by {
        assert forall c :: c in line[1..] ==> c in line;
      }
      FindCrlfAfter(line[1..], rest);
      assert s[0] == line[0] && s[0] != '\r';
    }
  }

  lemma LinesAfter(line: string, rest: string)
    requires '\r' !in line
    ensures Lines(line + Crlf + rest) == [line] + Lines(rest)
  {
    var s := line + Crlf + rest;
    FindCrlfAfter(line, rest);
    assert s[..|line|] == line;
    assert s[|line| + 2..] == rest;
  }

  lemma LinesOfCrlf()
    ensures Lines(Crlf) == [""]
  {
    assert FindCrlf(Crlf) == Some(0);
    assert Crlf[2..] == "";
  }

  /** Each line followed by CRLF, in order. */
  function JoinLines(lines: seq<string>): (s: string)
    ensures |s| >= 2 * |lines|
  {
    if lines == [] then [] else lines[0] + Crlf + JoinLines(lines[1..])
  }

  lemma JoinThreeAndEmpty(lines: seq<string>)
    requires |lines| == 4 && lines[3] == ""
    ensures JoinLines(lines) == lines[0] + Crlf + (lines[1] + Crlf + (lines[2] + Crlf + Crlf))
  {
    var rest1 := lines[1..];
    var rest2 := rest1[1..];
    var rest3 := rest2[1..];
    assert rest3 == [""] && rest3[1..] == [];
    assert JoinLines(rest3) == Crlf by {
      assert "" + Crlf + [] == Crlf;
    }
    assert JoinLines(rest2) == lines[2] + Crlf + Crlf;
    assert JoinLines(rest1) == lines[1] + Crlf + (lines[2] + Crlf + Crlf);
  }

  /** Splitting undoes joining, for lines without CR. */
  lemma {:induction false} LinesOfJoined(lines: seq<string>)
    requires forall k :: 0 <= k < |lines| ==> '\r' !in lines[k]
    ensures Lines(JoinLines(lines)) == lines
  {
    if lines != [] {
      LinesAfter(lines[0], JoinLines(lines[1..]));
      LinesOfJoined(lines[1..]);
    }
  }

  lemma NoCrInRequestLine(path: string)
    requires '\r' !in path
    ensures '\r' !in "GET " + path + " HTTP/1.1"
  {
    assert forall c :: c in "GET " + path + " HTTP/1.1" ==> c in path || c in "GET  HTTP/1.1";
  }

  lemma NoCrInLines(path: string, lines: seq<string>)
    requires '\r' !in path
    requires lines == ["GET " + path + " HTTP/1.1", "Host: localhost", "Connection: close", ""]
    ensures forall k :: 0 <= k < |lines| ==> '\r' !in lines[k]
  {
    NoCrInRequestLine(path);
  }

  /** The request is a request line, two header field lines and the empty
      line that ends the header section (section 2.1 of RFC 9112); the
      request line is method, target and version separated by single spaces
      (section 3 of RFC 9112), and the connection is not kept alive
      (section 7.6.1 of RFC 9110). */
  lemma RequestLines(path: string)
    requires '\r' !in path
    ensures Lines(GetReq(path)) == ["GET " + path + " HTTP/1.1", "Host: localhost", "Connection: close", ""]
  {
    var lines := ["GET " + path + " HTTP/1.1", "Host: localhost", "Connection: close", ""];
    JoinThreeAndEmpty(lines);
    var head, tail := "GET " + path, "Host: localhost" + Crlf + ("Connection: close" + Crlf + Crlf);
    assert GetReq(path) == head + (" HTTP/1.1" + Crlf + tail);
    assert GetReq(path) == lines[0] + Crlf + tail;
    NoCrInLines(path, lines);
    LinesOfJoined(lines);
  }

  // ---- one poll, as a function

  /** How one run of the read loop ends. */
  datatype Exit = Eof | Blocked | Failed(kind: ErrorKind)

  /** The end of a read loop, the buffer it leaves and the replies not read. */
  datatype Drained = Drained(exit: Exit, buffer: seq<byte>, rest: seq<Reply>)

  /** The read loop of `poll`: zero bytes end it with `Eof`; n > 0 bytes are
      appended and the loop reads again; an interrupted read is retried; a
      read that would block ends it with `Blocked`; any other error ends it
      with `Failed`. */
  function Drain(buffer: seq<byte>, pending: seq<Reply>): (d: Drained)
    ensures buffer <= d.buffer
    decreases Weight(pending)
  {
    var s := NextRead(pending);
    match s.result
    case Read(n) =>
      if n == 0 then Drained(Eof, buffer, s.rest) else Drain(buffer + s.bytes, s.rest)
    case ReadError(kind) =>
      if kind == Interrupted then Drain(buffer, s.rest)
      else if kind == WouldBlock then Drained(Blocked, buffer, s.rest)
      else Drained(Failed(kind), buffer, s.rest)
  }

  /** A read loop that reaches the end of the stream has gained all of it. */
  lemma {:induction false} DrainToEof(buffer: seq<byte>, pending: seq<Reply>)
    requires Drain(buffer, pending).exit == Eof
    ensures var d := Drain(buffer, pending);
      && d.buffer == buffer + Received(pending) && EndingOf(pending) == Closed
      && Received(d.rest) == [] && EndingOf(d.rest) == Closed
    decreases Weight(pending)
  {
    var s := NextRead(pending);
    if s.result.Read? && s.result.n != 0 {
      DrainToEof(buffer + s.bytes, s.rest);
      assert buffer + s.bytes + Received(s.rest) == buffer + Received(pending);
    } else if s.result == ReadError(Interrupted) {
      DrainToEof(buffer, s.rest);
    }
  }

  /** A read loop that fails has gained the whole stream, which breaks there. */
  lemma {:induction false} DrainToFailure(buffer: seq<byte>, pending: seq<Reply>)
    requires Drain(buffer, pending).exit.Failed?
    ensures var d := Drain(buffer, pending);
      && d.buffer == buffer + Received(pending) && EndingOf(pending) == Broken(d.exit.kind)
      && !Transient(d.exit.kind)
    decreases Weight(pending)
  {
    var s := NextRead(pending);
    if s.result.Read? && s.result.n != 0 {
      DrainToFailure(buffer + s.bytes, s.rest);
      assert buffer + s.bytes + Received(s.rest) == buffer + Received(pending);
    } else if s.result == ReadError(Interrupted) {
      DrainToFailure(buffer, s.rest);
    }
  }

  /** A read loop that blocks loses nothing: the gained bytes and those still
      to come make up the same stream, with the same ending, and a peer whose
      script ends has come strictly closer to that end. */
  lemma {:induction false} DrainToBlock(buffer: seq<byte>, pending: seq<Reply>)
    requires Drain(buffer, pending).exit == Blocked
    ensures var d := Drain(buffer, pending);
      && d.buffer + Received(d.rest) == buffer + Received(pending)
      && EndingOf(d.rest) == EndingOf(pending)
      && (EndingOf(pending) != Open ==> Weight(d.rest) < Weight(pending))
    decreases Weight(pending)
  {
    var s := NextRead(pending);
    if s.result.Read? && s.result.n != 0 {
      DrainToBlock(buffer + s.bytes, s.rest);
      assert buffer + s.bytes + Received(s.rest) == buffer + Received(pending);
    } else if s.result == ReadError(Interrupted) {
      DrainToBlock(buffer, s.rest);
    }
  }

  /** What the read loop accumulates is exactly the stream the peer sends,
      however the loop ends. */
  lemma DrainAccounts(buffer: seq<byte>, pending: seq<Reply>)
    ensures var d := Drain(buffer, pending);
      && (d.exit == Eof ==>
            d.buffer == buffer + Received(pending) && EndingOf(pending) == Closed
            && Received(d.rest) == [] && EndingOf(d.rest) == Closed)
      && (d.exit.Failed? ==>
            d.buffer == buffer + Received(pending) && EndingOf(pending) == Broken(d.exit.kind)
            && !Transient(d.exit.kind))
      && (d.exit == Blocked ==>
            d.buffer + Received(d.rest) == buffer + Received(pending)
            && EndingOf(d.rest) == EndingOf(pending)
            && (EndingOf(pending) != Open ==> Weight(d.rest) < Weight(pending)))
  {
    match Drain(buffer, pending).exit
    case Eof => DrainToEof(buffer, pending);
    case Failed(_) => DrainToFailure(buffer, pending);
    case Blocked => DrainToBlock(buffer, pending);
  }

  /** The observable state of a leaf future: its connection and its buffer. */
  datatype Leaf = Leaf(stream: Option<Conn>, buffer: seq<byte>)

  /** A leaf as `new` makes it: no connection, empty buffer. */
  const Unstarted := Leaf(None, [])

  datatype LeafStep = LeafStep(result: Result<PollState<string>>, next: Leaf)

  /** The answer a poll gives when its read loop ends as `d` says. */
  function Answer(d: Drained): Result<PollState<string>> {
    match d.exit
    case Eof => Ok(Ready(Decode(d.buffer)))
    case Blocked => Ok(NotReady)
    case Failed(kind) => Err(ReadFailed(kind))
  }

  /** One poll of the leaf future. */
  function Step(service: Service, leaf: Leaf): (s: LeafStep)
    ensures leaf.buffer <= s.next.buffer
    ensures leaf.stream.None? ==> s.next.buffer == leaf.buffer && (s.result.Ok? ==> s.result.value == NotReady)
    ensures leaf.stream.None? ==> (s.result.Ok? <==> service.listening)
    ensures s.result.Ok? ==> s.next.stream.Some?
  {
    match leaf.stream
    case None =>
      if service.listening then LeafStep(Ok(NotReady), Leaf(Some(Conn(service.replies)), leaf.buffer))
      else LeafStep(Err(ConnectFailed), leaf)
    case Some(conn) =>
      var d := Drain(leaf.buffer, conn.pending);
      LeafStep(Answer(d), Leaf(Some(Conn(d.rest)), d.buffer))
  }

  /** The accounting invariant of a leaf: nothing read yet, or a connection
      to a listening service whose buffer and pending replies together make
      up the whole stream the service sends, with the same ending. */
  ghost predicate Consistent(service: Service, leaf: Leaf) {
    match leaf.stream
    case None => leaf.buffer == []
    case Some(conn) =>
      && service.listening
      && leaf.buffer + Received(conn.pending) == Received(service.replies)
      && EndingOf(conn.pending) == EndingOf(service.replies)
  }

  /** A poll that does not panic keeps the accounting invariant, and when the
      peer's script ends, a poll that answers `NotReady` after the first one
      brings the connection strictly closer to that end. */
  lemma StepKeepsConsistent(service: Service, leaf: Leaf)
    requires Consistent(service, leaf)
    ensures var s := Step(service, leaf);
      && (s.result.Ok? ==> Consistent(service, s.next))
      && (leaf.stream.Some? && s.result == Ok(NotReady) && EndingOf(service.replies) != Open ==>
            Weight(s.next.stream.value.pending) < Weight(leaf.stream.value.pending))
  {
    if leaf.stream.Some? {
      DrainAccounts(leaf.buffer, leaf.stream.value.pending);
    }
  }

  /** The value the leaf resolves to is the decoding of the whole stream the
      peer sent, whatever chunks it arrived in and whatever polls read it. */
  lemma ReadyIsWholeStream(service: Service, leaf: Leaf, text: string)
    requires Consistent(service, leaf)
    requires Step(service, leaf).result == Ok(Ready(text))
    ensures text == Decode(Received(service.replies))
    ensures EndingOf(service.replies) == Closed
  {
    DrainAccounts(leaf.buffer, leaf.stream.value.pending);
  }

  /** A leaf panics only when the service does not accept the connection or
      when its stream breaks with an error that is not transient. */
  lemma PanicIsPeerFailure(service: Service, leaf: Leaf, e: Fatal)
    requires Consistent(service, leaf)
    requires Step(service, leaf).result == Err(e)
    ensures e == ConnectFailed ==> !service.listening && leaf.stream.None?
    ensures e.ReadFailed? ==> service.listening && EndingOf(service.replies) == Broken(e.kind) && !Transient(e.kind)
  {
    if leaf.stream.Some? {
      DrainAccounts(leaf.buffer, leaf.stream.value.pending);
    }
  }

  /** A read of n > 0 bytes appends exactly those bytes and reads on. */
  lemma ChunkAppended(service: Service, bytes: seq<byte>, pending: seq<Reply>, buffer: seq<byte>)
    requires 0 < |bytes| <= ReadBufferSize
    ensures Step(service, Leaf(Some(Conn([Chunk(bytes)] + pending)), buffer))
         == Step(service, Leaf(Some(Conn(pending)), buffer + bytes))
  {
    assert ([Chunk(bytes)] + pending)[1..] == pending;
  }

  /** An interrupted read is retried without answering and without touching
      the buffer. */
  lemma InterruptedRetried(service: Service, pending: seq<Reply>, buffer: seq<byte>)
    ensures Step(service, Leaf(Some(Conn([Failure(Interrupted)] + pending)), buffer))
         == Step(service, Leaf(Some(Conn(pending)), buffer))
  {
    assert ([Failure(Interrupted)] + pending)[1..] == pending;
  }

  /** A read that would block answers `NotReady` and keeps every byte read so
      far for the next poll. */
  lemma WouldBlockKeepsBuffer(service: Service, pending: seq<Reply>, buffer: seq<byte>)
    ensures Step(service, Leaf(Some(Conn([Failure(WouldBlock)] + pending)), buffer))
         == LeafStep(Ok(NotReady), Leaf(Some(Conn(pending)), buffer))
  {
    assert ([Failure(WouldBlock)] + pending)[1..] == pending;
  }

  /** A zero-byte read answers `Ready` with the decoding of the whole buffer. */
  lemma EofDecodesBuffer(service: Service, pending: seq<Reply>, buffer: seq<byte>)
    ensures var leaf := Leaf(Some(Conn([Chunk([])] + pending)), buffer);
      Step(service, leaf) == LeafStep(Ok(Ready(Decode(buffer))), leaf)
  {
  }

  /** Any other read error panics. */
  lemma OtherErrorPanics(service: Service, kind: ErrorKind, pending: seq<Reply>, buffer: seq<byte>)
    requires !Transient(kind)
    ensures Step(service, Leaf(Some(Conn([Failure(kind)] + pending)), buffer)).result == Err(ReadFailed(kind))
  {
  }

  // ---- the future itself

  /** What happens on the connection, in order. */
  datatype IoEvent = Wrote(bytes: seq<byte>) | Observed(result: ReadResult)

  /** `Http::new`: the leaf future for `path`, not started yet. */
  method New(path: string, service: Service) returns (fut: HttpFuture)
    ensures fresh(fut) && fut.Valid() && fut.Model() == Unstarted && fut.trace == []
    ensures fut.path == path && fut.service == service
  {
    fut := new HttpFuture(path, service);
  }

  class HttpFuture {
    var stream: Option<Conn>
    var buffer: seq<byte>
    const path: string
    /** The service at the fixed address `localhost:8080`. */
    const service: Service
    /** Every write and read on the connection, in order. */
    ghost var trace: seq<IoEvent>

    /** The accounting invariant, and: the only write is the request, and it
        comes before every read. */
    ghost predicate Valid()
      reads this
    {
      && Consistent(service, Model())
      && (stream.None? <==> trace == [])
      && (trace != [] ==> trace[0] == Wrote(Encode(GetReq(path))))
      && (forall i :: 1 <= i < |trace| ==> trace[i].Observed?)
    }

    function Model(): Leaf
      reads this
    {
      Leaf(stream, buffer)
    }

    /** `HttpFuture::new`: futures are lazy, so nothing is
        connected or written yet. */
    constructor (path: string, service: Service)
      ensures Valid() && Model() == Unstarted && trace == []
      ensures this.path == path && this.service == service
    {
      this.stream := None;
      this.buffer := [];
      this.path := path;
      this.service := service;
      this.trace := [];
    }

    /** Connects to the service and writes the whole request. */
    method WriteRequest() returns (r: Result<()>)
      requires Valid() && stream.None?
      modifies this
      ensures Valid() && buffer == old(buffer)
      ensures service.listening ==>
        r == Ok(()) && stream == Some(Conn(service.replies)) && trace == [Wrote(Encode(GetReq(path)))]
      ensures !service.listening ==> r == Err(ConnectFailed) && stream == old(stream) && trace == old(trace)
    {
      if !service.listening {
        return Err(ConnectFailed);
      }
      var request := GetReq(path);
      trace := trace + [Wrote(Encode(request))];
      stream := Some(Conn(service.replies));
      r := Ok(());
    }

    /** One poll: exactly the transition `Step` describes. */
    method Poll() returns (r: Result<PollState<string>>)
      requires Valid()
      modifies this
      ensures r == Step(service, old(Model())).result
      ensures Model() == Step(service, old(Model())).next
      ensures r.Ok? ==> Valid()
      ensures old(trace) <= trace
      ensures old(stream).None? ==> trace == old(trace) + if r.Ok? then [Wrote(Encode(GetReq(path)))] else []
      ensures old(stream).Some? ==> |old(trace)| < |trace| && forall i :: |old(trace)| <= i < |trace| ==> trace[i].Observed?
    {
      if stream.None? {
        var w := WriteRequest();
        if w.Err? {
          return Err(w.error);
        }
        return Ok(NotReady);
      }
      r := ReadAvailable();
      StepKeepsConsistent(service, old(Model()));
    }

    /** The read loop of a poll on an open connection: reads until the
        stream ends, a read would block or a read fails for good. */
    method ReadAvailable() returns (r: Result<PollState<string>>)
      requires stream.Some?
      modifies this
      ensures var d := Drain(old(buffer), old(stream.value.pending));
        r == Answer(d) && buffer == d.buffer && stream == Some(Conn(d.rest))
      ensures old(trace) < trace && forall i :: |old(trace)| <= i < |trace| ==> trace[i].Observed?
    {
      var buf := new byte[ReadBufferSize];
      ghost var goal := Drain(buffer, stream.value.pending);
      ghost var exit: Exit;
      while true
        invariant stream.Some? && Drain(buffer, stream.value.pending) == goal
        invariant old(trace) <= trace
        invariant forall i :: |old(trace)| <= i < |trace| ==> trace[i].Observed?
        decreases Weight(stream.value.pending)
      {
        var result, conn := ReadInto(stream.value, buf);
        trace := trace + [Observed(result)];
        stream := Some(conn);
        match result
        case Read(n) =>
          if n == 0 {
            exit := Eof;
            r := Ok(Ready(Decode(buffer)));
            break;
          }
          buffer := buffer + buf[..n];
        case ReadError(kind) =>
          if kind == WouldBlock {
            exit := Blocked;
            r := Ok(NotReady);
            break;
          } else if kind != Interrupted {
            exit := Failed(kind);
            r := Err(ReadFailed(kind));
            break;
          }
      }
      assert goal == Drained(exit, buffer, stream.value.pending);
    }
  }
}
