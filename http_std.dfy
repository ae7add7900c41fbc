/** The leaf future of src/http_std.rs: the same future as in src/http.rs,
    written against the standard library's future interface. Its poll takes
    a task context, which it never uses, and answers `Pending` where the
    hand-written interface answers `NotReady`. The request text, the
    connection model and the read loop's function are shared with `Http`;
    this module proves that its own poll makes exactly the transition
    `Http.Step` describes. */
module HttpStd {
  import opened Wrappers
  import opened Utf8
  import opened Net
  import Futures
  import Http

  /** `std::task::Poll`. */
  datatype Poll<T> = Ready(value: T) | Pending

  /** `std::task::Context`: the waker a poll could register; never consulted here. */
  datatype Context = Context(wakerId: nat)

  /** The standard answer that corresponds to a hand-written one. */
  function FromPollState<T>(p: Futures.PollState<T>): (q: Poll<T>)
    ensures q.Pending? <==> p.NotReady?
    ensures q.Ready? ==> p == Futures.Ready(q.value)
  {
    match p
    case Ready(v) => Ready(v)
    case NotReady => Pending
  }

  function FromResult<T>(r: Result<Futures.PollState<T>>): Result<Poll<T>> {
    match r
    case Ok(p) => Ok(FromPollState(p))
    case Err(e) => Err(e)
  }

  class HttpFuture {
    var stream: Option<Conn>
    var buffer: seq<byte>
    const path: string
    /** The service at the fixed address `localhost:8080`. */
    const service: Service
    /** Every write and read on the connection, in order. */
    ghost var trace: seq<Http.IoEvent>

    /** The same invariant as the hand-written leaf future's. */
    ghost predicate Valid()
      reads this
    {
      && Http.Consistent(service, Model())
      && (stream.None? <==> trace == [])
      && (trace != [] ==> trace[0] == Http.Wrote(Encode(Http.GetReq(path))))
      && (forall i :: 1 <= i < |trace| ==> trace[i].Observed?)
    }

    function Model(): Http.Leaf
      reads this
    {
      Http.Leaf(stream, buffer)
    }

    constructor (path: string, service: Service)
      ensures Valid() && Model() == Http.Unstarted && trace == []
      ensures this.path == path && this.service == service
    {
      this.stream := None;
      this.buffer := [];
      this.path := path;
      this.service := service;
      this.trace := [];
    }

    method WriteRequest() returns (r: Result<()>)
      requires Valid() && stream.None?
      modifies this
      ensures Valid() && buffer == old(buffer)
      ensures service.listening ==>
        r == Ok(()) && stream == Some(Conn(service.replies)) && trace == [Http.Wrote(Encode(Http.GetReq(path)))]
      ensures !service.listening ==> r == Err(ConnectFailed) && stream == old(stream) && trace == old(trace)
    {
      if !service.listening {
        return Err(ConnectFailed);
      }
      var request := Http.GetReq(path);
      trace := trace + [Http.Wrote(Encode(request))];
      stream := Some(Conn(service.replies));
      r := Ok(());
    }

    /** One poll: the transition of `Http.Step`, answered with `Pending` for
        `NotReady`; the context plays no part. */
    method Poll(ctx: Context) returns (r: Result<Poll<string>>)
      requires Valid()
      modifies this
      ensures r == FromResult(Http.Step(service, old(Model())).result)
      ensures Model() == Http.Step(service, old(Model())).next
      ensures r.Ok? ==> Valid()
      ensures old(trace) <= trace
      ensures old(stream).None? ==> trace == old(trace) + if r.Ok? then [Http.Wrote(Encode(Http.GetReq(path)))] else []
      ensures old(stream).Some? ==> |old(trace)| < |trace| && forall i :: |old(trace)| <= i < |trace| ==> trace[i].Observed?
    {
      if stream.None? {
        var w := WriteRequest();
        if w.Err? {
          return Err(w.error);
        }
        return Ok(Pending);
      }
      r := ReadAvailable();
      Http.StepKeepsConsistent(service, old(Model()));
    }

    method ReadAvailable() returns (r: Result<Poll<string>>)
      requires stream.Some?
      modifies this
      ensures var d := Http.Drain(old(buffer), old(stream.value.pending));
        r == FromResult(Http.Answer(d)) && buffer == d.buffer && stream == Some(Conn(d.rest))
      ensures old(trace) < trace && forall i :: |old(trace)| <= i < |trace| ==> trace[i].Observed?
    {
      var buf := new byte[ReadBufferSize];
      ghost var goal := Http.Drain(buffer, stream.value.pending);
      ghost var exit: Http.Exit;
      while true
        invariant stream.Some? && Http.Drain(buffer, stream.value.pending) == goal
        invariant old(trace) <= trace
        invariant forall i :: |old(trace)| <= i < |trace| ==> trace[i].Observed?
        decreases Weight(stream.value.pending)
      {
        var result, conn := ReadInto(stream.value, buf);
        trace := trace + [Http.Observed(result)];
        stream := Some(conn);
        match result
        case Read(n) =>
          if n == 0 {
            exit := Http.Eof;
            r := Ok(Ready(Decode(buffer)));
            break;
          }
          buffer := buffer + buf[..n];
        case ReadError(kind) =>
          if kind == WouldBlock {
            exit := Http.Blocked;
            r := Ok(Pending);
            break;
          } else if kind != Interrupted {
            exit := Http.Failed(kind);
            r := Err(ReadFailed(kind));
            break;
          }
      }
      assert goal == Http.Drained(exit, buffer, stream.value.pending);
    }
  }
}
