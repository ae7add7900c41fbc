/** The program of src/main.rs: `async_main_custom` builds the coroutine,
    and a busy loop, standing in for a runtime's executor, polls it until it
    answers `Ready`, sleeping between polls. It never polls the coroutine
    again afterwards. */
module Executor {
  import opened Utf8
  import opened Net
  import opened Futures
  import opened Coroutines

  /** `async_main_custom`: the task, not started yet. */
  method AsyncMainCustom(service: Service) returns (fut: Coroutine)
    ensures fresh(fut) && fut.Valid() && fut.Model() == Fresh && fut.service == service
    ensures fut.history == [] && fut.printed == []
  {
    fut := new Coroutine(service);
  }

  /** `main`: poll until `Ready`. A panic inside a poll ends the program with
      that error. The loop ends for every service that refuses the
      connection or whose script closes or breaks the connection; one that
      keeps it open without ever closing it keeps the program polling for
      ever, which is why that case is excluded here.

      When the service closes the connection, the program ends normally,
      having printed one line holding the decoding of every byte the service
      sent; the root answered `Ready` exactly once, on its last poll, and is
      left `Resolved`. */
  method Run(service: Service) returns (root: Coroutine, r: Result<()>)
    requires !service.listening || EndingOf(service.replies) != Open
    ensures !service.listening ==> r == Err(ConnectFailed)
    ensures service.listening && EndingOf(service.replies).Broken? ==>
      r == Err(ReadFailed(EndingOf(service.replies).kind))
    ensures service.listening && EndingOf(service.replies) == Closed ==>
      && r == Ok(())
      && root.state.Resolved?
      && root.printed == [Announcement(Decode(Received(service.replies)))]
    ensures r.Ok? ==> root.Valid() && ReadyOnlyAtEnd(root.history) && CountReady(root.history) == 1
  {
    root := AsyncMainCustom(service);
    while true
      invariant root.Valid() && !root.state.Resolved? && root.service == service
      invariant fresh(root) && (root.state.Wait? ==> fresh(root.state.fut))
      decreases Remaining(service, root.Model())
    {
      ghost var before := root.Model();
      var p;
      ghost var rounds;
      p, rounds := root.Poll();
      match p {
        case Err(e) =>
          PanicIsPeerFailure(service, before, e);
          r := Err(e);
          break;
        case Ok(NotReady) =>
          StepKeepsConsistent(service, before);
        case Ok(Ready(_)) =>
          Concluded(service, root.Model(), root.history, root.printed);
          r := Ok(());
          break;
      }
    }
  }

  // ---- end-to-end scenarios

  /** However the peer cuts two pieces of text into chunks before closing,
      what is decoded is the two pieces joined. */
  lemma {:induction false} TwoPiecesReassembled(a: string, b: string)
    requires a != [] && b != []
    ensures var replies := [Chunk(Encode(a)), Chunk(Encode(b)), Chunk([])];
      EndingOf(replies) == Closed && Decode(Received(replies)) == a + b
  {
    var replies := [Chunk(Encode(a)), Chunk(Encode(b)), Chunk([])];
    assert |Encode(a)| > 0 && |Encode(b)| > 0;
    assert replies[1..] == [Chunk(Encode(b)), Chunk([])];
    assert replies[1..][1..] == [Chunk([])];
    assert Received(replies[1..]) == Encode(b) + Received([Chunk([])]);
    assert Received(replies) == Encode(a) + Encode(b);
    assert EndingOf(replies[1..]) == EndingOf([Chunk([])]) == Closed;
    EncodeAppend(a, b);
    DecodeEncode(a + b);
  }

  /** A service that answers "OK" and closes: the program prints "OK". */
  method ScenarioOk() returns (root: Coroutine, r: Result<()>)
    ensures r == Ok(()) && root.printed == [Announcement("OK")]
  {
    var replies := [Chunk(Encode("OK")), Chunk([])];
    assert replies[1..] == [Chunk([])];
    DecodeEncode("OK");
    root, r := Run(Service(true, replies));
  }

  /** A service that sends "He", then "llo", then closes: the program prints
      "Hello". */
  method ScenarioHello() returns (root: Coroutine, r: Result<()>)
    ensures r == Ok(()) && root.printed == [Announcement("Hello")]
  {
    TwoPiecesReassembled("He", "llo");
    assert "He" + "llo" == "Hello";
    root, r := Run(Service(true, [Chunk(Encode("He")), Chunk(Encode("llo")), Chunk([])]));
  }

  /** A service that accepts the connection and closes it without sending
      anything: the program prints the empty text. */
  method ScenarioEmpty() returns (root: Coroutine, r: Result<()>)
    ensures r == Ok(()) && root.printed == [Announcement("")]
  {
    root, r := Run(Service(true, [Chunk([])]));
  }

  /** No service listening: the very first poll panics with a connection
      error instead of answering `NotReady`. */
  method ScenarioRefused(replies: seq<Reply>) returns (root: Coroutine, r: Result<()>)
    ensures r == Err(ConnectFailed)
  {
    FirstPoll(Service(false, replies));
    root, r := Run(Service(false, replies));
  }
}
