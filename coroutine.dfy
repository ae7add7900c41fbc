/** The hand-written coroutine of src/coroutine.rs: a non-leaf future whose
    state machine is `Start`, `Wait(leaf)` and `Resolved`. Its first poll
    creates the leaf future for "/400/helloworld" and polls it in the same
    call; later polls poll the leaf again; when the leaf is ready, the
    coroutine prints the text, becomes `Resolved` and answers `Ready(())`.
    Polling a resolved coroutine is a panic in the source; here it is a
    precondition.

    The class is specified by the pure function `Step` over `Task`, the
    value view of the state machine. */
module Coroutines {
  import opened Wrappers
  import opened Utf8
  import opened Net
  import opened Futures
  import Http

  /** The one request this task makes. */
  const HelloPath := "/400/helloworld"

  /** What the coroutine prints when the leaf hands it the response text. */
  function Announcement(data: string): string {
    "Im fully resolved Future: \n" + data + "\n"
  }

  /** The value view of the state machine: the leaf in `Awaiting` is the
      observable state of the owned leaf future. */
  datatype Task = Fresh | Awaiting(leaf: Http.Leaf) | Done

  /** The answer of one poll, the next state, and the text printed. */
  datatype TaskStep = TaskStep(result: Result<PollState<()>>, next: Task, emitted: seq<string>)

  /** One poll of the coroutine. A fresh task moves to `Awaiting` and goes
      round again in the same call, so it polls its new leaf at once. */
  function Step(service: Service, t: Task): (s: TaskStep)
    requires !t.Done?
    ensures s.result == Ok(Ready(())) <==> s.next.Done?
    ensures s.next.Done? ==> |s.emitted| == 1
    ensures !s.next.Done? ==> s.next.Awaiting? && s.emitted == []
    decreases if t.Fresh? then 1 else 0
  {
    match t
    case Fresh => Step(service, Awaiting(Http.Unstarted))
    case Awaiting(leaf) =>
      var l := Http.Step(service, leaf);
      match l.result
      case Ok(Ready(text)) => TaskStep(Ok(Ready(())), Done, [Announcement(text)])
      case Ok(NotReady) => TaskStep(Ok(NotReady), Awaiting(l.next), [])
      case Err(e) => TaskStep(Err(e), Awaiting(l.next), [])
  }

  /** The first poll never answers `Ready`: it connects, writes the request
      and answers `NotReady`, with nothing read yet (or it panics when no
      service listens). */
  lemma FirstPoll(service: Service)
    ensures var s := Step(service, Fresh);
      && (service.listening ==>
            s == TaskStep(Ok(NotReady), Awaiting(Http.Leaf(Some(Conn(service.replies)), [])), []))
      && (!service.listening ==> s.result == Err(ConnectFailed))
  {
  }

  /** The accounting invariant of the leaf the task owns. */
  ghost predicate Consistent(service: Service, t: Task) {
    t.Awaiting? ==> Http.Consistent(service, t.leaf)
  }

  /** A bound on the number of further polls, for a peer whose script ends. */
  function Remaining(service: Service, t: Task): nat {
    match t
    case Fresh => Weight(service.replies) + 1
    case Awaiting(leaf) =>
      if leaf.stream.Some? then Weight(leaf.stream.value.pending) else Weight(service.replies) + 1
    case Done => 0
  }

  /** A poll that does not panic keeps the leaf's invariant; a poll answering
      `NotReady` brings a peer whose script ends strictly closer to its end. */
  lemma StepKeepsConsistent(service: Service, t: Task)
    requires !t.Done? && Consistent(service, t)
    ensures var s := Step(service, t);
      && (s.result.Ok? ==> Consistent(service, s.next))
      && (s.result == Ok(NotReady) && EndingOf(service.replies) != Open ==>
            Remaining(service, s.next) < Remaining(service, t))
  {
    var leaf := if t.Fresh? then Http.Unstarted else t.leaf;
    Http.StepKeepsConsistent(service, leaf);
  }

  /** When the task resolves, the text it prints is the decoding of the whole
      stream the service sent, and the service closed the connection. */
  lemma ResolvedPrintsWholeStream(service: Service, t: Task)
    requires !t.Done? && Consistent(service, t)
    requires Step(service, t).next.Done?
    ensures Step(service, t).emitted == [Announcement(Decode(Received(service.replies)))]
    ensures EndingOf(service.replies) == Closed
  {
    var leaf := if t.Fresh? then Http.Unstarted else t.leaf;
    Http.ReadyIsWholeStream(service, leaf, Http.Step(service, leaf).result.value.data);
  }

  /** The task panics only when no service listens or the stream breaks. */
  lemma PanicIsPeerFailure(service: Service, t: Task, e: Fatal)
    requires !t.Done? && Consistent(service, t)
    requires Step(service, t).result == Err(e)
    ensures e == ConnectFailed ==> !service.listening
    ensures e.ReadFailed? ==> service.listening && EndingOf(service.replies) == Broken(e.kind)
  {
    var leaf := if t.Fresh? then Http.Unstarted else t.leaf;
    Http.PanicIsPeerFailure(service, leaf, e);
  }

  /** `tasks` and `answers` record polls made in order, each one on a task
      that was not yet done. */
  ghost predicate IsRun(service: Service, tasks: seq<Task>, answers: seq<Result<PollState<()>>>) {
    && |tasks| == |answers| + 1
    && forall i :: 0 <= i < |answers| ==>
         !tasks[i].Done? && Step(service, tasks[i]).result == answers[i] && Step(service, tasks[i]).next == tasks[i + 1]
  }

  /** Over any run, `Ready` is answered at most once, and only by the last
      poll: every earlier poll answered `NotReady` or panicked. */
  lemma {:induction false} ReadyOnlyOnLastPoll(service: Service, tasks: seq<Task>, answers: seq<Result<PollState<()>>>)
    requires IsRun(service, tasks, answers)
    ensures forall i :: 0 <= i < |answers| - 1 ==> answers[i] != Ok(Ready(()))
  {
    forall i | 0 <= i < |answers| - 1
      ensures answers[i] != Ok(Ready(()))
    {
      assert !tasks[i + 1].Done?;
    }
  }

  /** The ghost record of a task: the answers of every poll so far and what
      was printed. `Ready` was answered at most once, by the last poll,
      exactly when the task is done, and then what was printed is the whole
      stream the service sent. */
  ghost predicate Bookkept(service: Service, t: Task, history: seq<PollState<()>>, printed: seq<string>) {
    && Consistent(service, t)
    && (t.Fresh? ==> history == [])
    && ReadyOnlyAtEnd(history)
    && (t.Done? <==> EndsReady(history))
    && (t.Done? ==> printed == [Announcement(Decode(Received(service.replies)))] && EndingOf(service.replies) == Closed)
    && (!t.Done? ==> printed == [])
  }

  /** A poll that does not panic, recorded in the history and the printed
      output, keeps the record consistent. */
  lemma StepKeepsBookkept(service: Service, t: Task, history: seq<PollState<()>>, printed: seq<string>)
    requires !t.Done? && Bookkept(service, t, history, printed)
    requires Step(service, t).result.Ok?
    ensures var s := Step(service, t);
      Bookkept(service, s.next, history + [s.result.value], printed + s.emitted)
  {
    var s := Step(service, t);
    StepKeepsConsistent(service, t);
    if s.next.Done? {
      ResolvedPrintsWholeStream(service, t);
    }
    PollAgain(history, s.result.value);
  }

  /** A task that is done answered `Ready` exactly once, on its last poll,
      after the service closed the connection, and printed one line holding
      the decoding of the whole stream. */
  lemma Concluded(service: Service, t: Task, history: seq<PollState<()>>, printed: seq<string>)
    requires Bookkept(service, t, history, printed) && t.Done?
    ensures EndingOf(service.replies) == Closed
    ensures printed == [Announcement(Decode(Received(service.replies)))]
    ensures ReadyOnlyAtEnd(history) && CountReady(history) == 1
  {
    ReadyAtMostOnce(history);
  }

  /** The states of `Coroutine`; `Wait` owns the leaf future. */
  datatype StateMachine = Start | Wait(fut: Http.HttpFuture) | Resolved

  class Coroutine {
    var state: StateMachine
    /** The service the leaf future will connect to. */
    const service: Service
    /** The answers of every poll so far. */
    ghost var history: seq<PollState<()>>
    /** What the coroutine printed on resolution. */
    ghost var printed: seq<string>

    ghost function Footprint(): set<object>
      reads this
    {
      if state.Wait? then {this, state.fut} else {this}
    }

    /** The leaf is the one for `HelloPath` on this service, and the ghost
        record agrees with the state. */
    ghost predicate Valid()
      reads Footprint()
    {
      && (state.Wait? ==> state.fut.Valid() && state.fut.path == HelloPath && state.fut.service == service)
      && Bookkept(service, Model(), history, printed)
    }

    function Model(): Task
      reads Footprint()
    {
      match state
      case Start => Fresh
      case Wait(fut) => Awaiting(fut.Model())
      case Resolved => Done
    }

    /** `Coroutine::new`. */
    constructor (service: Service)
      ensures Valid() && state == Start && this.service == service
      ensures history == [] && printed == []
    {
      this.state := Start;
      this.service := service;
      this.history := [];
      this.printed := [];
    }

    /** One poll: exactly the transition `Step` describes. The loop goes
        round twice when the state was `Start` and once otherwise. */
    method Poll() returns (r: Result<PollState<()>>, ghost rounds: nat)
      requires Valid() && !state.Resolved?
      modifies Footprint()
      ensures var s := Step(service, old(Model()));
        r == s.result && Model() == s.next && printed == old(printed) + s.emitted
      ensures r.Ok? ==> Valid() && history == old(history) + [r.value]
      ensures old(state).Wait? && state.Wait? ==> state.fut == old(state.fut)
      ensures old(state).Start? && r.Ok? ==>
        state.Wait? && fresh(state.fut) && state.fut.path == HelloPath
        && state.fut.trace == [Http.Wrote(Encode(Http.GetReq(state.fut.path)))]
      ensures rounds == if old(state).Start? then 2 else 1
    {
      ghost var start := Model();
      rounds := 0;
      while true
        invariant rounds == if state.Start? then 0 else if old(state).Start? then 1 else 0
        invariant !state.Resolved? && Valid()
        invariant Step(service, start) == Step(service, Model())
        invariant history == old(history) && printed == old(printed)
        invariant old(state).Start? ==> state.Start? || (state.Wait? && fresh(state.fut) && state.fut.trace == [])
        invariant old(state).Wait? ==> state == old(state)
        decreases if state.Start? then 1 else 0
      {
        rounds := rounds + 1;
        match state {
          case Start =>
            Begin();
          case Wait(fut) =>
            r := Resume();
            break;
          case Resolved =>
            assert false;
        }
      }
    }

    /** `Start`: create the leaf future for the one request and wait on it. */
    method Begin()
      requires Valid() && state.Start?
      modifies this
      ensures Valid() && state.Wait? && fresh(state.fut) && state.fut.trace == []
      ensures Model() == Awaiting(Http.Unstarted)
      ensures history == old(history) && printed == old(printed)
    {
      var fut := Http.New(HelloPath, service);
      state := Wait(fut);
    }

    /** `Wait`: poll the leaf; on `Ready`, print its text and resolve. */
    method Resume() returns (r: Result<PollState<()>>)
      requires Valid() && state.Wait?
      modifies this, state.fut
      ensures var s := Step(service, old(Model()));
        r == s.result && Model() == s.next && printed == old(printed) + s.emitted
      ensures r.Ok? ==> Valid() && history == old(history) + [r.value]
      ensures state.Wait? ==> state.fut == old(state.fut)
      ensures old(state.fut.stream).None? && r.Ok? ==>
        state.fut.trace == old(state.fut.trace) + [Http.Wrote(Encode(Http.GetReq(state.fut.path)))]
    {
      var fut := state.fut;
      ghost var before := Model();
      var p := fut.Poll();
      match p {
        case Ok(Ready(data)) =>
          state := Resolved;
          printed := printed + [Announcement(data)];
          history := history + [Ready(())];
          r := Ok(Ready(()));
        case Ok(NotReady) =>
          history := history + [NotReady];
          r := Ok(NotReady);
        case Err(e) =>
          r := Err(e);
      }
      if r.Ok? {
        StepKeepsBookkept(service, before, old(history), old(printed));
      }
    }
  }
}
