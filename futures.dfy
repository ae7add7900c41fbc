/** The poll-based future contract (src/future.rs). A future is any object
    with a `Poll` method that may change it and answers either `Ready(v)` or
    `NotReady`; the leaf future answers with a `string` and the coroutine with
    `()`. Dafny's traits are not used: each future class declares its own
    `Poll`, and the contract a caller must keep (stop polling after `Ready`)
    is stated on sequences of poll results. */
module Futures {

  datatype PollState<Data> = Ready(data: Data) | NotReady

  /** A history of poll results in which `Ready` can only be the last entry:
      what a caller sees when it stops polling once the future is done. */
  predicate ReadyOnlyAtEnd<T>(history: seq<PollState<T>>) {
    forall i :: 0 <= i < |history| - 1 ==> history[i].NotReady?
  }

  /** Whether the history ends with a `Ready`. */
  predicate EndsReady<T>(history: seq<PollState<T>>) {
    history != [] && history[|history| - 1].Ready?
  }

  /** The number of `Ready` answers in a history. */
  function CountReady<T>(history: seq<PollState<T>>): (n: nat)
    ensures n <= |history|
  {
    if history == [] then 0
    else CountReady(history[..|history| - 1]) + if history[|history| - 1].Ready? then 1 else 0
  }

  lemma {:induction false} NoReadyCountsZero<T>(history: seq<PollState<T>>)
    requires forall i :: 0 <= i < |history| ==> history[i].NotReady?
    ensures CountReady(history) == 0
  {
    if history != [] {
      NoReadyCountsZero(history[..|history| - 1]);
    }
  }

  /** Polling a future that has not answered `Ready` yet keeps the contract,
      and the history then ends ready exactly when this answer is `Ready`. */
  lemma {:induction false} PollAgain<T>(history: seq<PollState<T>>, answer: PollState<T>)
    requires ReadyOnlyAtEnd(history) && !EndsReady(history)
    ensures ReadyOnlyAtEnd(history + [answer])
    ensures EndsReady(history + [answer]) <==> answer.Ready?
  {
    forall i | 0 <= i < |history|
      ensures (history + [answer])[i].NotReady?
    {
      if i == |history| - 1 {
        assert !history[i].Ready?;
      }
    }
  }

  /** A caller that keeps the contract receives `Ready` at most once, and
      exactly once when its last poll was answered with `Ready`. */
  lemma ReadyAtMostOnce<T>(history: seq<PollState<T>>)
    requires ReadyOnlyAtEnd(history)
    ensures CountReady(history) <= 1
    ensures CountReady(history) == 1 <==> EndsReady(history)
  {
    if history != [] {
      NoReadyCountsZero(history[..|history| - 1]);
    }
  }
}
