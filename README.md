# Poll-driven stackless coroutine, modelled in Dafny

The program shows how a future works when it is polled by hand. One
coroutine, a state machine written out by hand, owns one leaf future. The
leaf future connects to an HTTP service at `localhost:8080` and writes a
`GET` request. It then reads the response with non-blocking reads, polling
and returning `NotReady` whenever no data is available yet. When the peer
closes the connection, it hands back the response decoded as text. The
coroutine prints that text and resolves. `main` polls the coroutine until
it is ready and never polls it again.

The model has these modules:

- `Futures` (`futures.dfy`): the two answers a poll can give, and the
  caller's side of the contract, stated on histories of answers.
- `Utf8` (`utf8.dfy`): bytes, the UTF-8 encoding of the request, and the
  lossy decoder that turns the response into text. Each maximal ill-formed
  subpart becomes U+FFFD, as in section 3.9 of the Unicode Standard. The
  module proves that decoding undoes encoding.
- `Net` (`net.dfy`): the service and the connection as values. A service
  either accepts the connection or not. If it does, a script gives the
  outcome of each successive read:
  - a chunk of bytes (an empty chunk closes the connection);
  - an interrupted read;
  - a read that would block;
  - another error.
  Once the script runs out, every read would block. A chunk longer than
  the 1024-byte read buffer arrives over several reads. `Received` is the
  byte stream the peer sends and `EndingOf` says how it ends. Both are
  proved independent of how the stream is cut into chunks and of transient
  failures in between.
- `Http` (`http.dfy`): the request text and the leaf future of
  `src/http.rs`. The class `HttpFuture` keeps the source's fields
  (`stream`, `buffer`, `path`) plus a ghost log of every write and read.
  Its `Poll` is proved to make exactly the transition of the pure function
  `Step`. The lemmas about `Step` give the future's promises: a write
  before any read, an append-only buffer, and a final text that is the
  decoding of the whole stream.
- `HttpStd` (`http_std.dfy`): the same leaf future on the standard
  library's interface (`Poll::Pending`, an unused `Context`). Its poll is
  proved to make the same transition as `Http.Step`.
- `Coroutines` (`coroutine.dfy`): `StateMachine`, the class `Coroutine`, and
  the pure transition `Step` that its `Poll` is proved against.
- `Executor` (`executor.dfy`): `async_main_custom`, the driving loop of
  `main`, and the end-to-end scenarios.

Every panic of the source (`unwrap` on a failed connect, `panic!` on a read
error) is the error value of `Result`. Polling a resolved coroutine is a
precondition.

## Model

| member | source | states |
|---|---|---|
| Futures.ReadyAtMostOnce | src/future.rs:1-8 | A caller that stops polling once it gets `Ready` receives `Ready` at most once, and exactly once when its last poll was answered with `Ready`. |
| Futures.PollAgain | src/future.rs:1-8 | Polling a future that has not answered `Ready` keeps the caller's contract. The history then ends ready exactly when the new answer is `Ready`. |
| Futures.NoReadyCountsZero | src/future.rs:5-8 | A history made only of `NotReady` answers delivers no value. |
| Utf8.Decode | src/http.rs:78 | Lossy decoding yields at most one character per byte. |
| Utf8.EncodeChar | src/http.rs:54 | The UTF-8 encoding of a character is one well-formed sequence whose scalar value is that character. |
| Utf8.Encode | src/http.rs:54 | `as_bytes` produces between one and four bytes per character. |
| Utf8.EncodeAppend | src/http.rs:54 | Encoding distributes over concatenation. |
| Utf8.DecodeEncode | src/http.rs:54-78 | Decoding the bytes of any text gives that text back. |
| Utf8.DecodeEncodedChar | src/http.rs:78 | The decoder reads one encoded character and carries on after it. |
| Utf8.PieceWiseDecodingDiffers | src/http.rs:78-86 | Decoding must be applied to the whole buffer. Two halves of one character, decoded apart, differ from the character decoded whole. |
| Net.NextRead | src/http.rs:69-73 | One read returns at most 1024 bytes. A closed connection reads zero bytes. With nothing available the read would block. A consuming read brings the script closer to its end. A read never loses or reorders the bytes still to come. |
| Net.ReadInto | src/http.rs:69-73 | `read(&mut buf)` places exactly the bytes of the read at the front of the 1024-byte buffer and advances the connection. |
| Net.ReceivedAppend | src/http.rs:83-86 | The stream received over live replies followed by others is the two streams joined. |
| Net.SplitChunk | src/http.rs:77-86 | Splitting one chunk into two changes neither the received stream nor how it ends. |
| Net.TransientIgnored | src/http.rs:91-98 | An interrupted or would-block read anywhere before the end changes neither the received stream nor how it ends. |
| Http.GetReq | src/http.rs:12-19 | The request is `GET `, then the path unchanged, then the fixed tail ` HTTP/1.1`, CRLF, `Host: localhost`, CRLF, `Connection: close`, CRLF, CRLF. Its length is the path's length plus that fixed text. |
| Http.TargetOf | src/http.rs:12-19 | Whenever a request target is recovered from a text, that text is the request for that target. |
| Http.TargetOfGetReq | src/http.rs:12-19 | The target can always be recovered from a request built by `get_req`. |
| Http.LinesOfJoined | src/http.rs:12-19 | Splitting at CRLF undoes joining lines with CRLF, for lines without CR. |
| Http.RequestLines | src/http.rs:12-19 | For a path without CR, the request splits at CRLF into the request line (method, target, `HTTP/1.1`; section 3 of RFC 9112), `Host: localhost`, `Connection: close` (section 7.6.1 of RFC 9110) and the empty line that ends the header section (section 2.1 of RFC 9112). |
| Http.Drain | src/http.rs:72-104 | The read loop only ever appends to the buffer. It terminates because every read that does not end it consumes script. |
| Http.DrainToEof | src/http.rs:72-86 | A read loop that reaches end of stream has appended exactly the whole remaining stream to the buffer, and the peer closed the connection. |
| Http.DrainToFailure | src/http.rs:72-104 | A read loop that panics has appended the whole stream sent before the failure, and the stream breaks with that error, which is neither interrupted nor would-block. |
| Http.DrainToBlock | src/http.rs:72-98 | A read loop that blocks loses nothing. The gained bytes and those still to come make up the same stream with the same ending. A peer whose script ends has come strictly closer to it. |
| Http.DrainAccounts | src/http.rs:72-104 | At end of stream the buffer has gained exactly the whole remaining stream. On a fatal error the stream is broken with that error. When the loop blocks, the gained bytes and those still to come make up the same stream with the same ending, and a peer whose script ends has come strictly closer to it. |
| Http.Step | src/http.rs:64-105 | The buffer is append-only. The first poll never reads and never answers `Ready`: it answers `NotReady` exactly when the service accepts the connection. A poll that does not panic leaves a connection in place. |
| Http.StepKeepsConsistent | src/http.rs:64-105 | A poll that does not panic keeps the invariant "buffer plus bytes still to come is the whole stream". Each `NotReady` after the first poll brings a peer whose script ends strictly closer to that end. |
| Http.ReadyIsWholeStream | src/http.rs:77-86 | The text the leaf resolves to is the decoding of the whole stream the peer sent, however it was chunked across reads and polls, and the peer closed the connection. |
| Http.PanicIsPeerFailure | src/http.rs:47-105 | The leaf panics with a connection error only when the connection is refused on the first poll. It panics with a read error only when the connection is up and the stream breaks with an error that is neither interrupted nor would-block. |
| Http.ChunkAppended | src/http.rs:83-86 | A read of n bytes, 0 < n <= 1024, appends exactly those bytes and reads on. |
| Http.InterruptedRetried | src/http.rs:91-92 | An interrupted read is retried without answering and without touching the buffer. |
| Http.WouldBlockKeepsBuffer | src/http.rs:97-98 | A read that would block answers `NotReady` and keeps every byte read so far. |
| Http.EofDecodesBuffer | src/http.rs:77-79 | A zero-byte read answers `Ready` with the decoding of the whole buffer. |
| Http.OtherErrorPanics | src/http.rs:100-101 | Any other read error panics with that error. |
| Http.New | src/http.rs:25-27 | `Http::new` gives a fresh, unstarted leaf future for the path. |
| Http.HttpFuture.constructor | src/http.rs:40-46 | No connection, an empty buffer, the given path, and nothing written. |
| Http.HttpFuture.WriteRequest | src/http.rs:47-56 | If the service listens, the connection is set and the only write so far is the encoded request. Otherwise the call panics with a connection error and changes nothing. |
| Http.HttpFuture.Poll | src/http.rs:64-105 | The answer and the new `stream` and `buffer` are those of `Step`. The request is written on the first poll and never again. Every later poll only reads. |
| Http.HttpFuture.ReadAvailable | src/http.rs:69-104 | The read loop over the connection computes exactly `Drain`: the answer, the new buffer and the replies left. Every event it logs is a read. |
| HttpStd.FromPollState | src/http_std.rs:66-107 | `Pending` corresponds exactly to `NotReady`, and `Ready` keeps its value. |
| HttpStd.HttpFuture.constructor | src/http_std.rs:42-48 | No connection, an empty buffer, the given path, and nothing written. |
| HttpStd.HttpFuture.WriteRequest | src/http_std.rs:49-58 | As in `src/http.rs`: the encoded request from `get_req` is the only write, or the call panics with a connection error. |
| HttpStd.HttpFuture.Poll | src/http_std.rs:66-107 | The same transition as `Http.Step`, answered with `Pending` for `NotReady`. The context plays no part. |
| HttpStd.HttpFuture.ReadAvailable | src/http_std.rs:71-106 | The read loop computes `Drain`, answering `Pending` where it blocks. |
| Coroutines.Step | src/coroutine.rs:34-56 | A poll answers `Ready(())` exactly when the task becomes done, printing one line then and nothing otherwise. A task that is not done is waiting on its leaf. |
| Coroutines.FirstPoll | src/coroutine.rs:37-41 | The first poll connects to a listening service, writes the request and answers `NotReady`, with nothing read yet. With no service listening it panics instead. |
| Coroutines.StepKeepsConsistent | src/coroutine.rs:41-50 | A poll that does not panic keeps the leaf's invariant. Each `NotReady` brings a peer whose script ends strictly closer to its end. |
| Coroutines.ResolvedPrintsWholeStream | src/coroutine.rs:42-45 | On resolution the coroutine prints its banner with the decoding of the whole stream the service sent, and the service closed the connection. |
| Coroutines.PanicIsPeerFailure | src/coroutine.rs:41-50 | The task panics with a connection error only when no service listens, and with a read error only when the service listens and its stream breaks with that error. |
| Coroutines.StepKeepsBookkept | src/coroutine.rs:41-53 | A poll that does not panic, added to the history and the printed output, keeps the record. `Ready` is answered only last, exactly when the task is done. The printed line then holds the whole stream. |
| Coroutines.Concluded | src/coroutine.rs:42-45 | A task that is done answered `Ready` exactly once, on its last poll, after the service closed the connection. It printed one line holding the decoding of the whole stream. |
| Coroutines.ReadyOnlyOnLastPoll | src/coroutine.rs:41-53 | Over any sequence of polls, `Ready` can only be the answer of the last one. |
| Coroutines.Coroutine.constructor | src/coroutine.rs:25-29 | A new coroutine is in `Start`, with no polls made and nothing printed. |
| Coroutines.Coroutine.Poll | src/coroutine.rs:34-56 | The answer, the new state and what is printed are those of `Step`. History and printed output keep the invariant "`Ready` only last, exactly when `Resolved`". From `Start`, a fresh leaf is created whose log holds only the written request. The loop goes round twice from `Start` and once from `Wait`. |
| Coroutines.Coroutine.Begin | src/coroutine.rs:37-40 | `Start` creates the unstarted leaf for `/400/helloworld` and moves to `Wait`. |
| Coroutines.Coroutine.Resume | src/coroutine.rs:41-50 | `Wait` polls the same leaf. On `Ready(data)` it prints the banner line holding `data`, moves to `Resolved` and answers `Ready(())`. On `NotReady` it stays in `Wait`. |
| Executor.AsyncMainCustom | src/main.rs:17-20 | The root future is a fresh coroutine in `Start`. |
| Executor.Run | src/main.rs:22-40 | The loop polls until `Ready` and never polls again. When the service closes the connection, the program ends with the root `Resolved`, `Ready` answered exactly once and last, and one line printed holding the decoding of every byte sent. A refused connection or a broken stream ends it with that panic. |
| Executor.TwoPiecesReassembled | src/main.rs:22-37 | Text sent in two pieces and then closed is decoded as the two pieces joined. |
| Executor.ScenarioOk | src/main.rs:22-37 | A service that sends `OK` and closes makes the program print `OK`. |
| Executor.ScenarioHello | src/main.rs:22-37 | A service that sends `He`, then `llo`, then closes makes the program print `Hello`. |
| Executor.ScenarioEmpty | src/main.rs:22-37 | A service that closes without sending anything makes the program print the empty text. |
| Executor.ScenarioRefused | src/main.rs:22-37 | With no service listening, the program panics with a connection error. |

## Left out

- Real TCP work is not modelled: `TcpStream::connect`, `set_nonblocking`, `mio::net::TcpStream::from_std`, `write_all` and `read`. The service is a parameter (a `Service` value) given to the constructors instead of the fixed address `localhost:8080`. `set_nonblocking` and `write_all` are taken to succeed; a failed `connect` is the `ConnectFailed` panic.
- Http.HttpFuture.WriteRequest: does not model the `println!` of the request; the write itself is kept in the ghost log `trace`.
- `print!` in the coroutine is kept as the ghost log `printed`, holding the printed text; output to a terminal is not modelled.
- `std::thread::sleep` between polls is timing only and is left out of `Executor.Run`.
- Executor.Run: requires that a listening service eventually closes the connection or fails. A service that keeps it open without ever closing makes `main` poll for ever, and a loop that does not end cannot be proved to end.
- `src/main_std.rs` is not part of this model. It relies on the compiler-generated `async` state machine, `Pin`, `Context` and a dummy waker.
- `Pin` is left out. `Context` is a value the std poll ignores. `Box<dyn Future>` is a concrete `Http.HttpFuture` held by `Wait`.
- `Http::new` of `src/http_std.rs` (lines 27-29) is not modelled separately. It only calls the constructor, which is modelled.
- `get_req` of `src/http_std.rs` (lines 14-21) has the same text as the one in `src/http.rs`. Both leaf futures use the single definition `Http.GetReq`.
- Poll answers and panics are values in the model. A panic unwinding out of a poll is the `Err` result of that call. After an `Err` the coroutine's invariant is not promised, because the source process has ended by then.
- Utf8.Decode: the decoder follows the replacement practice of `String::from_utf8_lossy`, not its implementation. Its postcondition states only the length bound. What the decoder does is given by `DecodeEncode` and the scenario lemmas.
