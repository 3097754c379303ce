# A Dafny model of the connection layer of `mail`

`mail` is a small IMAP-style server written in Rust. Each client request is
one line of the form `<tag> <command> [<args>]`. The logic of the server
lives in `src/connection.rs`, and this project models that file in Dafny:

- **Reading a command** (`read`, `read_command`). One read fills a
  zero-initialised 1024-byte buffer. The parser then removes leading and
  trailing NULs, and after that leading and trailing LFs. It splits the line
  with `splitn(3, ' ')` into a tag, a command and an optional rest, and
  rejects the line with an `InvalidInput` error when there are fewer than two
  pieces. It splits the rest on single spaces into the arguments. The result
  is the tuple `(command, tag, args)`, in that order.
- **Authentication state** (`ConnectionState`, `new`,
  `set_authenticated_state`, `set_state`). A connection starts out not
  authenticated. The only public transition makes it authenticated.
- **Writing** (`write`). Writing folds over the messages and adds up the
  byte counts the socket reports. After the first error it makes no further
  write call and returns that error.

Modules:

- `Results` (`results.dfy`): `Option`, `Result` and `io::Error`.
- `Text` (`text.dfy`): the `str` operations the parser uses:
  `trim_matches`, `split` and `splitn` on a char. It also has the search for
  the first separator that `split` and `splitn` perform, and the `join` that
  undoes a split. Each comes with an independent description or inverse, and
  lemmas that connect the two.
- `Commands` (`commands.dfy`): the read buffer, the two trims and the parse.
- `Connection` (`connection.dfy`): the state machine and the write fold.

Side effects are modelled as follows:

- The socket read is a `ReadOutcome`: either the characters received, or an
  error.
- Each socket write is a `WriteOutcome`: either a byte count, or an error.
  There is one outcome per message.
- The connection's stream is a type parameter, so the model never looks
  inside it.
- The fold's accumulator also records which messages were handed to the
  socket. This makes "nothing is written after the first error" a property
  that can be stated and proved.

Some behaviour of the code is easy to miss when reading it as an IMAP
server. The model keeps all of it:

- `"a1 "` is accepted, with an empty command.
- Only NUL and LF are trimmed, so in a CR LF line the CR stays on the last
  piece.
- A failed or empty read is never reported as such. The buffer then stays
  all NUL, which parses to the `InvalidInput` error.
- The result tuple puts the command before the tag.
- `write` does not retry a short write; the rest of that message is dropped
  and the next message follows.

## Model

| member | source | states |
|---|---|---|
| `Commands.ReadBuffer` | src/connection.rs:16-21 | The buffer always has 1024 characters. It starts with what was received, and the rest is NUL. A failed read stores nothing, so the buffer stays all NUL; its error is discarded (line 19) and the buffer is parsed anyway. |
| `Commands.ReadCommand` | src/connection.rs:43-71 | `read_command` never reports a read error. The malformed-line `InvalidInput` error is the only error it can return. |
| `Commands.ParseLine` | src/connection.rs:48-70 | Rejected exactly when the trimmed line has no space, including the empty line. The only error is `InvalidInput` with the source's message. On success, neither the tag, the command nor any argument contains a space. |
| `Commands.Split3` | src/connection.rs:52-68 | The split of an already trimmed line. It is rejected exactly when the line has no space. |
| `Commands.SplitNIntoAtMostThree` | src/connection.rs:52-60 | `splitn(3, ' ')` gives one to three pieces, so the `length > 3` rejection can never fire. |
| `Commands.ParseLineRoundTrip` | src/connection.rs:52-70 | On success, the trimmed line is `tag + " " + command`. When there are arguments, it continues with `" "` and the arguments joined by single spaces. |
| `Commands.ParseLineOfLine` | src/connection.rs:49-70 | Inverse direction: build the line of a command whose parts contain no spaces and whose ends are not NUL or LF. Parsing that line gives back exactly `(command, tag, args)`. |
| `Commands.ParseLineArgs` | src/connection.rs:64-68 | The arguments are empty exactly when the trimmed line has one space. Otherwise there is one argument fewer than there are spaces, so a third piece always gives at least one argument. |
| `Commands.CountLine` | src/connection.rs:52-68 | A line built from parts that contain no spaces has one space, or one more space than it has arguments. |
| `Commands.CountJoin` | src/connection.rs:67 | Joining n space-free pieces with spaces gives n - 1 spaces. |
| `Commands.ReadCommandIgnoresPadding` | src/connection.rs:16-50 | The NUL padding after the received characters does not change the parse result. |
| `Commands.ReadCommandEmptyBuffer` | src/connection.rs:16-60 | After a failed read, or a read of nothing, the result is the `InvalidInput` error. |
| `Commands.Trim` | src/connection.rs:49-50 | The two trims of the buffer. The line never starts or ends with LF and is no longer than the buffer. A line whose ends are neither NUL nor LF is returned unchanged, and an all-NUL buffer gives the empty line. |
| `Commands.TrimTerminatedLine` | src/connection.rs:49-50 | A line sent with one LF terminator and NUL padding trims back to the line, provided its ends are not NUL or LF. Characters inside the line are kept. |
| `Commands.TrimOneTerminator` | src/connection.rs:50 | Trimming LF removes exactly one trailing LF from a line that does not otherwise end in LF. |
| `Commands.TrimOrder` | src/connection.rs:49-50 | NUL is trimmed before LF, so a NUL just before the final LF survives both trims. |
| `Commands.CarriageReturnKept` | src/connection.rs:49-70 | For a CR LF line, the CR is not trimmed and ends up on the command. |
| `Commands.EmptyCommandAccepted` | src/connection.rs:52-63 | A tag followed by a single space is accepted, with an empty command and no arguments. |
| `Commands.TrailingSpaceArgument` | src/connection.rs:64-68 | A trailing space after the command gives the argument list `[""]`. |
| `Commands.Split3OfLine` | src/connection.rs:52-68 | Splitting the line built from space-free parts gives back those parts. |
| `Commands.SplitFirst` | src/connection.rs:52 | `splitn(3, ' ')` cuts a space-free tag off at the first space. |
| `Commands.SplitRest` | src/connection.rs:52 | The second and third pieces of `splitn(3, ' ')` are the command and the joined arguments. |
| `Text.Find` | src/connection.rs:52 | The separator search inside `splitn` and `split`. It gives the position of the first occurrence of the char, or none exactly when the char does not occur. |
| `Text.TrimMatches` | src/connection.rs:49-50 | The result is a slice of the input. Only the char is removed on each side, and the result neither starts nor ends with the char. |
| `Text.TrimUnique` | src/connection.rs:49-50 | That description has exactly one solution, so it defines `trim_matches`. |
| `Text.TrimMatchesIgnoresPadding` | src/connection.rs:49 | Appending a run of the trimmed char does not change the result. |
| `Text.TrimMatchesStripped` | src/connection.rs:49-50 | A string that neither starts nor ends with the char is returned unchanged. |
| `Text.TrimMatchesAll` | src/connection.rs:49-50 | A string made only of the char trims to the empty string. |
| `Text.Split` | src/connection.rs:67 | `split` gives one more piece than there are separators, and no piece contains the separator. |
| `Text.SplitN` | src/connection.rs:52 | `splitn(n)` gives one to n pieces. Only the last piece can contain the separator, and it cannot when there are fewer than n pieces. |
| `Text.JoinSplit` | src/connection.rs:67 | Joining the pieces of a split gives back the string. |
| `Text.SplitJoin` | src/connection.rs:67 | Splitting the join of one or more separator-free pieces gives back the pieces. |
| `Text.JoinSplitN` | src/connection.rs:52 | Joining the pieces of a `splitn` gives back the string. |
| `Text.CountAppend` | src/connection.rs:52 | The number of separators in a concatenation is the sum of the numbers in its parts. |
| `Connection.New` | src/connection.rs:23-26 | A new connection is not authenticated and owns the given stream. |
| `Connection.SetState` | src/connection.rs:77-79 | Replaces the state and keeps the stream. |
| `Connection.SetAuthenticatedState` | src/connection.rs:73-75 | Whatever the previous state, the connection is now authenticated. The stream is unchanged. |
| `Connection.SetAuthenticatedIdempotent` | src/connection.rs:73-79 | Authenticating twice is the same as authenticating once. |
| `Connection.Apply` | src/connection.rs:16-79 | A single public operation never replaces the stream. Afterwards the connection is authenticated exactly when it was before or the operation was `set_authenticated_state`. |
| `Connection.RunMonotone` | src/connection.rs:6-79 | Over any sequence of public operations, no operation returns a connection to `NOTAUTHENTICATED`. The stream is never replaced. The connection ends up authenticated exactly when it started authenticated or some operation authenticated it. |
| `Connection.RunFromNew` | src/connection.rs:23-79 | A new connection is authenticated after a sequence of operations exactly when one of them was `set_authenticated_state`. |
| `Connection.WriteStep` | src/connection.rs:31-38 | An `Err` accumulator is passed through with no write. Otherwise the message is sent, and its byte count is added or its error taken. The result stays `Ok` exactly when it was `Ok` and the write succeeded. |
| `Connection.WriteFold` | src/connection.rs:30-40 | An `Err` accumulator comes out unchanged. The messages sent are the ones already sent followed by a prefix of the list, in order. A fold that ends `Ok` started `Ok`, sent every message and never lowered the byte count. |
| `Connection.FirstFailure` | src/connection.rs:32-35 | Every write before the returned index succeeds, and the write at that index, if there is one, fails. |
| `Connection.Write` | src/connection.rs:28-41 | No messages give `Ok(0)` and no writes. If every write succeeds, the result is the sum of the byte counts and every message was handed to the socket. Otherwise the result is the first error, and no message after the failing one is handed to the socket. |
| `Connection.WriteFoldFromErr` | src/connection.rs:32-33 | Once the accumulator is an error, the rest of the fold leaves it unchanged and writes nothing. |
| `Connection.WriteFoldFromOk` | src/connection.rs:30-40 | The fold from any successful accumulator is described by the first failure and the byte total. |

## Left out

- `src/main.rs` is not part of this model. Its TCP listener, its concurrent
  accept loop and its `handle_client` echo loop are network I/O and
  concurrency.
- `src/oauth2.rs` is not part of this model. Its `authenticate` and `issue`
  wrap a JWT library, an environment variable and the system clock.
- The decoding of the buffer with `String::from_utf8(..).unwrap()` is left
  out. The model counts one character per byte, so the panic on invalid
  UTF-8 and the handling of multi-byte characters are not modelled.
- The async read and write calls are left out. A read is given as its
  outcome, and each write is given as the byte count or error the socket
  reports.
- Write: the byte total is an unbounded `nat`. The overflow of the `usize`
  sum `bytes + new_bytes` is not modelled.
- Write: does not take the connection. The per-message outcome sequence
  stands for the connection's stream.
- No command dispatcher, handlers, response formatting or session loop
  exist in `src/connection.rs`, so none are modelled.
