/**
 The per-connection state of src/connection.rs: the authentication state
 with its one public transition, and `write`, which folds the messages into
 a running byte count and stops at the first error. The socket is replaced
 by the outcomes it would report, one per message.
 */
module Connection {
  import opened Results

  /** `ConnectionState`. */
  datatype ConnectionState = NotAuthenticated | Authenticated

  /** `Connection`: the state and the stream it owns; the stream is left abstract. */
  datatype Connection<S> = Connection(state: ConnectionState, stream: S)

  /** `new`: a freshly accepted stream starts out not authenticated. */
  function New<S>(stream: S): (conn: Connection<S>)
    ensures conn.state == NotAuthenticated
    ensures conn.stream == stream
  {
    Connection(NotAuthenticated, stream)
  }

  /** `set_state` (private): replaces the state, keeps the stream. */
  function SetState<S>(conn: Connection<S>, state: ConnectionState): (conn': Connection<S>)
    ensures conn'.state == state
    ensures conn'.stream == conn.stream
  {
    conn.(state := state)
  }

  /** `set_authenticated_state`: whatever the state was, it is now authenticated; the stream is untouched. */
  function SetAuthenticatedState<S>(conn: Connection<S>): (conn': Connection<S>)
    ensures conn'.state == Authenticated
    ensures conn'.stream == conn.stream
  {
    SetState(conn, Authenticated)
  }

  /** Authenticating twice is the same as authenticating once. */
  lemma SetAuthenticatedIdempotent<S>(conn: Connection<S>)
    ensures SetAuthenticatedState(SetAuthenticatedState(conn)) == SetAuthenticatedState(conn)
  {
  }

  /**
   The public operations on an existing connection. `read_command` and
   `write` take the connection by shared reference, so only
   `set_authenticated_state` can change it.
   */
  datatype Op = SetAuthenticated | Read | Send

  function Apply<S>(conn: Connection<S>, op: Op): (conn': Connection<S>)
    ensures conn'.stream == conn.stream
    ensures conn'.state == Authenticated <==> conn.state == Authenticated || op == SetAuthenticated
  {
    match op
    case SetAuthenticated => SetAuthenticatedState(conn)
    case Read => conn
    case Send => conn
  }

  /** The connection after the operations `ops`, in order. */
  function Run<S>(conn: Connection<S>, ops: seq<Op>): Connection<S>
    decreases |ops|
  {
    if |ops| == 0 then conn else Run(Apply(conn, ops[0]), ops[1..])
  }

  /**
   No sequence of public operations returns a connection to the
   unauthenticated state, none replaces its stream, and it ends up
   authenticated exactly when it was so already or one of the operations
   was `set_authenticated_state`.
   */
  lemma {:induction false} RunMonotone<S>(conn: Connection<S>, ops: seq<Op>)
    ensures Run(conn, ops).stream == conn.stream
    ensures Run(conn, ops).state == Authenticated <==>
      conn.state == Authenticated || SetAuthenticated in ops
    decreases |ops|
  {
    if |ops| > 0 {
      RunMonotone(Apply(conn, ops[0]), ops[1..]);
      assert ops == [ops[0]] + ops[1..];
    }
  }

  /** A new connection is authenticated after some operations exactly when one of them authenticated it. */
  lemma RunFromNew<S>(stream: S, ops: seq<Op>)
    ensures Run(New(stream), ops).state == Authenticated <==> SetAuthenticated in ops
    ensures Run(New(stream), ops).stream == stream
  {
    RunMonotone(New(stream), ops);
  }

  /**
   What the socket reports for one `write` call: a byte count, or an I/O
   error. The count is not tied to the message's length: `write` may take
   only part of a message, and the rest is never sent.
   */
  datatype WriteOutcome = Wrote(count: nat) | WriteFailed(error: IoError)

  /**
   The fold's accumulator: the running result and, as an observation of
   the socket, the messages handed to it so far.
   */
  datatype WriteRun = WriteRun(result: Result<nat, IoError>, sent: seq<string>)

  /**
   One step of the fold: an error accumulator is passed on with no write;
   otherwise the message is handed to the socket, and its byte count is added
   or its error taken.
   */
  function WriteStep(acc: WriteRun, msg: string, outcome: WriteOutcome): (next: WriteRun)
    ensures acc.result.Err? ==> next == acc
    ensures acc.result.Ok? ==> next.sent == acc.sent + [msg]
    ensures next.result.Ok? <==> acc.result.Ok? && outcome.Wrote?
    ensures next.result.Ok? ==> next.result.value == acc.result.value + outcome.count
    ensures acc.result.Ok? && outcome.WriteFailed? ==> next.result == Err(outcome.error)
  {
    match acc.result
    case Err(_) => acc
    case Ok(bytes) =>
      match outcome
      case WriteFailed(e) => WriteRun(Err(e), acc.sent + [msg])
      case Wrote(n) => WriteRun(Ok(bytes + n), acc.sent + [msg])
  }

  /**
   The fold over the messages, left to right; `outcomes[k]` is what writing
   `messages[k]` reports. The messages handed to the socket are always a
   prefix of `messages` appended to those already sent, and a fold that ends
   successfully has sent them all.
   */
  function WriteFold(acc: WriteRun, messages: seq<string>, outcomes: seq<WriteOutcome>): (w: WriteRun)
    requires |outcomes| == |messages|
    ensures acc.result.Err? ==> w == acc
    ensures |acc.sent| <= |w.sent| <= |acc.sent| + |messages|
    ensures w.sent == acc.sent + messages[..|w.sent| - |acc.sent|]
    ensures w.result.Ok? ==> acc.result.Ok? && w.sent == acc.sent + messages
    ensures w.result.Ok? ==> w.result.value >= acc.result.value
    decreases |messages|
  {
    if |messages| == 0 then acc
    else
      var w := WriteFold(WriteStep(acc, messages[0], outcomes[0]), messages[1..], outcomes[1..]);
      assert acc.result.Ok? ==> messages[..|w.sent| - |acc.sent|] == [messages[0]] + messages[1..][..|w.sent| - |acc.sent| - 1];
      assert messages == [messages[0]] + messages[1..];
      w
  }

  /** Index of the first failing outcome, or `|outcomes|` when every write succeeds. */
  function FirstFailure(outcomes: seq<WriteOutcome>): (k: nat)
    ensures k <= |outcomes|
    ensures forall i | 0 <= i < k :: outcomes[i].Wrote?
    ensures k < |outcomes| ==> outcomes[k].WriteFailed?
  {
    if |outcomes| == 0 then 0
    else if outcomes[0].WriteFailed? then 0
    else 1 + FirstFailure(outcomes[1..])
  }

  /** Sum of the byte counts of the successful outcomes. */
  function TotalBytes(outcomes: seq<WriteOutcome>): nat
  {
    if |outcomes| == 0 then 0
    else (if outcomes[0].Wrote? then outcomes[0].count else 0) + TotalBytes(outcomes[1..])
  }

  /**
   `write`: `Ok(0)` for no messages; the sum of the byte counts when every
   write succeeds; otherwise the first error, with no message after the
   failing one handed to the socket.
   */
  function Write(messages: seq<string>, outcomes: seq<WriteOutcome>): (w: WriteRun)
    requires |outcomes| == |messages|
    ensures messages == [] ==> w == WriteRun(Ok(0), [])
    ensures FirstFailure(outcomes) == |outcomes| ==>
      w.result == Ok(TotalBytes(outcomes)) && w.sent == messages
    ensures FirstFailure(outcomes) < |outcomes| ==>
      w.result == Err(outcomes[FirstFailure(outcomes)].error) &&
      w.sent == messages[..FirstFailure(outcomes) + 1]
  {
    WriteFoldFromOk(WriteRun(Ok(0), []), messages, outcomes);
    WriteFold(WriteRun(Ok(0), []), messages, outcomes)
  }

  /** Once the accumulator holds an error, the rest of the fold neither changes it nor writes anything. */
  lemma {:induction false} WriteFoldFromErr(acc: WriteRun, messages: seq<string>, outcomes: seq<WriteOutcome>)
    requires |outcomes| == |messages|
    requires acc.result.Err?
    ensures WriteFold(acc, messages, outcomes) == acc
    decreases |messages|
  {
    if |messages| > 0 {
      WriteFoldFromErr(acc, messages[1..], outcomes[1..]);
    }
  }

  /** The fold from a successful accumulator, described by the first failure and the byte total. */
  lemma {:induction false} WriteFoldFromOk(acc: WriteRun, messages: seq<string>, outcomes: seq<WriteOutcome>)
    requires |outcomes| == |messages|
    requires acc.result.Ok?
    ensures FirstFailure(outcomes) == |outcomes| ==>
      WriteFold(acc, messages, outcomes) ==
        WriteRun(Ok(acc.result.value + TotalBytes(outcomes)), acc.sent + messages)
    ensures FirstFailure(outcomes) < |outcomes| ==>
      WriteFold(acc, messages, outcomes) ==
        WriteRun(Err(outcomes[FirstFailure(outcomes)].error), acc.sent + messages[..FirstFailure(outcomes) + 1])
    decreases |messages|
  {
    if |messages| > 0 {
      var next := WriteStep(acc, messages[0], outcomes[0]);
      match outcomes[0]
      case WriteFailed(e) =>
        WriteFoldFromErr(next, messages[1..], outcomes[1..]);
        assert messages[..1] == [messages[0]];
      case Wrote(n) =>
        WriteFoldFromOk(next, messages[1..], outcomes[1..]);
        assert acc.sent + [messages[0]] + messages[1..] == acc.sent + messages;
        var k := FirstFailure(outcomes[1..]);
        if k < |outcomes| - 1 {
          assert messages[1..][..k + 1] == messages[1..k + 2];
          assert acc.sent + [messages[0]] + messages[1..k + 2] == acc.sent + messages[..k + 2];
        }
    }
  }
}
