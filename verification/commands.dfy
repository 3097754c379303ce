/**
 Reading one client command line (`read` and `read_command` in
 src/connection.rs): one read into a zero-filled 1024-byte buffer, NUL and
 then LF trimming, a `splitn(3, ' ')` into tag, command and the rest, and a
 `split(' ')` of the rest into arguments.
 */
module Commands {
  import opened Results
  import opened Text

  /** Size of the buffer one `read` fills. */
  const BufferSize: nat := 1024

  const NUL: char := '\0'
  const LF: char := '\n'
  const SP: char := ' '

  const MalformedMessage: string :=
    "Client commands should have at least an identifier and a valid IMAPrev1 command\n"

  /** The error `read_command` returns for a line without a space. */
  const Malformed: IoError := IoError(InvalidInput, MalformedMessage)

  /** The tuple `read_command` returns, with its fields in the same order: `(command, tag, args)`. */
  datatype ParsedCommand = ParsedCommand(command: string, tag: string, args: seq<string>)

  /**
   What the one `stream.read` call reports: the characters received (none
   when the peer has closed), or an I/O error.
   */
  datatype ReadOutcome = Received(data: string) | ReadFailed(error: IoError)

  /**
   `read`: the buffer after one read into 1024 zero bytes. Whatever the read
   did not fill stays NUL. A failed read stores nothing, so the buffer stays
   all NUL; its error is discarded and the buffer is parsed anyway.
   */
  function ReadBuffer(outcome: ReadOutcome): (buffer: string)
    requires outcome.Received? ==> |outcome.data| <= BufferSize
    ensures |buffer| == BufferSize
    ensures outcome.Received? ==>
      buffer[..|outcome.data|] == outcome.data && AllAre(buffer[|outcome.data|..], NUL)
    ensures outcome.ReadFailed? ==> AllAre(buffer, NUL)
  {
    match outcome
    case Received(data) =>
      var buffer := data + seq(BufferSize - |data|, _ => NUL);
      assert buffer[|data|..] == seq(BufferSize - |data|, _ => NUL);
      buffer
    case ReadFailed(_) => seq(BufferSize, _ => NUL)
  }

  /**
   The two trims of `read_command`: every leading and trailing NUL, then every
   leading and trailing LF. The result never starts or ends with LF, a line
   whose ends are neither NUL nor LF is left alone, and an all-NUL buffer
   trims to the empty line.
   */
  function Trim(text: string): (line: string)
    ensures Stripped(line, LF)
    ensures |line| <= |text|
    ensures Stripped(text, NUL) && Stripped(text, LF) ==> line == text
    ensures AllAre(text, NUL) ==> line == []
  {
    var once := TrimMatches(text, NUL);
    TrimMatchesShape(text, NUL);
    TrimMatchesShape(once, LF);
    TrimMatchesClean(text, NUL);
    TrimMatchesClean(once, LF);
    TrimMatchesNothingLeft(text, NUL);
    TrimMatchesNothingLeft([], LF);
    TrimMatches(once, LF)
  }

  /** Parses an already-read buffer the way `read_command` does once its read returns. */
  function ParseLine(text: string): (r: Result<ParsedCommand, IoError>)
    ensures r.Err? <==> SP !in Trim(text)
    ensures r.Err? ==> r.error == Malformed
    ensures r.Ok? ==> SP !in r.value.tag && SP !in r.value.command && NoSpaces(r.value.args)
  {
    Split3(Trim(text))
  }

  /**
   The split of a trimmed line: `splitn(3, ' ')`, a rejection unless there
   are two or three pieces, and `split(' ')` of the third piece when present.
   */
  function Split3(line: string): (r: Result<ParsedCommand, IoError>)
    ensures r.Err? <==> SP !in line
    ensures r.Err? ==> r.error == Malformed
    ensures r.Ok? ==> SP !in r.value.tag && SP !in r.value.command && NoSpaces(r.value.args)
  {
    var v := SplitN(line, 3, SP);
    if |v| > 3 || |v| < 2 then Err(Malformed)
    else
      var args := if |v| == 3 then Split(v[2], SP) else [];
      Ok(ParsedCommand(v[1], v[0], args))
  }

  /**
   `read_command`: one read, then the parse. A failed read is never reported
   as such: the only error is the malformed-line one.
   */
  function ReadCommand(outcome: ReadOutcome): (r: Result<ParsedCommand, IoError>)
    requires outcome.Received? ==> |outcome.data| <= BufferSize
    ensures r.Err? ==> r.error == Malformed
  {
    ParseLine(ReadBuffer(outcome))
  }

  /** No argument contains a space. */
  predicate NoSpaces(args: seq<string>) {
    forall k | 0 <= k < |args| :: SP !in args[k]
  }

  /**
   The request line a parsed command stands for:
   `tag SP command`, followed by `SP` and the arguments joined by `SP` when there are any.
   */
  function Line(cmd: ParsedCommand): string {
    cmd.tag + [SP] + cmd.command + Tail(cmd.args)
  }

  /** What follows the command in a line: nothing, or a space and the joined arguments. */
  function Tail(args: seq<string>): string {
    if args == [] then "" else [SP] + Join(args, SP)
  }

  /**
   A command that a client line can carry: no space inside the tag, the
   command or an argument, and a line that trimming leaves alone.
   */
  predicate WellFormed(cmd: ParsedCommand) {
    && SP !in cmd.tag
    && SP !in cmd.command
    && NoSpaces(cmd.args)
    && Stripped(Line(cmd), NUL)
    && Stripped(Line(cmd), LF)
  }

  /** `splitn(3, ' ')` yields one to three pieces, so the `length > 3` rejection can never fire. */
  lemma SplitNIntoAtMostThree(line: string)
    ensures 1 <= |SplitN(line, 3, SP)| <= 3
  {
  }

  /** On success, the trimmed line is exactly the tag, the command and the arguments put back together. */
  lemma ParseLineRoundTrip(text: string)
    ensures ParseLine(text).Ok? ==> Line(ParseLine(text).value) == Trim(text)
  {
    Split3RoundTrip(Trim(text));
  }

  lemma Split3RoundTrip(line: string)
    ensures Split3(line).Ok? ==> Line(Split3(line).value) == line
  {
    var v := SplitN(line, 3, SP);
    JoinSplitN(line, 3, SP);
    if |v| == 2 {
      assert v == [v[0], v[1]];
      LineOfTwo(v[0], v[1]);
    } else if |v| == 3 {
      assert v == [v[0], v[1], v[2]];
      LineOfThree(v[0], v[1], v[2]);
    }
  }

  lemma LineOfTwo(tag: string, command: string)
    ensures Line(ParsedCommand(command, tag, [])) == Join([tag, command], SP)
  {
    JoinCons(tag, [command], SP);
  }

  lemma LineOfThree(tag: string, command: string, rest: string)
    ensures Line(ParsedCommand(command, tag, Split(rest, SP))) == Join([tag, command, rest], SP)
  {
    TailOfSplit(rest);
    JoinPair(command, rest);
    assert [tag, command, rest] == [tag] + [command, rest];
    JoinCons(tag, [command, rest], SP);
  }

  lemma TailOfSplit(rest: string)
    ensures Tail(Split(rest, SP)) == [SP] + rest
  {
    JoinSplit(rest, SP);
  }

  lemma JoinPair(a: string, b: string)
    ensures Join([a, b], SP) == a + [SP] + b
  {
    assert [a, b] == [a] + [b];
    JoinCons(a, [b], SP);
  }

  /** Number of spaces in a line built from space-free pieces. */
  lemma CountLine(cmd: ParsedCommand)
    requires SP !in cmd.tag && SP !in cmd.command && NoSpaces(cmd.args)
    ensures Count(Line(cmd), SP) == if cmd.args == [] then 1 else |cmd.args| + 1
  {
    CountAppend(cmd.tag, [SP], SP);
    CountAppend(cmd.tag + [SP], cmd.command, SP);
    CountAppend(cmd.tag + [SP] + cmd.command, Tail(cmd.args), SP);
    if cmd.args != [] {
      CountAppend([SP], Join(cmd.args, SP), SP);
      CountJoin(cmd.args);
    }
  }

  /** Joining `n` space-free pieces with spaces puts `n - 1` spaces in. */
  lemma {:induction false} CountJoin(parts: seq<string>)
    requires |parts| >= 1 && NoSpaces(parts)
    ensures Count(Join(parts, SP), SP) == |parts| - 1
    decreases |parts|
  {
    if |parts| > 1 {
      CountJoin(parts[1..]);
      CountAppend(parts[0], [SP], SP);
      CountAppend(parts[0] + [SP], Join(parts[1..], SP), SP);
    }
  }

  /**
   The number of arguments is fixed by the number of spaces: none when the
   trimmed line holds exactly one space, one fewer than the spaces otherwise
   (so a trailing space yields the argument list `[""]`).
   */
  lemma ParseLineArgs(text: string)
    ensures ParseLine(text).Ok? ==>
      (ParseLine(text).value.args == [] <==> Count(Trim(text), SP) == 1)
    ensures ParseLine(text).Ok? && ParseLine(text).value.args != [] ==>
      |ParseLine(text).value.args| == Count(Trim(text), SP) - 1
  {
    if ParseLine(text).Ok? {
      ParseLineRoundTrip(text);
      CountLine(ParseLine(text).value);
    }
  }

  /** Parsing the line of a well-formed command gives the command back. */
  lemma ParseLineOfLine(cmd: ParsedCommand)
    requires WellFormed(cmd)
    ensures ParseLine(Line(cmd)) == Ok(cmd)
  {
    var line := Line(cmd);
    TrimMatchesStripped(line, NUL);
    TrimMatchesStripped(line, LF);
    Split3OfLine(cmd);
  }

  lemma Split3OfLine(cmd: ParsedCommand)
    requires SP !in cmd.tag && SP !in cmd.command && NoSpaces(cmd.args)
    ensures Split3(Line(cmd)) == Ok(cmd)
  {
    var rest := cmd.command + Tail(cmd.args);
    assert Line(cmd) == cmd.tag + [SP] + rest;
    SplitFirst(cmd.tag, rest);
    SplitRest(cmd.command, cmd.args);
    if cmd.args != [] {
      SplitJoin(cmd.args, SP);
    }
  }

  /** `splitn(3, ' ')` cuts a space-free tag off at the first space. */
  lemma SplitFirst(tag: string, rest: string)
    requires SP !in tag
    ensures SplitN(tag + [SP] + rest, 3, SP) == [tag] + SplitN(rest, 2, SP)
  {
    var line := tag + [SP] + rest;
    FindAfterPrefix(tag, rest, SP);
    SplitNStep(line, 3, SP, |tag|);
    assert line[..|tag|] == tag;
    assert line[|tag| + 1..] == rest;
  }

  lemma SplitRest(command: string, args: seq<string>)
    requires SP !in command
    ensures SplitN(command + Tail(args), 2, SP) ==
      if args == [] then [command] else [command, Join(args, SP)]
  {
    var rest := command + Tail(args);
    if args == [] {
      assert rest == command;
    } else {
      var joined := Join(args, SP);
      assert rest == command + [SP] + joined;
      FindAfterPrefix(command, joined, SP);
      SplitNStep(rest, 2, SP, |command|);
      assert rest[..|command|] == command;
      assert rest[|command| + 1..] == joined;
    }
  }

  /** The zero padding after the received characters never reaches the parser. */
  lemma ReadCommandIgnoresPadding(data: string)
    requires |data| <= BufferSize
    ensures ReadCommand(Received(data)) == ParseLine(data)
  {
    var buffer := ReadBuffer(Received(data));
    var pad := buffer[|data|..];
    assert buffer == data + pad;
    TrimMatchesIgnoresPadding(data, pad, NUL);
  }

  /**
   A failed read, and a read that returned nothing because the peer closed,
   both leave an all-NUL buffer, which trims to the empty line and is
   rejected as malformed.
   */
  lemma ReadCommandEmptyBuffer(outcome: ReadOutcome)
    requires outcome.ReadFailed? || outcome == Received([])
    ensures ReadCommand(outcome) == Err(Malformed)
  {
    var buffer := ReadBuffer(outcome);
    assert AllAre(buffer, NUL) by {
      if outcome.Received? {
        assert buffer[0..] == buffer;
      }
    }
    TrimMatchesAll(buffer, NUL);
    assert TrimMatches([], LF) == [] by {
      TrimMatchesAll([], LF);
    }
  }

  /**
   A line whose ends are neither NUL nor LF, sent with one LF terminator and
   followed by zero padding, trims back to itself: trimming removes the
   terminator and the padding and nothing else, so a CR before the LF stays.
   */
  lemma TrimTerminatedLine(line: string, pad: string)
    requires Stripped(line, NUL) && Stripped(line, LF)
    requires AllAre(pad, NUL)
    ensures Trim(line + [LF] + pad) == line
  {
    var sent := line + [LF];
    assert line + [LF] + pad == sent + pad;
    TrimMatchesIgnoresPadding(sent, pad, NUL);
    assert Stripped(sent, NUL);
    TrimMatchesStripped(sent, NUL);
    TrimOneTerminator(line);
  }

  lemma TrimOneTerminator(line: string)
    requires Stripped(line, LF)
    ensures TrimMatches(line + [LF], LF) == line
  {
    var sent := line + [LF];
    assert sent[0..|line|] == line && sent[..0] == [] && sent[|line|..] == [LF];
    IsTrimIntro(line, sent, LF, 0, |line|);
    TrimUnique(TrimMatches(sent, LF), line, sent, LF);
  }

  /** Neither NUL nor LF at the start of `s`. */
  predicate CleanStart(s: string) {
    s == [] || (s[0] != NUL && s[0] != LF)
  }

  /** A tag followed by a single space is accepted, with an empty command and no arguments. */
  lemma EmptyCommandAccepted(tag: string)
    requires SP !in tag && CleanStart(tag)
    ensures ParseLine(tag + [SP]) == Ok(ParsedCommand("", tag, []))
  {
    var cmd := ParsedCommand("", tag, []);
    assert Line(cmd) == tag + [SP];
    ParseLineOfLine(cmd);
  }

  /** A trailing space after the command yields the one empty argument `[""]`. */
  lemma TrailingSpaceArgument(tag: string, command: string)
    requires SP !in tag && SP !in command && CleanStart(tag)
    ensures ParseLine(tag + [SP] + command + [SP]) == Ok(ParsedCommand(command, tag, [""]))
  {
    var cmd := ParsedCommand(command, tag, [""]);
    assert Line(cmd) == tag + [SP] + command + [SP];
    ParseLineOfLine(cmd);
  }

  /** In a line ending in CR LF only the LF is trimmed: the CR stays on the last piece, here the command. */
  lemma CarriageReturnKept(tag: string, command: string)
    requires SP !in tag && SP !in command && CleanStart(tag)
    ensures ParseLine(tag + [SP] + command + ['\r', LF]) == Ok(ParsedCommand(command + ['\r'], tag, []))
  {
    var cmd := ParsedCommand(command + ['\r'], tag, []);
    var line := tag + [SP] + command + ['\r'];
    assert Line(cmd) == line;
    assert line[|line| - 1] == '\r';
    assert line[0] == if tag == [] then SP else tag[0];
    assert line + [LF] + [] == tag + [SP] + command + ['\r', LF];
    TrimTerminatedLine(line, []);
    Split3OfLine(cmd);
  }

  /** NULs are trimmed before LFs, so a NUL just before the final LF survives both trims. */
  lemma TrimOrder(line: string)
    requires line != [] && CleanStart(line)
    ensures Trim(line + [NUL, LF]) == line + [NUL]
  {
    var sent := line + [NUL, LF];
    assert sent[0] == line[0] && sent[|sent| - 1] == LF;
    TrimMatchesStripped(sent, NUL);
    assert sent == line + [NUL] + [LF];
    TrimOneTerminator(line + [NUL]);
  }
}
