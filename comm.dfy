/**
 * The read loop of comm.c: every extracted message must be valid JSON whose
 * "time" member carries the date; the loop ends as soon as one of them sets
 * the clock. The JSON wrapper (`json_validate`, `json_search`) is an oracle.
 */
module CommLoop {
  import opened Options
  import opened Bytes
  import opened Framing
  import opened Clock

  /**
   * The JSON wrapper: whether a text parses as JSON, and the string value of
   * a member (None where `json_search` returns NULL: not JSON, no such
   * member, or a member that is not a string).
   */
  datatype Json = Json(validate: seq<byte> -> bool, search: (seq<byte>, seq<byte>) -> Option<seq<byte>>)

  /** "time" */
  const TIME_KEY: seq<byte> := [0x74, 0x69, 0x6D, 0x65]

  /** How `process_message` as written ends. */
  datatype Processed =
    | Updated(seconds: int)   // returns EXIT_SUCCESS: the clock was set
    | NotUpdated              // returns EXIT_FAILURE
    | NullTimeString          // strptime is handed the NULL that json_search returned

  /**
   * `process_message` as written: the result of `json_search` goes to
   * `parse_datetime` without a NULL check.
   */
  function ProcessMessageAsWritten(json: Json, clock: TimeOracle, msg: seq<byte>): (r: Processed)
    ensures r.NullTimeString? <==> json.search(msg, TIME_KEY).None?
    ensures r.Updated? ==> Some(r.seconds) == SetClockFrom(clock, json.search(msg, TIME_KEY).value)
  {
    match json.search(msg, TIME_KEY)
    case None => NullTimeString
    case Some(timeString) =>
      match SetClockFrom(clock, timeString)
      case Some(seconds) => Updated(seconds)
      case None => NotUpdated
  }

  /**
   * `process_message` with a missing "time" string treated as a failure:
   * the clock is set only from the string value of "time", and only when it
   * parses and the clock accepts it.
   */
  function ProcessMessage(json: Json, clock: TimeOracle, msg: seq<byte>): (r: Option<int>)
    ensures r.Some? ==> json.search(msg, TIME_KEY).Some? && r == SetClockFrom(clock, json.search(msg, TIME_KEY).value)
    ensures json.search(msg, TIME_KEY).Some? ==> r == SetClockFrom(clock, json.search(msg, TIME_KEY).value)
  {
    match json.search(msg, TIME_KEY)
    case None => None
    case Some(timeString) => SetClockFrom(clock, timeString)
  }

  /** Wherever the code as written is defined, the corrected version agrees with it. */
  lemma ProcessMessageAgrees(json: Json, clock: TimeOracle, msg: seq<byte>)
    requires !ProcessMessageAsWritten(json, clock, msg).NullTimeString?
    ensures ProcessMessage(json, clock, msg).Some? <==> ProcessMessageAsWritten(json, clock, msg).Updated?
    ensures ProcessMessage(json, clock, msg).Some? ==>
      ProcessMessage(json, clock, msg).value == ProcessMessageAsWritten(json, clock, msg).seconds
  {
  }

  /** "START{}END" */
  const EMPTY_OBJECT_FRAME: seq<byte> := [0x53, 0x54, 0x41, 0x52, 0x54, 0x7B, 0x7D, 0x45, 0x4E, 0x44]
  /** "{}" */
  const EMPTY_OBJECT: seq<byte> := [0x7B, 0x7D]

  /** "START{}END" holds no NUL, so strstr sees all of it. */
  lemma EmptyObjectFrameIsCString(c: seq<byte>)
    requires c == EMPTY_OBJECT_FRAME
    ensures CString(c) == c
  {
    assert forall k :: 0 <= k < |c| ==> c[k] != 0;
  }

  /** strstr on "START{}END" finds START at 0 and END at 7. */
  lemma EmptyObjectFrameDelimiters(c: seq<byte>)
    requires c == EMPTY_OBJECT_FRAME
    ensures FindFirst(c, START_DELIM) == Some(0)
    ensures FindFirst(c, END_DELIM) == Some(7)
  {
    assert c[..5] == START_DELIM;
    FindFirstIs(c, START_DELIM, 0);
    assert c[7..10] == END_DELIM;
    forall j | 0 <= j < 7
      ensures !OccursAt(c, END_DELIM, j)
    {
      assert c[j..j + |END_DELIM|][0] == c[j] != END_DELIM[0];
    }
    FindFirstIs(c, END_DELIM, 7);
  }

  /**
   * The frame "START{}END" yields the message "{}", which is valid JSON
   * without a "time" member: as written, process_message then passes NULL
   * to strptime; the corrected version reports a failure and the frame is
   * dropped.
   */
  lemma EmptyObjectReachesNullTimeString(frame: seq<byte>, json: Json, clock: TimeOracle)
    requires frame == EMPTY_OBJECT_FRAME
    requires json.validate(EMPTY_OBJECT) && json.search(EMPTY_OBJECT, TIME_KEY).None?
    ensures Extract(frame) == Found(EMPTY_OBJECT, [])
    ensures ProcessMessageAsWritten(json, clock, Extract(frame).msg) == NullTimeString
    ensures ProcessMessage(json, clock, Extract(frame).msg) == None
  {
    EmptyObjectFrameExtracts(frame);
  }

  /** The frame "START{}END" carries the message "{}" and leaves nothing behind. */
  lemma EmptyObjectFrameExtracts(frame: seq<byte>)
    requires frame == EMPTY_OBJECT_FRAME
    ensures Extract(frame) == Found(EMPTY_OBJECT, [])
  {
    assert frame[5..7] == EMPTY_OBJECT;
    EmptyObjectFrameIsCString(frame);
    EmptyObjectFrameDelimiters(frame);
    ExtractTenByteFrame(frame);
  }

  /** A NUL-free 10-byte buffer with START at 0 and END at 7 carries the 2 bytes between them. */
  lemma ExtractTenByteFrame(c: seq<byte>)
    requires |c| == 10 && CString(c) == c
    requires FindFirst(c, START_DELIM) == Some(0) && FindFirst(c, END_DELIM) == Some(7)
    ensures Extract(c) == Found(c[5..7], [])
  {
    ExtractIn(c, c, 0, 7);
  }

  /** How comm.c judges an extracted message: valid JSON whose "time" sets the clock. */
  function Accept(json: Json, clock: TimeOracle): seq<byte> -> bool
  {
    msg => json.validate(msg) && ProcessMessage(json, clock, msg).Some?
  }

  /**
   * One iteration of the `while (1)` loop on the shared buffer, with the
   * bytes a read returned (`n` and `temp`) and the oracles' answers.
   */
  method Step(acc: Accumulator, n: int, temp: seq<byte>, json: Json, clock: TimeOracle) returns (r: StepResult)
    requires acc.Valid() && |temp| == UART_READ_BUFSIZE && n <= UART_READ_BUFSIZE
    modifies acc, acc.buffer
    ensures acc.Valid() && acc.buffer == old(acc.buffer)
    ensures (r, acc.Contents()) == StepSpec(old(acc.Contents()), n, temp, Accept(json, clock))
  {
    r := acc.Step(n, temp, Accept(json, clock));
  }

  /**
   * The loop returns EXIT_SUCCESS exactly when the message between the first
   * START and the first END is valid JSON whose "time" string parses and
   * sets the clock; any other extracted message is dropped with its END.
   */
  lemma StepExitsOnlyWhenClockSet(content: seq<byte>, n: int, temp: seq<byte>, json: Json, clock: TimeOracle)
    requires |content| < READ_BUFFER_SIZE && |temp| == UART_READ_BUFSIZE && n <= UART_READ_BUFSIZE
    ensures var (r, after) := StepSpec(content, n, temp, Accept(json, clock));
      (r.Accepted? <==>
        n > 0 && Extract(Appended(content, temp[..n])).Found?
        && json.validate(Extract(Appended(content, temp[..n])).msg)
        && json.search(Extract(Appended(content, temp[..n])).msg, TIME_KEY).Some?
        && SetClockFrom(clock, json.search(Extract(Appended(content, temp[..n])).msg, TIME_KEY).value).Some?)
      && (r.Rejected? ==> after == Extract(Appended(content, temp[..n])).rest)
  {
    StepAcceptsOnlyApproved(content, n, temp, Accept(json, clock));
  }
}
