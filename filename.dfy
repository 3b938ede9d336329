/**
 * The read loop of filename.c: every extracted message is the date text
 * itself, and the loop ends as soon as one of them sets the clock.
 */
module FilenameLoop {
  import opened Bytes
  import opened Framing
  import opened Clock

  /** How filename.c judges an extracted message: it must set the clock. */
  function Accept(clock: TimeOracle): seq<byte> -> bool
  {
    msg => SetClockFrom(clock, msg).Some?
  }

  /**
   * One iteration of the `while (1)` loop on the shared buffer, with the
   * bytes a read returned (`n` and `temp`) and the C library's answers.
   */
  method Step(acc: Accumulator, n: int, temp: seq<byte>, clock: TimeOracle) returns (r: StepResult)
    requires acc.Valid() && |temp| == UART_READ_BUFSIZE && n <= UART_READ_BUFSIZE
    modifies acc, acc.buffer
    ensures acc.Valid() && acc.buffer == old(acc.buffer)
    ensures (r, acc.Contents()) == StepSpec(old(acc.Contents()), n, temp, Accept(clock))
  {
    r := acc.Step(n, temp, Accept(clock));
  }

  /**
   * The loop returns 0 exactly when the message between the first START and
   * the first END of the buffer parses as a date and the clock is set to it;
   * every other extracted message is dropped together with its END.
   */
  lemma StepExitsOnlyWhenClockSet(content: seq<byte>, n: int, temp: seq<byte>, clock: TimeOracle)
    requires |content| < READ_BUFFER_SIZE && |temp| == UART_READ_BUFSIZE && n <= UART_READ_BUFSIZE
    ensures var (r, after) := StepSpec(content, n, temp, Accept(clock));
      (r.Accepted? <==>
        n > 0 && Extract(Appended(content, temp[..n])).Found?
        && clock.strptime(Extract(Appended(content, temp[..n])).msg).Some?
        && clock.mktime(clock.strptime(Extract(Appended(content, temp[..n])).msg).value) != -1
        && clock.clockSettime(clock.mktime(clock.strptime(Extract(Appended(content, temp[..n])).msg).value)))
      && (r.Rejected? ==> after == Extract(Appended(content, temp[..n])).rest)
  {
    StepAcceptsOnlyApproved(content, n, temp, Accept(clock));
  }
}
