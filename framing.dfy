/**
 * The START/END message accumulator of the UART clock-setting programs.
 *
 * Bytes read from the serial line are appended to a 512-byte buffer; when
 * the buffer would fill, the oldest bytes are dropped. The text between the
 * first "START" and the first "END" of the buffer is then extracted (at most
 * 255 bytes of it) and everything up to and including that "END" is removed.
 * comm.c and filename.c run this same step; they differ only in how they
 * judge an extracted message, which is a parameter here.
 */
module Framing {
  import opened Options
  import opened Bytes

  const READ_BUFFER_SIZE: int := 512
  const UART_READ_BUFSIZE: int := 64
  const MAX_MESSAGE_SIZE: int := 256

  /** "START" */
  const START_DELIM: seq<byte> := [0x53, 0x54, 0x41, 0x52, 0x54]
  /** "END" */
  const END_DELIM: seq<byte> := [0x45, 0x4E, 0x44]

  // ---------------------------------------------------------------------
  // C strings and strstr
  // ---------------------------------------------------------------------

  /** `pat` occurs in `hay` starting at index `i`. */
  predicate OccursAt(hay: seq<byte>, pat: seq<byte>, i: int)
  {
    0 <= i && i + |pat| <= |hay| && hay[i..i + |pat|] == pat
  }

  /** `i` is where `pat` occurs first in `hay`. */
  predicate FirstOccurrence(hay: seq<byte>, pat: seq<byte>, i: int)
  {
    OccursAt(hay, pat, i) && forall j :: 0 <= j < i ==> !OccursAt(hay, pat, j)
  }

  /** The first occurrence of `pat` in `hay` at or after index `from`. */
  function FindFrom(hay: seq<byte>, pat: seq<byte>, from: nat): (r: Option<nat>)
    decreases |hay| - from
    ensures r.Some? ==> from <= r.value && OccursAt(hay, pat, r.value)
    ensures forall j :: from <= j && (r.None? || j < r.value) ==> !OccursAt(hay, pat, j)
  {
    if from + |pat| > |hay| then None
    else if hay[from..from + |pat|] == pat then Some(from)
    else FindFrom(hay, pat, from + 1)
  }

  /** `strstr`: the index of the first occurrence of `pat` in `hay`, if any. */
  function FindFirst(hay: seq<byte>, pat: seq<byte>): (r: Option<nat>)
    ensures r.Some? ==> FirstOccurrence(hay, pat, r.value)
    ensures r.None? ==> forall i :: !OccursAt(hay, pat, i)
  {
    FindFrom(hay, pat, 0)
  }

  /** The C string held by `s`: its bytes up to, and not including, the first NUL. */
  function CString(s: seq<byte>): (r: seq<byte>)
    ensures |r| <= |s| && r == s[..|r|]
    ensures forall k :: 0 <= k < |r| ==> r[k] != 0
    ensures |r| < |s| ==> s[|r|] == 0
  {
    if s == [] || s[0] == 0 then [] else [s[0]] + CString(s[1..])
  }

  /** The terminator written after the data ends the C string there or earlier. */
  lemma {:induction false} CStringOfTerminated(s: seq<byte>)
    ensures CString(s + [0]) == CString(s)
  {
    if s != [] && s[0] != 0 {
      assert (s + [0])[1..] == s[1..] + [0];
      CStringOfTerminated(s[1..]);
    }
  }

  // ---------------------------------------------------------------------
  // The step, as functions on the buffer contents
  // ---------------------------------------------------------------------

  /**
   * The buffer after appending a chunk: the oldest |chunk| bytes are dropped
   * first when the new length would reach the capacity. The result is the
   * newest bytes of old-followed-by-new and stays strictly below the capacity.
   */
  function Appended(content: seq<byte>, chunk: seq<byte>): (r: seq<byte>)
    requires |content| < READ_BUFFER_SIZE && |chunk| <= UART_READ_BUFSIZE
    ensures |r| < READ_BUFFER_SIZE
    ensures |content| + |chunk| >= READ_BUFFER_SIZE ==> |r| == |content|
    ensures |content| + |chunk| < READ_BUFFER_SIZE ==> |r| == |content| + |chunk|
    ensures r == (content + chunk)[|content| + |chunk| - |r|..]
  {
    if |content| + |chunk| >= READ_BUFFER_SIZE then content[|chunk|..] + chunk
    else content + chunk
  }

  /** What one search of the buffer finds. */
  datatype Extraction = NoMessage | Found(msg: seq<byte>, rest: seq<byte>)

  function Min(a: int, b: int): int { if a <= b then a else b }

  /**
   * No "END" can start inside a "START": a first END after a START begins at
   * or beyond the START's last byte, so the message length is never negative.
   */
  lemma EndFollowsStart(hay: seq<byte>, s: int, e: int)
    requires OccursAt(hay, START_DELIM, s) && OccursAt(hay, END_DELIM, e) && s < e
    ensures s + |START_DELIM| <= e
  {
    // hay[e] is an 'E', and no byte of "START" is
    assert hay[e] == hay[e..e + |END_DELIM|][0];
    assert forall k :: s <= k < s + |START_DELIM| ==> hay[k] == hay[s..s + |START_DELIM|][k - s];
  }

  /**
   * The search over the buffer, as the C code does it with `strstr` on the
   * NUL-terminated buffer: a message is found only when the first START is
   * before the first END; it is the text between them cut to
   * MAX_MESSAGE_SIZE - 1 bytes, and what remains is everything after that END.
   */
  function Extract(content: seq<byte>): (r: Extraction)
    ensures r.Found? ==> |r.msg| < MAX_MESSAGE_SIZE && |r.rest| < |content|
  {
    var hay := CString(content);
    var s := FindFirst(hay, START_DELIM);
    var e := FindFirst(hay, END_DELIM);
    if s.Some? && e.Some? && s.value < e.value then
      EndFollowsStart(hay, s.value, e.value);
      var from := s.value + |START_DELIM|;
      var len := if e.value - from >= MAX_MESSAGE_SIZE then MAX_MESSAGE_SIZE - 1 else e.value - from;
      Found(hay[from..from + len], content[e.value + |END_DELIM|..])
    else
      NoMessage
  }

  /** A message is extracted exactly when the first START comes strictly before the first END. */
  lemma ExtractFoundIff(content: seq<byte>)
    ensures Extract(content).Found? <==>
      exists s, e :: FirstOccurrence(CString(content), START_DELIM, s)
                     && FirstOccurrence(CString(content), END_DELIM, e) && s < e
  {
    var hay := CString(content);
    if Extract(content).Found? {
      var s, e := FindFirst(hay, START_DELIM).value, FindFirst(hay, END_DELIM).value;
      assert FirstOccurrence(hay, START_DELIM, s) && FirstOccurrence(hay, END_DELIM, e) && s < e;
    }
    if exists s, e :: FirstOccurrence(hay, START_DELIM, s) && FirstOccurrence(hay, END_DELIM, e) && s < e {
      var s, e :| FirstOccurrence(hay, START_DELIM, s) && FirstOccurrence(hay, END_DELIM, e) && s < e;
      FindFirstIs(hay, START_DELIM, s);
      FindFirstIs(hay, END_DELIM, e);
    }
  }

  /** The first occurrence is unique. */
  lemma FirstOccurrenceUnique(hay: seq<byte>, pat: seq<byte>, i: int, j: int)
    requires FirstOccurrence(hay, pat, i) && FirstOccurrence(hay, pat, j)
    ensures i == j
  {
  }

  /** strstr finds the first occurrence. */
  lemma FindFirstIs(hay: seq<byte>, pat: seq<byte>, i: int)
    requires FirstOccurrence(hay, pat, i)
    ensures FindFirst(hay, pat) == Some(i)
  {
    FirstOccurrenceUnique(hay, pat, i, FindFirst(hay, pat).value);
  }

  /** A slice of a slice is a slice of the whole. */
  lemma SliceOfSlice(s: seq<byte>, a: int, b: int, i: int, j: int)
    requires 0 <= a <= b <= |s| && 0 <= i <= j <= b - a
    ensures s[a..b][i..j] == s[a + i..a + j]
  {
    assert forall k :: 0 <= k < j - i ==> s[a..b][i..j][k] == s[a + i..a + j][k];
  }

  /** Extract in terms of what strstr returned for both delimiters. */
  lemma ExtractAt(content: seq<byte>, s: nat, e: nat)
    requires FindFirst(CString(content), START_DELIM) == Some(s)
    requires FindFirst(CString(content), END_DELIM) == Some(e)
    requires s + |START_DELIM| <= e && e + |END_DELIM| <= |CString(content)|
    ensures Extract(content) ==
      Found(content[s + |START_DELIM|..s + |START_DELIM| + Min(e - s - |START_DELIM|, MAX_MESSAGE_SIZE - 1)],
            content[e + |END_DELIM|..])
  {
    var from := s + |START_DELIM|;
    SliceOfSlice(content, 0, |CString(content)|, from, from + Min(e - from, MAX_MESSAGE_SIZE - 1));
  }

  /** Extract in terms of the C string and what strstr returned for both delimiters. */
  lemma ExtractIn(content: seq<byte>, hay: seq<byte>, s: nat, e: nat)
    requires hay == CString(content)
    requires FindFirst(hay, START_DELIM) == Some(s) && FindFirst(hay, END_DELIM) == Some(e) && s < e
    ensures s + |START_DELIM| <= e
    ensures var len := if e - s - |START_DELIM| >= MAX_MESSAGE_SIZE then MAX_MESSAGE_SIZE - 1 else e - s - |START_DELIM|;
      Extract(content) == Found(hay[s + |START_DELIM|..s + |START_DELIM| + len], content[e + |END_DELIM|..])
  {
    EndFollowsStart(hay, s, e);
  }

  /** Extract finds nothing when strstr does not see a START before an END. */
  lemma ExtractNone(content: seq<byte>)
    requires var s, e := FindFirst(CString(content), START_DELIM), FindFirst(CString(content), END_DELIM);
      !(s.Some? && e.Some? && s.value < e.value)
    ensures Extract(content) == NoMessage
  {
  }

  /**
   * With the first START at `s` and the first END at `e > s`, the message is
   * the bytes between them, truncated to MAX_MESSAGE_SIZE - 1, and the
   * buffer keeps exactly the bytes after that END.
   */
  lemma ExtractFound(content: seq<byte>, s: int, e: int)
    requires FirstOccurrence(CString(content), START_DELIM, s)
    requires FirstOccurrence(CString(content), END_DELIM, e)
    requires s < e
    ensures s + |START_DELIM| <= e && e + |END_DELIM| <= |content|
    ensures Extract(content) ==
      Found(content[s + |START_DELIM|..s + |START_DELIM| + Min(e - s - |START_DELIM|, MAX_MESSAGE_SIZE - 1)],
            content[e + |END_DELIM|..])
  {
    var hay := CString(content);
    FindFirstIs(hay, START_DELIM, s);
    FindFirstIs(hay, END_DELIM, e);
    EndFollowsStart(hay, s, e);
    ExtractAt(content, s, e);
  }

  /** A slice that ends at or before the first END holds no END. */
  lemma NoEndBefore(hay: seq<byte>, e: int, from: int, msg: seq<byte>)
    requires FirstOccurrence(hay, END_DELIM, e) && 0 <= from && from + |msg| <= e
    requires msg == hay[from..from + |msg|]
    ensures forall j :: !OccursAt(msg, END_DELIM, j)
  {
    forall j | 0 <= j && j + |END_DELIM| <= |msg|
      ensures !OccursAt(msg, END_DELIM, j)
    {
      SliceOfSlice(hay, from, from + |msg|, j, j + |END_DELIM|);
      assert !OccursAt(hay, END_DELIM, from + j);
    }
  }

  /**
   * An extracted message is shorter than MAX_MESSAGE_SIZE, holds no NUL and
   * no END, and the remaining bytes are a strict suffix of the buffer
   * (the END itself is always removed).
   */
  lemma ExtractedMessageShape(content: seq<byte>)
    requires Extract(content).Found?
    ensures |Extract(content).msg| < MAX_MESSAGE_SIZE
    ensures forall k :: 0 <= k < |Extract(content).msg| ==> Extract(content).msg[k] != 0
    ensures forall j :: !OccursAt(Extract(content).msg, END_DELIM, j)
    ensures |Extract(content).rest| + |END_DELIM| <= |content|
    ensures Extract(content).rest == content[|content| - |Extract(content).rest|..]
  {
    var hay := CString(content);
    var s, e := FindFirst(hay, START_DELIM).value, FindFirst(hay, END_DELIM).value;
    ExtractIn(content, hay, s, e);
    var from := s + |START_DELIM|;
    var len := if e - from >= MAX_MESSAGE_SIZE then MAX_MESSAGE_SIZE - 1 else e - from;
    var msg := hay[from..from + len];
    assert Extract(content) == Found(msg, content[e + |END_DELIM|..]);
    assert forall k :: 0 <= k < |msg| ==> msg[k] == hay[from + k];
    NoEndBefore(hay, e, from, msg);
  }

  /**
   * An END left in the buffer before any START blocks extraction: however
   * many complete START..END messages follow it, nothing is found.
   */
  lemma StaleEndBlocks(content: seq<byte>, e0: int)
    requires OccursAt(CString(content), END_DELIM, e0)
    requires forall j :: 0 <= j <= e0 ==> !OccursAt(CString(content), START_DELIM, j)
    ensures Extract(content) == NoMessage
  {
    var hay := CString(content);
    var e := FindFirst(hay, END_DELIM);
    assert e.Some? && e.value <= e0;
  }

  /** How one iteration of the read loop ends. */
  datatype StepResult =
    | Idle                          // nothing was read
    | Incomplete                    // bytes appended, no complete message
    | Rejected(msg: seq<byte>)      // a message was extracted, judged, and consumed
    | Accepted(msg: seq<byte>)      // a message was extracted and accepted: the loop returns

  /**
   * One iteration of the `while (1)` loop on the buffer contents: `n` is
   * what the read returned, `temp` the read buffer, `accept` how the program
   * judges an extracted message. Returns the outcome and the new contents.
   */
  ghost function StepSpec(content: seq<byte>, n: int, temp: seq<byte>, accept: seq<byte> -> bool)
    : (r: (StepResult, seq<byte>))
    requires |content| < READ_BUFFER_SIZE && |temp| == UART_READ_BUFSIZE && n <= UART_READ_BUFSIZE
    // nothing read, nothing done
    ensures r.0.Idle? <==> n <= 0
    ensures r.0.Idle? ==> r.1 == content
  {
    if n <= 0 then (Idle, content)
    else
      var appended := Appended(content, temp[..n]);
      match Extract(appended)
      case NoMessage => (Incomplete, appended)
      case Found(msg, rest) => if accept(msg) then (Accepted(msg), appended) else (Rejected(msg), rest)
  }

  /**
   * Whatever a step does, the buffer length stays strictly below its
   * capacity, so the terminator write `buffer[buf_len] = '\0'` is in bounds.
   * A rejected message's END is removed with everything before it.
   */
  lemma StepKeepsBound(content: seq<byte>, n: int, temp: seq<byte>, accept: seq<byte> -> bool)
    requires |content| < READ_BUFFER_SIZE && |temp| == UART_READ_BUFSIZE && n <= UART_READ_BUFSIZE
    ensures |StepSpec(content, n, temp, accept).1| < READ_BUFFER_SIZE
    ensures StepSpec(content, n, temp, accept).0.Rejected? ==>
      |StepSpec(content, n, temp, accept).1| + |END_DELIM| <= |Appended(content, temp[..n])|
  {
    if n > 0 {
      var appended := Appended(content, temp[..n]);
      if Extract(appended).Found? {
        ExtractedMessageShape(appended);
      }
    }
  }

  /**
   * The loop stops only on a message that `accept` approves, and that message
   * is the one between the first START and the first END of the buffer
   * after the append.
   */
  lemma StepAcceptsOnlyApproved(content: seq<byte>, n: int, temp: seq<byte>, accept: seq<byte> -> bool)
    requires |content| < READ_BUFFER_SIZE && |temp| == UART_READ_BUFSIZE && n <= UART_READ_BUFSIZE
    ensures StepSpec(content, n, temp, accept).0.Accepted? <==>
      n > 0 && Extract(Appended(content, temp[..n])).Found?
      && accept(Extract(Appended(content, temp[..n])).msg)
    ensures StepSpec(content, n, temp, accept).0.Accepted? ==>
      StepSpec(content, n, temp, accept).0.msg == Extract(Appended(content, temp[..n])).msg
  {
  }

  // ---------------------------------------------------------------------
  // The buffer, updated in place
  // ---------------------------------------------------------------------

  /** `char buffer[READ_BUFFER_SIZE]` and `int buf_len` of the read loop. */
  class Accumulator {
    var buffer: array<byte>
    var bufLen: int

    ghost predicate Valid()
      reads this
    {
      buffer.Length == READ_BUFFER_SIZE && 0 <= bufLen < READ_BUFFER_SIZE
    }

    /** The bytes the buffer currently holds. */
    ghost function Contents(): seq<byte>
      reads this, buffer
      requires Valid()
    {
      buffer[..bufLen]
    }

    constructor ()
      ensures Valid() && fresh(buffer) && Contents() == []
    {
      buffer := new byte[READ_BUFFER_SIZE];
      bufLen := 0;
    }

    /** `memmove(buffer, buffer + k, buf_len - k); buf_len -= k;`: drop the first k bytes. */
    method DropFront(k: int)
      requires Valid() && 0 <= k <= bufLen
      modifies this, buffer
      ensures Valid() && buffer == old(buffer)
      ensures Contents() == old(Contents())[k..]
    {
      var count := bufLen - k;
      var i := 0;
      while i < count
        modifies buffer
        invariant 0 <= i <= count
        invariant buffer[..i] == old(buffer[k..k + i])
        invariant buffer[i..] == old(buffer[i..])
      {
        buffer[i] := buffer[k + i];
        i := i + 1;
      }
      bufLen := count;
    }

    /**
     * Append a chunk read from the line: make room by dropping the oldest
     * bytes when needed, copy the chunk in and NUL-terminate.
     */
    method Append(chunk: seq<byte>)
      requires Valid() && 0 < |chunk| <= UART_READ_BUFSIZE
      modifies this, buffer
      ensures Valid() && buffer == old(buffer)
      ensures Contents() == Appended(old(Contents()), chunk)
      ensures buffer[bufLen] == 0
    {
      var n := |chunk|;
      if bufLen + n >= READ_BUFFER_SIZE {
        DropFront(n);
      }
      ghost var kept := Contents();
      var i := 0;
      while i < n
        modifies buffer
        invariant 0 <= i <= n
        invariant buffer[..bufLen] == kept
        invariant buffer[bufLen..bufLen + i] == chunk[..i]
      {
        buffer[bufLen + i] := chunk[i];
        i := i + 1;
      }
      assert buffer[..bufLen + n] == buffer[..bufLen] + buffer[bufLen..bufLen + n];
      assert buffer[..bufLen + n] == kept + chunk;
      bufLen := bufLen + n;
      buffer[bufLen] := 0;
    }

    /**
     * The search of lines 125-137 (comm.c) on the NUL-terminated buffer:
     * `strstr` for both delimiters and, when START is first, `strncpy` of the
     * message. `consumed` is how far the matching END reaches into the buffer.
     */
    method FindMessage() returns (found: bool, msg: seq<byte>, consumed: int)
      requires Valid() && buffer[bufLen] == 0
      ensures found <==> Extract(Contents()).Found?
      ensures found ==> 0 < consumed <= bufLen && Extract(Contents()) == Found(msg, Contents()[consumed..])
    {
      ghost var content := Contents();
      // strstr reads the buffer up to the terminator
      assert buffer[..bufLen + 1] == content + [0];
      var hay := CString(buffer[..bufLen + 1]);
      CStringOfTerminated(content);
      assert hay == CString(content);
      var s := FindFirst(hay, START_DELIM);
      var e := FindFirst(hay, END_DELIM);
      found := s.Some? && e.Some? && s.value < e.value;
      if found {
        ExtractIn(content, hay, s.value, e.value);
        var from := s.value + |START_DELIM|;
        var msgLen := e.value - from;
        if msgLen >= MAX_MESSAGE_SIZE {
          msgLen := MAX_MESSAGE_SIZE - 1;
        }
        msg := hay[from..from + msgLen];
        consumed := e.value + |END_DELIM|;
      } else {
        ExtractNone(content);
        msg, consumed := [], 0;
      }
    }

    /**
     * One iteration of the read loop: `n` is what the read returned into
     * `temp`, `accept` judges an extracted message.
     */
    method Step(n: int, temp: seq<byte>, accept: seq<byte> -> bool) returns (r: StepResult)
      requires Valid() && |temp| == UART_READ_BUFSIZE && n <= UART_READ_BUFSIZE
      modifies this, buffer
      ensures Valid() && buffer == old(buffer)
      ensures (r, Contents()) == StepSpec(old(Contents()), n, temp, accept)
    {
      if n <= 0 {
        return Idle;
      }
      Append(temp[..n]);
      var found, msg, consumed := FindMessage();
      if !found {
        return Incomplete;
      }
      if accept(msg) {
        return Accepted(msg);
      }
      DropFront(consumed);
      r := Rejected(msg);
    }
  }
}
