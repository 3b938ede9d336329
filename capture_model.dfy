/**
 * The buffer table of the V4L2 capture program and what the driver answers,
 * as values: the table's entries with their ownership tags, the driver's
 * replies during buffer mapping and during the capture loop, and what those
 * replies make of the table and of the capture run.
 *
 * The driver sits behind oracles: each is a function from the call's ordinal
 * (the buffer index while mapping, the frame slot while capturing) to the
 * reply of that call.
 */
module CaptureModel {
  import opened Options

  /** NB_BUFFERS: how many buffers the program asks the driver for. */
  const NB_BUFFERS: int := 8
  /** MAX_BUFFERS: the size of the static buffer table. */
  const MAX_BUFFERS: int := 16
  /** The number of frame slots main asks Capture for. */
  const FRAME_SLOTS: int := 100

  /** The address values mmap and the table use. */
  const NULL: int := 0
  const MAP_FAILED: int := -1

  /** Who may touch a buffer's memory. */
  datatype Ownership =
    | Unmapped      // no mapping (or released)
    | DriverOwned   // queued: the device may write into it
    | AppOwned      // mapped and dequeued (or never queued): the program may read it

  /** `struct buffer` (start address and length of the mapping) and its ownership tag. */
  datatype Buffer = Buffer(start: int, length: int, owner: Ownership)

  /** The entry a slot of the static table starts with (zero-initialised). */
  const EMPTY_BUFFER: Buffer := Buffer(NULL, 0, Unmapped)

  /** munmap is called for an entry exactly when its start is set and its length positive. */
  predicate Mapped(b: Buffer)
  {
    b.start != NULL && b.length > 0
  }

  // ---------------------------------------------------------------------
  // Mapping the buffers (MapBuffers)
  // ---------------------------------------------------------------------

  /** What VIDIOC_QUERYBUF reports for a buffer: its length and its offset for mmap. */
  datatype BufInfo = BufInfo(length: nat, offset: nat)

  /**
   * The driver's and the kernel's replies while buffer `i` is set up:
   * VIDIOC_QUERYBUF (None when the ioctl fails), the address mmap returns
   * (MAP_FAILED on failure), and whether VIDIOC_QBUF succeeds.
   */
  datatype MapDriver = MapDriver(query: nat -> Option<BufInfo>, mmap: nat -> int, queue: nat -> bool)

  /**
   * What the kernel guarantees of mmap: a mapping that succeeds is never at
   * NULL and never of length zero.
   */
  ghost predicate MmapSane(d: MapDriver)
  {
    forall i: nat :: d.mmap(i) != MAP_FAILED ==> d.mmap(i) != NULL && d.query(i).Some? && d.query(i).value.length > 0
  }

  /** Buffer `i` is queried, mapped and queued without error. */
  predicate SlotMaps(d: MapDriver, i: nat)
  {
    d.query(i).Some? && d.mmap(i) != MAP_FAILED && d.queue(i)
  }

  /**
   * The table entry for buffer `i` after MapBuffers handled it: unchanged when
   * the query fails; the queried length and MAP_FAILED when mmap fails;
   * otherwise mapped, and driver-owned once queued.
   */
  function MapSlot(d: MapDriver, i: nat, before: Buffer): (b: Buffer)
    // a queried buffer is recorded with its queried length, whatever follows
    ensures d.query(i).Some? ==> b.length == d.query(i).value.length
    // a mapped buffer is recorded at its address, and is the driver's exactly when QBUF succeeded
    ensures d.query(i).Some? && d.mmap(i) != MAP_FAILED ==> b.start == d.mmap(i) && (b.owner == DriverOwned <==> d.queue(i))
  {
    match d.query(i)
    case None => before
    case Some(info) =>
      if d.mmap(i) == MAP_FAILED then before.(start := MAP_FAILED, length := info.length)
      else if d.queue(i) then Buffer(d.mmap(i), info.length, DriverOwned)
      else Buffer(d.mmap(i), info.length, AppOwned)
  }

  /** A buffer that maps and queues ends up mapped, driver-owned, with the queried length. */
  lemma MapSlotQueued(d: MapDriver, i: nat, before: Buffer)
    requires MmapSane(d) && SlotMaps(d, i)
    ensures MapSlot(d, i, before) == Buffer(d.mmap(i), d.query(i).value.length, DriverOwned)
    ensures Mapped(MapSlot(d, i, before))
  {
  }

  /**
   * A buffer that maps but fails VIDIOC_QBUF is still recorded as mapped, and
   * stays with the program: the failure that ends the mapping loop leaves
   * its mapping in place.
   */
  lemma MapSlotLeaked(d: MapDriver, i: nat, before: Buffer)
    requires MmapSane(d) && d.query(i).Some? && d.mmap(i) != MAP_FAILED && !d.queue(i)
    ensures MapSlot(d, i, before) == Buffer(d.mmap(i), d.query(i).value.length, AppOwned)
    ensures Mapped(MapSlot(d, i, before)) && !SlotMaps(d, i)
  {
  }

  /** The first buffer index at or after `from` that fails to map and queue, or `count`. */
  function FirstFailureFrom(d: MapDriver, from: nat, count: nat): (k: nat)
    requires from <= count
    decreases count - from
    ensures from <= k <= count
    ensures forall i :: from <= i < k ==> SlotMaps(d, i)
    ensures k < count ==> !SlotMaps(d, k)
  {
    if from == count || !SlotMaps(d, from) then from else FirstFailureFrom(d, from + 1, count)
  }

  /** The first buffer index below `count` that fails to map and queue, or `count`. */
  function FirstFailure(d: MapDriver, count: nat): (k: nat)
    ensures k <= count
    ensures forall i :: 0 <= i < k ==> SlotMaps(d, i)
    ensures k < count ==> !SlotMaps(d, k)
  {
    FirstFailureFrom(d, 0, count)
  }

  /**
   * The first failing buffer is determined by the replies: an index that
   * fails after only successes is it, and a run of `count` successes means
   * none fails.
   */
  lemma FirstFailureIs(d: MapDriver, count: nat, k: nat)
    requires k <= count
    requires forall j :: 0 <= j < k ==> SlotMaps(d, j)
    requires k < count ==> !SlotMaps(d, k)
    ensures FirstFailure(d, count) == k
  {
  }

  // ---------------------------------------------------------------------
  // The capture loop (Capture)
  // ---------------------------------------------------------------------

  /** What `select` on the device reports for one slot. */
  datatype Wait = WaitError | WaitTimeout | WaitReady

  /** What VIDIOC_DQBUF returns: a failure, or the index of a filled buffer and the bytes used in it. */
  datatype Dequeue = DqbufError | Dequeued(index: nat, bytesUsed: nat)

  /** The driver's replies in one frame slot: the wait, then DQBUF, then whether QBUF succeeds. */
  datatype Slot = Slot(wait: Wait, dequeue: Dequeue, requeued: bool)

  /** A frame handed to the sink: the buffer it is in and its payload length. */
  datatype Frame = Frame(index: nat, bytesUsed: nat)

  /** Why a capture run stopped early; a failed QBUF leaves buffer `index` dequeued. */
  datatype Failure = WaitFailed | DqbufFailed | QbufFailed(index: nat)

  /**
   * Where a capture run stands: the frames dequeued so far, the slots that
   * timed out, the waits performed, and the failure that stopped it, if any.
   */
  datatype Progress = Progress(frames: seq<Frame>, timeouts: nat, waits: nat, failure: Option<Failure>)

  /** One slot of the loop, from a run that has not failed. */
  function Advance(p: Progress, s: Slot): (q: Progress)
    requires p.failure.None?
    ensures q.waits == p.waits + 1
  {
    match s.wait
    case WaitError => p.(waits := p.waits + 1, failure := Some(WaitFailed))
    case WaitTimeout => p.(waits := p.waits + 1, timeouts := p.timeouts + 1)
    case WaitReady =>
      match s.dequeue
      case DqbufError => p.(waits := p.waits + 1, failure := Some(DqbufFailed))
      case Dequeued(index, used) =>
        var q := p.(waits := p.waits + 1, frames := p.frames + [Frame(index, used)]);
        if s.requeued then q else q.(failure := Some(QbufFailed(index)))
  }

  /** The run over the first `k` slots; after a failure no further slot is used. */
  function CaptureRun(slots: nat -> Slot, k: nat): (r: Progress)
    ensures r.waits <= k
    // naming `slots` here keeps a literal `k` alone (main's 100) from
    // unfolding every step of the run during verification
    decreases k, slots(0)
  {
    if k == 0 then Progress([], 0, 0, None)
    else
      var p := CaptureRun(slots, k - 1);
      if p.failure.Some? then p else Advance(p, slots(k - 1))
  }

  /** A slot that stops the run without handing a frame to the sink. */
  predicate LostSlot(f: Option<Failure>)
  {
    f == Some(WaitFailed) || f == Some(DqbufFailed)
  }

  /**
   * Each wait ends as a timeout, as a dequeued frame, or as the failure
   * that ends the run: frames plus timeouts account for every wait but a
   * failed wait or dequeue. There are at most `k` waits, and exactly `k`
   * when the run does not fail.
   */
  lemma {:induction false} CaptureAccounting(slots: nat -> Slot, k: nat)
    ensures CaptureRun(slots, k).waits <= k
    ensures CaptureRun(slots, k).failure.None? ==> CaptureRun(slots, k).waits == k
    ensures |CaptureRun(slots, k).frames| + CaptureRun(slots, k).timeouts
            + (if LostSlot(CaptureRun(slots, k).failure) then 1 else 0) == CaptureRun(slots, k).waits
  {
    if k > 0 {
      CaptureAccounting(slots, k - 1);
    }
  }

  /** A failure ends the run: later slots change nothing. */
  lemma {:induction false} CaptureStops(slots: nat -> Slot, k: nat, m: nat)
    requires k <= m && CaptureRun(slots, k).failure.Some?
    ensures CaptureRun(slots, m) == CaptureRun(slots, k)
  {
    if k < m {
      CaptureStops(slots, k, m - 1);
    }
  }

  /**
   * A device that never becomes ready: every slot times out, no frame is
   * delivered and the run completes.
   */
  lemma {:induction false} CaptureAllTimeouts(slots: nat -> Slot, k: nat)
    requires forall j :: 0 <= j < k ==> slots(j).wait == WaitTimeout
    ensures CaptureRun(slots, k) == Progress([], k, k, None)
  {
    if k > 0 {
      CaptureAllTimeouts(slots, k - 1);
    }
  }

  /**
   * A device that delivers in every slot and accepts every requeue: one
   * frame per slot, in slot order, no timeout, no failure.
   */
  lemma {:induction false} CaptureAllDelivered(slots: nat -> Slot, k: nat)
    requires forall j :: 0 <= j < k ==>
      slots(j).wait == WaitReady && slots(j).dequeue.Dequeued? && slots(j).requeued
    ensures CaptureRun(slots, k).failure.None? && CaptureRun(slots, k).timeouts == 0
    ensures |CaptureRun(slots, k).frames| == k
    ensures forall j :: 0 <= j < k ==>
      CaptureRun(slots, k).frames[j] == Frame(slots(j).dequeue.index, slots(j).dequeue.bytesUsed)
  {
    if k > 0 {
      CaptureAllDelivered(slots, k - 1);
    }
  }

  /** A slot that times out adds no frame and does not end the run. */
  lemma CaptureTimeout(slots: nat -> Slot, i: nat)
    requires CaptureRun(slots, i).failure.None? && slots(i).wait == WaitTimeout
    ensures CaptureRun(slots, i + 1).failure.None?
    ensures CaptureRun(slots, i + 1).frames == CaptureRun(slots, i).frames
  {
  }

  /** A slot that delivers and requeues adds its frame and does not end the run. */
  lemma CaptureDelivered(slots: nat -> Slot, i: nat)
    requires CaptureRun(slots, i).failure.None?
    requires slots(i).wait == WaitReady && slots(i).dequeue.Dequeued? && slots(i).requeued
    ensures CaptureRun(slots, i + 1).failure.None?
    ensures CaptureRun(slots, i + 1).frames ==
      CaptureRun(slots, i).frames + [Frame(slots(i).dequeue.index, slots(i).dequeue.bytesUsed)]
  {
  }

  /**
   * A slot whose wait, dequeue or requeue fails ends the run there, after
   * the frame it dequeued, if any.
   */
  lemma CaptureFails(slots: nat -> Slot, i: nat, n: nat)
    requires i < n && CaptureRun(slots, i).failure.None?
    requires slots(i).wait == WaitError
      || (slots(i).wait == WaitReady && (slots(i).dequeue.DqbufError? || !slots(i).requeued))
    ensures CaptureRun(slots, n).failure ==
      Some(if slots(i).wait == WaitError then WaitFailed
           else if slots(i).dequeue.DqbufError? then DqbufFailed
           else QbufFailed(slots(i).dequeue.index))
    ensures CaptureRun(slots, n).frames == CaptureRun(slots, i).frames +
      (if slots(i).wait == WaitReady && slots(i).dequeue.Dequeued?
       then [Frame(slots(i).dequeue.index, slots(i).dequeue.bytesUsed)] else [])
  {
    CaptureStops(slots, i + 1, n);
  }

  /**
   * The driver dequeues only buffers of the table that are mapped, and
   * reports no more bytes than the buffer holds.
   */
  predicate DequeueWithin(s: Slot, table: seq<Buffer>)
  {
    s.dequeue.Dequeued? ==>
      s.dequeue.index < |table| && s.dequeue.bytesUsed <= table[s.dequeue.index].length
  }

  /**
   * When the driver only dequeues buffers of the granted table, every frame
   * of the run, and the buffer a failed requeue leaves behind, lies inside
   * that table: the loop never indexes past the granted count.
   */
  lemma {:induction false} CaptureFramesWithin(slots: nat -> Slot, k: nat, table: seq<Buffer>)
    requires forall j :: 0 <= j < k ==> DequeueWithin(slots(j), table)
    ensures forall f :: f in CaptureRun(slots, k).frames ==> f.index < |table| && f.bytesUsed <= table[f.index].length
    ensures CaptureRun(slots, k).failure.Some? && CaptureRun(slots, k).failure.value.QbufFailed? ==>
      CaptureRun(slots, k).failure.value.index < |table|
  {
    if k > 0 {
      CaptureFramesWithin(slots, k - 1, table);
    }
  }

  /**
   * The table after a run that started with every recorded buffer queued:
   * each dequeue is followed by a requeue, so only a requeue that failed
   * leaves its buffer with the program; every other entry is as it was.
   */
  function AfterRun(table: seq<Buffer>, f: Option<Failure>): (r: seq<Buffer>)
    ensures |r| == |table|
  {
    if f.Some? && f.value.QbufFailed? && f.value.index < |table|
    then table[f.value.index := table[f.value.index].(owner := AppOwned)]
    else table
  }

  /**
   * After a run over a fully queued table, every recorded buffer keeps its
   * mapping and is driver-owned again, except the one a failed requeue left
   * dequeued, which is owned by the program; nothing beyond the count changes.
   */
  lemma AfterRunOwners(table: seq<Buffer>, f: Option<Failure>, count: nat)
    requires count <= |table|
    requires forall i :: 0 <= i < count ==> table[i].owner == DriverOwned
    requires f.Some? && f.value.QbufFailed? ==> f.value.index < count
    ensures forall i :: 0 <= i < count ==>
      AfterRun(table, f)[i] == table[i].(owner := if f == Some(QbufFailed(i)) then AppOwned else DriverOwned)
    ensures AfterRun(table, f)[count..] == table[count..]
  {
  }

  // ---------------------------------------------------------------------
  // Teardown (_atexit_)
  // ---------------------------------------------------------------------

  /** An entry after the teardown has looked at it: released when mapped, otherwise untouched. */
  function Released(b: Buffer): Buffer
  {
    if Mapped(b) then EMPTY_BUFFER else b
  }

  /** The table after the teardown loop over its first `count` entries. */
  function Teardown(table: seq<Buffer>, count: nat): (r: seq<Buffer>)
    requires count <= |table|
    ensures |r| == |table|
    ensures forall i :: 0 <= i < count ==> !Mapped(r[i]) && (Mapped(table[i]) ==> r[i].owner == Unmapped)
    ensures forall i :: count <= i < |table| ==> r[i] == table[i]
  {
    seq(|table|, i requires 0 <= i < |table| => if i < count then Released(table[i]) else table[i])
  }

  /** The munmap calls (start, length) the teardown makes over the first `count` entries, in order. */
  function UnmapCalls(table: seq<Buffer>, count: nat): (r: seq<(int, int)>)
    requires count <= |table|
    ensures |r| <= count
  {
    if count == 0 then []
    else UnmapCalls(table, count - 1)
         + (if Mapped(table[count - 1]) then [(table[count - 1].start, table[count - 1].length)] else [])
  }

  /**
   * The teardown is idempotent: run again on its own result it unmaps
   * nothing and changes nothing.
   */
  lemma TeardownIdempotent(table: seq<Buffer>, count: nat)
    requires count <= |table|
    ensures Teardown(Teardown(table, count), count) == Teardown(table, count)
    ensures UnmapCalls(Teardown(table, count), count) == []
  {
    var t := Teardown(table, count);
    NothingToUnmap(t, count);
  }

  /** No entry below `count` is mapped, so the teardown makes no munmap call. */
  lemma {:induction false} NothingToUnmap(table: seq<Buffer>, count: nat)
    requires count <= |table|
    requires forall i :: 0 <= i < count ==> !Mapped(table[i])
    ensures UnmapCalls(table, count) == []
  {
    if count > 0 {
      NothingToUnmap(table, count - 1);
    }
  }

  /** When every entry below `count` is mapped, the teardown unmaps each of them once, in table order. */
  lemma {:induction false} UnmapCallsAllMapped(table: seq<Buffer>, count: nat)
    requires count <= |table|
    requires forall i :: 0 <= i < count ==> Mapped(table[i])
    ensures |UnmapCalls(table, count)| == count
    ensures forall i :: 0 <= i < count ==> UnmapCalls(table, count)[i] == (table[i].start, table[i].length)
  {
    if count > 0 {
      UnmapCallsAllMapped(table, count - 1);
    }
  }

  /** Each mapped entry below `count` is unmapped exactly once, with its own start and length. */
  lemma {:induction false} UnmapCallsCount(table: seq<Buffer>, count: nat)
    requires count <= |table|
    ensures |UnmapCalls(table, count)| == |set i | 0 <= i < count && Mapped(table[i])|
    ensures forall c :: c in UnmapCalls(table, count) ==>
      exists i :: 0 <= i < count && Mapped(table[i]) && c == (table[i].start, table[i].length)
  {
    if count > 0 {
      UnmapCallsCount(table, count - 1);
      var before := set i | 0 <= i < count - 1 && Mapped(table[i]);
      var now := set i | 0 <= i < count && Mapped(table[i]);
      if Mapped(table[count - 1]) {
        assert now == before + {count - 1};
      } else {
        assert now == before;
      }
    }
  }
}
