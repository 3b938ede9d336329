/**
 * The capture program: its globals (the static buffer table, the device
 * descriptor, the count of mapped buffers, the verbosity flag) as the
 * fields of one object, and its routines as methods that update them.
 *
 * What the program does to the outside world is recorded in ghost logs:
 * the frames written to standard output, the munmap and close calls, and
 * the table as it stood when streaming was switched on.
 */
module CaptureApp {
  import opened Options
  import opened V4l2
  import opened CaptureModel

  /**
   * The device, the driver and the kernel, as the replies main receives:
   * the descriptor open returns (-1 on failure), whether VIDIOC_S_FMT and
   * VIDIOC_S_PARM accept the request sent, the count VIDIOC_REQBUFS grants
   * (None when it fails), the replies while mapping, whether
   * VIDIOC_STREAMON succeeds, and the replies in each frame slot.
   */
  datatype Device = Device(
    open: int,
    setFormat: Format -> bool,
    setParm: StreamParm -> bool,
    reqBufs: Request -> Option<u32>,
    mapping: MapDriver,
    streamOn: bool,
    slots: nat -> Slot)

  /** The zero-initialised `struct v4l2_format` main starts from. */
  const ZERO_FORMAT: Format := Format(0, 0, 0, 0, 0, 0, 0, 0)
  /** The zero-initialised `struct v4l2_requestbuffers` main starts from. */
  const ZERO_REQUEST: Request := Request(0, 0, 0, 0)

  /** The format main sends with VIDIOC_S_FMT: MJPEG capture at 640x480. */
  function MainFormat(): (f: Format)
    ensures IsMjpegCapture(f, 640, 480)
  {
    SetupFormat(Ptr(ZERO_FORMAT), 640, 480).target.deref
  }

  /** The request main sends with VIDIOC_REQBUFS: NB_BUFFERS memory-mapped capture buffers. */
  function MainRequest(): (q: Request)
    ensures q.count as int == NB_BUFFERS && q.bufType == BUF_TYPE_VIDEO_CAPTURE && q.memory == MEMORY_MMAP
  {
    SetupBufferRequest(Ptr(ZERO_REQUEST), NB_BUFFERS as u32).target.deref
  }

  /** The frame rate main asks for: one frame per 1/30 s. */
  const MAIN_PARM: StreamParm := StreamParm(BUF_TYPE_VIDEO_CAPTURE, 1, 30)

  /** The table after mapping `count` buffers into the zero-initialised static table. */
  ghost function MappedTable(d: MapDriver, count: nat): (t: seq<Buffer>)
    ensures |t| == count
  {
    seq(count, i requires 0 <= i < count => MapSlot(d, i, EMPTY_BUFFER))
  }

  /** The driver dequeues only buffers it granted and mapped, within their length. */
  ghost predicate DequeuesWithinGrant(dev: Device)
  {
    match dev.reqBufs(MainRequest())
    case None => true
    case Some(granted) =>
      forall k :: 0 <= k < FRAME_SLOTS ==> DequeueWithin(dev.slots(k), MappedTable(dev.mapping, granted as nat))
  }

  /** open, VIDIOC_S_FMT, VIDIOC_S_PARM and VIDIOC_REQBUFS succeed, so main calls MapBuffers. */
  ghost predicate ReachesMapping(dev: Device)
  {
    dev.open >= 0 && dev.setFormat(MainFormat()) && dev.setParm(MAIN_PARM)
    && dev.reqBufs(MainRequest()).Some?
  }

  /** The buffer count VIDIOC_REQBUFS grants. */
  ghost function Granted(dev: Device): nat
    requires dev.reqBufs(MainRequest()).Some?
  {
    dev.reqBufs(MainRequest()).value as nat
  }

  /** A request for `count` buffers fits the table and every one of them maps and queues. */
  ghost predicate MapsAll(d: MapDriver, count: nat)
  {
    count <= NB_BUFFERS && FirstFailure(d, count) == count
  }

  /** main gets through MapBuffers, which records the granted count for the teardown. */
  ghost predicate MappingSucceeds(dev: Device)
  {
    ReachesMapping(dev) && MapsAll(dev.mapping, Granted(dev))
  }

  /** A request for `count` buffers fits the table, and some buffer fails to map or queue. */
  ghost predicate MapsPartly(d: MapDriver, count: nat)
  {
    count <= NB_BUFFERS && FirstFailure(d, count) < count
  }

  /** MapBuffers is called with a count the table holds and fails at some buffer. */
  ghost predicate MappingFails(dev: Device)
  {
    ReachesMapping(dev) && MapsPartly(dev.mapping, Granted(dev))
  }

  /** Every step of main succeeds: open, format, frame rate, request, mapping, streaming, capture. */
  ghost predicate MainSucceeds(dev: Device)
  {
    MappingSucceeds(dev) && dev.streamOn && CaptureRun(dev.slots, FRAME_SLOTS).failure.None?
  }

  /** The capture run ends on a failed requeue of buffer `i`, which stays with the program. */
  ghost predicate LeftDequeued(dev: Device, i: nat)
  {
    dev.streamOn && CaptureRun(dev.slots, FRAME_SLOTS).failure == Some(QbufFailed(i))
  }

  /**
   * Entry `b` holds the mapping of buffer `i`: the queried length at the
   * address mmap returned, queued unless the run left it dequeued.
   */
  ghost predicate HoldsMapping(dev: Device, i: nat, b: Buffer)
  {
    dev.mapping.query(i).Some?
    && b == Buffer(dev.mapping.mmap(i), dev.mapping.query(i).value.length,
                   if LeftDequeued(dev, i) then AppOwned else DriverOwned)
  }

  /** Entry `b` is at the address mmap returned for buffer `i`, with its queried length. */
  ghost predicate AtMapping(dev: Device, i: nat, b: Buffer)
  {
    dev.mapping.query(i).Some? && b.start == dev.mapping.mmap(i) && b.length == dev.mapping.query(i).value.length
  }

  /**
   * Once every granted buffer is mapped and queued, each recorded entry
   * still holds its buffer's mapping after streaming and the capture run,
   * whatever way the run ended.
   */
  lemma MappedAfterRun(dev: Device, count: nat, table: seq<Buffer>)
    requires MmapSane(dev.mapping) && FirstFailure(dev.mapping, count) == count && count <= |table|
    requires table[..count] == MappedTable(dev.mapping, count)
    requires forall k :: 0 <= k < FRAME_SLOTS ==> DequeueWithin(dev.slots(k), MappedTable(dev.mapping, count))
    ensures forall i :: 0 <= i < count ==> table[i].owner == DriverOwned
    ensures var after := if dev.streamOn then AfterRun(table, CaptureRun(dev.slots, FRAME_SLOTS).failure) else table;
      forall i :: 0 <= i < count ==> Mapped(after[i]) && HoldsMapping(dev, i, after[i])
    ensures dev.streamOn ==> AfterRun(table, CaptureRun(dev.slots, FRAME_SLOTS).failure)[count..] == table[count..]
  {
    forall i | 0 <= i < count
      ensures dev.mapping.query(i).Some?
      ensures table[i] == Buffer(dev.mapping.mmap(i), dev.mapping.query(i).value.length, DriverOwned)
      ensures Mapped(table[i])
    {
      assert table[i] == table[..count][i];
      MapSlotQueued(dev.mapping, i, EMPTY_BUFFER);
    }
    var f := CaptureRun(dev.slots, FRAME_SLOTS).failure;
    CaptureFramesWithin(dev.slots, FRAME_SLOTS, MappedTable(dev.mapping, count));
    AfterRunOwners(table, f, count);
  }

  /**
   * The teardown of a table whose recorded entries all hold their buffers'
   * mappings unmaps each of them once, at the address and with the length
   * it was mapped with, and clears it; with nothing recorded it does nothing.
   */
  lemma TeardownOfMapped(dev: Device, table: seq<Buffer>, count: nat)
    requires count <= |table|
    requires forall i :: 0 <= i < count ==> Mapped(table[i]) && AtMapping(dev, i, table[i])
    ensures |UnmapCalls(table, count)| == count
    ensures forall i :: 0 <= i < count ==>
      dev.mapping.query(i).Some? && UnmapCalls(table, count)[i] == (dev.mapping.mmap(i), dev.mapping.query(i).value.length as int)
    ensures forall i :: 0 <= i < count ==> Teardown(table, count)[i] == EMPTY_BUFFER
    ensures count == 0 ==> UnmapCalls(table, count) == [] && Teardown(table, count) == table
  {
    UnmapCallsAllMapped(table, count);
    if count == 0 {
      assert Teardown(table, count) == table;
    }
  }

  /** The number of slots a `for (i = 0; i < n; i++)` loop runs. */
  function SlotCount(n: int): nat
  {
    if n > 0 then n else 0
  }

  class Program {
    /** `static struct buffer buffers[MAX_BUFFERS]` */
    var buffers: array<Buffer>
    /** `static int fd` */
    var fd: int
    /** `static int nb_buffers`: how many entries the teardown releases. */
    var nbBuffers: int
    /** `static int verbose` */
    var verbose: bool

    /** The frames written to standard output, in order. */
    ghost var payloads: seq<Frame>
    /** The munmap calls made, as (start, length). */
    ghost var unmaps: seq<(int, int)>
    /** The descriptors passed to close. */
    ghost var closes: seq<int>
    /** The table as it stood when VIDIOC_STREAMON succeeded. */
    ghost var streamedWith: Option<seq<Buffer>>
    /** Streaming is switched on and not yet off. */
    ghost var streaming: bool

    ghost predicate Valid()
      reads this
    {
      buffers.Length == MAX_BUFFERS && 0 <= nbBuffers <= MAX_BUFFERS
    }

    /** Nothing mapped, written, released or streamed yet: the static table is still zeroed. */
    ghost predicate Untouched()
      reads this, buffers
    {
      Valid() && nbBuffers == 0
      && (forall i :: 0 <= i < buffers.Length ==> buffers[i] == EMPTY_BUFFER)
      && payloads == [] && unmaps == [] && closes == [] && streamedWith == None && !streaming
    }

    /** The state before main runs: static storage zeroed, nothing done yet. */
    ghost predicate Initial()
      reads this, buffers
    {
      Untouched() && fd == 0
    }

    /** Program start; `verbose` is what the command line options set. */
    constructor (verbose: bool)
      ensures Initial() && this.verbose == verbose
      ensures fresh(buffers)
    {
      buffers := new Buffer[MAX_BUFFERS](_ => EMPTY_BUFFER);
      fd := 0;
      nbBuffers := 0;
      this.verbose := verbose;
      payloads := [];
      unmaps := [];
      closes := [];
      streamedWith := None;
      streaming := false;
    }

    /**
     * MapBuffers: rejects a NULL table or request and a table smaller than
     * the count; then queries, maps and queues buffers 0, 1, ... in order and
     * stops at the first that fails, leaving the earlier ones mapped and
     * queued. The count is recorded for the teardown only when every buffer
     * succeeded.
     */
    method MapBuffers(table: array?<Buffer>, bufferSize: int, req: Ptr<Request>, d: MapDriver) returns (r: int)
      requires Valid() && MmapSane(d)
      requires 0 <= bufferSize <= MAX_BUFFERS
      requires table != null ==> bufferSize <= table.Length
      modifies table, this`nbBuffers
      ensures Valid()
      ensures r == 0 || r == -1
      ensures r == 0 <==>
        table != null && req.Ptr? && req.deref.count as int <= bufferSize
        && FirstFailure(d, req.deref.count as nat) == req.deref.count as nat
      ensures r == 0 ==> nbBuffers == req.deref.count as int
      ensures r == -1 ==> nbBuffers == old(nbBuffers)
      ensures table != null ==> forall i :: 0 <= i < table.Length ==>
        table[i] == (if req.Ptr? && req.deref.count as int <= bufferSize && i < req.deref.count as int
                        && i <= FirstFailure(d, req.deref.count as nat)
                     then MapSlot(d, i, old(table[i])) else old(table[i]))
    {
      if table == null || req.Null? {
        return -1;
      }
      if bufferSize < req.deref.count as int {
        return -1;
      }
      var count := req.deref.count as int;
      var i := 0;
      while i < count
        invariant 0 <= i <= count
        invariant forall j :: 0 <= j < i ==> SlotMaps(d, j)
        invariant forall j :: 0 <= j < table.Length ==>
          table[j] == (if j < i then MapSlot(d, j, old(table[j])) else old(table[j]))
        invariant nbBuffers == old(nbBuffers)
      {
        match d.query(i) {
          case None =>
            FirstFailureIs(d, count, i);
            return -1;
          case Some(info) =>
            table[i] := table[i].(length := info.length);
            table[i] := table[i].(start := d.mmap(i));
            if table[i].start == MAP_FAILED {
              FirstFailureIs(d, count, i);
              return -1;
            }
            table[i] := table[i].(owner := AppOwned);
            if !d.queue(i) {
              FirstFailureIs(d, count, i);
              return -1;
            }
            table[i] := table[i].(owner := DriverOwned);
        }
        i := i + 1;
      }
      FirstFailureIs(d, count, count);
      nbBuffers := count;
      return 0;
    }

    /**
     * Capture: runs `nbFrames` slots. In each it waits for the device; a
     * failed wait ends the run, a timeout skips the slot; otherwise it
     * dequeues a filled buffer, which passes to the program, writes its
     * payload to standard output unless verbose, and queues the buffer
     * again, which hands it back to the driver. Any failed ioctl ends the
     * run. The outcome is the run of the slots' replies: -1 exactly when it
     * failed, and the frames written are its frames.
     */
    method Capture(nbFrames: int, table: array<Buffer>, slots: nat -> Slot) returns (r: int)
      requires 0 <= nbBuffers <= table.Length
      requires forall i :: 0 <= i < nbBuffers ==> table[i].owner == DriverOwned
      requires forall k :: 0 <= k < nbFrames ==> DequeueWithin(slots(k), table[..nbBuffers])
      modifies table, this`payloads
      ensures r == 0 || r == -1
      ensures r == -1 <==> CaptureRun(slots, SlotCount(nbFrames)).failure.Some?
      ensures payloads == old(payloads) + (if verbose then [] else CaptureRun(slots, SlotCount(nbFrames)).frames)
      // every payload written lies inside a recorded buffer
      ensures forall f :: f in payloads[|old(payloads)|..] ==>
        f.index < nbBuffers && f.bytesUsed <= old(table[f.index].length)
      // dequeue and requeue hand each buffer back; a failed requeue leaves it with the program
      ensures table[..] == AfterRun(old(table[..]), CaptureRun(slots, SlotCount(nbFrames)).failure)
      ensures r == 0 ==> forall i :: 0 <= i < nbBuffers ==> table[i].owner == DriverOwned
    {
      ghost var t0 := table[..];
      CaptureFramesWithin(slots, SlotCount(nbFrames), t0[..nbBuffers]);
      var i := 0;
      while i < nbFrames
        invariant 0 <= i <= SlotCount(nbFrames)
        invariant CaptureRun(slots, i).failure.None?
        invariant verbose ==> payloads == old(payloads)
        invariant !verbose ==> payloads == old(payloads) + CaptureRun(slots, i).frames
        invariant table[..] == t0
      {
        var slot := slots(i);
        assert DequeueWithin(slot, t0[..nbBuffers]);
        match slot.wait {
          case WaitError =>
            CaptureFails(slots, i, SlotCount(nbFrames));
            return -1;
          case WaitTimeout =>
            CaptureTimeout(slots, i);
          case WaitReady =>
            match slot.dequeue {
              case DqbufError =>
                CaptureFails(slots, i, SlotCount(nbFrames));
                return -1;
              case Dequeued(index, used) =>
                assert t0[..nbBuffers][index] == t0[index];
                // DQBUF hands a queued buffer to the program
                assert table[index].owner == DriverOwned;
                table[index] := table[index].(owner := AppOwned);
                // the payload is read only from a buffer the program owns, within its length
                assert table[index].owner == AppOwned && used <= table[index].length;
                if !verbose {
                  ghost var earlier := CaptureRun(slots, i).frames;
                  payloads := payloads + [Frame(index, used)];
                  assert payloads == old(payloads) + (earlier + [Frame(index, used)]);
                }
                if !slot.requeued {
                  CaptureFails(slots, i, SlotCount(nbFrames));
                  assert table[..] == t0[index := t0[index].(owner := AppOwned)];
                  return -1;
                }
                // QBUF hands it back to the driver
                table[index] := table[index].(owner := DriverOwned);
                assert table[..] == t0;
                CaptureDelivered(slots, i);
            }
        }
        i := i + 1;
      }
      return 0;
    }

    /**
     * The exit handler: unmaps and clears every recorded buffer that is
     * mapped, then closes the descriptor unless it is 0. It does not reset
     * the descriptor, and a descriptor of -1 (a failed open) is closed too.
     */
    method AtExit()
      requires Valid()
      modifies buffers, this`unmaps, this`closes
      ensures buffers[..] == Teardown(old(buffers[..]), nbBuffers)
      ensures forall j :: 0 <= j < buffers.Length ==>
        buffers[j] == (if j < nbBuffers then Released(old(buffers[j])) else old(buffers[j]))
      ensures buffers[nbBuffers..] == old(buffers[..])[nbBuffers..]
      ensures unmaps == old(unmaps) + UnmapCalls(old(buffers[..]), nbBuffers)
      ensures closes == old(closes) + (if fd != 0 then [fd] else [])
    {
      var i := 0;
      while i < nbBuffers
        invariant 0 <= i <= nbBuffers
        invariant forall j :: 0 <= j < buffers.Length ==>
          buffers[j] == (if j < i then Released(old(buffers[j])) else old(buffers[j]))
        invariant unmaps == old(unmaps) + UnmapCalls(old(buffers[..]), i)
        invariant closes == old(closes)
      {
        if buffers[i].start != NULL && buffers[i].length > 0 {
          unmaps := unmaps + [(buffers[i].start, buffers[i].length)];
          buffers[i] := buffers[i].(start := NULL);
          buffers[i] := buffers[i].(length := 0, owner := Unmapped);
        }
        i := i + 1;
      }
      assert buffers[..] == Teardown(old(buffers[..]), nbBuffers);
      if fd != 0 {
        closes := closes + [fd];
      }
    }

    /**
     * The last part of main, once the buffers are mapped and queued: switch
     * streaming on, run FRAME_SLOTS capture slots, switch streaming off and
     * close the device. The first step that fails ends main with exit
     * status 1, and a failed capture leaves streaming on.
     */
    method StreamFrames(dev: Device) returns (exitCode: int)
      requires Valid() && payloads == [] && closes == [] && streamedWith == None && !streaming
      requires forall i :: 0 <= i < nbBuffers ==> buffers[i].owner == DriverOwned
      requires forall k :: 0 <= k < FRAME_SLOTS ==> DequeueWithin(dev.slots(k), buffers[..nbBuffers])
      modifies buffers, this`payloads, this`closes, this`streamedWith, this`streaming
      ensures exitCode == 0 || exitCode == 1
      ensures exitCode == 0 <==> dev.streamOn && CaptureRun(dev.slots, FRAME_SLOTS).failure.None?
      ensures exitCode == 0 ==> closes == [fd]
      ensures exitCode == 1 ==> closes == []
      ensures streaming <==> dev.streamOn && exitCode == 1
      // frames are written only after streaming started, and only when not verbose
      ensures payloads == (if streamedWith.None? || verbose then [] else CaptureRun(dev.slots, FRAME_SLOTS).frames)
      ensures streamedWith == (if dev.streamOn then Some(old(buffers[..])) else None)
      ensures buffers[..] ==
        (if dev.streamOn then AfterRun(old(buffers[..]), CaptureRun(dev.slots, FRAME_SLOTS).failure) else old(buffers[..]))
    {
      if !dev.streamOn {
        return 1;
      }
      streaming := true;
      streamedWith := Some(buffers[..]);
      var c := Capture(FRAME_SLOTS, buffers, dev.slots);
      if c < 0 {
        return 1;
      }
      streaming := false;
      closes := closes + [fd];
      return 0;
    }

    /**
     * The second half of main, once VIDIOC_REQBUFS has filled in `req` with
     * the count the driver grants: map the buffers into the static table,
     * then stream. A failed mapping ends main with exit status 1.
     */
    method MapAndStream(dev: Device, req: Request) returns (exitCode: int)
      requires Untouched() && fd == dev.open && fd >= 0
      requires MmapSane(dev.mapping)
      requires forall k :: 0 <= k < FRAME_SLOTS ==> DequeueWithin(dev.slots(k), MappedTable(dev.mapping, req.count as nat))
      modifies this`nbBuffers, this`payloads, this`closes, this`streamedWith, this`streaming, buffers
      ensures Valid()
      ensures exitCode == 0 || exitCode == 1
      ensures exitCode == 0 <==>
        MapsAll(dev.mapping, req.count as nat) && dev.streamOn && CaptureRun(dev.slots, FRAME_SLOTS).failure.None?
      ensures nbBuffers == (if MapsAll(dev.mapping, req.count as nat) then req.count as int else 0)
      ensures exitCode == 0 ==> closes == [fd] && !streaming
      ensures exitCode == 1 ==> closes == []
      ensures payloads == (if streamedWith.None? || verbose then [] else CaptureRun(dev.slots, FRAME_SLOTS).frames)
      // streaming starts only once every recorded buffer is mapped and queued
      ensures streamedWith.Some? <==> MapsAll(dev.mapping, req.count as nat) && dev.streamOn
      ensures streamedWith.Some? ==> |streamedWith.value| == MAX_BUFFERS && forall i :: 0 <= i < nbBuffers ==>
        Mapped(streamedWith.value[i]) && streamedWith.value[i].owner == DriverOwned
      ensures forall i :: 0 <= i < nbBuffers ==> Mapped(buffers[i]) && HoldsMapping(dev, i, buffers[i])
      // a failed mapping leaves the buffers before the failure mapped and queued, each as its replies set it
      ensures req.count as int <= NB_BUFFERS && FirstFailure(dev.mapping, req.count as nat) < req.count as nat ==>
        forall i :: 0 <= i < FirstFailure(dev.mapping, req.count as nat) ==>
          Mapped(buffers[i]) && buffers[i].owner == DriverOwned && buffers[i] == MapSlot(dev.mapping, i, EMPTY_BUFFER)
      // a count the table cannot hold is rejected before any buffer is touched
      ensures req.count as int > NB_BUFFERS ==> buffers[..] == old(buffers[..])
      // a buffer that fails is left as the mapping loop left it, and the later ones are untouched
      ensures MapsPartly(dev.mapping, req.count as nat) ==>
        var f := FirstFailure(dev.mapping, req.count as nat);
        buffers[f] == MapSlot(dev.mapping, f, EMPTY_BUFFER) && buffers[f + 1..] == old(buffers[f + 1..])
      // otherwise the entries past the recorded ones are untouched
      ensures !MapsPartly(dev.mapping, req.count as nat) ==> buffers[nbBuffers..] == old(buffers[..])[nbBuffers..]
      // a failed capture run leaves streaming on
      ensures streaming <==> MapsAll(dev.mapping, req.count as nat) && dev.streamOn && exitCode == 1
    {
      var m := MapBuffers(buffers, NB_BUFFERS, Ptr(req), dev.mapping);
      if req.count as int <= NB_BUFFERS {
        forall i | 0 <= i < FirstFailure(dev.mapping, req.count as nat)
          ensures Mapped(buffers[i]) && buffers[i].owner == DriverOwned && buffers[i] == MapSlot(dev.mapping, i, EMPTY_BUFFER)
        {
          MapSlotQueued(dev.mapping, i, EMPTY_BUFFER);
        }
      } else {
        assert buffers[..] == old(buffers[..]);
      }
      if m < 0 {
        if MapsPartly(dev.mapping, req.count as nat) {
          var f := FirstFailure(dev.mapping, req.count as nat);
          assert buffers[f + 1..] == old(buffers[f + 1..]);
        }
        return 1;
      }
      assert buffers[..nbBuffers] == MappedTable(dev.mapping, req.count as nat);
      forall k | 0 <= k < buffers.Length - nbBuffers
        ensures buffers[nbBuffers..][k] == old(buffers[..])[nbBuffers..][k]
      {
        assert buffers[nbBuffers..][k] == buffers[nbBuffers + k];
      }
      assert buffers[nbBuffers..] == old(buffers[..])[nbBuffers..];
      MappedAfterRun(dev, nbBuffers, buffers[..]);
      exitCode := StreamFrames(dev);
    }

    /**
     * main after the handlers are installed and the options parsed: open the
     * device; set the format (MJPEG, 640x480) and the frame rate (1/30 s);
     * request NB_BUFFERS buffers, then map, stream and capture. The first
     * step that fails ends main with exit status 1; success is exit status 0.
     */
    method RunMain(dev: Device) returns (exitCode: int)
      requires Initial()
      requires dev.open >= -1
      requires MmapSane(dev.mapping) && DequeuesWithinGrant(dev)
      modifies this`fd, this`nbBuffers, this`payloads, this`closes, this`streamedWith, this`streaming, buffers
      ensures Valid()
      ensures fd == dev.open
      ensures exitCode == 0 || exitCode == 1
      ensures exitCode == 0 <==> MainSucceeds(dev)
      // the teardown count is the granted count exactly when every granted buffer was mapped
      ensures nbBuffers == (if MappingSucceeds(dev) then Granted(dev) else 0)
      ensures exitCode == 0 ==> closes == [fd] && !streaming
      ensures exitCode == 1 ==> closes == []
      // frames are written only after streaming started, and only when not verbose
      ensures payloads == (if streamedWith.None? || verbose then [] else CaptureRun(dev.slots, FRAME_SLOTS).frames)
      // streaming starts only once every granted buffer is mapped and queued
      ensures streamedWith.Some? <==> MappingSucceeds(dev) && dev.streamOn
      ensures streamedWith.Some? ==> |streamedWith.value| == MAX_BUFFERS && forall i :: 0 <= i < nbBuffers ==>
        Mapped(streamedWith.value[i]) && streamedWith.value[i].owner == DriverOwned
      // every recorded entry holds its buffer's mapping, queued unless a failed requeue kept it
      ensures forall i :: 0 <= i < nbBuffers ==> Mapped(buffers[i]) && HoldsMapping(dev, i, buffers[i])
      // a failed mapping leaves the buffers before the failure mapped and queued, each as its replies set it
      ensures MappingFails(dev) ==> forall i :: 0 <= i < FirstFailure(dev.mapping, Granted(dev)) ==>
        Mapped(buffers[i]) && buffers[i].owner == DriverOwned && buffers[i] == MapSlot(dev.mapping, i, EMPTY_BUFFER)
      // a failure before any buffer is mapped leaves the table as it was
      ensures !(ReachesMapping(dev) && Granted(dev) <= NB_BUFFERS) ==> buffers[..] == old(buffers[..])
      // a buffer that fails is left as the mapping loop left it, and the later ones are untouched
      ensures MappingFails(dev) ==>
        var f := FirstFailure(dev.mapping, Granted(dev));
        buffers[f] == MapSlot(dev.mapping, f, EMPTY_BUFFER) && buffers[f + 1..] == old(buffers[f + 1..])
      // otherwise the entries past the recorded ones are untouched
      ensures !MappingFails(dev) ==> buffers[nbBuffers..] == old(buffers[..])[nbBuffers..]
      // a failed capture run leaves streaming on
      ensures streaming <==> MappingSucceeds(dev) && dev.streamOn && exitCode == 1
    {
      fd := dev.open;
      if fd < 0 {
        return 1;
      }
      var fmt := SetupFormat(Ptr(ZERO_FORMAT), 640, 480);
      if fmt.status < 0 {
        return 1;
      }
      if !dev.setFormat(fmt.target.deref) {
        return 1;
      }
      if SetupFrameRate(dev.setParm, 1, 30) < 0 {
        return 1;
      }
      var req := SetupBufferRequest(Ptr(ZERO_REQUEST), NB_BUFFERS as u32);
      if req.status < 0 {
        return 1;
      }
      match dev.reqBufs(req.target.deref) {
        case None =>
          return 1;
        case Some(granted) =>
          assert req.target.deref == MainRequest();
          exitCode := MapAndStream(dev, req.target.deref.(count := granted));
      }
    }

    /**
     * A whole run of the program: main, then the exit handler. Every buffer
     * recorded for the teardown is unmapped exactly once, at the address and
     * with the length it was mapped with, and cleared; the descriptor is
     * closed by main on success and again by the handler unless it is 0, and
     * a failed open leaves -1 for the handler to close. When mapping fails
     * part-way the buffers before the failure stay mapped.
     */
    method Process(dev: Device) returns (exitCode: int)
      requires Initial()
      requires dev.open >= -1
      requires MmapSane(dev.mapping) && DequeuesWithinGrant(dev)
      modifies this`fd, this`nbBuffers, this`payloads, this`unmaps, this`closes, this`streamedWith, this`streaming, buffers
      ensures Valid() && buffers == old(buffers)
      ensures fd == dev.open
      ensures exitCode == 0 || exitCode == 1
      ensures exitCode == 0 <==> MainSucceeds(dev)
      ensures nbBuffers == (if MappingSucceeds(dev) then Granted(dev) else 0)
      ensures closes == (if exitCode == 0 then [fd] else []) + (if fd != 0 then [fd] else [])
      // each recorded buffer is unmapped once, with the address and length it was mapped with
      ensures |unmaps| == nbBuffers
      ensures forall i :: 0 <= i < nbBuffers ==>
        dev.mapping.query(i).Some? && unmaps[i] == (dev.mapping.mmap(i), dev.mapping.query(i).value.length as int)
      ensures forall i :: 0 <= i < nbBuffers ==> buffers[i] == EMPTY_BUFFER
      // frames are written only after streaming started, and only when not verbose
      ensures payloads == (if streamedWith.None? || verbose then [] else CaptureRun(dev.slots, FRAME_SLOTS).frames)
      // streaming starts only once every granted buffer is mapped and queued
      ensures streamedWith.Some? <==> MappingSucceeds(dev) && dev.streamOn
      ensures streamedWith.Some? ==> |streamedWith.value| == MAX_BUFFERS && forall i :: 0 <= i < nbBuffers ==>
        Mapped(streamedWith.value[i]) && streamedWith.value[i].owner == DriverOwned
      // a failed mapping unmaps nothing and leaves the earlier buffers mapped, each as its replies set it
      ensures MappingFails(dev) ==> unmaps == [] && forall i :: 0 <= i < FirstFailure(dev.mapping, Granted(dev)) ==>
        Mapped(buffers[i]) && buffers[i].owner == DriverOwned && buffers[i] == MapSlot(dev.mapping, i, EMPTY_BUFFER)
      // a failure before any buffer is mapped leaves the table as it was
      ensures !(ReachesMapping(dev) && Granted(dev) <= NB_BUFFERS) ==> unmaps == [] && buffers[..] == old(buffers[..])
      // a buffer that fails is left as the mapping loop left it, mapped when only its VIDIOC_QBUF
      // failed and then never unmapped; the later ones are untouched
      ensures MappingFails(dev) ==>
        var f := FirstFailure(dev.mapping, Granted(dev));
        buffers[f] == MapSlot(dev.mapping, f, EMPTY_BUFFER) && buffers[f + 1..] == old(buffers[f + 1..])
      // otherwise the entries past the recorded ones are untouched
      ensures !MappingFails(dev) ==> buffers[nbBuffers..] == old(buffers[..])[nbBuffers..]
      // a failed capture run leaves streaming on
      ensures streaming <==> MappingSucceeds(dev) && dev.streamOn && exitCode == 1
    {
      exitCode := RunMain(dev);
      ghost var mid := buffers[..];
      ExitAfterMain(dev);
      if nbBuffers == 0 {
        assert buffers[..] == mid;
      }
    }

    /**
     * The exit handler as it runs after main, on a table whose recorded
     * entries all hold their buffers' mappings: each is unmapped once, at
     * its address and with its length, and cleared; with nothing recorded
     * the table is left as it was.
     */
    method ExitAfterMain(ghost dev: Device)
      requires Valid() && unmaps == []
      requires forall i :: 0 <= i < nbBuffers ==> Mapped(buffers[i]) && AtMapping(dev, i, buffers[i])
      modifies buffers, this`unmaps, this`closes
      ensures |unmaps| == nbBuffers
      ensures forall i :: 0 <= i < nbBuffers ==>
        dev.mapping.query(i).Some? && unmaps[i] == (dev.mapping.mmap(i), dev.mapping.query(i).value.length as int)
      ensures forall i :: 0 <= i < nbBuffers ==> buffers[i] == EMPTY_BUFFER
      ensures buffers[nbBuffers..] == old(buffers[..])[nbBuffers..]
      ensures nbBuffers == 0 ==> buffers[..] == old(buffers[..])
      ensures nbBuffers == 0 ==> forall i :: 0 <= i < buffers.Length ==> buffers[i] == old(buffers[i])
      ensures closes == old(closes) + (if fd != 0 then [fd] else [])
    {
      ghost var before := buffers[..];
      forall i | 0 <= i < nbBuffers
        ensures Mapped(before[i]) && AtMapping(dev, i, before[i])
      {
        assert before[i] == buffers[i];
      }
      TeardownOfMapped(dev, before, nbBuffers);
      AtExit();
      assert unmaps == UnmapCalls(before, nbBuffers);
      ghost var after := Teardown(before, nbBuffers);
      assert buffers[..] == after;
      forall i | 0 <= i < nbBuffers
        ensures buffers[i] == EMPTY_BUFFER
      {
        assert buffers[i] == after[i];
      }
      if nbBuffers == 0 {
        assert buffers[..] == before;
      }
    }
  }
}
