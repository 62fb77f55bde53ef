/** What every call on the imposter keeps, and what its queue and its pictures promise over every run. */
module ImposterProofs {
  import opened Bytes
  import opened FrameGeometry
  import opened Imposter

  // ----- each call keeps the invariant -----

  lemma FreeKeepsSound(c: Config, d: Device)
    requires Sound(c, d)
    ensures Sound(c, FreeBuffers(d))
  {
  }

  lemma FreshBuffersAreOk(c: Config, n: nat)
    ensures forall s | 0 <= s < n :: BufferOk(c, Fresh(c.BufferBytes(), s), s)
  {
  }

  lemma ReqBufsKeepsSound(c: Config, d: Device, capture: bool, mmap: bool, wanted: nat)
    requires Sound(c, d)
    ensures Sound(c, ReqBufs(c, d, capture, mmap, wanted).0)
  {
    FreeKeepsSound(c, d);
    FreshBuffersAreOk(c, MAX_BUFFERS);
  }

  lemma QBufKeepsSound(c: Config, d: Device, capture: bool, index: nat)
    requires Sound(c, d)
    ensures Sound(c, QBuf(c, d, capture, index).0)
  {
  }

  /** A fetch leaves the buffer where it is and as it was queued. */
  lemma FetchKeepsPlace(c: Config, b: Buffer, feed: Feed)
    requires Backed(b)
    ensures var after := Fetch(c, b, feed).0;
            && Backed(after) && after.mapped.value.address == b.mapped.value.address
            && after.size == b.size && after.offset == b.offset && after.queued == b.queued
            && after.bytesUsed <= b.size
  {
  }

  lemma DQBufKeepsSound(c: Config, d: Device, capture: bool, feed: Feed)
    requires Sound(c, d)
    ensures Sound(c, DQBuf(c, d, capture, feed).0)
  {
    if d.open && capture && d.streaming && d.pipe != [] {
      var slot := d.pipe[0];
      if slot < d.count && d.buffers[slot].queued {
        FetchKeepsPlace(c, d.buffers[slot], feed);
      }
      forall s | s in d.pipe && s != slot ensures s in d.pipe[1..] {}
    }
  }

  /** The queued live slots from `slot` on, in order. */
  function QueuedSlots(d: Device, slot: nat): seq<nat>
    requires Shaped(d)
    decreases d.count - slot
  {
    if slot >= d.count then []
    else (if d.buffers[slot].queued then [slot] else []) + QueuedSlots(d, slot + 1)
  }

  lemma {:induction false} QueuedSlotsAre(d: Device, slot: nat)
    requires Shaped(d)
    ensures forall s: nat :: s in QueuedSlots(d, slot) <==> slot <= s < d.count && d.buffers[s].queued
    ensures NoneTwice(QueuedSlots(d, slot))
    decreases d.count - slot
  {
    if slot < d.count {
      QueuedSlotsAre(d, slot + 1);
    }
  }

  ghost predicate NoneTwice(pipe: seq<nat>) {
    forall p, q | 0 <= p < q < |pipe| :: pipe[p] != pipe[q]
  }

  /** With at most one number per slot passed, the pipe takes them all. */
  lemma {:induction false} FillPipeTakesAll(c: Setting, d: Device, slot: nat)
    requires Shaped(d) && slot <= d.count && |d.pipe| <= slot
    requires forall s | 0 <= s < d.count && d.buffers[s].queued :: d.buffers[s].mapped.Some?
    ensures FillPipe(c, d, slot) == (d.(pipe := d.pipe + QueuedSlots(d, slot)), true)
    decreases d.count - slot
  {
    if slot >= d.count {
      assert d.pipe + [] == d.pipe;
    } else if d.buffers[slot].queued {
      var next := d.(pipe := d.pipe + [slot]);
      FillPipeTakesAll(c, next, slot + 1);
      SameQueued(d, next, slot + 1);
      Regroup(d.pipe, [slot], QueuedSlots(d, slot + 1));
    } else {
      FillPipeTakesAll(c, d, slot + 1);
      assert [] + QueuedSlots(d, slot + 1) == QueuedSlots(d, slot + 1);
    }
  }

  lemma {:induction false} SameQueued(d: Device, e: Device, slot: nat)
    requires Shaped(d) && Shaped(e) && d.count == e.count && d.buffers == e.buffers
    ensures QueuedSlots(d, slot) == QueuedSlots(e, slot)
    decreases d.count - slot
  {
    if slot < d.count {
      SameQueued(d, e, slot + 1);
    }
  }

  lemma {:induction false} QueuedSlotsFit(d: Device, slot: nat)
    requires Shaped(d) && slot <= d.count
    ensures |QueuedSlots(d, slot)| <= d.count - slot
    decreases d.count - slot
  {
    if slot < d.count {
      QueuedSlotsFit(d, slot + 1);
    }
  }

  /** STREAMON from a sound state always succeeds, and the pipe then holds the queued slots. */
  lemma StreamOnFills(c: Setting, d: Device)
    requires Sound(c, d) && d.open && !d.streaming
    ensures StreamOn(c, d, true) == (d.(streaming := true, pipe := QueuedSlots(d, 0)), Done)
  {
    FillPipeTakesAll(c, d, 0);
    assert [] + QueuedSlots(d, 0) == QueuedSlots(d, 0);
  }

  lemma StreamOnKeepsSound(c: Setting, d: Device, capture: bool)
    requires Sound(c, d)
    ensures Sound(c, StreamOn(c, d, capture).0)
  {
    if d.open && capture && !d.streaming {
      StreamOnFills(c, d);
      QueuedSlotsAre(d, 0);
      QueuedSlotsFit(d, 0);
    }
  }

  /** Draining empties the pipe and releases exactly the live buffers whose numbers it held. */
  lemma {:induction false} DrainReleases(d: Device)
    requires Shaped(d)
    ensures var after := Drain(d);
            && Shaped(after) && after == d.(buffers := after.buffers, pipe := [])
            && forall s | 0 <= s < MAX_BUFFERS ::
                 after.buffers[s] == if s in d.pipe && s < d.count then d.buffers[s].(queued := false) else d.buffers[s]
    decreases |d.pipe|
  {
    if d.pipe != [] {
      var slot := d.pipe[0];
      var popped := d.(pipe := d.pipe[1..]);
      DrainReleases(if slot < d.count then SetQueued(popped, slot, false) else popped);
      forall s ensures s in d.pipe <==> s == slot || s in d.pipe[1..] {}
    }
  }

  /** STREAMOFF ends with the pipe empty and no live buffer queued. */
  lemma StreamOffReleasesAll(c: Config, d: Device)
    requires Sound(c, d) && d.open && d.streaming
    ensures var (after, reply) := StreamOff(d, true);
            && reply == Done && !after.streaming && after.pipe == [] && after.count == d.count
            && Shaped(after) && forall s | 0 <= s < after.count :: !after.buffers[s].queued
  {
    DrainReleases(d.(streaming := false));
  }

  lemma StreamOffKeepsSound(c: Config, d: Device, capture: bool)
    requires Sound(c, d)
    ensures Sound(c, StreamOff(d, capture).0)
  {
    if d.open && capture && d.streaming {
      DrainReleases(d.(streaming := false));
      assert d.(streaming := false).pipe == d.pipe;
    }
  }

  /** New memory never lies where a mapped buffer does. */
  predicate NewAddress(d: Device, granted: Option<nat>) {
    granted.Some? ==> forall s | 0 <= s < |d.buffers| :: !MapsAddress(d.buffers[s], granted.value)
  }

  lemma MMapKeepsSound(c: Config, d: Device, length: nat, offset: nat, granted: Option<nat>)
    requires Sound(c, d) && NewAddress(d, granted)
    ensures Sound(c, MMap(d, length, offset, granted).0)
  {
  }

  lemma MUnmapKeepsSound(c: Config, d: Device, address: nat)
    requires Sound(c, d)
    ensures Sound(c, MUnmap(d, address).0)
  {
  }

  // ----- any run of calls -----

  datatype Call =
    | OpenDevice
    | CloseDevice
    | RequestBuffers(capture: bool, mmap: bool, wanted: nat)
    | QueryBuffer(capture: bool, index: nat)
    | QueueBuffer(capture: bool, index: nat)
    | DequeueBuffer(capture: bool, feed: Feed)
    | StreamingOn(capture: bool)
    | StreamingOff(capture: bool)
    | MapMemory(length: nat, offset: nat, granted: Option<nat>)
    | UnmapMemory(address: nat)

  predicate Possible(d: Device, call: Call) {
    call.MapMemory? ==> NewAddress(d, call.granted)
  }

  function Step(c: Config, d: Device, call: Call): (Device, Reply)
    requires Shaped(d) && QueuedAreBacked(d)
  {
    match call
    case OpenDevice => Open(d)
    case CloseDevice => (Close(d), Done)
    case RequestBuffers(capture, mmap, wanted) => ReqBufs(c, d, capture, mmap, wanted)
    case QueryBuffer(capture, index) => (d, QueryBuf(d, capture, index))
    case QueueBuffer(capture, index) => QBuf(c, d, capture, index)
    case DequeueBuffer(capture, feed) => DQBuf(c, d, capture, feed)
    case StreamingOn(capture) => StreamOn(c, d, capture)
    case StreamingOff(capture) => StreamOff(d, capture)
    case MapMemory(length, offset, granted) => MMap(d, length, offset, granted)
    case UnmapMemory(address) => MUnmap(d, address)
  }

  lemma SoundIsBacked(c: Config, d: Device)
    requires Sound(c, d)
    ensures Shaped(d) && QueuedAreBacked(d)
  {
    forall s | 0 <= s < d.count && d.buffers[s].queued ensures Backed(d.buffers[s]) {
      assert BufferOk(c, d.buffers[s], s);
    }
  }

  lemma StepKeepsSound(c: Setting, d: Device, call: Call)
    requires Sound(c, d) && Possible(d, call)
    ensures Sound(c, Step(c, d, call).0)
  {
    match call
    case OpenDevice =>
    case CloseDevice => FreeKeepsSound(c, d);
    case RequestBuffers(capture, mmap, wanted) => ReqBufsKeepsSound(c, d, capture, mmap, wanted);
    case QueryBuffer(capture, index) =>
    case QueueBuffer(capture, index) => QBufKeepsSound(c, d, capture, index);
    case DequeueBuffer(capture, feed) => DQBufKeepsSound(c, d, capture, feed);
    case StreamingOn(capture) => StreamOnKeepsSound(c, d, capture);
    case StreamingOff(capture) => StreamOffKeepsSound(c, d, capture);
    case MapMemory(length, offset, granted) => MMapKeepsSound(c, d, length, offset, granted);
    case UnmapMemory(address) => MUnmapKeepsSound(c, d, address);
  }

  lemma StepKeepsPipeFits(c: Setting, d: Device, call: Call)
    requires Sound(c, d) && PipeFits(c, d)
    ensures PipeFits(c, Step(c, d, call).0)
  {
    if call.StreamingOn? && d.open && call.capture && !d.streaming {
      StreamOnFills(c, d);
      QueuedSlotsFit(d, 0);
    } else if call.StreamingOff? {
      DrainReleases(d.(streaming := false));
    }
  }

  /** In any run: a buffer whose fetch failed stays queued and goes to the tail of the pipe. */
  lemma FailedFetchRequeues(c: Setting, d: Device, feed: Feed)
    requires Sound(c, d) && PipeFits(c, d)
    requires DQBuf(c, d, true, feed).1 == Refused(FetchFailed)
    ensures d.pipe != [] && d.pipe[0] < d.count
    ensures var after := DQBuf(c, d, true, feed).0;
            after.pipe == d.pipe[1..] + [d.pipe[0]] && after.buffers[d.pipe[0]].queued
  {
    FetchKeepsPlace(c, d.buffers[d.pipe[0]], feed);
  }

  /** `after` is a state that some run of calls from `d` leads to. */
  ghost predicate Reaches(c: Config, d: Device, calls: seq<Call>, after: Device)
    decreases |calls|
  {
    if calls == [] then after == d
    else
      && Shaped(d) && QueuedAreBacked(d) && Possible(d, calls[0])
      && Reaches(c, Step(c, d, calls[0]).0, calls[1..], after)
  }

  /** In every run whatsoever no live queued buffer is missing from the pipe while streaming. */
  lemma {:induction false} EveryRunIsSound(c: Setting, d: Device, calls: seq<Call>, after: Device)
    requires Sound(c, d) && PipeFits(c, d) && Reaches(c, d, calls, after)
    ensures Sound(c, after) && PipeFits(c, after)
    decreases |calls|
  {
    if calls != [] {
      StepKeepsSound(c, d, calls[0]);
      StepKeepsPipeFits(c, d, calls[0]);
      EveryRunIsSound(c, Step(c, d, calls[0]).0, calls[1..], after);
    }
  }

  lemma ClosedIsSound(c: Config)
    ensures Sound(c, CLOSED) && PipeFits(c, CLOSED)
  {
  }

  /** And so every call after any run is defined. */
  lemma EveryReachableIsSound(c: Setting, calls: seq<Call>, d: Device)
    requires Reaches(c, CLOSED, calls, d)
    ensures Sound(c, d) && PipeFits(c, d) && QueuedAreBacked(d)
  {
    ClosedIsSound(c);
    EveryRunIsSound(c, CLOSED, calls, d);
    SoundIsBacked(c, d);
  }

  // ----- the queue and the pipe agree -----

  /** While streaming the pipe holds each queued live slot once and nothing else. */
  ghost predicate Exact(c: Config, d: Device) {
    && Sound(c, d)
    && (d.streaming ==>
          && NoneTwice(d.pipe)
          && forall s: nat :: s in d.pipe <==> s < d.count && d.buffers[s].queued)
  }

  /** REQBUFS on a stream whose pipe is not empty: the one call that leaves old slot numbers behind. */
  predicate LeavesOldSlots(d: Device, call: Call) {
    call.RequestBuffers? && call.capture && call.mmap && d.open && d.streaming && d.pipe != []
  }

  lemma OldSlotsRemain(c: Config, d: Device, call: Call)
    requires Sound(c, d) && LeavesOldSlots(d, call)
    ensures !Exact(c, ReqBufs(c, d, call.capture, call.mmap, call.wanted).0)
  {
    var after := ReqBufs(c, d, call.capture, call.mmap, call.wanted).0;
    assert after.streaming && after.pipe == d.pipe;
    assert after.pipe[0] in after.pipe;
  }

  const SMALL: Setting := Config(NV12, 2, 2, 4)

  const ONE_QUEUED: seq<Call> :=
    [OpenDevice, RequestBuffers(true, true, 1), MapMemory(6, 0, Some(7)), QueueBuffer(true, 0), StreamingOn(true)]

  /** The device with one buffer asked for, as the rest of it stands. */
  function WithOne(b: Buffer, streaming: bool, pipe: seq<nat>): Device {
    Device(true, [b, CLOSED_BUFFER, CLOSED_BUFFER, CLOSED_BUFFER], 1, streaming, pipe)
  }

  function OneBuffer(mapped: bool, queued: bool): Buffer {
    Buffer(if mapped then Some(Mapping(7, seq(6, _ => 0))) else None, 6, 0, 0, queued)
  }

  const STREAMING_ONE: Device := WithOne(OneBuffer(true, true), true, [0])

  lemma OneMoreCall(c: Config, d: Device, call: Call, calls: seq<Call>, after: Device)
    requires Shaped(d) && QueuedAreBacked(d) && Possible(d, call)
    requires Reaches(c, Step(c, d, call).0, calls, after)
    ensures Reaches(c, d, [call] + calls, after)
  {
    assert ([call] + calls)[1..] == calls;
  }

  lemma AskForOne(d: Device)
    requires d == CLOSED.(open := true)
    ensures ReqBufs(SMALL, d, true, true, 1).0 == WithOne(OneBuffer(false, false), false, [])
  {
    assert SMALL.BufferBytes() == 6;
    assert ReqBufs(SMALL, d, true, true, 1).0.buffers == WithOne(OneBuffer(false, false), false, []).buffers;
  }

  lemma MapAndQueueIt()
    ensures MMap(WithOne(OneBuffer(false, false), false, []), 6, 0, Some(7)).0
         == WithOne(OneBuffer(true, false), false, [])
    ensures QBuf(SMALL, WithOne(OneBuffer(true, false), false, []), true, 0).0
         == WithOne(OneBuffer(true, true), false, [])
  {
    assert SlotAtOffset(WithOne(OneBuffer(false, false), false, []), 0, 0) == Some(0);
  }

  lemma StreamIt(d: Device)
    requires d == WithOne(OneBuffer(true, true), false, [])
    ensures StreamOn(SMALL, d, true).0 == STREAMING_ONE
  {
    var filled := d.(pipe := [0]);
    assert FillPipe(SMALL, filled, 1) == (filled, true);
  }

  /** Five ordinary calls lead to a stream on which one more REQBUFS leaves an old slot number behind. */
  lemma OldSlotsCanBeLeft()
    ensures Reaches(SMALL, CLOSED, ONE_QUEUED, STREAMING_ONE)
    ensures LeavesOldSlots(STREAMING_ONE, RequestBuffers(true, true, 1))
    ensures !Exact(SMALL, ReqBufs(SMALL, STREAMING_ONE, true, true, 1).0)
  {
    var asked, mapped := WithOne(OneBuffer(false, false), false, []), WithOne(OneBuffer(true, false), false, []);
    var queued := WithOne(OneBuffer(true, true), false, []);
    AskForOne(CLOSED.(open := true));
    MapAndQueueIt();
    StreamIt(queued);
    OneMoreCall(SMALL, queued, ONE_QUEUED[4], [], STREAMING_ONE);
    OneMoreCall(SMALL, mapped, ONE_QUEUED[3], [ONE_QUEUED[4]], STREAMING_ONE);
    OneMoreCall(SMALL, asked, ONE_QUEUED[2], ONE_QUEUED[3..], STREAMING_ONE);
    OneMoreCall(SMALL, CLOSED.(open := true), ONE_QUEUED[1], ONE_QUEUED[2..], STREAMING_ONE);
    OneMoreCall(SMALL, CLOSED, ONE_QUEUED[0], ONE_QUEUED[1..], STREAMING_ONE);
    EveryReachableIsSound(SMALL, ONE_QUEUED, STREAMING_ONE);
    OldSlotsRemain(SMALL, STREAMING_ONE, RequestBuffers(true, true, 1));
  }

  lemma QBufKeepsExact(c: Config, d: Device, capture: bool, index: nat)
    requires Exact(c, d)
    ensures Exact(c, QBuf(c, d, capture, index).0)
  {
    QBufKeepsSound(c, d, capture, index);
    if d.streaming {
      forall s: nat ensures s in d.pipe + [index] <==> s in d.pipe || s == index {}
    }
  }

  lemma HeadOfPipe(pipe: seq<nat>)
    requires pipe != [] && NoneTwice(pipe)
    ensures NoneTwice(pipe[1..]) && forall s :: s in pipe[1..] <==> s in pipe && s != pipe[0]
  {
  }

  lemma DQBufKeepsExact(c: Config, d: Device, capture: bool, feed: Feed)
    requires Exact(c, d)
    ensures Exact(c, DQBuf(c, d, capture, feed).0)
  {
    DQBufKeepsSound(c, d, capture, feed);
    if d.open && capture && d.streaming && d.pipe != [] {
      var slot := d.pipe[0];
      HeadOfPipe(d.pipe);
      assert slot in d.pipe;
      FetchKeepsPlace(c, d.buffers[slot], feed);
      forall s: nat ensures s in d.pipe[1..] + [slot] <==> s in d.pipe {}
    }
  }

  lemma StreamOnKeepsExact(c: Setting, d: Device, capture: bool)
    requires Exact(c, d)
    ensures Exact(c, StreamOn(c, d, capture).0)
  {
    StreamOnKeepsSound(c, d, capture);
    if d.open && capture && !d.streaming {
      StreamOnFills(c, d);
      QueuedSlotsAre(d, 0);
    }
  }

  lemma MapCallsKeepExact(c: Config, d: Device, length: nat, offset: nat, granted: Option<nat>, address: nat)
    requires Exact(c, d)
    ensures NewAddress(d, granted) ==> Exact(c, MMap(d, length, offset, granted).0)
    ensures Exact(c, MUnmap(d, address).0)
  {
    MUnmapKeepsSound(c, d, address);
    if NewAddress(d, granted) {
      MMapKeepsSound(c, d, length, offset, granted);
    }
  }

  lemma ReqBufsKeepsExact(c: Config, d: Device, call: Call)
    requires Exact(c, d) && call.RequestBuffers? && !LeavesOldSlots(d, call)
    ensures Exact(c, ReqBufs(c, d, call.capture, call.mmap, call.wanted).0)
  {
    ReqBufsKeepsSound(c, d, call.capture, call.mmap, call.wanted);
  }

  /** A call keeps queue and pipe in agreement exactly when it does not leave old slot numbers behind. */
  lemma AgreementKeptIff(c: Setting, d: Device, call: Call)
    requires Exact(c, d) && Possible(d, call)
    ensures Exact(c, Step(c, d, call).0) <==> !LeavesOldSlots(d, call)
  {
    StepKeepsSound(c, d, call);
    match call
    case OpenDevice =>
    case CloseDevice =>
    case RequestBuffers(capture, mmap, wanted) =>
      if LeavesOldSlots(d, call) { OldSlotsRemain(c, d, call); } else { ReqBufsKeepsExact(c, d, call); }
    case QueryBuffer(capture, index) =>
    case QueueBuffer(capture, index) => QBufKeepsExact(c, d, capture, index);
    case DequeueBuffer(capture, feed) => DQBufKeepsExact(c, d, capture, feed);
    case StreamingOn(capture) => StreamOnKeepsExact(c, d, capture);
    case StreamingOff(capture) =>
      if d.open && capture && d.streaming { StreamOffReleasesAll(c, d); }
    case MapMemory(length, offset, granted) => MapCallsKeepExact(c, d, length, offset, granted, 0);
    case UnmapMemory(address) => MapCallsKeepExact(c, d, 0, 0, None, address);
  }

  /** A run that never asks for buffers while slot numbers are waiting in the pipe. */
  ghost predicate Orderly(c: Config, d: Device, calls: seq<Call>)
    decreases |calls|
  {
    calls != [] ==>
      && Shaped(d) && QueuedAreBacked(d) && !LeavesOldSlots(d, calls[0])
      && Orderly(c, Step(c, d, calls[0]).0, calls[1..])
  }

  lemma {:induction false} OrderlyRunsAreExact(c: Setting, d: Device, calls: seq<Call>, after: Device)
    requires Exact(c, d) && Reaches(c, d, calls, after) && Orderly(c, d, calls)
    ensures Exact(c, after)
    decreases |calls|
  {
    if calls != [] {
      AgreementKeptIff(c, d, calls[0]);
      OrderlyRunsAreExact(c, Step(c, d, calls[0]).0, calls[1..], after);
    }
  }

  lemma {:induction false} DistinctBelow(pipe: seq<nat>, bound: nat)
    requires NoneTwice(pipe) && forall s | s in pipe :: s < bound
    ensures |pipe| <= bound
    decreases bound
  {
    assert forall p | 0 <= p < |pipe| :: pipe[p] in pipe;
    assert pipe == [] || pipe[0] >= 0;
    if bound > 0 {
      if p: int :| 0 <= p < |pipe| && pipe[p] == bound - 1 {
        var fewer := pipe[..p] + pipe[p + 1..];
        forall s | s in fewer ensures s in pipe && s != bound - 1 {}
        DistinctBelow(fewer, bound - 1);
      } else {
        DistinctBelow(pipe, bound - 1);
      }
    }
  }

  /** In an orderly run the pipe never holds more than four numbers, and none of the failure branches is reached. */
  lemma OrderlyCallsNeverMisfire(c: Setting, d: Device, call: Call)
    requires Exact(c, d) && Possible(d, call)
    ensures |d.pipe| <= d.count <= MAX_BUFFERS
    ensures Step(c, d, call).1 !in {Refused(PipeFull), Refused(StaleIndex), Refused(NotQueued)}
    ensures call.DequeueBuffer? && Step(c, d, call).1 == Refused(FetchFailed) ==>
      d.pipe != [] && Step(c, d, call).0.pipe == d.pipe[1..] + [d.pipe[0]]
  {
    if d.streaming {
      DistinctBelow(d.pipe, d.count);
      if call.QueueBuffer? && call.index < d.count && !d.buffers[call.index].queued {
        var more := d.pipe + [call.index];
        DistinctBelow(more, d.count);
      }
      if d.pipe != [] { assert d.pipe[0] in d.pipe; }
    } else if call.StreamingOn? && d.open && call.capture {
      StreamOnFills(c, d);
    }
  }

  // ----- first in, first out -----

  /** Slot numbers taken from and written to the pipe by a QBUF or DQBUF. */
  function TakenBy(d: Device, call: Call): seq<nat> {
    if call.DequeueBuffer? && d.open && call.capture && d.streaming && d.pipe != [] then [d.pipe[0]] else []
  }

  function PutBy(c: Config, d: Device, call: Call): seq<nat>
    requires Shaped(d) && QueuedAreBacked(d)
  {
    if call.QueueBuffer? && d.streaming && Step(c, d, call).1 == Done then [call.index]
    else if call.DequeueBuffer? && d.pipe != [] && Step(c, d, call).1 == Refused(FetchFailed)
      && Step(c, d, call).0.pipe != d.pipe[1..] then [d.pipe[0]]
    else []
  }

  function AllTaken(c: Config, d: Device, calls: seq<Call>): seq<nat>
    decreases |calls|
  {
    if calls == [] || !Shaped(d) || !QueuedAreBacked(d) then []
    else TakenBy(d, calls[0]) + AllTaken(c, Step(c, d, calls[0]).0, calls[1..])
  }

  function AllPut(c: Config, d: Device, calls: seq<Call>): seq<nat>
    decreases |calls|
  {
    if calls == [] || !Shaped(d) || !QueuedAreBacked(d) then []
    else PutBy(c, d, calls[0]) + AllPut(c, Step(c, d, calls[0]).0, calls[1..])
  }

  lemma OneCallInOrder(c: Config, d: Device, call: Call)
    requires Shaped(d) && QueuedAreBacked(d) && (call.QueueBuffer? || call.DequeueBuffer?)
    ensures TakenBy(d, call) + Step(c, d, call).0.pipe == d.pipe + PutBy(c, d, call)
  {
    if TakenBy(d, call) != [] {
      assert d.pipe == [d.pipe[0]] + d.pipe[1..];
    }
  }

  /**
   * However QBUF and DQBUF interleave, slots leave in the order they entered; one whose fetch failed
   * enters again at the end.
   */
  lemma {:induction false} FirstInFirstOut(c: Setting, d: Device, calls: seq<Call>, after: Device)
    requires Sound(c, d) && Reaches(c, d, calls, after)
    requires forall k | 0 <= k < |calls| :: calls[k].QueueBuffer? || calls[k].DequeueBuffer?
    ensures AllTaken(c, d, calls) + after.pipe == d.pipe + AllPut(c, d, calls)
    decreases |calls|
  {
    if calls == [] {
      assert [] + d.pipe == d.pipe + [];
    } else {
      var next := Step(c, d, calls[0]).0;
      StepKeepsSound(c, d, calls[0]);
      FirstInFirstOut(c, next, calls[1..], after);
      OneCallInOrder(c, d, calls[0]);
      Regroup(TakenBy(d, calls[0]), AllTaken(c, next, calls[1..]), after.pipe);
      Regroup(TakenBy(d, calls[0]), next.pipe, AllPut(c, next, calls[1..]));
      Regroup(d.pipe, PutBy(c, d, calls[0]), AllPut(c, next, calls[1..]));
    }
  }

  // ----- offsets name slots -----

  /** With a nonzero buffer size the offset QUERYBUF reports leads mmap to that very slot. */
  lemma OffsetsNameSlots(c: Config, d: Device, slot: nat)
    requires Sound(c, d) && slot < d.count && c.BufferBytes() > 0
    ensures SlotAtOffset(d, d.buffers[slot].offset, 0) == Some(slot)
  {
    var size := c.BufferBytes();
    assert BufferOk(c, d.buffers[slot], slot);
    forall s | 0 <= s < slot ensures d.buffers[s].offset != d.buffers[slot].offset {
      assert BufferOk(c, d.buffers[s], s);
      assert (slot - s) * size > 0;
      assert slot * size == s * size + (slot - s) * size;
    }
  }

  // ----- a whole picture or none -----

  predicate FixedLength(c: Config) {
    (c.format == NV12 || c.format == YUYV) && c.width > 0 && c.height > 0
  }

  /**
   * A fixed-length picture is accepted exactly when its last byte was read, and then the buffer holds
   * the first picture on that connection and no other byte; otherwise nothing is reported in it.
   */
  lemma FixedPictureWholeOrNone(c: Config, b: Buffer, feed: Feed)
    requires FixedLength(c) && Backed(b) && b.size == c.BufferBytes()
    ensures var (after, ok) := Fetch(c, b, feed);
            && (ok <==> feed.Connected? && ReadTotal(|feed.incoming|, b.size, feed.turns) == (c.Expected(), true))
            && (ok ==> after.bytesUsed == c.Expected() <= |feed.incoming|)
            && (ok ==> after.mapped.value.bytes == feed.incoming[..c.Expected()])
            && (!ok ==> after.bytesUsed == 0)
  {
    FixedBufferIsOnePicture(c.format, c.width, c.height, 0);
  }

  /**
   * What DQBUF adds, in every state a run can be in: a buffer handed over holds one whole picture, a failed
   * fetch leaves nothing reported and the buffer at the tail. With queue and pipe in agreement and something
   * queued there is no third outcome.
   */
  lemma DequeueIsWholeOrRequeued(c: Setting, d: Device, feed: Feed)
    requires Sound(c, d) && PipeFits(c, d) && FixedLength(c)
    ensures var (after, reply) := DQBuf(c, d, true, feed);
            && (reply.Dequeued? ==>
                  && d.pipe != [] && d.pipe[0] < d.count
                  && var slot := d.pipe[0];
                     var b := after.buffers[slot];
                  && reply.index == slot && reply.bytesUsed == c.Expected() && !b.queued && after.pipe == d.pipe[1..]
                  && feed.Connected? && c.Expected() <= |feed.incoming|
                  && b.mapped.Some? && b.mapped.value.bytes == feed.incoming[..c.Expected()])
            && (reply == Refused(FetchFailed) ==>
                  && d.pipe != [] && d.pipe[0] < d.count
                  && var slot := d.pipe[0];
                     var b := after.buffers[slot];
                  b.bytesUsed == 0 && b.queued && after.pipe == d.pipe[1..] + [slot])
            && (Exact(c, d) && d.open && d.streaming && d.pipe != [] ==>
                  reply.Dequeued? || reply == Refused(FetchFailed))
  {
    if d.streaming && d.pipe != [] && d.pipe[0] < d.count && d.buffers[d.pipe[0]].queued {
      assert BufferOk(c, d.buffers[d.pipe[0]], d.pipe[0]);
      FixedPictureWholeOrNone(c, d.buffers[d.pipe[0]], feed);
    }
    if d.pipe != [] {
      assert d.pipe[0] in d.pipe;
    }
  }

  /** The most bytes the reads before the first hang-up report or failure may bring. */
  function BroughtBeforeHangUp(turns: seq<ReadTurn>): nat
    decreases |turns|
  {
    if turns == [] || !turns[0].Upto? then 0
    else (if turns[0].n == 0 then 1 else turns[0].n) + BroughtBeforeHangUp(turns[1..])
  }

  function Least(a: nat, b: nat): nat {
    if a <= b then a else b
  }

  /** A read that ends without an error took all it could: what was sent, what fits, what came before a hang-up. */
  lemma {:induction false} ReadTakesAllItCan(waiting: nat, room: nat, turns: seq<ReadTurn>)
    requires ReadTotal(waiting, room, turns).1
    ensures ReadTotal(waiting, room, turns).0 == Least(Least(waiting, room), BroughtBeforeHangUp(turns))
    decreases |turns|
  {
    if room > 0 && turns[0].Upto? {
      var chunk := Taken(turns[0].n, room, waiting);
      if chunk > 0 {
        ReadTakesAllItCan(waiting - chunk, room - chunk, turns[1..]);
      }
    }
  }

  /** What is reported in an accepted buffer is the front of what was sent, as much as the read could take. */
  lemma AcceptedIsTheFront(c: Config, b: Buffer, feed: Feed)
    requires Backed(b) && Fetch(c, b, feed).1
    ensures feed.Connected?
    ensures var after := Fetch(c, b, feed).0;
            && after.bytesUsed == Least(Least(|feed.incoming|, b.size), BroughtBeforeHangUp(feed.turns))
            && 0 < after.bytesUsed <= |feed.incoming| && Backed(after) && after.bytesUsed <= after.size
            && after.mapped.value.bytes[..after.bytesUsed] == feed.incoming[..after.bytesUsed]
  {
    ReadTakesAllItCan(|feed.incoming|, b.size, feed.turns);
  }

  /** An accepted compressed picture is all that was sent iff it fits and no hang-up came before its last byte. */
  lemma CompressedWholeIff(c: Config, b: Buffer, feed: Feed)
    requires (c.format == MJPEG || c.format == JPEG) && Backed(b) && Fetch(c, b, feed).1
    ensures Fetch(c, b, feed).0.bytesUsed == |feed.incoming| <==>
              |feed.incoming| <= b.size && |feed.incoming| <= BroughtBeforeHangUp(feed.turns)
  {
    ReadTakesAllItCan(|feed.incoming|, b.size, feed.turns);
  }

  /** A hang-up reported while bytes are waiting ends the read; a compressed picture is then accepted cut short. */
  lemma HangUpCutsCompressed(c: Config, b: Buffer, first: byte, second: byte)
    requires (c.format == MJPEG || c.format == JPEG) && Backed(b) && b.size >= 2
    ensures var (after, ok) := Fetch(c, b, Connected([first, second], [Upto(1), HangUp]));
            ok && after.bytesUsed == 1
  {
    var turns := [Upto(1), HangUp];
    assert turns[1..] == [HangUp];
    assert ReadTotal(1, b.size - 1, turns[1..]) == (0, true);
  }
}
