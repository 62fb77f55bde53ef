/**
 * The buffer queue of v4l2-imposter/main.c. Every call runs under one lock, so it is one step over the
 * four buffers, the streaming flag and the pipe of slot numbers.
 */
module Imposter {
  import opened Bytes
  import opened FrameGeometry

  const MAX_BUFFERS: nat := 4
  const MAX_BUFFER_SIZE: nat := 4 * 1024 * 1024

  /** What the environment fixes: the picture, and how many bytes the kernel's pipe takes. */
  datatype Config = Config(format: PixelFormat, width: nat, height: nat, pipeCapacity: nat)
  {
    function Expected(): nat { WholeFrameBytes(format, width, height) }
    function BufferBytes(): nat { CaptureBufferBytes(format, width, height) }
  }

  type Setting = c: Config | c.pipeCapacity >= MAX_BUFFERS witness Config(NV12, 0, 0, 4)

  /** Memory handed out by mmap. */
  datatype Mapping = Mapping(address: nat, bytes: seq<byte>)

  /** `mapped` is None for MAP_FAILED. */
  datatype Buffer = Buffer(mapped: Option<Mapping>, size: nat, bytesUsed: nat, offset: nat, queued: bool)

  datatype Device = Device(open: bool, buffers: seq<Buffer>, count: nat, streaming: bool, pipe: seq<nat>)

  /** Why a call was refused, one per branch. */
  datatype Reason =
    | BadDescriptor | Busy | WrongType | TooBig | BadIndex | NotMapped | AlreadyQueued | PipeFull
    | NotStreaming | AlreadyStreaming | NothingQueued | StaleIndex | NotQueued | FetchFailed
    | NoSuchBuffer | SizeMismatch | NoMemory | StillQueued

  datatype Reply =
    | Done
    | Allocated(count: nat)
    | Located(offset: nat, length: nat)
    | Dequeued(index: nat, bytesUsed: nat, length: nat, offset: nat)
    | MappedAt(address: nat)
    | Refused(why: Reason)

  // ----- one picture from the capture socket -----

  /** What poll and read answer: at least one and at most `n` bytes, a hang-up, or an error or timeout. */
  datatype ReadTurn = Upto(n: nat) | HangUp | Failed

  /** The capture socket as a fetch finds it. */
  datatype Feed = NoConnection | Connected(incoming: seq<byte>, turns: seq<ReadTurn>)

  /** How many bytes a read of `room` takes of `waiting`. */
  function Taken(n: nat, room: nat, waiting: nat): nat {
    var most := if n == 0 then 1 else n;
    var fits := if most <= room then most else room;
    if fits <= waiting then fits else waiting
  }

  /** How many bytes of `waiting` end up in the buffer, and whether the read ended without an error. */
  function ReadTotal(waiting: nat, room: nat, turns: seq<ReadTurn>): (r: (nat, bool))
    ensures r.0 <= waiting && r.0 <= room
    decreases |turns|
  {
    if room == 0 then (0, true)
    else if turns == [] then (0, false)
    else match turns[0]
      case Failed => (0, false)
      case HangUp => (0, true)
      case Upto(n) =>
        var chunk := Taken(n, room, waiting);
        if chunk == 0 then (0, true)
        else var (more, ok) := ReadTotal(waiting - chunk, room - chunk, turns[1..]); (chunk + more, ok)
  }

  /** The buffer after `got` has been read over its beginning. */
  function Filled(b: Buffer, got: seq<byte>): Buffer
    requires b.mapped.Some? && |got| <= |b.mapped.value.bytes|
  {
    var m := b.mapped.value;
    b.(mapped := Some(Mapping(m.address, got + m.bytes[|got|..])))
  }

  predicate Backed(b: Buffer) {
    b.mapped.Some? && |b.mapped.value.bytes| == b.size
  }

  /** `fetch_frame`: the buffer afterwards, and whether a picture was accepted. */
  function Fetch(c: Config, b: Buffer, feed: Feed): (Buffer, bool)
    requires Backed(b)
  {
    var cleared := b.(bytesUsed := 0);
    match feed
    case NoConnection => (cleared, false)
    case Connected(incoming, turns) =>
      var (total, ok) := ReadTotal(|incoming|, b.size, turns);
      var filled := Filled(cleared, incoming[..total]);
      if !ok || total == 0 || !FrameReadIsWhole(c.Expected(), total) then (filled, false)
      else (filled.(bytesUsed := total), true)
  }

  // ----- the calls -----

  predicate Shaped(d: Device) {
    |d.buffers| == MAX_BUFFERS && d.count <= MAX_BUFFERS
  }

  function Freed(b: Buffer): Buffer {
    b.(mapped := None, size := 0, bytesUsed := 0)
  }

  function FreeBuffers(d: Device): Device
    requires Shaped(d)
  {
    d.(buffers := seq(MAX_BUFFERS, s requires 0 <= s < MAX_BUFFERS => Freed(d.buffers[s])), count := 0)
  }

  function Open(d: Device): (Device, Reply) {
    if d.open then (d, Refused(Busy)) else (d.(open := true, pipe := []), Done)
  }

  function Close(d: Device): Device
    requires Shaped(d)
  {
    FreeBuffers(d).(open := false, streaming := false, pipe := [])
  }

  function Fresh(size: nat, slot: nat): Buffer {
    Buffer(None, size, 0, slot * size, false)
  }

  function ReqBufs(c: Config, d: Device, capture: bool, mmap: bool, wanted: nat): (Device, Reply)
    requires Shaped(d)
  {
    if !d.open then (d, Refused(BadDescriptor))
    else if !capture || !mmap then (d, Refused(WrongType))
    else
      var freed := FreeBuffers(d);
      var n := if wanted > MAX_BUFFERS then MAX_BUFFERS else wanted;
      if wanted == 0 then (freed, Allocated(0))
      else if c.BufferBytes() > MAX_BUFFER_SIZE then (freed, Refused(TooBig))
      else
        (freed.(buffers := seq(MAX_BUFFERS, s requires 0 <= s < MAX_BUFFERS =>
                             if s < n then Fresh(c.BufferBytes(), s) else freed.buffers[s]),
                count := n),
         Allocated(n))
  }

  function QueryBuf(d: Device, capture: bool, index: nat): Reply
    requires Shaped(d)
  {
    if !d.open then Refused(BadDescriptor)
    else if !capture then Refused(WrongType)
    else if index >= d.count then Refused(BadIndex)
    else Located(d.buffers[index].offset, d.buffers[index].size)
  }

  function SetQueued(d: Device, slot: nat, queued: bool): Device
    requires slot < |d.buffers|
  {
    d.(buffers := d.buffers[slot := d.buffers[slot].(queued := queued)])
  }

  function QBuf(c: Config, d: Device, capture: bool, index: nat): (Device, Reply)
    requires Shaped(d)
  {
    if !d.open then (d, Refused(BadDescriptor))
    else if !capture then (d, Refused(WrongType))
    else if index >= d.count then (d, Refused(BadIndex))
    else if d.buffers[index].mapped.None? then (d, Refused(NotMapped))
    else if d.buffers[index].queued then (d, Refused(AlreadyQueued))
    else if d.streaming && |d.pipe| >= c.pipeCapacity then (d, Refused(PipeFull))
    else (SetQueued(d, index, true).(pipe := if d.streaming then d.pipe + [index] else d.pipe), Done)
  }

  /** A queued buffer always has memory behind it; see `Sound`. */
  predicate QueuedAreBacked(d: Device)
    requires Shaped(d)
  {
    forall s | 0 <= s < d.count && d.buffers[s].queued :: Backed(d.buffers[s])
  }

  function DQBuf(c: Config, d: Device, capture: bool, feed: Feed): (Device, Reply)
    requires Shaped(d) && QueuedAreBacked(d)
  {
    if !d.open then (d, Refused(BadDescriptor))
    else if !capture then (d, Refused(WrongType))
    else if !d.streaming then (d, Refused(NotStreaming))
    else if d.pipe == [] then (d, Refused(NothingQueued))
    else
      var slot := d.pipe[0];
      var popped := d.(pipe := d.pipe[1..]);
      if slot >= d.count then (popped, Refused(StaleIndex))
      else if !d.buffers[slot].queued then (popped, Refused(NotQueued))
      else
        var (b, ok) := Fetch(c, d.buffers[slot], feed);
        var fetched := popped.(buffers := d.buffers[slot := b]);
        if ok then (SetQueued(fetched, slot, false), Dequeued(slot, b.bytesUsed, b.size, b.offset))
        else if |popped.pipe| >= c.pipeCapacity then (SetQueued(fetched, slot, false), Refused(FetchFailed))
        else (fetched.(pipe := popped.pipe + [slot]), Refused(FetchFailed))
  }

  /** STREAMON's loop from `slot` on: every queued, mapped slot is written; a full pipe ends it. */
  function FillPipe(c: Config, d: Device, slot: nat): (Device, bool)
    requires Shaped(d)
    decreases d.count - slot
  {
    if slot >= d.count then (d, true)
    else if d.buffers[slot].mapped.None? || !d.buffers[slot].queued then FillPipe(c, d, slot + 1)
    else if |d.pipe| >= c.pipeCapacity then (d, false)
    else FillPipe(c, d.(pipe := d.pipe + [slot]), slot + 1)
  }

  function StreamOn(c: Config, d: Device, capture: bool): (Device, Reply)
    requires Shaped(d)
  {
    if !d.open then (d, Refused(BadDescriptor))
    else if !capture then (d, Refused(WrongType))
    else if d.streaming then (d, Refused(AlreadyStreaming))
    else
      var (filled, ok) := FillPipe(c, d, 0);
      if ok then (filled.(streaming := true), Done) else (filled, Refused(PipeFull))
  }

  /** STREAMOFF's loop: every slot number left in the pipe is taken out and its buffer released. */
  function Drain(d: Device): Device
    requires Shaped(d)
    decreases |d.pipe|
  {
    if d.pipe == [] then d
    else
      var slot := d.pipe[0];
      var popped := d.(pipe := d.pipe[1..]);
      Drain(if slot < d.count then SetQueued(popped, slot, false) else popped)
  }

  function StreamOff(d: Device, capture: bool): (Device, Reply)
    requires Shaped(d)
  {
    if !d.open then (d, Refused(BadDescriptor))
    else if !capture then (d, Refused(WrongType))
    else if !d.streaming then (d, Refused(NotStreaming))
    else (Drain(d.(streaming := false)), Done)
  }

  /** The first live slot at or after `slot` whose offset is the one asked for. */
  function SlotAtOffset(d: Device, offset: nat, slot: nat): (found: Option<nat>)
    requires Shaped(d)
    ensures found.Some? ==> slot <= found.value < d.count && d.buffers[found.value].offset == offset
    ensures found.Some? ==> forall s | slot <= s < found.value :: d.buffers[s].offset != offset
    ensures found.None? ==> forall s | slot <= s < d.count :: d.buffers[s].offset != offset
    decreases d.count - slot
  {
    if slot >= d.count then None
    else if d.buffers[slot].offset == offset then Some(slot)
    else SlotAtOffset(d, offset, slot + 1)
  }

  /** `granted` is the address the kernel gives for new memory, None when it refuses. */
  function MMap(d: Device, length: nat, offset: nat, granted: Option<nat>): (Device, Reply)
    requires Shaped(d)
  {
    if !d.open then (d, Refused(BadDescriptor))
    else match SlotAtOffset(d, offset, 0)
      case None => (d, Refused(NoSuchBuffer))
      case Some(slot) =>
        var b := d.buffers[slot];
        if b.size != length then (d, Refused(SizeMismatch))
        else if b.mapped.Some? then (d, MappedAt(b.mapped.value.address))
        else if granted.None? || b.size == 0 then (d, Refused(NoMemory))
        else
          var m := Mapping(granted.value, seq(b.size, _ => 0));
          (d.(buffers := d.buffers[slot := b.(mapped := Some(m))]), MappedAt(m.address))
  }

  predicate MapsAddress(b: Buffer, address: nat) {
    b.mapped.Some? && b.mapped.value.address == address
  }

  /** The first live slot at or after `slot` mapped at the address. */
  function SlotAtAddress(d: Device, address: nat, slot: nat): (found: Option<nat>)
    requires Shaped(d)
    ensures found.Some? ==> slot <= found.value < d.count && MapsAddress(d.buffers[found.value], address)
    ensures found.None? ==> forall s | slot <= s < d.count :: !MapsAddress(d.buffers[s], address)
    decreases d.count - slot
  {
    if slot >= d.count then None
    else if MapsAddress(d.buffers[slot], address) then Some(slot)
    else SlotAtAddress(d, address, slot + 1)
  }

  function MUnmap(d: Device, address: nat): (Device, Reply)
    requires Shaped(d)
  {
    match SlotAtAddress(d, address, 0)
    case None => (d, Refused(NoSuchBuffer))
    case Some(slot) =>
      if d.buffers[slot].queued then (d, Refused(StillQueued))
      else (d.(buffers := d.buffers[slot := d.buffers[slot].(mapped := None)]), Done)
  }

  // ----- what every call keeps -----

  predicate Disjoint(a: Buffer, b: Buffer) {
    a.mapped.Some? && b.mapped.Some? ==> a.mapped.value.address != b.mapped.value.address
  }

  /** One live buffer: where it lies, and that what is queued has memory behind it. */
  predicate BufferOk(c: Config, b: Buffer, slot: nat) {
    && b.size == c.BufferBytes() && b.offset == slot * b.size && b.bytesUsed <= b.size
    && (b.mapped.Some? ==> Backed(b))
    && (b.queued ==> b.mapped.Some?)
  }

  /** What holds between any two calls, in any order, REQBUFS while streaming included. */
  ghost predicate Sound(c: Config, d: Device) {
    && Shaped(d)
    && (!d.open ==> d.count == 0 && !d.streaming)
    && (!d.streaming ==> d.pipe == [])
    && (forall s | 0 <= s < d.count :: BufferOk(c, d.buffers[s], s))
    && (forall s | d.count <= s < MAX_BUFFERS :: d.buffers[s].mapped.None?)
    && (forall s, t | 0 <= s < t < MAX_BUFFERS :: Disjoint(d.buffers[s], d.buffers[t]))
    && (d.streaming ==> forall s | 0 <= s < d.count && d.buffers[s].queued :: s in d.pipe)
  }

  /** The kernel takes no more than the pipe holds. */
  predicate PipeFits(c: Config, d: Device) {
    |d.pipe| <= c.pipeCapacity
  }

  const CLOSED_BUFFER: Buffer := Buffer(None, 0, 0, 0, false)

  const CLOSED: Device :=
    Device(false, [CLOSED_BUFFER, CLOSED_BUFFER, CLOSED_BUFFER, CLOSED_BUFFER], 0, false, [])
}
