/** The imposter's handlers, in place over the four buffers, proved against the steps of `Imposter`. */
module ImposterShim {
  import opened Bytes
  import opened FrameGeometry
  import opened Imposter
  import opened ImposterProofs

  /** A slot number just taken out of the pipe, if any. */
  function Head(slot: Option<nat>): seq<nat> {
    if slot.None? then [] else [slot.value]
  }

  /** Writing the next `chunk` bytes after the first `total` of `incoming`. */
  lemma Overwrite(incoming: seq<byte>, was: seq<byte>, dest: seq<byte>, total: nat, chunk: nat)
    requires total + chunk <= |incoming| && total + chunk <= |was| && dest == incoming[..total] + was[total..]
    ensures dest[..total] + incoming[total..total + chunk] + dest[total + chunk..]
         == incoming[..total + chunk] + was[total + chunk..]
  {
  }

  /** Chunk after chunk over the buffer's bytes until it is full, the sender hangs up or a read fails. */
  method ReadFully(was: seq<byte>, incoming: seq<byte>, turns: seq<ReadTurn>)
    returns (dest: seq<byte>, total: nat, ok: bool)
    ensures (total, ok) == ReadTotal(|incoming|, |was|, turns)
    ensures dest == incoming[..total] + was[total..]
  {
    var count := |was|;
    dest, total, ok := was, 0, true;
    var left := turns;
    while total < count
      invariant total <= count && total <= |incoming| && ok
      invariant dest == incoming[..total] + was[total..]
      invariant var rest := ReadTotal(|incoming| - total, count - total, left);
                ReadTotal(|incoming|, count, turns) == (total + rest.0, rest.1)
      decreases |left|
    {
      if left == [] {
        return dest, total, false;
      }
      var turn := left[0];
      left := left[1..];
      if turn.Failed? {
        return dest, total, false;
      }
      if turn.HangUp? {
        break;
      }
      var chunk := Taken(turn.n, count - total, |incoming| - total);
      if chunk == 0 {
        break;
      }
      Overwrite(incoming, was, dest, total, chunk);
      dest := dest[..total] + incoming[total..total + chunk] + dest[total + chunk..];
      total := total + chunk;
    }
  }

  class Shim {
    const config: Setting
    var readFd: int
    const buffers: array<Buffer>
    var bufferCount: nat
    var streaming: bool
    var pipe: seq<nat>

    ghost function View(): Device
      reads this, buffers
    {
      Device(readFd >= 0, buffers[..], bufferCount, streaming, pipe)
    }

    ghost predicate Valid()
      reads this, buffers
    {
      buffers.Length == MAX_BUFFERS && Sound(config, View())
    }

    constructor (config: Setting)
      ensures Valid() && fresh(buffers) && View() == CLOSED && this.config == config
    {
      this.config := config;
      readFd, bufferCount, streaming, pipe := -1, 0, false, [];
      buffers := new Buffer[MAX_BUFFERS](_ => CLOSED_BUFFER);
    }

    // ----- the pipe, as the kernel keeps it -----

    method PipeWrite(slot: nat) returns (ok: bool)
      modifies this`pipe
      ensures ok == (|old(pipe)| < config.pipeCapacity)
      ensures pipe == if ok then old(pipe) + [slot] else old(pipe)
    {
      ok := |pipe| < config.pipeCapacity;
      if ok {
        pipe := pipe + [slot];
      }
    }

    method PipeRead() returns (slot: Option<nat>)
      modifies this`pipe
      ensures slot == if old(pipe) == [] then None else Some(old(pipe)[0])
      ensures pipe == if old(pipe) == [] then [] else old(pipe)[1..]
    {
      if pipe == [] {
        return None;
      }
      slot := Some(pipe[0]);
      pipe := pipe[1..];
    }

    // ----- opening and closing -----

    method FreeAll()
      requires Valid()
      modifies this`bufferCount, buffers
      ensures buffers.Length == MAX_BUFFERS && View() == FreeBuffers(old(View()))
    {
      var slot := 0;
      while slot < MAX_BUFFERS
        modifies buffers
        invariant slot <= MAX_BUFFERS
        invariant forall s | 0 <= s < slot :: buffers[s] == Freed(old(buffers[s]))
        invariant forall s | slot <= s < MAX_BUFFERS :: buffers[s] == old(buffers[s])
      {
        if buffers[slot].mapped.Some? {
          buffers[slot] := buffers[slot].(mapped := None);
        }
        buffers[slot] := buffers[slot].(size := 0, bytesUsed := 0);
        slot := slot + 1;
      }
      bufferCount := 0;
    }

    /** `pipeFd` is the read end of the new pipe. */
    method HandleOpen(pipeFd: nat) returns (reply: Reply)
      requires Valid()
      modifies this
      ensures Valid() && (View(), reply) == Open(old(View()))
    {
      if readFd >= 0 {
        return Refused(Busy);
      }
      readFd := pipeFd;
      pipe := [];
      return Done;
    }

    method CloseFd(fd: int)
      requires Valid()
      modifies this, buffers
      ensures Valid()
      ensures View() == if fd == old(readFd) then Close(old(View())) else old(View())
    {
      if fd == readFd {
        FreeKeepsSound(config, View());
        FreeAll();
        readFd := -1;
        pipe := [];
        streaming := false;
      }
    }

    // ----- buffers -----

    /** The offsets pile up one buffer size at a time. */
    method Allocate(count: nat, bufferSize: nat)
      requires buffers.Length == MAX_BUFFERS && count <= MAX_BUFFERS
      modifies this`bufferCount, buffers
      ensures bufferCount == count
      ensures forall s | 0 <= s < count :: buffers[s] == Fresh(bufferSize, s)
      ensures forall s | count <= s < MAX_BUFFERS :: buffers[s] == old(buffers[s])
    {
      var offset := 0;
      var slot := 0;
      while slot < count
        modifies buffers
        invariant slot <= count && offset == slot * bufferSize
        invariant forall s | 0 <= s < slot :: buffers[s] == Fresh(bufferSize, s)
        invariant forall s | slot <= s < MAX_BUFFERS :: buffers[s] == old(buffers[s])
      {
        buffers[slot] := Buffer(None, bufferSize, 0, offset, false);
        offset := offset + bufferSize;
        slot := slot + 1;
      }
      bufferCount := slot;
    }

    method HandleReqbufs(capture: bool, mmap: bool, wanted: nat) returns (reply: Reply)
      requires Valid()
      modifies this, buffers
      ensures Valid() && (View(), reply) == ReqBufs(config, old(View()), capture, mmap, wanted)
    {
      ReqBufsKeepsSound(config, View(), capture, mmap, wanted);
      if readFd < 0 {
        return Refused(BadDescriptor);
      }
      if !capture || !mmap {
        return Refused(WrongType);
      }
      FreeAll();
      ghost var freed := View();
      if wanted == 0 {
        return Allocated(0);
      }
      var count := if wanted > MAX_BUFFERS then MAX_BUFFERS else wanted;
      var bufferSize := config.BufferBytes();
      if bufferSize > MAX_BUFFER_SIZE {
        return Refused(TooBig);
      }
      Allocate(count, bufferSize);
      assert View().buffers == ReqBufs(config, old(View()), capture, mmap, wanted).0.buffers;
      return Allocated(bufferCount);
    }

    method HandleQuerybuf(capture: bool, index: nat) returns (reply: Reply)
      requires Valid()
      ensures reply == QueryBuf(View(), capture, index)
      ensures reply.Located? <==> readFd >= 0 && capture && index < bufferCount
      ensures reply.Located? ==> reply.length == config.BufferBytes() && reply.offset == index * config.BufferBytes()
      ensures reply.Located? && config.BufferBytes() > 0 ==> SlotAtOffset(View(), reply.offset, 0) == Some(index)
    {
      if readFd < 0 {
        return Refused(BadDescriptor);
      }
      if !capture {
        return Refused(WrongType);
      }
      if index >= bufferCount {
        return Refused(BadIndex);
      }
      assert BufferOk(config, View().buffers[index], index);
      if config.BufferBytes() > 0 {
        OffsetsNameSlots(config, View(), index);
      }
      return Located(buffers[index].offset, buffers[index].size);
    }

    method HandleQbuf(capture: bool, index: nat) returns (reply: Reply)
      requires Valid()
      modifies this, buffers
      ensures Valid() && (View(), reply) == QBuf(config, old(View()), capture, index)
    {
      QBufKeepsSound(config, View(), capture, index);
      if readFd < 0 {
        return Refused(BadDescriptor);
      }
      if !capture {
        return Refused(WrongType);
      }
      if index >= bufferCount {
        return Refused(BadIndex);
      }
      if buffers[index].mapped.None? {
        return Refused(NotMapped);
      }
      if buffers[index].queued {
        return Refused(AlreadyQueued);
      }
      ghost var before := buffers[..];
      buffers[index] := buffers[index].(queued := true);
      if streaming {
        var ok := PipeWrite(index);
        if !ok {
          buffers[index] := buffers[index].(queued := false);
          assert buffers[..] == before;
          return Refused(PipeFull);
        }
      }
      assert buffers[..] == before[index := before[index].(queued := true)];
      return Done;
    }

    /** The buffer is cleared first, so a picture that does not arrive whole is reported as none. */
    method FetchFrame(slot: nat, feed: Feed) returns (ok: bool)
      requires buffers.Length == MAX_BUFFERS && slot < MAX_BUFFERS && Backed(buffers[slot])
      modifies buffers
      ensures ok == Fetch(config, old(buffers[slot]), feed).1
      ensures buffers[..] == old(buffers[..])[slot := Fetch(config, old(buffers[slot]), feed).0]
    {
      buffers[slot] := buffers[slot].(bytesUsed := 0);
      if feed.NoConnection? {
        return false;
      }
      var mapped := buffers[slot].mapped.value;
      var dest, total, complete := ReadFully(mapped.bytes, feed.incoming, feed.turns);
      buffers[slot] := buffers[slot].(mapped := Some(Mapping(mapped.address, dest)));
      if !complete {
        return false;
      }
      if total == 0 {
        return false;
      }
      if !FrameReadIsWhole(config.Expected(), total) {
        return false;
      }
      buffers[slot] := buffers[slot].(bytesUsed := total);
      return true;
    }

    method HandleDqbuf(capture: bool, feed: Feed) returns (reply: Reply)
      requires Valid()
      modifies this, buffers
      ensures Valid() && (View(), reply) == DQBuf(config, old(View()), capture, feed)
    {
      DQBufKeepsSound(config, View(), capture, feed);
      ghost var before := View();
      if readFd < 0 {
        return Refused(BadDescriptor);
      }
      if !capture {
        return Refused(WrongType);
      }
      if !streaming {
        return Refused(NotStreaming);
      }
      var head := PipeRead();
      if head.None? {
        return Refused(NothingQueued);
      }
      var slot := head.value;
      if slot >= bufferCount {
        return Refused(StaleIndex);
      }
      if !buffers[slot].queued {
        return Refused(NotQueued);
      }
      ghost var (b, fetched) := Fetch(config, before.buffers[slot], feed);
      FetchKeepsPlace(config, before.buffers[slot], feed);
      var ok := FetchFrame(slot, feed);
      if !ok {
        var requeued := PipeWrite(slot);
        if !requeued {
          buffers[slot] := buffers[slot].(queued := false);
          assert buffers[..] == before.buffers[slot := b.(queued := false)];
        }
        return Refused(FetchFailed);
      }
      buffers[slot] := buffers[slot].(queued := false);
      assert buffers[..] == before.buffers[slot := b.(queued := false)];
      return Dequeued(slot, buffers[slot].bytesUsed, buffers[slot].size, buffers[slot].offset);
    }

    // ----- streaming -----

    method HandleStreamon(capture: bool) returns (reply: Reply)
      requires Valid()
      modifies this
      ensures Valid() && (View(), reply) == StreamOn(config, old(View()), capture)
    {
      StreamOnKeepsSound(config, View(), capture);
      if readFd < 0 {
        return Refused(BadDescriptor);
      }
      if !capture {
        return Refused(WrongType);
      }
      if streaming {
        return Refused(AlreadyStreaming);
      }
      var slot := 0;
      while slot < bufferCount
        modifies this`pipe
        invariant slot <= bufferCount
        invariant FillPipe(config, View(), slot) == FillPipe(config, old(View()), 0)
      {
        if buffers[slot].mapped.Some? && buffers[slot].queued {
          ghost var before := View();
          var ok := PipeWrite(slot);
          if !ok {
            return Refused(PipeFull);
          }
          assert View() == before.(pipe := before.pipe + [slot]);
        }
        slot := slot + 1;
      }
      streaming := true;
      return Done;
    }

    /** The loop of STREAMOFF; it ends because every turn takes one number out of the pipe. */
    method DrainPipe()
      requires buffers.Length == MAX_BUFFERS && bufferCount <= MAX_BUFFERS
      modifies this`pipe, buffers
      ensures View() == Drain(old(View()))
    {
      ghost var begun := View();
      ghost var taken: set<nat> := {};
      var slot: Option<nat> := PipeRead();
      while slot.Some?
        modifies this`pipe, buffers
        invariant forall n: nat :: n in begun.pipe <==> n in taken || n in Head(slot) || n in pipe
        invariant forall s | 0 <= s < MAX_BUFFERS ::
          buffers[s] == if s in taken && s < bufferCount then begun.buffers[s].(queued := false) else begun.buffers[s]
        invariant slot.None? ==> pipe == []
        decreases |pipe| + if slot.Some? then 1 else 0
      {
        if slot.value < bufferCount {
          buffers[slot.value] := buffers[slot.value].(queued := false);
        }
        taken := taken + {slot.value};
        slot := PipeRead();
      }
      DrainReleases(begun);
      assert buffers[..] == Drain(begun).buffers;
    }

    method HandleStreamoff(capture: bool) returns (reply: Reply)
      requires Valid()
      modifies this, buffers
      ensures Valid() && (View(), reply) == StreamOff(old(View()), capture)
    {
      StreamOffKeepsSound(config, View(), capture);
      if readFd < 0 {
        return Refused(BadDescriptor);
      }
      if !capture {
        return Refused(WrongType);
      }
      if !streaming {
        return Refused(NotStreaming);
      }
      streaming := false;
      DrainPipe();
      return Done;
    }

    // ----- memory -----

    /** `granted` is what mmap answers when new memory is asked for. */
    method HandleMmap(length: nat, offset: nat, granted: Option<nat>) returns (reply: Reply)
      requires Valid() && NewAddress(View(), granted)
      modifies buffers
      ensures Valid() && (View(), reply) == MMap(old(View()), length, offset, granted)
    {
      MMapKeepsSound(config, View(), length, offset, granted);
      if readFd < 0 {
        return Refused(BadDescriptor);
      }
      var slot := 0;
      while slot < bufferCount
        invariant slot <= bufferCount && View() == old(View())
        invariant SlotAtOffset(View(), offset, slot) == SlotAtOffset(View(), offset, 0)
      {
        if buffers[slot].offset != offset {
          slot := slot + 1;
          continue;
        }
        if buffers[slot].size != length {
          return Refused(SizeMismatch);
        }
        if buffers[slot].mapped.None? && granted.Some? && buffers[slot].size > 0 {
          buffers[slot] := buffers[slot].(mapped := Some(Mapping(granted.value, seq(buffers[slot].size, _ => 0))));
        }
        if buffers[slot].mapped.None? {
          return Refused(NoMemory);
        }
        return MappedAt(buffers[slot].mapped.value.address);
      }
      return Refused(NoSuchBuffer);
    }

    method HandleMunmap(address: nat) returns (reply: Reply)
      requires Valid()
      modifies buffers
      ensures Valid() && (View(), reply) == MUnmap(old(View()), address)
    {
      MUnmapKeepsSound(config, View(), address);
      var slot := 0;
      while slot < bufferCount
        invariant slot <= bufferCount && View() == old(View())
        invariant SlotAtAddress(View(), address, slot) == SlotAtAddress(View(), address, 0)
      {
        if MapsAddress(buffers[slot], address) {
          if buffers[slot].queued {
            return Refused(StillQueued);
          }
          buffers[slot] := buffers[slot].(mapped := None);
          return Done;
        }
        slot := slot + 1;
      }
      return Refused(NoSuchBuffer);
    }
  }
}
