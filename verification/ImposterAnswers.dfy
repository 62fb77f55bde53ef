/** When each call on the imposter succeeds, by the state before it and what the kernel answers. */
module ImposterAnswers {
  import opened Bytes
  import opened FrameGeometry
  import opened Imposter
  import opened ImposterProofs

  // ----- when a picture is accepted -----

  /**
   * The answer that follows once `amount` bytes have come: the first that is no read, or the one that finds
   * them all gone. None when the script ends, as a timeout does.
   */
  function NextAnswer(amount: nat, turns: seq<ReadTurn>): Option<ReadTurn>
    decreases |turns|
  {
    if turns == [] then None
    else if amount == 0 || !turns[0].Upto? then Some(turns[0])
    else NextAnswer(amount - Taken(turns[0].n, amount, amount), turns[1..])
  }

  /** The buffer fills, or the sender is done: it hung up, or a further read finds nothing left. */
  predicate ReadEndsWell(waiting: nat, room: nat, turns: seq<ReadTurn>) {
    || (waiting >= room && BroughtBeforeHangUp(turns) >= room)
    || NextAnswer(Least(waiting, room), turns) == Some(HangUp)
    || (waiting < room && NextAnswer(waiting, turns).Some? && NextAnswer(waiting, turns).value.Upto?)
  }

  lemma {:induction false} ReadSucceedsIff(waiting: nat, room: nat, turns: seq<ReadTurn>)
    ensures ReadTotal(waiting, room, turns).1 <==> ReadEndsWell(waiting, room, turns)
    decreases |turns|
  {
    if room > 0 && turns != [] && turns[0].Upto? && waiting > 0 {
      var chunk := Taken(turns[0].n, room, waiting);
      ReadSucceedsIff(waiting - chunk, room - chunk, turns[1..]);
      var least := Least(waiting, room);
      assert chunk == Taken(turns[0].n, least, least);
      assert Least(waiting - chunk, room - chunk) == least - chunk;
      var most := if turns[0].n == 0 then 1 else turns[0].n;
      assert BroughtBeforeHangUp(turns) == most + BroughtBeforeHangUp(turns[1..]);
    }
  }

  /** A picture is accepted iff the read ends well with at least a byte and, of a fixed length, with all of them. */
  lemma AcceptedIff(c: Config, b: Buffer, feed: Feed)
    requires Backed(b)
    ensures Fetch(c, b, feed).1 <==>
              && feed.Connected? && ReadEndsWell(|feed.incoming|, b.size, feed.turns)
              && FrameReadIsWhole(c.Expected(), Least(Least(|feed.incoming|, b.size), BroughtBeforeHangUp(feed.turns)))
              && Least(Least(|feed.incoming|, b.size), BroughtBeforeHangUp(feed.turns)) > 0
  {
    if feed.Connected? {
      ReadSucceedsIff(|feed.incoming|, b.size, feed.turns);
      if ReadTotal(|feed.incoming|, b.size, feed.turns).1 {
        ReadTakesAllItCan(|feed.incoming|, b.size, feed.turns);
      }
    }
  }

  /** A fixed-length picture is accepted iff its bytes were sent and the reads before a hang-up bring them. */
  lemma FixedPictureAcceptedIff(c: Config, b: Buffer, feed: Feed)
    requires FixedLength(c) && Backed(b) && b.size == c.BufferBytes()
    ensures Fetch(c, b, feed).1 <==>
              feed.Connected? && |feed.incoming| >= c.Expected() && BroughtBeforeHangUp(feed.turns) >= c.Expected()
  {
    AcceptedIff(c, b, feed);
    FixedBufferIsOnePicture(c.format, c.width, c.height, 0);
  }

  /** A compressed picture is accepted iff at least a byte comes and the read ends well. */
  lemma CompressedPictureAcceptedIff(c: Config, b: Buffer, feed: Feed)
    requires (c.format == MJPEG || c.format == JPEG) && Backed(b)
    ensures Fetch(c, b, feed).1 <==>
              && feed.Connected? && |feed.incoming| > 0 && b.size > 0 && BroughtBeforeHangUp(feed.turns) > 0
              && ReadEndsWell(|feed.incoming|, b.size, feed.turns)
  {
    AcceptedIff(c, b, feed);
  }

  /** With queue and pipe in agreement DQBUF hands a buffer over iff one is queued and its picture is accepted. */
  lemma DequeueSucceedsIff(c: Setting, d: Device, capture: bool, feed: Feed)
    requires Exact(c, d)
    ensures DQBuf(c, d, capture, feed).1.Dequeued? <==>
              && d.open && capture && d.streaming && d.pipe != []
              && d.pipe[0] < d.count && Backed(d.buffers[d.pipe[0]]) && Fetch(c, d.buffers[d.pipe[0]], feed).1
  {
    if d.streaming && d.pipe != [] {
      assert d.pipe[0] in d.pipe;
      assert BufferOk(c, d.buffers[d.pipe[0]], d.pipe[0]);
    }
  }

  /** So for a fixed length, on the feed alone. */
  lemma FixedPictureDequeuedIff(c: Setting, d: Device, feed: Feed)
    requires Exact(c, d) && FixedLength(c) && d.open && d.streaming && d.pipe != []
    ensures DQBuf(c, d, true, feed).1.Dequeued? <==>
              feed.Connected? && |feed.incoming| >= c.Expected() && BroughtBeforeHangUp(feed.turns) >= c.Expected()
  {
    DequeueSucceedsIff(c, d, true, feed);
    assert d.pipe[0] in d.pipe;
    assert BufferOk(c, d.buffers[d.pipe[0]], d.pipe[0]);
    FixedPictureAcceptedIff(c, d.buffers[d.pipe[0]], feed);
  }

  /** And for a compressed picture, by what its socket says at the end. */
  lemma CompressedPictureDequeuedIff(c: Setting, d: Device, feed: Feed)
    requires Exact(c, d) && (c.format == MJPEG || c.format == JPEG) && d.open && d.streaming && d.pipe != []
    ensures DQBuf(c, d, true, feed).1.Dequeued? <==>
              && feed.Connected? && |feed.incoming| > 0 && c.BufferBytes() > 0
              && BroughtBeforeHangUp(feed.turns) > 0 && ReadEndsWell(|feed.incoming|, c.BufferBytes(), feed.turns)
  {
    DequeueSucceedsIff(c, d, true, feed);
    assert d.pipe[0] in d.pipe;
    assert BufferOk(c, d.buffers[d.pipe[0]], d.pipe[0]);
    CompressedPictureAcceptedIff(c, d.buffers[d.pipe[0]], feed);
  }

  // ----- the other calls -----

  /** Every other slot is as it was. */
  ghost predicate OnlySlot(d: Device, after: Device, slot: nat) {
    && |after.buffers| == |d.buffers| && after.count == d.count && after.open == d.open
    && after.streaming == d.streaming
    && forall s | 0 <= s < |d.buffers| && s != slot :: after.buffers[s] == d.buffers[s]
  }

  /** With queue and pipe in agreement QBUF takes exactly the live, mapped, unqueued slots, at the pipe's tail. */
  lemma QueueSucceedsIff(c: Setting, d: Device, capture: bool, index: nat)
    requires Exact(c, d)
    ensures var (after, reply) := QBuf(c, d, capture, index);
            && (reply == Done <==>
                  && d.open && capture && index < d.count
                  && d.buffers[index].mapped.Some? && !d.buffers[index].queued)
            && (reply == Done ==>
                  && OnlySlot(d, after, index) && after.buffers[index] == d.buffers[index].(queued := true)
                  && after.pipe == if d.streaming then d.pipe + [index] else [])
            && (reply != Done ==> after == d)
  {
    OrderlyCallsNeverMisfire(c, d, QueueBuffer(capture, index));
  }

  /** mmap answers with the slot its offset names, mapped now if it was not. */
  lemma MapSucceedsIff(c: Config, d: Device, length: nat, offset: nat, granted: Option<nat>)
    requires Sound(c, d) && c.BufferBytes() > 0
    ensures var (after, reply) := MMap(d, length, offset, granted);
            && (reply.MappedAt? <==>
                  && d.open && length == c.BufferBytes()
                  && exists slot: nat :: slot < d.count && d.buffers[slot].offset == offset
                       && (d.buffers[slot].mapped.Some? || granted.Some?))
            && (!reply.MappedAt? ==> after == d)
            && forall slot: nat | slot < d.count && d.buffers[slot].offset == offset && reply.MappedAt? ::
                 && OnlySlot(d, after, slot) && MapsAddress(after.buffers[slot], reply.address)
                 && after.buffers[slot].queued == d.buffers[slot].queued
                 && (d.buffers[slot].mapped.Some? ==> after == d)
  {
    forall slot: nat | slot < d.count && d.buffers[slot].offset == offset
      ensures SlotAtOffset(d, offset, 0) == Some(slot)
    {
      OffsetsNameSlots(c, d, slot);
    }
    var found := SlotAtOffset(d, offset, 0);
    if found.Some? {
      assert BufferOk(c, d.buffers[found.value], found.value);
    }
  }

  lemma OneSlotPerAddress(c: Config, d: Device, address: nat, one: nat, other: nat)
    requires Sound(c, d) && one < MAX_BUFFERS && other < MAX_BUFFERS
    requires MapsAddress(d.buffers[one], address) && MapsAddress(d.buffers[other], address)
    ensures one == other
  {
  }

  /** munmap takes exactly the address of a live slot that is not queued, and then that slot has no memory. */
  lemma UnmapSucceedsIff(c: Config, d: Device, address: nat)
    requires Sound(c, d)
    ensures var (after, reply) := MUnmap(d, address);
            && (reply == Done <==>
                  exists slot: nat ::
                    slot < d.count && MapsAddress(d.buffers[slot], address) && !d.buffers[slot].queued)
            && (reply != Done ==> after == d)
            && forall slot: nat | slot < d.count && MapsAddress(d.buffers[slot], address) && reply == Done ::
                 OnlySlot(d, after, slot) && after.buffers[slot] == d.buffers[slot].(mapped := None)
  {
    var found := SlotAtAddress(d, address, 0);
    forall slot: nat | slot < d.count && MapsAddress(d.buffers[slot], address) ensures found == Some(slot) {
      OneSlotPerAddress(c, d, address, found.value, slot);
    }
  }

  /** What was mapped by mmap is unmapped by munmap of the address it answered with, unless it is queued. */
  lemma MapThenUnmap(c: Config, d: Device, length: nat, offset: nat, granted: Option<nat>)
    requires Sound(c, d) && NewAddress(d, granted) && MMap(d, length, offset, granted).1.MappedAt?
    requires forall s | 0 <= s < d.count :: d.buffers[s].mapped.None?
    ensures var (mapped, reply) := MMap(d, length, offset, granted);
            MUnmap(mapped, reply.address) == (d, Done)
  {
    var (mapped, reply) := MMap(d, length, offset, granted);
    MMapKeepsSound(c, d, length, offset, granted);
    var slot := SlotAtOffset(d, offset, 0).value;
    assert BufferOk(c, d.buffers[slot], slot);
    assert MapsAddress(mapped.buffers[slot], reply.address);
    UnmapSucceedsIff(c, mapped, reply.address);
    assert MUnmap(mapped, reply.address).0.buffers == d.buffers;
  }

  /** REQBUFS gives what was wanted, four at most, unless a buffer is too big; none is mapped or queued. */
  lemma RequestSucceedsIff(c: Config, d: Device, capture: bool, mmap: bool, wanted: nat)
    requires Sound(c, d)
    ensures var (after, reply) := ReqBufs(c, d, capture, mmap, wanted);
            && (reply.Allocated? <==>
                  d.open && capture && mmap && (wanted == 0 || c.BufferBytes() <= 4194304))
            && (reply.Allocated? ==> reply.count == after.count == Least(wanted, 4))
            && (reply.Allocated? ==> forall s | 0 <= s < after.count ::
                  after.buffers[s].mapped.None? && !after.buffers[s].queued && after.buffers[s].size == c.BufferBytes())
            && (d.open && capture && mmap && !reply.Allocated? ==> after.count == 0)
            && after.pipe == d.pipe && after.streaming == d.streaming
  {
  }
}
