/** From the capture socket to the buffer the video stack reads: a whole picture or none at all. */
module EndToEnd {
  import opened Bytes
  import opened FrameGeometry
  import opened Imposter
  import opened ImposterProofs
  import opened ImposterAnswers
  import Sock = SockCtx
  import SockProofs = SockCtxProofs

  /** A connection of the capture socket, still open or since hung up on. */
  ghost predicate IsConnection(h: Sock.Hub, w: Sock.Wire)
    requires Sock.Shaped(h)
  {
    || (exists i | 0 <= i < Sock.SOCK_MAX_CLIENTS :: h.clients[i].fd >= 0 && h.wires[i] == w)
    || (exists k | 0 <= k < |h.ended| :: h.ended[k] == w)
  }

  lemma ConnectionsAreFaithful(h: Sock.Hub, w: Sock.Wire)
    requires SockProofs.Faithful(h) && SockProofs.Prompt(h) && IsConnection(h, w)
    ensures SockProofs.WholeOrCutAtTheEnd(w, h.offered) && SockProofs.Led(w, h.offered, h.oneFrame)
  {
    if i :| 0 <= i < Sock.SOCK_MAX_CLIENTS && h.clients[i].fd >= 0 && h.wires[i] == w {
      assert SockProofs.SlotOk(h, i, |h.offered|) && SockProofs.SlotPrompt(h, i, |h.offered|);
    }
  }

  /**
   * What a fetch may find: `h` is any state of a capture socket since it opened, `w` one of its connections
   * and `incoming` the part of its bytes that reaches the imposter before its last read.
   */
  ghost predicate Found(
    start: Sock.Hub, events: seq<SockProofs.Event>, h: Sock.Hub, w: Sock.Wire, incoming: seq<byte>)
  {
    && SockProofs.JustOpened(start) && SockProofs.Reaches(start, events, h) && SockProofs.HonestKernel(start, events)
    && Sock.Shaped(h) && IsConnection(h, w) && incoming <= w.bytes
  }

  lemma FoundIsLed(start: Sock.Hub, events: seq<SockProofs.Event>, h: Sock.Hub, w: Sock.Wire, incoming: seq<byte>)
    requires Found(start, events, h, w, incoming)
    ensures SockProofs.Led(w, h.offered, h.oneFrame) && h.oneFrame == start.oneFrame
  {
    SockProofs.OpenedIsFaithful(start);
    SockProofs.RunsStayPrompt(start, events, h);
    ConnectionsAreFaithful(h, w);
  }

  /**
   * Whatever the capture socket did since it opened and whatever calls the imposter took: when DQBUF hands
   * a buffer over, it holds exactly the first frame offered after that connection was accepted, and when
   * the fetch fails the buffer reports nothing and waits its turn again.
   */
  lemma WholePictureOrNone(
    start: Sock.Hub, events: seq<SockProofs.Event>, h: Sock.Hub, w: Sock.Wire,
    c: Setting, calls: seq<Call>, d: Device, incoming: seq<byte>, turns: seq<ReadTurn>)
    requires Found(start, events, h, w, incoming) && Reaches(c, CLOSED, calls, d)
    requires FixedLength(c) && forall k | 0 <= k < |h.offered| :: |h.offered[k]| == c.Expected()
    ensures Shaped(d) && QueuedAreBacked(d)
    ensures var (after, reply) := DQBuf(c, d, true, Connected(incoming, turns));
            && (reply.Dequeued? ==>
                  && d.pipe != [] && d.pipe[0] < d.count && w.joined < |h.offered|
                  && var b := after.buffers[d.pipe[0]];
                  && reply.index == d.pipe[0] && reply.bytesUsed == c.Expected() && !b.queued
                  && b.mapped.Some? && b.mapped.value.bytes == h.offered[w.joined])
            && (reply == Refused(FetchFailed) ==>
                  && d.pipe != [] && d.pipe[0] < d.count
                  && var b := after.buffers[d.pipe[0]];
                  b.bytesUsed == 0 && b.queued && after.pipe == d.pipe[1..] + [d.pipe[0]])
  {
    EveryReachableIsSound(c, calls, d);
    FoundIsLed(start, events, h, w, incoming);
    DequeueIsWholeOrRequeued(c, d, Connected(incoming, turns));
    FixedBufferIsOnePicture(c.format, c.width, c.height, 0);
    if DQBuf(c, d, true, Connected(incoming, turns)).1.Dequeued? {
      SockProofs.FirstSentIsFirstOffered(w, h.offered, c.Expected());
      assert incoming[..c.Expected()] == w.bytes[..c.Expected()];
    }
  }

  /**
   * And a picture does arrive: on an orderly stream with a buffer queued DQBUF succeeds if and only if
   * that first frame was sent whole, reached the imposter whole, and was read before any hang-up report.
   */
  lemma PictureArrivesIff(
    start: Sock.Hub, events: seq<SockProofs.Event>, h: Sock.Hub, w: Sock.Wire,
    c: Setting, calls: seq<Call>, d: Device, incoming: seq<byte>, turns: seq<ReadTurn>)
    requires Found(start, events, h, w, incoming) && Reaches(c, CLOSED, calls, d) && Orderly(c, CLOSED, calls)
    requires FixedLength(c) && forall k | 0 <= k < |h.offered| :: |h.offered[k]| == c.Expected()
    requires d.open && d.streaming && d.pipe != []
    ensures Shaped(d) && QueuedAreBacked(d)
    ensures DQBuf(c, d, true, Connected(incoming, turns)).1.Dequeued? <==>
              && w.picks != [] && w.joined < |h.offered| && h.offered[w.joined] <= incoming
              && BroughtBeforeHangUp(turns) >= |h.offered[w.joined]|
  {
    EveryReachableIsSound(c, calls, d);
    ClosedIsSound(c);
    OrderlyRunsAreExact(c, CLOSED, calls, d);
    FoundIsLed(start, events, h, w, incoming);
    FixedPictureDequeuedIff(c, d, Connected(incoming, turns));
    FixedBufferIsOnePicture(c.format, c.width, c.height, 0);
    if |incoming| >= c.Expected() {
      SockProofs.FirstSentIsFirstOffered(w, h.offered, c.Expected());
      assert incoming[..c.Expected()] == w.bytes[..c.Expected()];
    }
  }

  // ----- compressed pictures -----

  predicate Compressed(c: Config) {
    c.format == MJPEG || c.format == JPEG
  }

  /** The front of a connection is its first frame iff that frame was sent whole and is as long. */
  lemma FrontIsFirstFrame(w: Sock.Wire, offered: seq<seq<byte>>, incoming: seq<byte>, total: nat)
    requires SockProofs.Led(w, offered, false) && incoming <= w.bytes && 0 < total <= |incoming|
    ensures (w.joined < |offered| && incoming[..total] == offered[w.joined])
       <==> (w.picks != [] && w.joined < |offered| && total == |offered[w.joined]|)
  {
    assert incoming[..total] == w.bytes[..total];
  }

  /** The picture a successful DQBUF reports. */
  function Picture(after: Device, reply: Reply): seq<byte>
    requires reply.Dequeued? && reply.index < |after.buffers|
    requires after.buffers[reply.index].mapped.Some?
    requires reply.bytesUsed <= |after.buffers[reply.index].mapped.value.bytes|
  {
    after.buffers[reply.index].mapped.value.bytes[..reply.bytesUsed]
  }

  lemma DequeuedIsTheFront(c: Setting, d: Device, incoming: seq<byte>, turns: seq<ReadTurn>)
    requires Sound(c, d) && DQBuf(c, d, true, Connected(incoming, turns)).1.Dequeued?
    ensures var (after, reply) := DQBuf(c, d, true, Connected(incoming, turns));
            && reply.index < |after.buffers| && Backed(after.buffers[reply.index])
            && reply.bytesUsed <= after.buffers[reply.index].size == c.BufferBytes()
            && reply.bytesUsed == Least(Least(|incoming|, c.BufferBytes()), BroughtBeforeHangUp(turns))
            && 0 < reply.bytesUsed <= |incoming| && Picture(after, reply) == incoming[..reply.bytesUsed]
  {
    assert BufferOk(c, d.buffers[d.pipe[0]], d.pipe[0]);
    AcceptedIsTheFront(c, d.buffers[d.pipe[0]], Connected(incoming, turns));
  }

  /**
   * A compressed picture handed over is the first frame offered after the connection was accepted if and
   * only if that frame was sent whole and the read stopped at its last byte: what reached the imposter,
   * what fits the buffer and what the reads before a hang-up report may bring have its length as their least.
   */
  lemma CompressedPictureIff(
    start: Sock.Hub, events: seq<SockProofs.Event>, h: Sock.Hub, w: Sock.Wire,
    c: Setting, calls: seq<Call>, d: Device, incoming: seq<byte>, turns: seq<ReadTurn>)
    requires Found(start, events, h, w, incoming) && Reaches(c, CLOSED, calls, d) && Compressed(c)
    ensures Shaped(d) && QueuedAreBacked(d)
    ensures var (after, reply) := DQBuf(c, d, true, Connected(incoming, turns));
            reply.Dequeued? ==>
              && reply.index < |after.buffers| && Backed(after.buffers[reply.index])
              && reply.bytesUsed <= after.buffers[reply.index].size
              && ((w.joined < |h.offered| && Picture(after, reply) == h.offered[w.joined])
                  <==> && w.picks != [] && w.joined < |h.offered|
                       && |h.offered[w.joined]|
                          == Least(Least(|incoming|, c.BufferBytes()), BroughtBeforeHangUp(turns)))
  {
    EveryReachableIsSound(c, calls, d);
    FoundIsLed(start, events, h, w, incoming);
    var reply := DQBuf(c, d, true, Connected(incoming, turns)).1;
    if reply.Dequeued? {
      DequeuedIsTheFront(c, d, incoming, turns);
      FrontIsFirstFrame(w, h.offered, incoming, reply.bytesUsed);
    }
  }

  /**
   * From a socket that closes after one frame: if and only if that frame was sent whole, all of it reached
   * the imposter, it fits the buffer, and no hang-up was reported before its last byte was read.
   */
  lemma OneFramePictureIff(
    start: Sock.Hub, events: seq<SockProofs.Event>, h: Sock.Hub, w: Sock.Wire,
    c: Setting, calls: seq<Call>, d: Device, incoming: seq<byte>, turns: seq<ReadTurn>)
    requires Found(start, events, h, w, incoming) && Reaches(c, CLOSED, calls, d) && Compressed(c) && start.oneFrame
    ensures Shaped(d) && QueuedAreBacked(d)
    ensures var (after, reply) := DQBuf(c, d, true, Connected(incoming, turns));
            reply.Dequeued? ==>
              && reply.index < |after.buffers| && Backed(after.buffers[reply.index])
              && reply.bytesUsed <= after.buffers[reply.index].size
              && ((w.joined < |h.offered| && Picture(after, reply) == h.offered[w.joined])
                  <==> && w.picks == [w.joined] && incoming == w.bytes
                       && |w.bytes| <= c.BufferBytes() && |w.bytes| <= BroughtBeforeHangUp(turns))
  {
    CompressedPictureIff(start, events, h, w, c, calls, d, incoming, turns);
    FoundIsLed(start, events, h, w, incoming);
    if w.picks != [] {
      assert SockProofs.OneFrameOnly(w, h.offered);
      assert |incoming| == |w.bytes| ==> incoming == w.bytes;
    }
  }

  // ----- the input on which it fails at the sender -----

  lemma {:induction false} NobodyLeft(h: Sock.Hub, i: nat, now: Sock.Timespec, answers: seq<Sock.Answer>)
    requires Sock.Shaped(h) && i <= Sock.SOCK_MAX_CLIENTS && h.offered != [] && |answers| == Sock.SOCK_MAX_CLIENTS
    requires forall k | i <= k < Sock.SOCK_MAX_CLIENTS :: h.clients[k].fd < 0
    ensures Sock.ServeFrom(h, i, now, answers) == h
    decreases Sock.SOCK_MAX_CLIENTS - i
  {
    if i < Sock.SOCK_MAX_CLIENTS {
      NobodyLeft(h, i + 1, now, answers);
    }
  }

  lemma SendFailsInTheMiddle(
    begun: Sock.Hub, now: Sock.Timespec, a: Sock.Answer, x: byte, y: byte)
    requires Sock.Shaped(begun) && begun.offered == [[x, y]]
    requires begun.clients[0].fd >= 0 && begun.wires[0] == Sock.Wire(0, [], [])
    requires Sock.ElapsedMs(begun.clients[0].lastTime, now) < Sock.SOCK_IDLE_TIMEOUT_MS
    requires a.unsentBytes == 0 && a.turns == [Sock.Took(1), Sock.Failed]
    ensures Sock.Serve(begun, 0, now, a)
         == Sock.CloseSlot(begun.(wires := begun.wires[0 := Sock.Wire(0, [], [x])]), 0)
  {
    assert a.turns[1..] == [Sock.Failed];
    assert Sock.Transfer(2, a.start, a.turns) == (1, Sock.SendFailed);
    assert [] + [x, y][..1] == [x];
  }

  lemma OneByteIsAccepted(c: Config, b: Buffer, x: byte)
    requires Compressed(c) && Backed(b) && b.size >= 2
    ensures var (after, ok) := Fetch(c, b, Connected([x], [Upto(1), Upto(1)]));
            ok && after.bytesUsed == 1
  {
    var turns := [Upto(1), Upto(1)];
    assert turns[1..] == [Upto(1)];
    assert ReadTotal(0, b.size - 1, turns[1..]) == (0, true);
  }

  lemma AcceptThenWrite(
    start: Sock.Hub, p: Sock.Pending, frame: seq<byte>, now: Sock.Timespec, answers: seq<Sock.Answer>)
    requires Sock.Shaped(start) && start.listening && |answers| == Sock.SOCK_MAX_CLIENTS
    ensures var h := Sock.Write(Sock.Admit(start, p), frame, now, answers);
            SockProofs.Reaches(start, [SockProofs.Accepting([p]), SockProofs.Writing(frame, now, answers)], h)
  {
    var e := SockProofs.Writing(frame, now, answers);
    assert Sock.AdmitAll(start, [p]) == Sock.Admit(start, p);
    assert [SockProofs.Accepting([p]), e][1..] == [e];
    assert [e][1..] == [];
  }

  /**
   * A one-frame socket whose send takes the first of two bytes and then fails hangs up on a connection
   * carrying one byte; the imposter, told of no hang-up, accepts that byte as a compressed picture.
   */
  lemma SenderCutsCompressed(
    start: Sock.Hub, p: Sock.Pending, now: Sock.Timespec, answers: seq<Sock.Answer>, x: byte, y: byte,
    c: Config, b: Buffer)
    requires SockProofs.JustOpened(start) && start.listening && start.oneFrame
    requires Sock.ElapsedMs(p.at, now) < Sock.SOCK_IDLE_TIMEOUT_MS
    requires |answers| == Sock.SOCK_MAX_CLIENTS && answers[0].unsentBytes == 0
    requires answers[0].turns == [Sock.Took(1), Sock.Failed]
    requires Compressed(c) && Backed(b) && b.size >= 2
    ensures var h := Sock.Write(Sock.Admit(start, p), [x, y], now, answers);
            && SockProofs.Reaches(start, [SockProofs.Accepting([p]), SockProofs.Writing([x, y], now, answers)], h)
            && h.offered == [[x, y]] && h.ended == [Sock.Wire(0, [], [x])]
    ensures var (after, ok) := Fetch(c, b, Connected([x], [Upto(1), Upto(1)]));
            ok && after.bytesUsed == 1
  {
    OneByteIsAccepted(c, b, x);
    AcceptThenWrite(start, p, [x, y], now, answers);
    assert Sock.FreeSlot(start.clients, 0) == Some(0);
    var admitted := Sock.Admit(start, p);
    var begun := admitted.(offered := admitted.offered + [[x, y]]);
    SendFailsInTheMiddle(begun, now, answers[0], x, y);
    NobodyLeft(Sock.Serve(begun, 0, now, answers[0]), 1, now, answers);
  }
}
