/** When a client gets a frame, loses it, or is hung up on: every condition is on what the kernel and the clock say. */
module SockCtxAnswers {
  import opened Bytes
  import opened SockCtx
  import opened SockCtxProofs

  // ----- the clock -----

  const NS_PER_S: int := 1000000000
  const NS_PER_MS: int := 1000000

  /** A time as clock_gettime gives it. */
  predicate Normal(t: Timespec) {
    0 <= t.nsec < NS_PER_S
  }

  function Nanoseconds(t: Timespec): int {
    t.sec * NS_PER_S + t.nsec
  }

  /** The computed milliseconds are less than one away from the time that has passed, on either side. */
  lemma ElapsedIsWithinAMillisecond(since: Timespec, now: Timespec)
    requires Normal(since) && Normal(now)
    ensures var passed := Nanoseconds(now) - Nanoseconds(since);
            passed - NS_PER_MS < ElapsedMs(since, now) * NS_PER_MS < passed + NS_PER_MS
  {
    var ns := now.nsec - since.nsec;
    assert -NS_PER_MS < ns - TruncDiv(ns, 1000000) * NS_PER_MS < NS_PER_MS;
  }

  /** The timeout may strike most of a millisecond early when the second has turned over. */
  lemma ElapsedMayRunAhead()
    ensures var since, now := Timespec(0, 999999999), Timespec(1, 0);
            ElapsedMs(since, now) == 1 && Nanoseconds(now) - Nanoseconds(since) == 1
  {
  }

  // ----- one write -----

  /** The kernel fails, or has no room a tenth of a second after the write began. */
  predicate GivesUp(turn: SendTurn, start: Timespec) {
    turn.Failed? || (turn.WouldBlock? && ElapsedMs(start, turn.now) >= 100)
  }

  /** The bytes the kernel grants before it fails or has had no room for too long. */
  function Granted(start: Timespec, turns: seq<SendTurn>): nat
    decreases |turns|
  {
    if turns == [] || GivesUp(turns[0], start) then 0
    else (if turns[0].Took? then turns[0].n else 0) + Granted(start, turns[1..])
  }

  /** Why a write that was granted too little ended: the kernel failed, or the time was up. */
  function EndsWith(start: Timespec, turns: seq<SendTurn>): SendResult
    decreases |turns|
  {
    if turns == [] then TimedOut
    else if GivesUp(turns[0], start) then if turns[0].Failed? then SendFailed else TimedOut
    else EndsWith(start, turns[1..])
  }

  /** A write takes all that is granted, up to the whole frame, and succeeds iff that is the whole frame. */
  lemma {:induction false} WriteSucceedsIff(size: nat, start: Timespec, turns: seq<SendTurn>)
    ensures var (sent, result) := Transfer(size, start, turns);
            && (result == SentWhole <==> Granted(start, turns) >= size)
            && sent == (if Granted(start, turns) >= size then size else Granted(start, turns))
            && (result != SentWhole ==> result == EndsWith(start, turns))
    decreases |turns|
  {
    if size > 0 && turns != [] {
      match turns[0]
      case Failed =>
      case WouldBlock(now) => WriteSucceedsIff(size, start, turns[1..]);
      case Took(n) => WriteSucceedsIff(size - if n <= size then n else size, start, turns[1..]);
    }
  }

  // ----- one client's turn -----

  /** Three seconds since the last frame it got, or since it joined. */
  predicate IsIdle(c: Client, now: Timespec) {
    ElapsedMs(c.lastTime, now) >= 3000
  }

  predicate IsSkipped(h: Hub, a: Answer)
    requires h.offered != []
  {
    h.allowDrops && CannotTakeWholeFrame(a.unsentBytes, a.capacityBytes, |h.offered[|h.offered| - 1]|)
  }

  predicate GetsAll(h: Hub, a: Answer)
    requires h.offered != []
  {
    Granted(a.start, a.turns) >= |h.offered[|h.offered| - 1]|
  }

  /**
   * A client's turn hangs up on it iff it is idle, or the frame is offered to it and is not taken whole, or
   * the socket closes after one frame. It gets the frame whole iff it is neither idle nor skipped and is
   * granted all of it, and loses it whole iff it is skipped.
   */
  lemma TurnEndsIff(h: Hub, i: nat, now: Timespec, a: Answer)
    requires Shaped(h) && i < SOCK_MAX_CLIENTS && h.offered != [] && h.clients[i].fd >= 0
    ensures var (c, w, after) := (h.clients[i], h.wires[i], Serve(h, i, now, a));
            var (last, offeredIt) := (|h.offered| - 1, !IsIdle(c, now) && !IsSkipped(h, a));
            && Shaped(after)
            && (after.clients[i].fd < 0 <==> IsIdle(c, now) || (offeredIt && (!GetsAll(h, a) || h.oneFrame)))
            && (after.wires[i].picks == w.picks + [last] <==> offeredIt && GetsAll(h, a))
            && (offeredIt && GetsAll(h, a) ==> after.wires[i].bytes == w.bytes + h.offered[last])
            && (after.clients[i].numDropped == c.numDropped + 1 <==> !IsIdle(c, now) && IsSkipped(h, a))
            && (!offeredIt ==> after.wires[i] == w)
  {
    var frame := h.offered[|h.offered| - 1];
    WriteSucceedsIff(|frame|, a.start, a.turns);
    assert frame[..|frame|] == frame;
    assert |h.wires[i].picks + [|h.offered| - 1]| > |h.wires[i].picks|;
  }

  /**
   * Who is skipped: never one that owes nothing; of a frame the socket can hold exactly one that owes a
   * whole frame or more; of a larger one everybody who owes anything. Owing more never helps.
   */
  lemma WhoIsSkipped(unsent: nat, more: nat, capacity: nat, offered: nat)
    requires unsent <= more && offered > 0
    ensures unsent == 0 ==> !CannotTakeWholeFrame(unsent, capacity, offered)
    ensures CannotTakeWholeFrame(unsent, capacity, offered) ==> CannotTakeWholeFrame(more, capacity, offered)
    ensures unsent + offered <= capacity && unsent < offered ==> !CannotTakeWholeFrame(unsent, capacity, offered)
    ensures offered <= capacity ==> CannotTakeWholeFrame(offered, capacity, offered)
    ensures offered <= capacity ==> !CannotTakeWholeFrame(offered - 1, capacity, offered)
    ensures offered > capacity ==> CannotTakeWholeFrame(1, capacity, offered)
  {
  }

  // ----- every run of writes -----

  /** What a slot's turn depends on. */
  ghost predicate SameSlot(h: Hub, g: Hub, i: nat)
    requires Shaped(h) && Shaped(g) && i < SOCK_MAX_CLIENTS
  {
    && h.clients[i] == g.clients[i] && h.wires[i] == g.wires[i]
    && h.offered == g.offered && h.oneFrame == g.oneFrame && h.allowDrops == g.allowDrops
  }

  lemma SameSlotSameClose(h: Hub, g: Hub, i: nat)
    requires Shaped(h) && Shaped(g) && i < SOCK_MAX_CLIENTS && SameSlot(h, g, i)
    ensures Shaped(CloseSlot(h, i)) && Shaped(CloseSlot(g, i)) && SameSlot(CloseSlot(h, i), CloseSlot(g, i), i)
  {
  }

  lemma SameSlotUpdated(h: Hub, g: Hub, i: nat, c: Client, w: Wire)
    requires Shaped(h) && Shaped(g) && i < SOCK_MAX_CLIENTS && SameSlot(h, g, i)
    ensures SameSlot(h.(wires := h.wires[i := w]), g.(wires := g.wires[i := w]), i)
    ensures SameSlot(h.(clients := h.clients[i := c]), g.(clients := g.clients[i := c]), i)
    ensures SameSlot(h.(clients := h.clients[i := c], wires := h.wires[i := w]),
                     g.(clients := g.clients[i := c], wires := g.wires[i := w]), i)
  {
  }

  lemma SameSlotSameDelivery(h: Hub, g: Hub, i: nat, now: Timespec, a: Answer)
    requires Shaped(h) && Shaped(g) && i < SOCK_MAX_CLIENTS && h.offered != [] && SameSlot(h, g, i)
    ensures Shaped(Deliver(h, i, now, a)) && Shaped(Deliver(g, i, now, a))
    ensures SameSlot(Deliver(h, i, now, a), Deliver(g, i, now, a), i)
  {
    var c, w, last := h.clients[i], h.wires[i], |h.offered| - 1;
    var frame := h.offered[last];
    var (sent, result) := Transfer(|frame|, a.start, a.turns);
    var cut := w.(bytes := w.bytes + frame[..sent]);
    var busy, whole := c.(lastTime := now, numFrames := c.numFrames + 1), cut.(picks := w.picks + [last]);
    SameSlotUpdated(h, g, i, busy, cut);
    SameSlotUpdated(h, g, i, busy, whole);
    SameSlotSameClose(h.(wires := h.wires[i := cut]), g.(wires := g.wires[i := cut]), i);
    SameSlotSameClose(h.(clients := h.clients[i := busy], wires := h.wires[i := whole]),
                      g.(clients := g.clients[i := busy], wires := g.wires[i := whole]), i);
  }

  lemma SameSlotSameTurn(h: Hub, g: Hub, i: nat, now: Timespec, a: Answer)
    requires Shaped(h) && Shaped(g) && i < SOCK_MAX_CLIENTS && h.offered != [] && SameSlot(h, g, i)
    ensures Shaped(Serve(h, i, now, a)) && Shaped(Serve(g, i, now, a))
    ensures SameSlot(Serve(h, i, now, a), Serve(g, i, now, a), i)
  {
    var c := h.clients[i];
    SameSlotSameDelivery(h, g, i, now, a);
    SameSlotSameClose(h, g, i);
    SameSlotUpdated(h, g, i, c.(numDropped := c.numDropped + 1), h.wires[i]);
  }

  lemma {:induction false} LaterTurnsLeaveSlot(h: Hub, from: nat, now: Timespec, answers: seq<Answer>, i: nat)
    requires Shaped(h) && i < from <= SOCK_MAX_CLIENTS && h.offered != [] && |answers| == SOCK_MAX_CLIENTS
    ensures Shaped(ServeFrom(h, from, now, answers)) && SameSlot(ServeFrom(h, from, now, answers), h, i)
    decreases SOCK_MAX_CLIENTS - from
  {
    if from < SOCK_MAX_CLIENTS {
      ServeOnlySlot(h, from, now, answers[from], i);
      LaterTurnsLeaveSlot(Serve(h, from, now, answers[from]), from + 1, now, answers, i);
    }
  }

  /** In the loop over all slots, slot `i` fares as in its own turn. */
  lemma {:induction false} LoopIsTheTurn(h: Hub, from: nat, now: Timespec, answers: seq<Answer>, i: nat)
    requires Shaped(h) && from <= i < SOCK_MAX_CLIENTS && h.offered != [] && |answers| == SOCK_MAX_CLIENTS
    ensures Shaped(ServeFrom(h, from, now, answers)) && Shaped(Serve(h, i, now, answers[i]))
    ensures SameSlot(ServeFrom(h, from, now, answers), Serve(h, i, now, answers[i]), i)
    decreases SOCK_MAX_CLIENTS - from
  {
    var next := Serve(h, from, now, answers[from]);
    if from == i {
      ServeOnlySlot(h, i, now, answers[i], if i == 0 then 1 else 0);
      LaterTurnsLeaveSlot(next, i + 1, now, answers, i);
    } else {
      ServeOnlySlot(h, from, now, answers[from], i);
      LoopIsTheTurn(next, from + 1, now, answers, i);
      SameSlotSameTurn(next, h, i, now, answers[i]);
    }
  }

  /** Frame after frame, offered before the slot is idle, not skipped and granted whole. */
  ghost predicate WellServed(c: Client, e: seq<Event>, i: nat, allowDrops: bool)
    requires i < SOCK_MAX_CLIENTS
    decreases |e|
  {
    e != [] ==>
      && e[0].Writing? && WellFormed(e[0]) && !IsIdle(c, e[0].now)
      && Granted(e[0].answers[i].start, e[0].answers[i].turns) >= |e[0].frame|
      && !(allowDrops && CannotTakeWholeFrame(e[0].answers[i].unsentBytes, e[0].answers[i].capacityBytes, |e[0].frame|))
      && WellServed(c.(lastTime := e[0].now), e[1..], i, allowDrops)
  }

  function Frames(events: seq<Event>): seq<seq<byte>>
  {
    if events == [] then [] else (if events[0].Writing? then [events[0].frame] else []) + Frames(events[1..])
  }

  lemma ServedOnce(h: Hub, e: Event, i: nat)
    requires Shaped(h) && i < SOCK_MAX_CLIENTS && h.clients[i].fd >= 0 && !h.oneFrame
    requires WellServed(h.clients[i], [e], i, h.allowDrops)
    ensures var after := Step(h, e);
            && Shaped(after) && after.clients[i].fd == h.clients[i].fd && after.clients[i].lastTime == e.now
            && after.wires[i].bytes == h.wires[i].bytes + e.frame
            && after.oneFrame == h.oneFrame && after.allowDrops == h.allowDrops
  {
    var begun := h.(offered := h.offered + [e.frame]);
    LoopIsTheTurn(begun, 0, e.now, e.answers, i);
    TurnEndsIff(begun, i, e.now, e.answers[i]);
    WriteSucceedsIff(|e.frame|, e.answers[i].start, e.answers[i].turns);
  }

  lemma {:induction false} ServedLastTimeOnly(c: Client, d: Client, events: seq<Event>, i: nat, allowDrops: bool)
    requires i < SOCK_MAX_CLIENTS && c.lastTime == d.lastTime && WellServed(c, events, i, allowDrops)
    ensures WellServed(d, events, i, allowDrops)
    decreases |events|
  {
    if events != [] {
      ServedLastTimeOnly(c.(lastTime := events[0].now), d.(lastTime := events[0].now), events[1..], i, allowDrops);
    }
  }

  /**
   * Over any run of writes, a client of a socket that does not close after one frame that is never idle,
   * never skipped and always granted the frame stays connected and is sent every one of them, end to end.
   */
  lemma {:induction false} ServedClientStays(h: Hub, events: seq<Event>, i: nat, after: Hub)
    requires Shaped(h) && i < SOCK_MAX_CLIENTS && h.clients[i].fd >= 0 && !h.oneFrame
    requires WellServed(h.clients[i], events, i, h.allowDrops) && Reaches(h, events, after)
    ensures Shaped(after) && after.clients[i].fd == h.clients[i].fd
    ensures after.wires[i].bytes == h.wires[i].bytes + Concat(Frames(events))
    decreases |events|
  {
    if events == [] {
      assert h.wires[i].bytes + [] == h.wires[i].bytes;
    } else {
      var next := Step(h, events[0]);
      ServedOnce(h, events[0], i);
      ServedLastTimeOnly(h.clients[i].(lastTime := events[0].now), next.clients[i], events[1..], i, h.allowDrops);
      ServedClientStays(next, events[1..], i, after);
      Regroup(h.wires[i].bytes, events[0].frame, Concat(Frames(events[1..])));
    }
  }

  // ----- joining -----

  /** A connection is taken iff a slot is free, into it, with nothing sent yet, and asks for a keyframe. */
  lemma AdmittedIff(h: Hub, p: Pending)
    requires Counted(h)
    ensures var after := Admit(h, p);
            && (after == h <== h.numClients == SOCK_MAX_CLIENTS)
            && (h.numClients < SOCK_MAX_CLIENTS ==>
                  && after.numClients == h.numClients + 1 && after.needKeyframe
                  && exists i: nat :: i < SOCK_MAX_CLIENTS && h.clients[i].fd < 0
                       && after.clients == h.clients[i := Client(p.fd, p.at, 0, 0)]
                       && after.wires == h.wires[i := Wire(|h.offered|, [], [])])
  {
    FullIffNoneFree(h.clients);
    var slot := FreeSlot(h.clients, 0);
    if slot.Some? {
      OccupiedUpdate(h.clients, slot.value, Client(p.fd, p.at, 0, 0));
    }
  }

  lemma {:induction false} FullIffNoneFree(clients: seq<Client>)
    ensures Occupied(clients) == |clients| <==> forall i | 0 <= i < |clients| :: clients[i].fd >= 0
  {
    if clients != [] {
      FullIffNoneFree(clients[1..]);
      OccupiedAtMost(clients[1..]);
      if Occupied(clients) == |clients| {
        forall i | 0 <= i < |clients| ensures clients[i].fd >= 0 {
          assert i > 0 ==> clients[1..][i - 1] == clients[i];
        }
      }
    }
  }
}
