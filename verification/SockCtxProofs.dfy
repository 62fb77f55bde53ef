/** Whole frames or a hang-up: what every client of the capture socket has been sent, over every run. */
module SockCtxProofs {
  import opened Bytes
  import opened SockCtx

  // ----- what a connection carries -----

  ghost predicate InOrder(picks: seq<nat>, from: nat, end: nat) {
    && (forall j | 0 <= j < |picks| :: from <= picks[j] < end)
    && forall j, k | 0 <= j < k < |picks| :: picks[j] < picks[k]
  }

  function Picked(offered: seq<seq<byte>>, picks: seq<nat>): seq<seq<byte>>
    requires forall j | 0 <= j < |picks| :: picks[j] < |offered|
  {
    seq(|picks|, j requires 0 <= j < |picks| => offered[picks[j]])
  }

  /** The picked frames end to end. */
  function Sent(offered: seq<seq<byte>>, picks: seq<nat>): seq<byte>
    requires forall j | 0 <= j < |picks| :: picks[j] < |offered|
  {
    Concat(Picked(offered, picks))
  }

  /** Of the first `seen` frames, those since it joined that it was sent, whole and in order, and no other byte. */
  ghost predicate WholeFrames(w: Wire, offered: seq<seq<byte>>, seen: nat) {
    && w.joined <= seen <= |offered|
    && InOrder(w.picks, w.joined, seen)
    && w.bytes == Sent(offered, w.picks)
  }

  /** Whole frames and then a proper prefix of one later frame. */
  ghost predicate CutShort(w: Wire, offered: seq<seq<byte>>, k: nat) {
    && w.joined <= k < |offered|
    && InOrder(w.picks, w.joined, k)
    && var whole := Sent(offered, w.picks);
       && |whole| <= |w.bytes| < |whole| + |offered[k]|
       && w.bytes == whole + offered[k][..|w.bytes| - |whole|]
  }

  ghost predicate WholeOrCutAtTheEnd(w: Wire, offered: seq<seq<byte>>) {
    WholeFrames(w, offered, |offered|) || exists k: nat :: CutShort(w, offered, k)
  }

  /** An occupied slot after `seen` frames: its bytes, and every frame counted as sent or dropped. */
  ghost predicate SlotOk(h: Hub, i: nat, seen: nat)
    requires Shaped(h) && i < SOCK_MAX_CLIENTS
  {
    var c, w := h.clients[i], h.wires[i];
    c.fd >= 0 ==>
      && WholeFrames(w, h.offered, seen)
      && c.numFrames == |w.picks|
      && c.numFrames + c.numDropped == seen - w.joined
      && (!h.allowDrops ==> c.numDropped == 0)
  }

  /** Slot `k` while the last frame is being offered and the slots before `i` have had their turn. */
  ghost predicate SlotMidway(h: Hub, k: nat, i: nat)
    requires Shaped(h) && k < SOCK_MAX_CLIENTS && h.offered != []
  {
    SlotOk(h, k, if k < i then |h.offered| else |h.offered| - 1)
  }

  ghost predicate Underway(h: Hub, i: nat) {
    && Counted(h) && h.offered != []
    && (forall k | 0 <= k < SOCK_MAX_CLIENTS :: SlotMidway(h, k, i))
    && forall k | 0 <= k < |h.ended| :: WholeOrCutAtTheEnd(h.ended[k], h.offered)
  }

  /** Between calls. */
  ghost predicate Faithful(h: Hub) {
    && Counted(h)
    && (forall k | 0 <= k < SOCK_MAX_CLIENTS :: SlotOk(h, k, |h.offered|))
    && forall k | 0 <= k < |h.ended| :: WholeOrCutAtTheEnd(h.ended[k], h.offered)
  }

  // ----- offering one frame -----

  lemma SentGrows(offered: seq<seq<byte>>, picks: seq<nat>, frame: seq<byte>)
    requires forall j | 0 <= j < |picks| :: picks[j] < |offered|
    ensures Sent(offered + [frame], picks) == Sent(offered, picks)
  {
    assert Picked(offered + [frame], picks) == Picked(offered, picks);
  }

  lemma SentOneMore(offered: seq<seq<byte>>, picks: seq<nat>, k: nat)
    requires k < |offered| && forall j | 0 <= j < |picks| :: picks[j] < |offered|
    ensures Sent(offered, picks + [k]) == Sent(offered, picks) + offered[k]
  {
    assert Picked(offered, picks + [k]) == Picked(offered, picks) + [offered[k]];
    ConcatLast(Picked(offered, picks), offered[k]);
  }

  lemma OfferKeepsWires(w: Wire, offered: seq<seq<byte>>, seen: nat, frame: seq<byte>)
    ensures WholeFrames(w, offered, seen) ==> WholeFrames(w, offered + [frame], seen)
    ensures WholeOrCutAtTheEnd(w, offered) ==> WholeOrCutAtTheEnd(w, offered + [frame])
  {
    if WholeFrames(w, offered, seen) {
      SentGrows(offered, w.picks, frame);
    }
    if WholeFrames(w, offered, |offered|) {
      SentGrows(offered, w.picks, frame);
      assert WholeFrames(w, offered + [frame], |offered| + 1);
    } else if WholeOrCutAtTheEnd(w, offered) {
      var k: nat :| CutShort(w, offered, k);
      SentGrows(offered, w.picks, frame);
      assert CutShort(w, offered + [frame], k);
    }
  }

  /** The connection of slot `i` after its write: whole frames when it succeeded, cut short when not. */
  lemma WriteOutcome(w: Wire, offered: seq<seq<byte>>, sent: nat, after: Wire)
    requires offered != [] && WholeFrames(w, offered, |offered| - 1)
    requires sent <= |offered[|offered| - 1]|
    requires after.joined == w.joined && after.bytes == w.bytes + offered[|offered| - 1][..sent]
    ensures sent < |offered[|offered| - 1]| && after.picks == w.picks ==> CutShort(after, offered, |offered| - 1)
    ensures sent == |offered[|offered| - 1]| && after.picks == w.picks + [|offered| - 1] ==>
      WholeFrames(after, offered, |offered|)
  {
    var last := |offered| - 1;
    SentOneMore(offered, w.picks, last);
    assert offered[last][..|offered[last]|] == offered[last];
  }

  /** At most one connection was hung up on, and it carries whole frames or was cut at the end. */
  ghost predicate EndedGrew(before: seq<Wire>, after: seq<Wire>, offered: seq<seq<byte>>) {
    after == before || exists w: Wire :: after == before + [w] && WholeOrCutAtTheEnd(w, offered)
  }

  lemma DeliverServesSlot(h: Hub, i: nat, now: Timespec, a: Answer)
    requires Counted(h) && h.offered != [] && i < SOCK_MAX_CLIENTS && h.clients[i].fd >= 0
    requires SlotOk(h, i, |h.offered| - 1)
    ensures var after := Deliver(h, i, now, a);
            && SlotOk(after, i, |h.offered|)
            && EndedGrew(h.ended, after.ended, h.offered)
  {
    var w, last := h.wires[i], |h.offered| - 1;
    var frame := h.offered[last];
    var (sent, result) := Transfer(|frame|, a.start, a.turns);
    var cut := w.(bytes := w.bytes + frame[..sent]);
    WriteOutcome(w, h.offered, sent, cut);
    WriteOutcome(w, h.offered, sent, cut.(picks := w.picks + [last]));
    assert result != SentWhole ==> WholeOrCutAtTheEnd(cut, h.offered);
  }

  lemma ServeOnlySlot(h: Hub, i: nat, now: Timespec, a: Answer, k: nat)
    requires Shaped(h) && h.offered != [] && i < SOCK_MAX_CLIENTS && k < SOCK_MAX_CLIENTS && k != i
    ensures var after := Serve(h, i, now, a);
            && Shaped(after) && after.clients[k] == h.clients[k] && after.wires[k] == h.wires[k]
            && after.offered == h.offered && after.allowDrops == h.allowDrops && after.oneFrame == h.oneFrame
  {
  }

  /** A connection not written to still carries whole frames only. */
  lemma PassedOver(w: Wire, offered: seq<seq<byte>>)
    requires offered != [] && WholeFrames(w, offered, |offered| - 1)
    ensures WholeFrames(w, offered, |offered|) && WholeOrCutAtTheEnd(w, offered)
  {
  }

  lemma ServeServesSlot(h: Hub, i: nat, now: Timespec, a: Answer)
    requires Counted(h) && h.offered != [] && i < SOCK_MAX_CLIENTS && SlotOk(h, i, |h.offered| - 1)
    ensures var after := Serve(h, i, now, a);
            && Shaped(after) && SlotOk(after, i, |h.offered|)
            && EndedGrew(h.ended, after.ended, h.offered)
  {
    if h.clients[i].fd >= 0 {
      PassedOver(h.wires[i], h.offered);
      DeliverServesSlot(h, i, now, a);
      var c, idle := h.clients[i], CloseSlot(h, i);
      assert SlotOk(idle, i, |h.offered|) && EndedGrew(h.ended, idle.ended, h.offered);
      assert SlotOk(h.(clients := h.clients[i := c.(numDropped := c.numDropped + 1)]), i, |h.offered|) || !h.allowDrops;
    }
  }

  lemma ServeKeepsUnderway(h: Hub, i: nat, now: Timespec, a: Answer)
    requires Underway(h, i) && i < SOCK_MAX_CLIENTS
    ensures Underway(Serve(h, i, now, a), i + 1)
  {
    var after := Serve(h, i, now, a);
    ServeKeepsCount(h, i, now, a);
    assert SlotMidway(h, i, i);
    ServeServesSlot(h, i, now, a);
    var turn := i + 1;
    forall k | 0 <= k < SOCK_MAX_CLIENTS ensures SlotMidway(after, k, turn) {
      if k != i {
        ServeOnlySlot(h, i, now, a, k);
        assert SlotMidway(h, k, i);
      }
    }
    forall k | 0 <= k < |after.ended| ensures WholeOrCutAtTheEnd(after.ended[k], after.offered) {
      if k < |h.ended| {
        assert after.ended[k] == h.ended[k] && WholeOrCutAtTheEnd(h.ended[k], h.offered);
      }
    }
  }

  lemma {:induction false} ServeFromKeepsFaithful(h: Hub, i: nat, now: Timespec, answers: seq<Answer>)
    requires Underway(h, i) && i <= SOCK_MAX_CLIENTS && |answers| == SOCK_MAX_CLIENTS
    ensures Faithful(ServeFrom(h, i, now, answers))
    decreases SOCK_MAX_CLIENTS - i
  {
    if i < SOCK_MAX_CLIENTS {
      ServeKeepsUnderway(h, i, now, answers[i]);
      ServeFromKeepsFaithful(Serve(h, i, now, answers[i]), i + 1, now, answers);
    } else {
      forall k | 0 <= k < SOCK_MAX_CLIENTS ensures SlotOk(h, k, |h.offered|) {
        assert SlotMidway(h, k, i);
      }
    }
  }

  lemma BegunIsUnderway(h: Hub, frame: seq<byte>, begun: Hub)
    requires Faithful(h) && begun == h.(offered := h.offered + [frame])
    ensures Underway(begun, 0)
  {
    forall k | 0 <= k < SOCK_MAX_CLIENTS ensures SlotMidway(begun, k, 0) {
      OfferKeepsWires(h.wires[k], h.offered, |h.offered|, frame);
      assert SlotOk(h, k, |h.offered|);
    }
    forall k | 0 <= k < |h.ended| ensures WholeOrCutAtTheEnd(h.ended[k], begun.offered) {
      OfferKeepsWires(h.ended[k], h.offered, 0, frame);
    }
  }

  lemma WriteKeepsFaithful(h: Hub, frame: seq<byte>, now: Timespec, answers: seq<Answer>)
    requires Faithful(h) && |answers| == SOCK_MAX_CLIENTS
    ensures Faithful(Write(h, frame, now, answers))
  {
    var begun := h.(offered := h.offered + [frame]);
    BegunIsUnderway(h, frame, begun);
    ServeFromKeepsFaithful(begun, 0, now, answers);
  }

  // ----- the other calls -----

  lemma AdmitKeepsFaithful(h: Hub, p: Pending)
    requires Faithful(h)
    ensures Faithful(Admit(h, p))
  {
    AdmitKeepsCount(h, p);
    var after := Admit(h, p);
    forall k | 0 <= k < SOCK_MAX_CLIENTS ensures SlotOk(after, k, |h.offered|) {
      assert SlotOk(h, k, |h.offered|);
      assert Picked(h.offered, []) == [];
    }
  }

  lemma {:induction false} AdmitAllKeepsFaithful(h: Hub, pending: seq<Pending>)
    requires Faithful(h)
    ensures Faithful(AdmitAll(h, pending))
    decreases |pending|
  {
    if pending != [] {
      AdmitKeepsFaithful(h, pending[0]);
      AdmitAllKeepsFaithful(Admit(h, pending[0]), pending[1..]);
    }
  }

  /** While closing: free slots before `i`, everything hung up on accounted for. */
  ghost predicate Closing(h: Hub, i: nat) {
    && Shaped(h)
    && (forall k | 0 <= k < SOCK_MAX_CLIENTS :: SlotOk(h, k, |h.offered|))
    && (forall k | 0 <= k < i && k < SOCK_MAX_CLIENTS :: h.clients[k].fd < 0)
    && forall k | 0 <= k < |h.ended| :: WholeOrCutAtTheEnd(h.ended[k], h.offered)
  }

  lemma {:induction false} CloseLastKeepsFaithful(h: Hub, left: nat)
    requires left <= SOCK_MAX_CLIENTS && Closing(h, SOCK_MAX_CLIENTS - left)
    ensures Faithful(CloseLast(h, left))
    decreases left
  {
    if left > 0 {
      var i := SOCK_MAX_CLIENTS - left;
      var after := HangUp(h, i);
      forall k | 0 <= k < SOCK_MAX_CLIENTS ensures SlotOk(after, k, |h.offered|) {
        assert SlotOk(h, k, |h.offered|);
      }
      forall k | 0 <= k < |after.ended| ensures WholeOrCutAtTheEnd(after.ended[k], h.offered) {
        if k == |h.ended| {
          assert SlotOk(h, i, |h.offered|);
        }
      }
      CloseLastKeepsFaithful(after, left - 1);
    } else {
      Context.NoneOccupied(h.clients);
    }
  }

  // ----- every run -----

  datatype Event =
    | Accepting(pending: seq<Pending>)
    | Writing(frame: seq<byte>, now: Timespec, answers: seq<Answer>)
    | ClosingAll

  predicate WellFormed(e: Event) {
    e.Writing? ==> |e.answers| == SOCK_MAX_CLIENTS
  }

  function Step(h: Hub, e: Event): Hub
    requires Shaped(h) && WellFormed(e)
  {
    match e
    case Accepting(pending) => if h.listening then AdmitAll(h, pending) else h
    case Writing(frame, now, answers) => Write(h, frame, now, answers)
    case ClosingAll => CloseLast(h, |h.clients|)
  }

  lemma StepKeepsFaithful(h: Hub, e: Event)
    requires Faithful(h) && WellFormed(e)
    ensures Faithful(Step(h, e))
  {
    match e
    case Accepting(pending) => AdmitAllKeepsFaithful(h, pending);
    case Writing(frame, now, answers) => WriteKeepsFaithful(h, frame, now, answers);
    case ClosingAll => CloseLastKeepsFaithful(h, |h.clients|);
  }

  /** `after` is a state some run of calls leads to from `h`. */
  ghost predicate Reaches(h: Hub, events: seq<Event>, after: Hub)
    decreases |events|
  {
    if events == [] then after == h
    else Shaped(h) && WellFormed(events[0]) && Reaches(Step(h, events[0]), events[1..], after)
  }

  /** The table just after `sock_open`. */
  ghost predicate JustOpened(h: Hub) {
    && Shaped(h) && h.numClients == 0 && h.ended == [] && h.offered == []
    && forall i | 0 <= i < SOCK_MAX_CLIENTS :: h.clients[i].fd < 0
  }

  lemma OpenedIsFaithful(h: Hub)
    requires JustOpened(h)
    ensures Faithful(h)
  {
    Context.NoneOccupied(h.clients);
  }

  lemma {:induction false} RunsStayFaithful(h: Hub, events: seq<Event>, after: Hub)
    requires Faithful(h) && Reaches(h, events, after)
    ensures Faithful(after)
    decreases |events|
  {
    if events != [] {
      StepKeepsFaithful(h, events[0]);
      RunsStayFaithful(Step(h, events[0]), events[1..], after);
    }
  }

  /**
   * Over every run after `sock_open`: a connected client has been sent whole frames only, in order; a
   * proper prefix of a frame is only ever the last thing sent to a client then hung up on; and the
   * counter is the number of occupied slots, never more than eight.
   */
  lemma WholeFramesOrHangUp(h: Hub, events: seq<Event>, after: Hub)
    requires JustOpened(h) && Reaches(h, events, after)
    ensures Faithful(after) && 0 <= after.numClients <= SOCK_MAX_CLIENTS
  {
    OpenedIsFaithful(h);
    RunsStayFaithful(h, events, after);
    OccupiedAtMost(after.clients);
  }

  lemma {:induction false} NothingSkipped(picks: seq<nat>, from: nat, end: nat, j: nat)
    requires InOrder(picks, from, end) && |picks| == end - from && j < |picks|
    ensures picks[j] == from + j
    decreases |picks|
  {
    var last := |picks| - 1;
    if j < last {
      forall i | 0 <= i < last ensures picks[i] < end - 1 {
        assert picks[i] < picks[last];
      }
      NothingSkipped(picks[..last], from, end - 1, j);
    } else if last > 0 {
      forall i | 0 <= i < last ensures picks[i] < end - 1 {
        assert picks[i] < picks[last];
      }
      NothingSkipped(picks[..last], from, end - 1, last - 1);
    }
  }

  /** A socket that does not drop has sent a connected client every frame offered since it joined. */
  lemma WithoutDropsEveryFrameArrives(h: Hub, i: nat)
    requires Faithful(h) && i < SOCK_MAX_CLIENTS && h.clients[i].fd >= 0 && !h.allowDrops
    ensures h.wires[i].joined <= |h.offered| && h.wires[i].bytes == Concat(h.offered[h.wires[i].joined..])
  {
    assert SlotOk(h, i, |h.offered|);
    var w := h.wires[i];
    forall j | 0 <= j < |w.picks| ensures w.picks[j] == w.joined + j {
      NothingSkipped(w.picks, w.joined, |h.offered|, j);
    }
    assert Picked(h.offered, w.picks) == h.offered[w.joined..];
  }

  // ----- the first frame a connection carries -----

  /** Nothing sent yet; the first frame after it joined is still to come. */
  ghost predicate Waiting(w: Wire, seen: nat) {
    w.joined == seen && w.picks == [] && w.bytes == []
  }

  /** The first frame offered after it joined is what it was sent first, whole. */
  ghost predicate Started(w: Wire, offered: seq<seq<byte>>) {
    w.picks != [] && w.picks[0] == w.joined < |offered| && offered[w.joined] <= w.bytes
  }

  /** Nothing was sent but a proper prefix of that frame. */
  ghost predicate CutAtJoin(w: Wire, offered: seq<seq<byte>>) {
    && w.picks == []
    && (w.bytes == [] || (w.joined < |offered| && |w.bytes| < |offered[w.joined]| && w.bytes <= offered[w.joined]))
  }

  /** That frame was sent whole and nothing after it. */
  ghost predicate OneFrameOnly(w: Wire, offered: seq<seq<byte>>) {
    w.joined < |offered| && w.picks == [w.joined] && w.bytes == offered[w.joined]
  }

  ghost predicate Led(w: Wire, offered: seq<seq<byte>>, oneFrame: bool) {
    CutAtJoin(w, offered) || (Started(w, offered) && (oneFrame ==> OneFrameOnly(w, offered)))
  }

  ghost predicate SlotPrompt(h: Hub, i: nat, seen: nat)
    requires Shaped(h) && i < SOCK_MAX_CLIENTS
  {
    h.clients[i].fd >= 0 ==> Waiting(h.wires[i], seen) || (!h.oneFrame && Started(h.wires[i], h.offered))
  }

  ghost predicate PromptMidway(h: Hub, k: nat, i: nat)
    requires Shaped(h) && k < SOCK_MAX_CLIENTS && h.offered != []
  {
    SlotPrompt(h, k, if k < i then |h.offered| else |h.offered| - 1)
  }

  /**
   * No connection has missed the first frame offered after it joined and stayed; on a socket that closes
   * after one frame, a connection sent that frame whole was sent nothing else.
   */
  ghost predicate Prompt(h: Hub) {
    && Shaped(h)
    && (forall k | 0 <= k < SOCK_MAX_CLIENTS :: SlotPrompt(h, k, |h.offered|))
    && forall k | 0 <= k < |h.ended| :: Led(h.ended[k], h.offered, h.oneFrame)
  }

  /** A connection that was never sent a byte has none waiting. */
  ghost predicate FreshHasNoneWaiting(h: Hub, answers: seq<Answer>)
    requires Shaped(h) && |answers| == SOCK_MAX_CLIENTS
  {
    forall k | 0 <= k < SOCK_MAX_CLIENTS && h.clients[k].fd >= 0 && h.wires[k].bytes == [] ::
      answers[k].unsentBytes == 0
  }

  ghost predicate EndedLed(before: seq<Wire>, after: seq<Wire>, offered: seq<seq<byte>>, oneFrame: bool) {
    after == before || exists w: Wire :: after == before + [w] && Led(w, offered, oneFrame)
  }

  /** A connection's first write is cut or is the whole frame; any later one leaves its beginning alone. */
  lemma WriteLeads(w: Wire, offered: seq<seq<byte>>, sent: nat, oneFrame: bool)
    requires offered != [] && sent <= |offered[|offered| - 1]|
    requires Waiting(w, |offered| - 1) || (!oneFrame && Started(w, offered))
    ensures var last := |offered| - 1;
            var onWire := w.(bytes := w.bytes + offered[last][..sent]);
            && (sent < |offered[last]| ==> Led(onWire, offered, oneFrame))
            && (sent == |offered[last]| ==> Started(onWire.(picks := w.picks + [last]), offered))
            && (sent == |offered[last]| ==> Led(onWire.(picks := w.picks + [last]), offered, oneFrame))
  {
    var last := |offered| - 1;
    if Waiting(w, last) {
      assert w.bytes + offered[last][..sent] == offered[last][..sent];
    }
  }

  lemma DeliverKeepsPrompt(h: Hub, i: nat, now: Timespec, a: Answer)
    requires Shaped(h) && i < SOCK_MAX_CLIENTS && h.offered != [] && h.clients[i].fd >= 0
    requires PromptMidway(h, i, i)
    ensures var after := Deliver(h, i, now, a);
            && SlotPrompt(after, i, |h.offered|) && EndedLed(h.ended, after.ended, h.offered, h.oneFrame)
  {
    var frame := h.offered[|h.offered| - 1];
    WriteLeads(h.wires[i], h.offered, Transfer(|frame|, a.start, a.turns).0, h.oneFrame);
  }

  lemma ServeKeepsPrompt(h: Hub, i: nat, now: Timespec, a: Answer)
    requires Shaped(h) && i < SOCK_MAX_CLIENTS && h.offered != [] && h.offered[|h.offered| - 1] != []
    requires PromptMidway(h, i, i)
    requires h.clients[i].fd >= 0 && h.wires[i].bytes == [] ==> a.unsentBytes == 0
    ensures var after := Serve(h, i, now, a);
            && Shaped(after) && SlotPrompt(after, i, |h.offered|)
            && EndedLed(h.ended, after.ended, h.offered, h.oneFrame)
  {
    if h.clients[i].fd >= 0 {
      assert Led(h.wires[i], h.offered, h.oneFrame);
      DeliverKeepsPrompt(h, i, now, a);
    }
  }

  lemma {:induction false} ServeFromKeepsPrompt(h: Hub, i: nat, now: Timespec, answers: seq<Answer>)
    requires Shaped(h) && i <= SOCK_MAX_CLIENTS && |answers| == SOCK_MAX_CLIENTS
    requires h.offered != [] && h.offered[|h.offered| - 1] != []
    requires forall k | 0 <= k < SOCK_MAX_CLIENTS :: PromptMidway(h, k, i)
    requires forall k | 0 <= k < |h.ended| :: Led(h.ended[k], h.offered, h.oneFrame)
    requires forall k | i <= k < SOCK_MAX_CLIENTS && h.clients[k].fd >= 0 && h.wires[k].bytes == [] ::
      answers[k].unsentBytes == 0
    ensures Prompt(ServeFrom(h, i, now, answers))
    decreases SOCK_MAX_CLIENTS - i
  {
    if i < SOCK_MAX_CLIENTS {
      var after, turn := Serve(h, i, now, answers[i]), i + 1;
      assert PromptMidway(h, i, i);
      ServeKeepsPrompt(h, i, now, answers[i]);
      ServeOnlySlot(h, i, now, answers[i], if i == 0 then 1 else 0);
      forall k | 0 <= k < SOCK_MAX_CLIENTS
        ensures PromptMidway(after, k, turn)
        ensures k >= turn ==> after.clients[k] == h.clients[k] && after.wires[k] == h.wires[k]
      {
        if k != i {
          ServeOnlySlot(h, i, now, answers[i], k);
          assert PromptMidway(h, k, i);
        }
      }
      ServeFromKeepsPrompt(after, turn, now, answers);
    } else {
      forall k | 0 <= k < SOCK_MAX_CLIENTS ensures SlotPrompt(h, k, |h.offered|) {
        assert PromptMidway(h, k, i);
      }
    }
  }

  lemma LedStays(w: Wire, offered: seq<seq<byte>>, frame: seq<byte>, oneFrame: bool)
    ensures Led(w, offered, oneFrame) ==> Led(w, offered + [frame], oneFrame)
    ensures Started(w, offered) ==> Started(w, offered + [frame])
  {
    assert forall k | 0 <= k < |offered| :: (offered + [frame])[k] == offered[k];
  }

  lemma WriteKeepsPrompt(h: Hub, frame: seq<byte>, now: Timespec, answers: seq<Answer>)
    requires Prompt(h) && frame != [] && |answers| == SOCK_MAX_CLIENTS
    requires FreshHasNoneWaiting(h, answers)
    ensures Prompt(Write(h, frame, now, answers))
  {
    var begun := h.(offered := h.offered + [frame]);
    forall k | 0 <= k < SOCK_MAX_CLIENTS ensures PromptMidway(begun, k, 0) {
      assert SlotPrompt(h, k, |h.offered|);
      LedStays(h.wires[k], h.offered, frame, h.oneFrame);
    }
    forall k | 0 <= k < |begun.ended| ensures Led(begun.ended[k], begun.offered, h.oneFrame) {
      LedStays(h.ended[k], h.offered, frame, h.oneFrame);
    }
    ServeFromKeepsPrompt(begun, 0, now, answers);
  }

  lemma {:induction false} AdmitAllKeepsPrompt(h: Hub, pending: seq<Pending>)
    requires Prompt(h)
    ensures Prompt(AdmitAll(h, pending))
    decreases |pending|
  {
    if pending != [] {
      var after := Admit(h, pending[0]);
      forall k | 0 <= k < SOCK_MAX_CLIENTS ensures SlotPrompt(after, k, |h.offered|) {
        assert SlotPrompt(h, k, |h.offered|);
      }
      AdmitAllKeepsPrompt(after, pending[1..]);
    }
  }

  lemma {:induction false} CloseLastKeepsPrompt(h: Hub, left: nat)
    requires Prompt(h) && left <= SOCK_MAX_CLIENTS
    ensures Prompt(CloseLast(h, left))
    decreases left
  {
    if left > 0 {
      var i := SOCK_MAX_CLIENTS - left;
      var after := HangUp(h, i);
      assert SlotPrompt(h, i, |h.offered|);
      forall k | 0 <= k < SOCK_MAX_CLIENTS ensures SlotPrompt(after, k, |h.offered|) {
        assert SlotPrompt(h, k, |h.offered|);
      }
      forall k | 0 <= k < |after.ended| ensures Led(after.ended[k], h.offered, h.oneFrame) {}
      CloseLastKeepsPrompt(after, left - 1);
    } else {
      forall k | 0 <= k < SOCK_MAX_CLIENTS
        ensures SlotPrompt(h.(numClients := 0, listening := false), k, |h.offered|)
      {
        assert SlotPrompt(h, k, |h.offered|);
      }
    }
  }

  lemma {:induction false} ServeFromKeepsKind(h: Hub, i: nat, now: Timespec, answers: seq<Answer>)
    requires Shaped(h) && i <= SOCK_MAX_CLIENTS && h.offered != [] && |answers| == SOCK_MAX_CLIENTS
    ensures ServeFrom(h, i, now, answers).oneFrame == h.oneFrame
    decreases SOCK_MAX_CLIENTS - i
  {
    if i < SOCK_MAX_CLIENTS {
      ServeFromKeepsKind(Serve(h, i, now, answers[i]), i + 1, now, answers);
    }
  }

  lemma {:induction false} AdmitAllKeepsKind(h: Hub, pending: seq<Pending>)
    requires Shaped(h)
    ensures AdmitAll(h, pending).oneFrame == h.oneFrame
    decreases |pending|
  {
    if pending != [] {
      AdmitAllKeepsKind(Admit(h, pending[0]), pending[1..]);
    }
  }

  lemma {:induction false} CloseLastKeepsKind(h: Hub, left: nat)
    requires Shaped(h) && left <= SOCK_MAX_CLIENTS
    ensures CloseLast(h, left).oneFrame == h.oneFrame
    decreases left
  {
    if left > 0 {
      CloseLastKeepsKind(HangUp(h, SOCK_MAX_CLIENTS - left), left - 1);
    }
  }

  /** Whether a socket closes after one frame never changes. */
  lemma StepKeepsKind(h: Hub, e: Event)
    requires Shaped(h) && WellFormed(e)
    ensures Step(h, e).oneFrame == h.oneFrame
  {
    match e
    case Accepting(pending) => AdmitAllKeepsKind(h, pending);
    case Writing(frame, now, answers) => ServeFromKeepsKind(h.(offered := h.offered + [frame]), 0, now, answers);
    case ClosingAll => CloseLastKeepsKind(h, |h.clients|);
  }

  /** A run in which frames are not empty and the kernel owes fresh connections nothing. */
  ghost predicate HonestKernel(h: Hub, events: seq<Event>)
    requires Shaped(h)
    decreases |events|
  {
    events != [] ==>
      && WellFormed(events[0])
      && (events[0].Writing? ==> events[0].frame != [] && FreshHasNoneWaiting(h, events[0].answers))
      && Shaped(Step(h, events[0]))
      && HonestKernel(Step(h, events[0]), events[1..])
  }

  lemma StepKeepsPrompt(h: Hub, e: Event)
    requires Prompt(h) && WellFormed(e)
    requires e.Writing? ==> e.frame != [] && FreshHasNoneWaiting(h, e.answers)
    ensures Prompt(Step(h, e))
  {
    match e
    case Accepting(pending) => AdmitAllKeepsPrompt(h, pending);
    case Writing(frame, now, answers) => WriteKeepsPrompt(h, frame, now, answers);
    case ClosingAll => CloseLastKeepsPrompt(h, |h.clients|);
  }

  lemma {:induction false} RunsStayPrompt(h: Hub, events: seq<Event>, after: Hub)
    requires Faithful(h) && Prompt(h) && Reaches(h, events, after) && HonestKernel(h, events)
    ensures Faithful(after) && Prompt(after) && after.oneFrame == h.oneFrame
    decreases |events|
  {
    if events != [] {
      StepKeepsFaithful(h, events[0]);
      StepKeepsPrompt(h, events[0]);
      StepKeepsKind(h, events[0]);
      RunsStayPrompt(Step(h, events[0]), events[1..], after);
    }
  }

  /** What a connection was sent begins with the first frame offered after it joined. */
  lemma FirstSentIsFirstOffered(w: Wire, offered: seq<seq<byte>>, frameBytes: nat)
    requires CutAtJoin(w, offered) || Started(w, offered)
    requires frameBytes > 0 && forall k | 0 <= k < |offered| :: |offered[k]| == frameBytes
    requires |w.bytes| >= frameBytes
    ensures w.joined < |offered| && w.bytes[..frameBytes] == offered[w.joined]
  {
  }
}
