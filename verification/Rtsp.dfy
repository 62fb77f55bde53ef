/**
 * Frame delivery of apps/stream-rtsp/main.cpp: a frame offered to a stream is handed to live555 in
 * pieces no larger than it asks for, and the global set of streams follows who is running.
 */
module Rtsp {
  import opened Bytes

  /** One stream: `handed` and `accepted` are its whole history of bytes given out and frames taken. */
  datatype Delivery = Delivery(
    running: bool, current: Option<seq<byte>>, offset: nat, accepted: seq<seq<byte>>, handed: seq<byte>)

  predicate Sane(d: Delivery) {
    match d.current
    case None => d.offset == 0
    case Some(frame) => d.offset <= |frame|
  }

  function Min(a: nat, b: nat): nat {
    if a <= b then a else b
  }

  /** `sendNewFrame`: taken when running and idle, dropped otherwise. */
  function Offer(d: Delivery, frame: seq<byte>): Delivery {
    if !d.running || d.current.Some? then d
    else d.(current := Some(frame), offset := 0, accepted := d.accepted + [frame])
  }

  /** The bytes `doGetNextFrame` copies out, None when it returns early. */
  function Piece(d: Delivery, maxSize: nat, awaiting: bool): Option<seq<byte>>
    requires Sane(d)
  {
    if d.current.None? || !awaiting then None
    else Some(d.current.value[d.offset..d.offset + Min(maxSize, |d.current.value| - d.offset)])
  }

  function Get(d: Delivery, maxSize: nat, awaiting: bool): Delivery
    requires Sane(d)
  {
    var started := d.(running := true);
    match Piece(d, maxSize, awaiting)
    case None => started
    case Some(piece) =>
      var next := d.offset + |piece|;
      var moved := started.(handed := d.handed + piece);
      if next == |d.current.value| then moved.(current := None, offset := 0) else moved.(offset := next)
  }

  function Stop(d: Delivery): Delivery {
    d.(running := false, current := None, offset := 0)
  }

  function Closure(d: Delivery): Delivery {
    d.(running := false)
  }

  class DynamicH264Stream {
    var isRunning: bool
    var currentBuffer: Option<seq<byte>>
    var currentOffset: nat
    ghost var accepted: seq<seq<byte>>
    ghost var handed: seq<byte>

    ghost function View(): Delivery
      reads this
    {
      Delivery(isRunning, currentBuffer, currentOffset, accepted, handed)
    }

    ghost predicate Valid()
      reads this
    {
      Sane(View())
    }

    constructor ()
      ensures Valid() && View() == Delivery(false, None, 0, [], [])
    {
      isRunning, currentBuffer, currentOffset := false, None, 0;
      accepted, handed := [], [];
    }

    method SetNewBuffer(buf: Option<seq<byte>>)
      modifies this`currentBuffer, this`currentOffset
      ensures currentBuffer == buf && currentOffset == 0
    {
      currentBuffer := buf;
      currentOffset := 0;
    }

    method SendNewFrame(frame: seq<byte>)
      requires Valid()
      modifies this
      ensures Valid() && View() == Offer(old(View()), frame)
    {
      if !isRunning {
        return;
      }
      if currentBuffer.Some? {
        return;
      }
      accepted := accepted + [frame];
      SetNewBuffer(Some(frame));
    }
  }

  /** The global set of streams and its lock. */
  class Registry {
    var streams: set<DynamicH264Stream>

    /** Among the streams in existence, those registered are those running. */
    ghost predicate Valid(all: set<DynamicH264Stream>)
      reads this, all
    {
      && streams <= all
      && forall s | s in all :: s.Valid() && (s in streams <==> s.isRunning)
    }

    constructor ()
      ensures streams == {}
    {
      streams := {};
    }

    /** `awaiting` is FramedSource's own flag, `maxSize` its fMaxSize. */
    method DoGetNextFrame(s: DynamicH264Stream, maxSize: nat, awaiting: bool, ghost all: set<DynamicH264Stream>)
      returns (piece: Option<seq<byte>>, truncated: nat)
      requires Valid(all) && s in all
      modifies this, s
      ensures Valid(all)
      ensures streams == old(streams) + {s}
      ensures s.View() == Get(old(s.View()), maxSize, awaiting)
      ensures piece == Piece(old(s.View()), maxSize, awaiting)
      ensures piece.Some? ==> truncated == |old(s.currentBuffer).value| - old(s.currentOffset) - |piece.value|
    {
      truncated := 0;
      if !s.isRunning {
        streams := streams + {s};
        s.isRunning := true;
      }
      if s.currentBuffer.None? {
        return None, truncated;
      }
      if !awaiting {
        return None, truncated;
      }
      var buffer := s.currentBuffer.value;
      var remaining := |buffer| - s.currentOffset;
      var size := Min(maxSize, remaining);
      truncated := remaining - size;
      var copied := buffer[s.currentOffset..s.currentOffset + size];
      piece := Some(copied);
      s.handed := s.handed + copied;
      s.currentOffset := s.currentOffset + size;
      if |buffer| == s.currentOffset {
        s.SetNewBuffer(None);
      }
    }

    method DoStopGettingFrames(s: DynamicH264Stream, ghost all: set<DynamicH264Stream>)
      requires Valid(all) && s in all
      modifies this, s
      ensures Valid(all)
      ensures streams == old(streams) - {s}
      ensures s.View() == Stop(old(s.View()))
    {
      if s.isRunning {
        streams := streams - {s};
        s.isRunning := false;
      }
      s.SetNewBuffer(None);
    }

    method HandleClosure(s: DynamicH264Stream, ghost all: set<DynamicH264Stream>)
      requires Valid(all) && s in all
      modifies this, s
      ensures Valid(all)
      ensures streams == old(streams) - {s}
      ensures s.View() == Closure(old(s.View()))
    {
      streams := streams - {s};
      s.isRunning := false;
    }

    /** The destructor: the stream leaves the set and the world. */
    method Destroy(s: DynamicH264Stream, ghost all: set<DynamicH264Stream>)
      requires Valid(all) && s in all
      modifies this
      ensures Valid(all - {s})
      ensures streams == old(streams) - {s}
    {
      streams := streams - {s};
    }

    /** `store_frame`: the frame is offered to every registered stream. */
    method StoreFrame(frame: seq<byte>, ghost all: set<DynamicH264Stream>)
      requires Valid(all)
      modifies streams
      ensures Valid(all) && streams == old(streams)
      ensures forall s | s in streams :: s.View() == Offer(old(s.View()), frame)
    {
      if streams == {} {
        return;
      }
      var todo := streams;
      while todo != {}
        invariant todo <= streams
        invariant Valid(all)
        invariant forall s | s in streams - todo :: s.View() == Offer(old(s.View()), frame)
        invariant forall s | s in todo :: s.View() == old(s.View())
        decreases todo
      {
        var s :| s in todo;
        s.SendNewFrame(frame);
        todo := todo - {s};
      }
    }

    /** `close_old_clients`: whichever stream the set yields first is closed, until few enough are left. */
    method CloseOldClients(maxClients: nat, ghost all: set<DynamicH264Stream>)
      requires Valid(all)
      modifies this, all
      ensures Valid(all)
      ensures streams <= old(streams) && |streams| == Min(maxClients, old(|streams|))
      ensures forall s | s in all ::
        s.View() == if s in old(streams) - streams then Closure(old(s.View())) else old(s.View())
    {
      while |streams| > maxClients
        invariant Valid(all)
        invariant streams <= old(streams)
        invariant |streams| == old(|streams|) || |streams| >= maxClients
        invariant |streams| <= old(|streams|)
        invariant forall s | s in all ::
          s.View() == if s in old(streams) - streams then Closure(old(s.View())) else old(s.View())
        decreases |streams|
      {
        var s :| s in streams;
        assert |streams - {s}| == |streams| - 1;
        HandleClosure(s, all);
      }
    }
  }

  // ----- every sequence of calls on one stream -----

  datatype Event = Offered(frame: seq<byte>) | Asked(maxSize: nat, awaiting: bool) | Stopped | Closed

  function Step(d: Delivery, e: Event): Delivery
    requires Sane(d)
  {
    match e
    case Offered(frame) => Offer(d, frame)
    case Asked(maxSize, awaiting) => Get(d, maxSize, awaiting)
    case Stopped => Stop(d)
    case Closed => Closure(d)
  }

  lemma StepKeepsSane(d: Delivery, e: Event)
    requires Sane(d)
    ensures Sane(Step(d, e))
  {
  }

  function Run(d: Delivery, events: seq<Event>): (end: Delivery)
    requires Sane(d)
    ensures Sane(end)
    decreases |events|
  {
    if events == [] then d
    else
      StepKeepsSane(d, events[0]);
      Run(Step(d, events[0]), events[1..])
  }

  /** What of the current frame has yet to be handed over. */
  function Left(d: Delivery): seq<byte>
    requires Sane(d)
  {
    if d.current.None? then [] else d.current.value[d.offset..]
  }

  /** A request moves the next piece from what is left to what was handed over. */
  lemma PieceMoves(d: Delivery, maxSize: nat)
    requires Sane(d) && d.current.Some?
    ensures var (piece, next) := (Piece(d, maxSize, true).value, Get(d, maxSize, true));
            && Sane(next) && next.handed == d.handed + piece && next.accepted == d.accepted
            && Left(d) == piece + Left(next)
            && (next.current.Some? ==> Left(next) != [])
  {
    var frame := d.current.value;
    var piece := Piece(d, maxSize, true).value;
    var at := d.offset + |piece|;
    assert frame[d.offset..] == frame[d.offset..at] + frame[at..];
    assert at == |frame| ==> frame[at..] == [];
  }

  /** Bytes handed over and bytes left are the frames accepted, end to end. */
  ghost predicate Balanced(d: Delivery)
    requires Sane(d)
  {
    d.handed + Left(d) == Concat(d.accepted)
  }

  lemma StepKeepsBalance(d: Delivery, e: Event)
    requires Sane(d) && Balanced(d) && !e.Stopped?
    ensures Sane(Step(d, e)) && Balanced(Step(d, e))
  {
    match e
    case Offered(frame) =>
      ConcatLast(d.accepted, frame);
      if d.running && d.current.None? {
        assert d.handed + [] == d.handed && frame[0..] == frame;
      }
    case Asked(maxSize, awaiting) =>
      var piece, next := Piece(d, maxSize, awaiting), Get(d, maxSize, awaiting);
      if piece.Some? {
        PieceMoves(d, maxSize);
        Regroup(d.handed, piece.value, Left(next));
      }
    case Closed =>
  }

  /** Until delivery is stopped, the pieces are the accepted frames: nothing lost, added or reordered. */
  lemma {:induction false} PiecesAreTheFrames(d: Delivery, events: seq<Event>)
    requires Sane(d) && Balanced(d) && Stopped !in events
    ensures Balanced(Run(d, events))
    decreases |events|
  {
    if events != [] {
      assert events[0] in events;
      StepKeepsBalance(d, events[0]);
      PiecesAreTheFrames(Step(d, events[0]), events[1..]);
    }
  }

  /** An accepted frame is handed over whole before another is accepted. */
  lemma OneFrameAtATime(d: Delivery, frame: seq<byte>)
    requires Sane(d) && Balanced(d)
    ensures Offer(d, frame).accepted != d.accepted ==> d.handed == Concat(d.accepted)
  {
    assert d.handed + [] == d.handed;
  }

  /** The pieces that successive requests bring. */
  function Pieces(d: Delivery, sizes: seq<nat>): seq<seq<byte>>
    requires Sane(d)
    decreases |sizes|
  {
    if sizes == [] || d.current.None? then []
    else [Piece(d, sizes[0], true).value] + Pieces(Get(d, sizes[0], true), sizes[1..])
  }

  function AfterPieces(d: Delivery, sizes: seq<nat>): (end: Delivery)
    requires Sane(d)
    ensures Sane(end)
    decreases |sizes|
  {
    if sizes == [] || d.current.None? then d else AfterPieces(Get(d, sizes[0], true), sizes[1..])
  }

  /** Whatever sizes are asked for, each above zero, enough requests hand over exactly what was left. */
  lemma {:induction false} PiecesReassemble(d: Delivery, sizes: seq<nat>)
    requires Sane(d) && (forall k | 0 <= k < |sizes| :: sizes[k] > 0)
    requires d.current.Some? ==> |sizes| >= |Left(d)| > 0
    ensures Concat(Pieces(d, sizes)) == Left(d)
    ensures AfterPieces(d, sizes).current.None?
    decreases |sizes|
  {
    if d.current.Some? {
      var piece, next := Piece(d, sizes[0], true).value, Get(d, sizes[0], true);
      var frame := d.current.value;
      assert |piece| > 0;
      assert frame[d.offset..] == piece + frame[d.offset + |piece|..];
      PiecesReassemble(next, sizes[1..]);
      assert Pieces(d, sizes)[1..] == Pieces(next, sizes[1..]);
      if next.current.None? {
        assert piece + [] == piece && frame[|frame|..] == [];
      }
    }
  }

  // ----- which frames are accepted -----

  const IDLE: Delivery := Delivery(false, None, 0, [], [])

  /** What the last request, stop or closure says, or what held before when there was none. */
  function RunningAfter(before: bool, events: seq<Event>): bool
    decreases |events|
  {
    if events == [] then before
    else RunningAfter(
      match events[0] case Offered(_) => before case Asked(_, _) => true case Stopped => false case Closed => false,
      events[1..])
  }

  lemma {:induction false} RunningIsTheLastWord(d: Delivery, events: seq<Event>)
    requires Sane(d)
    ensures Run(d, events).running == RunningAfter(d.running, events)
    decreases |events|
  {
    if events != [] {
      RunningIsTheLastWord(Step(d, events[0]), events[1..]);
    }
  }

  /** Where the events since the last stop begin. */
  function SinceStop(events: seq<Event>): (n: nat)
    ensures n <= |events|
  {
    if events == [] then 0
    else if events[|events| - 1].Stopped? then |events|
    else SinceStop(events[..|events| - 1])
  }

  ghost predicate NoneEmpty(events: seq<Event>) {
    forall k | 0 <= k < |events| && events[k].Offered? :: events[k].frame != []
  }

  lemma {:induction false} RunAppend(d: Delivery, events: seq<Event>, e: Event)
    requires Sane(d)
    ensures Run(d, events + [e]) == Step(Run(d, events), e)
    decreases |events|
  {
    if events == [] {
      assert events + [e] == [e] && [e][1..] == [];
    } else {
      assert (events + [e])[1..] == events[1..] + [e];
      RunAppend(Step(d, events[0]), events[1..], e);
    }
  }

  /** What `d` was given and gave since `s`: what it gave and what is left of the frame in hand is what it was given. */
  ghost predicate OwesWhatIsLeft(s: Delivery, d: Delivery) {
    && Sane(d) && s.accepted <= d.accepted && s.handed <= d.handed
    && (d.current.Some? ==> Left(d) != [])
    && d.handed[|s.handed|..] + Left(d) == Concat(d.accepted[|s.accepted|..])
  }

  lemma StoppedOwesNothing(d: Delivery)
    requires Sane(d)
    ensures OwesWhatIsLeft(Stop(d), Stop(d))
  {
  }

  lemma OfferOwes(s: Delivery, d: Delivery, frame: seq<byte>)
    requires OwesWhatIsLeft(s, d) && frame != []
    ensures OwesWhatIsLeft(s, Offer(d, frame))
  {
    var after := Offer(d, frame);
    if after != d {
      var given := d.accepted[|s.accepted|..];
      assert after.accepted[|s.accepted|..] == given + [frame];
      ConcatLast(given, frame);
      assert Left(after) == frame && Left(d) == [];
      assert d.handed[|s.handed|..] + [] == d.handed[|s.handed|..];
    }
  }

  lemma LongerSince(before: seq<byte>, handed: seq<byte>, piece: seq<byte>)
    requires before <= handed
    ensures before <= handed + piece && (handed + piece)[|before|..] == handed[|before|..] + piece
  {
  }

  lemma GetOwes(s: Delivery, d: Delivery, maxSize: nat, awaiting: bool)
    requires OwesWhatIsLeft(s, d)
    ensures OwesWhatIsLeft(s, Get(d, maxSize, awaiting))
  {
    var piece, next := Piece(d, maxSize, awaiting), Get(d, maxSize, awaiting);
    if piece.Some? {
      PieceMoves(d, maxSize);
      LongerSince(s.handed, d.handed, piece.value);
      Regroup(d.handed[|s.handed|..], piece.value, Left(next));
    }
  }

  lemma {:induction false} OwesSinceStop(events: seq<Event>)
    requires NoneEmpty(events)
    ensures OwesWhatIsLeft(Run(IDLE, events[..SinceStop(events)]), Run(IDLE, events))
  {
    if events == [] {
      assert events[..0] == [];
    } else {
      var before, e := events[..|events| - 1], events[|events| - 1];
      assert before + [e] == events;
      RunAppend(IDLE, before, e);
      if e.Stopped? {
        assert events[..|events|] == events;
        StoppedOwesNothing(Run(IDLE, before));
      } else {
        assert events[..SinceStop(events)] == before[..SinceStop(before)];
        OwesSinceStop(before);
        var s, d := Run(IDLE, before[..SinceStop(before)]), Run(IDLE, before);
        match e
        case Offered(frame) => OfferOwes(s, d, frame);
        case Asked(maxSize, awaiting) => GetOwes(s, d, maxSize, awaiting);
        case Closed =>
      }
    }
  }

  /** Every frame accepted since the last stop has been handed over whole. */
  ghost predicate NothingOwed(events: seq<Event>) {
    var s, d := Run(IDLE, events[..SinceStop(events)]), Run(IDLE, events);
    && s.accepted <= d.accepted && s.handed <= d.handed
    && d.handed[|s.handed|..] == Concat(d.accepted[|s.accepted|..])
  }

  /**
   * After any events in which no frame was empty, an offered frame is accepted if and only if the last of
   * the requests, stops and closures is a request and every frame accepted since the last stop has been
   * handed over whole; otherwise it changes nothing.
   */
  lemma AcceptedIff(events: seq<Event>, frame: seq<byte>)
    requires NoneEmpty(events)
    ensures var d := Run(IDLE, events);
            var after := Offer(d, frame);
            && (after.accepted == d.accepted + [frame] <==> RunningAfter(false, events) && NothingOwed(events))
            && (after.accepted == d.accepted + [frame] || after == d)
  {
    var s, d := Run(IDLE, events[..SinceStop(events)]), Run(IDLE, events);
    RunningIsTheLastWord(IDLE, events);
    OwesSinceStop(events);
    var given, gave := d.accepted[|s.accepted|..], d.handed[|s.handed|..];
    if d.current.None? {
      assert gave + [] == gave;
    } else {
      assert |gave + Left(d)| > |gave|;
    }
    assert |d.accepted + [frame]| > |d.accepted|;
  }

  ghost predicate AsksAlone(events: seq<Event>) {
    forall k | 0 <= k < |events| :: events[k].Asked? && events[k].awaiting && events[k].maxSize > 0
  }

  lemma {:induction false} AsksHandOver(d: Delivery, asks: seq<Event>)
    requires Sane(d) && AsksAlone(asks) && |asks| >= |Left(d)| && (d.current.Some? ==> Left(d) != [])
    ensures var end := Run(d, asks);
            end.handed == d.handed + Left(d) && end.current.None? && end.accepted == d.accepted
    decreases |asks|
  {
    if asks == [] {
      assert Left(d) == [] && d.handed + [] == d.handed;
    } else {
      assert asks[0].Asked? && asks[0].awaiting && asks[0].maxSize > 0;
      var next := Get(d, asks[0].maxSize, true);
      if d.current.Some? {
        PieceMoves(d, asks[0].maxSize);
        Regroup(d.handed, Piece(d, asks[0].maxSize, true).value, Left(next));
      }
      forall k | 0 <= k < |asks[1..]|
        ensures asks[1..][k].Asked? && asks[1..][k].awaiting && asks[1..][k].maxSize > 0
      {
        assert asks[1..][k] == asks[k + 1];
      }
      AsksHandOver(next, asks[1..]);
    }
  }

  /** And an accepted frame that is not empty is handed over entire by as many requests above zero as it has bytes. */
  lemma AcceptedIsHandedOver(events: seq<Event>, frame: seq<byte>, asks: seq<Event>)
    requires NoneEmpty(events) && frame != [] && RunningAfter(false, events) && NothingOwed(events)
    requires AsksAlone(asks) && |asks| >= |frame|
    ensures var d := Run(IDLE, events);
            var end := Run(Offer(d, frame), asks);
            && end.accepted == d.accepted + [frame] && end.handed == d.handed + frame && end.current.None?
  {
    AcceptedIff(events, frame);
    var taken := Offer(Run(IDLE, events), frame);
    assert Left(taken) == frame;
    AsksHandOver(taken, asks);
  }
}
