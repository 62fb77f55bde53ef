/** What the rolling buffer keeps over every run, and when each frame is offered exactly once. */
module H264StreamProofs {
  import opened Bytes
  import opened H264Frames
  import opened H264FramesProofs
  import Reads = H264Reads
  import opened H264Stream

  // ----- every run -----

  datatype Event = Open(ok: bool) | Close | Read(answer: ReadAnswer)

  /** The stream after one call: opening an open stream and closing a shut one change nothing. */
  function Step(c: Connection, event: Event): Connection {
    match event
    case Open(ok) => if c.open then c else if ok then FRESH else SHUT
    case Close => if c.open then SHUT else c
    case Read(answer) => Receive(c, answer)
  }

  function Run(c: Connection, events: seq<Event>): Connection
    decreases |events|
  {
    if events == [] then c else Run(Step(c, events[0]), events[1..])
  }

  /** Every read answers with at most the bytes it was asked for. */
  ghost predicate Answered(c: Connection, events: seq<Event>)
    decreases |events|
  {
    events != [] ==>
      && (events[0].Read? ==> Answers(c, events[0].answer))
      && Answered(Step(c, events[0]), events[1..])
  }

  ghost predicate FoundAt(frame: seq<byte>, whole: seq<byte>, at: nat) {
    at + |frame| <= |whole| && frame == whole[at..at + |frame|]
  }

  ghost predicate Inside(frame: seq<byte>, whole: seq<byte>) {
    exists at: nat :: FoundAt(frame, whole, at)
  }

  /** The vector is bounded, and every frame offered is a stretch of the bytes received. */
  ghost predicate Sound(c: Connection) {
    && |c.held| <= c.room < MAX_FRAME_SIZE + MIN_FRAME_SIZE
    && forall k | 0 <= k < |c.offered| :: Inside(c.offered[k], c.Received())
  }

  lemma InsideLonger(frame: seq<byte>, before: seq<byte>, whole: seq<byte>, after: seq<byte>)
    requires Inside(frame, whole)
    ensures Inside(frame, before + whole + after)
  {
    var at: nat :| FoundAt(frame, whole, at);
    assert FoundAt(frame, before + whole + after, |before| + at);
  }

  lemma FramesInside(buf: seq<byte>, k: nat)
    requires k < |Split(buf, 0).frames|
    ensures Inside(Split(buf, 0).frames[k], buf)
  {
    var frames := Split(buf, 0).frames;
    var cuts := FramesAreAccessUnits(buf, 0);
    assert CutAt(buf, cuts[k], cuts[k + 1], frames[k]);
    assert FoundAt(frames[k], buf, cuts[k]);
  }

  /** A read adds exactly what it brought to the bytes received. */
  lemma AbsorbAdds(c: Connection, bytes: seq<byte>)
    ensures Absorb(c, bytes).Received() == c.Received() + bytes
  {
    var held := c.held + bytes;
    var split := Split(held, 0);
    Regroup(c.gone, c.held, bytes);
    if split.rest.Some? {
      Regroup(c.gone, held[..split.rest.value], held[split.rest.value..]);
      assert held[..split.rest.value] + held[split.rest.value..] == held;
    }
  }

  lemma AbsorbKeepsSound(c: Connection, bytes: seq<byte>)
    requires Sound(c) && |c.held| + |bytes| <= c.room
    ensures Sound(Absorb(c, bytes))
  {
    var held := c.held + bytes;
    var frames := Split(held, 0).frames;
    var after := Absorb(c, bytes);
    AbsorbAdds(c, bytes);
    Regroup(c.gone, c.held, bytes);
    forall k | 0 <= k < |after.offered| ensures Inside(after.offered[k], after.Received()) {
      if k < |c.offered| {
        InsideLonger(c.offered[k], [], c.Received(), bytes);
        assert [] + c.Received() + bytes == after.Received();
      } else {
        FramesInside(held, k - |c.offered|);
        InsideLonger(frames[k - |c.offered|], c.gone, held, []);
        assert c.gone + held + [] == after.Received();
      }
    }
  }

  lemma PrepareForgetsNothing(c: Connection)
    ensures Prepare(c).Received() == c.Received()
  {
    assert c.Received() + [] == c.Received();
  }

  /** A read never asks for nothing, so a zero-length answer always means the peer closed. */
  lemma ReadsAskForRoom(c: Connection)
    requires Sound(c)
    ensures Request(c) >= MIN_FRAME_SIZE / 2
    ensures Sound(Prepare(c))
  {
    PrepareForgetsNothing(c);
  }

  /** The room a large frame needed is given back as soon as a read leaves only a tail. */
  lemma RoomIsGivenBack(c: Connection, bytes: seq<byte>)
    requires c.open && Split(Prepare(c).held + bytes, 0).rest.Some?
    ensures var after := Receive(c, Chunk(bytes));
            |after.held| < 8 && after.room < MIN_FRAME_SIZE + 8
    ensures Prepare(c).room <= MIN_FRAME_SIZE ==> Receive(c, Chunk(bytes)).room == Prepare(c).room
  {
  }

  lemma StepKeepsSound(c: Connection, event: Event)
    requires Sound(c) && (event.Read? ==> Answers(c, event.answer))
    ensures Sound(Step(c, event))
  {
    ReadsAskForRoom(c);
    if event.Read? && c.open && event.answer.Chunk? {
      AbsorbKeepsSound(Prepare(c), event.answer.bytes);
    }
  }

  /** Over every run of opens, reads and closes the buffer stays bounded and no frame is made up. */
  lemma {:induction false} RunsStaySound(c: Connection, events: seq<Event>)
    requires Sound(c) && Answered(c, events)
    ensures Sound(Run(c, events))
    decreases |events|
  {
    if events != [] {
      StepKeepsSound(c, events[0]);
      RunsStaySound(Step(c, events[0]), events[1..]);
    }
  }

  /** What is held is always the last of what was received: a read adds its bytes at the end. */
  lemma ReadsAccumulate(c: Connection, bytes: seq<byte>)
    requires c.open
    ensures Receive(c, Chunk(bytes)).Received() == c.Received() + bytes
  {
    PrepareForgetsNothing(c);
    AbsorbAdds(Prepare(c), bytes);
  }

  /** What the socket delivered: whether it is connected, and every byte read since it was. */
  datatype Socket = Socket(connected: bool, delivered: seq<byte>)

  function Delivered(s: Socket, event: Event): Socket {
    match event
    case Open(ok) => if s.connected then s else Socket(ok, [])
    case Close => if s.connected then Socket(false, []) else s
    case Read(Chunk(bytes)) => if s.connected then s.(delivered := s.delivered + bytes) else s
    case Read(_) => s.(connected := false)
  }

  function AllDelivered(s: Socket, events: seq<Event>): Socket
    decreases |events|
  {
    if events == [] then s else AllDelivered(Delivered(s, events[0]), events[1..])
  }

  lemma StepTracksSocket(c: Connection, event: Event)
    ensures var after := Step(c, event);
            Socket(after.open, after.Received()) == Delivered(Socket(c.open, c.Received()), event)
  {
    PrepareForgetsNothing(c);
    if event.Read? && event.answer.Chunk? && c.open {
      ReadsAccumulate(c, event.answer.bytes);
    }
  }

  /**
   * Over every run of opens, reads and closes, whatever the resets and the splits let go of, the buffer
   * holds the last bytes the current connection delivered, in order and with nothing in between.
   */
  lemma {:induction false} HeldIsTheLastDelivered(c: Connection, events: seq<Event>)
    ensures var (end, socket) := (Run(c, events), AllDelivered(Socket(c.open, c.Received()), events));
            && end.open == socket.connected
            && |end.held| <= |socket.delivered|
            && socket.delivered[|socket.delivered| - |end.held|..] == end.held
    decreases |events|
  {
    if events != [] {
      StepTracksSocket(c, events[0]);
      HeldIsTheLastDelivered(Step(c, events[0]), events[1..]);
    }
  }

  // ----- each frame once -----

  ghost predicate NoCodeBefore(bytes: seq<byte>, end: nat) {
    forall i | 0 <= i < end :: !CodeAt(bytes, i)
  }

  /**
   * Nothing lost, nothing repeated: before the first frame the bytes let go of hold no start code;
   * after it, frames and held bytes together are everything received from the first start code on.
   */
  ghost predicate ExactlyOnce(c: Connection) {
    if c.offered == [] then
      (c.gone != [] ==> |c.held| >= 4) && NoCodeBefore(c.Received(), |c.gone|)
    else
      && CodeAt(c.held, 0)
      && NextCode(c.Received(), 0).Some?
      && Concat(c.offered) + c.held == c.Received()[NextCode(c.Received(), 0).value..]
  }

  predicate Repeats(split: Splitting) {
    split.rest.None? && split.frames != []
  }

  /** The bytes held and read leave a frame open behind whole ones: those are handed over and all is kept. */
  ghost predicate KeepsWhatItOffered(c: Connection, bytes: seq<byte>) {
    HoldsFramesAndOpenOne(c.held + bytes)
  }

  lemma FirstCodeBehind(whole: seq<byte>, shift: nat, held: seq<byte>)
    requires Reads.EndsWith(whole, shift, held) && NextCode(held, 0).Some? && NoCodeBefore(whole, shift)
    ensures NextCode(whole, 0) == Some(shift + NextCode(held, 0).value)
  {
    NextCodeIsLeast(whole, 0);
    NextCodeIsLeast(whole, shift);
    Reads.NextCodeBehind(whole, shift, held, 0);
  }

  /** The first code of the stream is the first code of what is held, when none was let go of. */
  lemma FirstCodeIsHeld(gone: seq<byte>, held: seq<byte>)
    requires NextCode(held, 0).Some? && NoCodeBefore(gone + held, |gone|)
    ensures NextCode(gone + held, 0) == Some(|gone| + NextCode(held, 0).value)
  {
    FirstCodeBehind(gone + held, |gone|, held);
  }

  lemma GoneStaysGone(gone: seq<byte>, held: seq<byte>, bytes: seq<byte>)
    requires gone != [] ==> |held| >= 4
    requires NoCodeBefore(gone + held, |gone|)
    ensures NoCodeBefore(gone + (held + bytes), |gone|)
  {
    var short, long := gone + held, gone + (held + bytes);
    forall i | 0 <= i < |gone| ensures !CodeAt(long, i) {
      assert !CodeAt(short, i);
      assert long[i] == short[i] && long[i + 1] == short[i + 1];
      assert long[i + 2] == short[i + 2] && long[i + 3] == short[i + 3];
    }
  }

  /** Holding no code, the held bytes may be let go of too. */
  lemma MoreIsGone(gone: seq<byte>, held: seq<byte>, end: nat)
    requires NextCode(held, 0).None? && NoCodeBefore(gone + held, |gone|)
    ensures NoCodeBefore(gone + held, end)
  {
    NextCodeIsLeast(held, 0);
    forall i | 0 <= i < end ensures !CodeAt(gone + held, i) {
      if i >= |gone| { Reads.CodeBehind(gone + held, |gone|, held, i - |gone|); }
    }
  }

  lemma FramesHoldBytes(buf: seq<byte>)
    requires Split(buf, 0).frames != []
    ensures |Concat(Split(buf, 0).frames)| > 0
  {
    var start := NextCode(buf, 0).value;
    var next := NextBoundary(buf, start, start + 1).value;
    assert Split(buf, 0).frames[0] == buf[start..next];
  }

  /** All that the buffer relies on of the splitter's answer. */
  ghost predicate Honest(held: seq<byte>, split: Splitting) {
    && (split.rest.Some? ==> split.rest.value <= |held|)
    && (split.frames == [] && split.rest.Some? && split.rest.value > 0 ==>
          split.rest.value == |held| - 4 && NextCode(held, 0).None?)
    && (split.frames != [] ==> NextCode(held, 0).Some? && |Concat(split.frames)| > 0)
    && (split.frames != [] && split.rest.Some? ==>
          && CodeAt(held, split.rest.value)
          && Concat(split.frames) + held[split.rest.value..] == held[NextCode(held, 0).value..])
  }

  lemma SplitterIsHonest(held: seq<byte>)
    ensures Honest(held, Split(held, 0))
  {
    if Split(held, 0).frames != [] {
      FramesHoldBytes(held);
      if Split(held, 0).rest.Some? {
        Conservation(held, 0);
      }
    }
  }

  /** A read before the first frame that finds none either. */
  lemma StillNoFrame(c: Connection, bytes: seq<byte>, held: seq<byte>, split: Splitting)
    requires held == c.held + bytes && Honest(held, split) && split.frames == []
    requires ExactlyOnce(c) && c.offered == []
    ensures ExactlyOnce(Settle(c, held, split))
  {
    var after := Settle(c, held, split);
    GoneStaysGone(c.gone, c.held, bytes);
    if split.rest.Some? {
      var r := split.rest.value;
      assert after.Received() == c.gone + held by {
        Regroup(c.gone, held[..r], held[r..]);
        assert held[..r] + held[r..] == held;
      }
      if r > 0 {
        MoreIsGone(c.gone, held, |after.gone|);
      } else {
        assert held[..r] == [];
      }
    }
  }

  /** With no code let go of, the stream from its first code on is the held bytes from theirs. */
  lemma StreamFromFirstCode(c: Connection, bytes: seq<byte>, held: seq<byte>)
    requires held == c.held + bytes && NextCode(held, 0).Some?
    requires ExactlyOnce(c) && c.offered == []
    ensures NextCode(c.gone + held, 0) == Some(|c.gone| + NextCode(held, 0).value)
    ensures (c.gone + held)[|c.gone| + NextCode(held, 0).value..] == held[NextCode(held, 0).value..]
  {
    GoneStaysGone(c.gone, c.held, bytes);
    FirstCodeIsHeld(c.gone, held);
  }

  /** The read that brings the first frames. */
  lemma FirstFrames(c: Connection, bytes: seq<byte>, held: seq<byte>, split: Splitting)
    requires held == c.held + bytes && Honest(held, split) && split.frames != []
    requires ExactlyOnce(c) && c.offered == []
    ensures ExactlyOnce(Settle(c, held, split)) <==> split.rest.Some?
  {
    var after := Settle(c, held, split);
    assert after.offered == split.frames;
    StreamFromFirstCode(c, bytes, held);
    if split.rest.Some? {
      var r := split.rest.value;
      assert after.Received() == c.gone + held by {
        Regroup(c.gone, held[..r], held[r..]);
        assert held[..r] + held[r..] == held;
      }
      assert CodeAt(held[r..], 0) by {
        assert held[..r] + held[r..] == held;
        Reads.CodeBehind(held, r, held[r..], 0);
      }
    }
  }

  lemma StreamGrows(c: Connection, bytes: seq<byte>)
    requires ExactlyOnce(c) && c.offered != []
    ensures NextCode(c.Received() + bytes, 0) == NextCode(c.Received(), 0)
    ensures Concat(c.offered) + (c.held + bytes) == (c.Received() + bytes)[NextCode(c.Received(), 0).value..]
    ensures CodeAt(c.held + bytes, 0)
  {
    NextCodeSurvivesExtension(c.Received(), c.Received() + bytes, 0);
    var first := NextCode(c.Received(), 0).value;
    assert (c.Received() + bytes)[first..] == c.Received()[first..] + bytes;
    Regroup(Concat(c.offered), c.held, bytes);
  }

  /** A read after it: the held bytes begin with a start code. */
  lemma LaterFrames(c: Connection, bytes: seq<byte>, held: seq<byte>, split: Splitting)
    requires held == c.held + bytes && Honest(held, split)
    requires ExactlyOnce(c) && c.offered != []
    ensures ExactlyOnce(Settle(c, held, split)) <==> !Repeats(split)
  {
    StreamGrows(c, bytes);
    Regroup(c.gone, c.held, bytes);
    assert NextCode(held, 0) == Some(0);
    ConcatAppend(c.offered, split.frames);
    if split.frames == [] {
      assert c.offered + split.frames == c.offered;
    }
    if split.rest.Some? {
      var r := split.rest.value;
      assert held[..r] + held[r..] == held;
      Regroup(c.gone, held[..r], held[r..]);
      Reads.CodeBehind(held, r, held[r..], 0);
      Regroup(Concat(c.offered), Concat(split.frames), held[r..]);
    }
  }

  /**
   * Short of the overflow reset, a read keeps the once-and-only-once promise exactly when the bytes held
   * and read do not leave a frame open, eight bytes or more from their end, behind whole ones.
   */
  lemma ReadKeepsExactlyOnce(c: Connection, bytes: seq<byte>)
    requires c.open && ExactlyOnce(c) && |c.held| < MAX_FRAME_SIZE
    ensures ExactlyOnce(Receive(c, Chunk(bytes))) <==> !KeepsWhatItOffered(c, bytes)
  {
    var held, ready := c.held + bytes, Prepare(c);
    var split := Split(held, 0);
    SplitterIsHonest(held);
    NullWithFramesIff(held);
    assert ExactlyOnce(ready);
    if c.offered != [] {
      LaterFrames(ready, bytes, held, split);
    } else if split.frames == [] {
      StillNoFrame(ready, bytes, held, split);
    } else {
      FirstFrames(ready, bytes, held, split);
    }
  }

  lemma SplitAddsNothing(buf: seq<byte>)
    requires !Repeats(Split(buf, 0))
    ensures var split := Split(buf, 0);
            var kept := if split.rest.Some? then buf[split.rest.value..] else buf;
            |Concat(split.frames)| + |kept| <= |buf|
  {
    if Split(buf, 0).frames != [] {
      Conservation(buf, 0);
    }
  }

  /** The overflow reset throws bytes of the stream away: no later frame brings them back. */
  lemma OverflowLosesBytes(c: Connection, bytes: seq<byte>)
    requires c.open && ExactlyOnce(c) && |c.held| >= MAX_FRAME_SIZE && NextCode(c.held, 0).Some?
    requires !HoldsFramesAndOpenOne(bytes)
    ensures !ExactlyOnce(Receive(c, Chunk(bytes)))
  {
    var after, before := Receive(c, Chunk(bytes)), c.Received();
    if c.offered == [] {
      FirstCodeIsHeld(c.gone, c.held);
    }
    var first := NextCode(before, 0).value;
    NextCodeIsLeast(before, 0);
    NextCodeSurvivesExtension(before, before + bytes, 0);
    NextCodeIsLeast(before + bytes, 0);
    ReadsAccumulate(c, bytes);
    assert [] + bytes == bytes;
    NullWithFramesIff(bytes);
    SplitAddsNothing(bytes);
    ConcatAppend(c.offered, Split(bytes, 0).frames);
    assert |after.gone| >= |before| > first;
  }

  lemma OfferedByRead(c: Connection, bytes: seq<byte>)
    requires c.open && |c.held| < MAX_FRAME_SIZE
    ensures Receive(c, Chunk(bytes)).offered == c.offered + Split(c.held + bytes, 0).frames
  {
  }

  lemma ReadKeepsTheRest(c: Connection, bytes: seq<byte>)
    requires c.open && |c.held| < MAX_FRAME_SIZE
    ensures var next := Receive(c, Chunk(bytes));
            next.open && next.held == Reads.Kept(c.held + bytes)
  {
  }

  lemma PrefixAfter<T>(before: seq<T>, short: seq<T>, long: seq<T>)
    requires short <= long
    ensures before + short <= before + long
  {
  }

  /** The read after one that kept what it offered offers every one of those frames again. */
  lemma KeptFramesAreOfferedAgain(c: Connection, bytes: seq<byte>, next: Connection, more: seq<byte>)
    requires c.open && |c.held| < MAX_FRAME_SIZE && KeepsWhatItOffered(c, bytes)
    requires next == Receive(c, Chunk(bytes)) && |next.held| < MAX_FRAME_SIZE
    ensures next.offered == c.offered + Split(c.held + bytes, 0).frames
    ensures next.offered + Split(c.held + bytes, 0).frames <= Receive(next, Chunk(more)).offered
  {
    OfferedByRead(c, bytes);
    NullWithFramesIff(c.held + bytes);
    assert next.open && next.held == c.held + bytes;
    OfferedByRead(next, more);
    NullReturnOffersAgain(next.held, next.held + more, 0);
    PrefixAfter(next.offered, Split(next.held, 0).frames, Split(next.held + more, 0).frames);
  }

  lemma FirstReadRepeats(bytes: seq<byte>, frames: seq<seq<byte>>, more: seq<byte>, next: Connection)
    requires Split(bytes, 0) == Splitting(frames, None) && HoldsFramesAndOpenOne(bytes) && |bytes| < MAX_FRAME_SIZE
    requires next == Receive(FRESH, Chunk(bytes))
    ensures next.offered == frames && !ExactlyOnce(next)
    ensures frames + frames <= Receive(next, Chunk(more)).offered
  {
    assert FRESH.held + bytes == bytes && FRESH.offered + frames == frames;
    OfferedByRead(FRESH, bytes);
    ReadKeepsTheRest(FRESH, bytes);
    KeptFramesAreOfferedAgain(FRESH, bytes, next, more);
    ReadKeepsExactlyOnce(FRESH, bytes);
  }

  /** The very first read of a connection can be such a one: its picture is handed over twice. */
  lemma FirstReadMayRepeat(bytes: seq<byte>, more: seq<byte>, next: Connection)
    requires bytes == Reads.LEAD + Reads.LATER_SLICE && next == Receive(FRESH, Chunk(bytes))
    ensures next.offered == [Reads.LEAD] && !ExactlyOnce(next)
    ensures [Reads.LEAD] + [Reads.LEAD] <= Receive(next, Chunk(more)).offered
  {
    Reads.OpenPictureReturnsNull();
    FirstReadRepeats(bytes, [Reads.LEAD], more, next);
  }

  /** Reads alone, none of them overflowing and none leaving a frame open behind whole ones. */
  ghost predicate Clean(c: Connection, chunks: seq<seq<byte>>)
    decreases |chunks|
  {
    chunks != [] ==>
      && |c.held| < MAX_FRAME_SIZE
      && !KeepsWhatItOffered(c, chunks[0])
      && Clean(Receive(c, Chunk(chunks[0])), chunks[1..])
  }

  function ReadAll(c: Connection, chunks: seq<seq<byte>>): Connection
    decreases |chunks|
  {
    if chunks == [] then c else ReadAll(Receive(c, Chunk(chunks[0])), chunks[1..])
  }

  lemma CleanStep(c: Connection, bytes: seq<byte>, next: Connection)
    requires c.open && ExactlyOnce(c) && next == Receive(c, Chunk(bytes))
    requires |c.held| < MAX_FRAME_SIZE && !KeepsWhatItOffered(c, bytes)
    ensures next.open && ExactlyOnce(next) && next.Received() == c.Received() + bytes
  {
    ReadsAccumulate(c, bytes);
    ReadKeepsExactlyOnce(c, bytes);
  }

  lemma {:induction false} CleanRunsOfferOnce(c: Connection, chunks: seq<seq<byte>>)
    requires c.open && ExactlyOnce(c) && Clean(c, chunks)
    ensures ExactlyOnce(ReadAll(c, chunks))
    ensures ReadAll(c, chunks).Received() == c.Received() + Concat(chunks)
    decreases |chunks|
  {
    if chunks == [] {
      assert c.Received() + [] == c.Received();
    } else {
      var next := Receive(c, Chunk(chunks[0]));
      CleanStep(c, chunks[0], next);
      CleanRunsOfferOnce(next, chunks[1..]);
      Regroup(c.Received(), chunks[0], Concat(chunks[1..]));
    }
  }

  /** No read finds the overflow reset due. */
  ghost predicate Roomy(c: Connection, chunks: seq<seq<byte>>)
    decreases |chunks|
  {
    chunks != [] ==> |c.held| < MAX_FRAME_SIZE && Roomy(Receive(c, Chunk(chunks[0])), chunks[1..])
  }

  /** More has been handed over, with what is held from its first code on, than the stream is long. */
  ghost predicate Ahead(c: Connection) {
    && c.offered != [] && NextCode(c.held, 0).Some? && NextCode(c.Received(), 0).Some?
    && |Concat(c.offered)| + |c.held| - NextCode(c.held, 0).value > |c.Received()| - NextCode(c.Received(), 0).value
  }

  lemma AheadIsNotOnce(c: Connection)
    requires Ahead(c)
    ensures !ExactlyOnce(c)
  {
  }

  lemma RepeatPutsAhead(c: Connection, bytes: seq<byte>)
    requires c.open && ExactlyOnce(c) && |c.held| < MAX_FRAME_SIZE && KeepsWhatItOffered(c, bytes)
    ensures Receive(c, Chunk(bytes)).open && Ahead(Receive(c, Chunk(bytes)))
  {
    var held, after := c.held + bytes, Receive(c, Chunk(bytes));
    NullWithFramesIff(held);
    SplitterIsHonest(held);
    ReadsAccumulate(c, bytes);
    OfferedByRead(c, bytes);
    ConcatAppend(c.offered, Split(held, 0).frames);
    if c.offered == [] {
      StreamFromFirstCode(c, bytes, held);
      assert Concat([]) == [];
      Regroup(c.gone, c.held, bytes);
    } else {
      StreamGrows(c, bytes);
    }
  }

  /** What splitting hands over and keeps is the buffer from its first code on, if it holds one. */
  lemma SplitLosesNothing(buf: seq<byte>)
    requires NextCode(buf, 0).Some?
    ensures var (split, kept, first) := (Split(buf, 0), Reads.Kept(buf), NextCode(buf, 0).value);
            && NextCode(kept, 0).Some?
            && |Concat(split.frames)| + |kept| - NextCode(kept, 0).value >= |buf| - first
  {
    var split := Split(buf, 0);
    SplitterIsHonest(buf);
    if split.rest.Some? && split.frames == [] {
      assert buf[0..] == buf;
    } else if split.rest.Some? {
      Reads.CodeBehind(buf, split.rest.value, Reads.Kept(buf), 0);
    }
  }

  lemma AheadStays(c: Connection, bytes: seq<byte>)
    requires c.open && Ahead(c) && |c.held| < MAX_FRAME_SIZE
    ensures Receive(c, Chunk(bytes)).open && Ahead(Receive(c, Chunk(bytes)))
  {
    var held := c.held + bytes;
    ReadsAccumulate(c, bytes);
    ReadKeepsTheRest(c, bytes);
    OfferedByRead(c, bytes);
    ConcatAppend(c.offered, Split(held, 0).frames);
    NextCodeSurvivesExtension(c.held, held, 0);
    NextCodeSurvivesExtension(c.Received(), c.Received() + bytes, 0);
    SplitLosesNothing(held);
  }

  lemma {:induction false} AheadForGood(c: Connection, chunks: seq<seq<byte>>)
    requires c.open && Ahead(c) && Roomy(c, chunks)
    ensures Ahead(ReadAll(c, chunks))
    decreases |chunks|
  {
    if chunks != [] {
      AheadStays(c, chunks[0]);
      AheadForGood(Receive(c, Chunk(chunks[0])), chunks[1..]);
    }
  }

  /**
   * Over any reads without an overflow the promise holds at the end if and only if none of them left a
   * frame open behind whole ones: a repetition is never made good.
   */
  lemma {:induction false} RunsOfferOnceIff(c: Connection, chunks: seq<seq<byte>>)
    requires c.open && ExactlyOnce(c) && Roomy(c, chunks)
    ensures ExactlyOnce(ReadAll(c, chunks)) <==> Clean(c, chunks)
    decreases |chunks|
  {
    if chunks != [] {
      var next := Receive(c, Chunk(chunks[0]));
      if KeepsWhatItOffered(c, chunks[0]) {
        RepeatPutsAhead(c, chunks[0]);
        AheadForGood(next, chunks[1..]);
        AheadIsNotOnce(ReadAll(next, chunks[1..]));
      } else {
        CleanStep(c, chunks[0], next);
        RunsOfferOnceIff(next, chunks[1..]);
      }
    }
  }

  /** From a fresh connection: the frames, in order, and the held tail are the stream from its first code. */
  lemma StreamIsFramesAndTail(chunks: seq<seq<byte>>)
    requires Clean(FRESH, chunks) && ReadAll(FRESH, chunks).offered != []
    ensures var end := ReadAll(FRESH, chunks);
            var bytes := Concat(chunks);
            && NextCode(bytes, 0).Some?
            && Concat(end.offered) + end.held == bytes[NextCode(bytes, 0).value..]
  {
    CleanRunsOfferOnce(FRESH, chunks);
    assert FRESH.Received() + Concat(chunks) == Concat(chunks);
  }

  // ----- the frames and the reads they came in -----

  lemma {:induction false} OfferedIsFed(c: Connection, chunks: seq<seq<byte>>)
    requires c.open && Roomy(c, chunks)
    ensures ReadAll(c, chunks).offered == c.offered + Reads.Feed(c.held, chunks)
    decreases |chunks|
  {
    if chunks == [] {
      assert c.offered + [] == c.offered;
    } else {
      var next := Receive(c, Chunk(chunks[0]));
      OfferedByRead(c, chunks[0]);
      ReadKeepsTheRest(c, chunks[0]);
      OfferedIsFed(next, chunks[1..]);
      Regroup(c.offered, Split(c.held + chunks[0], 0).frames, Reads.Feed(next.held, chunks[1..]));
    }
  }

  /**
   * From a fresh connection, however the bytes were cut into reads: when each read leaves off where the
   * bytes to come change nothing about it, the frames handed over are those of one split of all the bytes.
   */
  lemma FramesDoNotDependOnReads(chunks: seq<seq<byte>>)
    requires chunks != [] && Roomy(FRESH, chunks) && Reads.LeavesOffWell([], chunks)
    ensures ReadAll(FRESH, chunks).offered == Split(Concat(chunks), 0).frames
  {
    OfferedIsFed(FRESH, chunks);
    Reads.ReadsDoNotMatter([], chunks);
    assert [] + Concat(chunks) == Concat(chunks);
    assert FRESH.offered + Reads.Feed([], chunks) == Reads.Feed([], chunks);
  }
}
