/**
 * The long-lived MJPEG response of apps/stream-http/camera-stream.py: pictures and splash signals
 * for one viewer, and the pacing of what it is sent. Time is in seconds.
 */
module MjpegStream {
  import opened Bytes
  import opened JpegFrames

  const CONNECTING_AFTER_SILENT_S: real := 2.0
  const INTERRUPTED_AFTER_SILENT_S: real := 5.0
  const GIVE_UP_CONNECTING_S: real := 30.0
  const MJPEG_SEND_TIMEOUT_MS: real := 10000.0

  // ----- which splash a silent feed earns -----

  datatype Splash = Quiet | Connecting | Interrupted

  function SplashForSilence(silentFor: real, seenLiveFrame: bool): Splash {
    if seenLiveFrame then
      if silentFor >= INTERRUPTED_AFTER_SILENT_S then Interrupted else Quiet
    else if silentFor >= GIVE_UP_CONNECTING_S then Interrupted
    else if silentFor >= CONNECTING_AFTER_SILENT_S then Connecting
    else Quiet
  }

  function Rank(s: Splash): nat {
    match s case Quiet => 0 case Connecting => 1 case Interrupted => 2
  }

  // ----- one viewer's stream -----

  datatype Signal = Picture(jpeg: seq<byte>) | Message(splash: Splash)

  /** A signal and the clock when it was given. */
  datatype Notice = Notice(signal: Signal, at: real)

  /** One viewer: what its loop carries, and every notice it was given. */
  datatype Watch = Watch(
    start: real, buffer: seq<byte>, silentSince: real, seenLiveFrame: bool, said: seq<Notice>)

  function Joined(now: real): Watch {
    Watch(now, [], now, false, [])
  }

  function Shown(pictures: seq<seq<byte>>, now: real): seq<Notice> {
    if pictures == [] then [] else [Notice(Picture(pictures[0]), now)] + Shown(pictures[1..], now)
  }

  lemma {:induction false} ShownAt(pictures: seq<seq<byte>>, now: real)
    ensures |Shown(pictures, now)| == |pictures|
    ensures forall k | 0 <= k < |pictures| :: Shown(pictures, now)[k] == Notice(Picture(pictures[k]), now)
  {
    if pictures != [] {
      ShownAt(pictures[1..], now);
    }
  }

  /** One pass of the loop: a chunk, or None when the read timed out, failed or found the peer gone. */
  function Pass(w: Watch, chunk: Option<seq<byte>>, now: real): Watch {
    match chunk
    case None =>
      var splash := SplashForSilence(now - w.silentSince, w.seenLiveFrame);
      if splash == Quiet then w else w.(said := w.said + [Notice(Message(splash), now)])
    case Some(bytes) =>
      var found := Extract(w.buffer + bytes);
      if found.frames == [] then w.(buffer := found.rest)
      else w.(buffer := found.rest, silentSince := now, seenLiveFrame := true,
              said := w.said + Shown(found.frames, now))
  }

  class CaptureStream {
    var buffer: seq<byte>
    var silentSince: real
    var seenLiveFrame: bool
    ghost var start: real
    ghost var said: seq<Notice>

    ghost function View(): Watch
      reads this
    {
      Watch(start, buffer, silentSince, seenLiveFrame, said)
    }

    constructor (now: real)
      ensures View() == Joined(now)
    {
      buffer, silentSince, seenLiveFrame := [], now, false;
      start, said := now, [];
    }

    /** One signal for each picture, in order. */
    method YieldAll(complete: seq<seq<byte>>, now: real) returns (signals: seq<Signal>)
      modifies this`said
      ensures said == old(said) + Shown(complete, now) && |signals| == |complete|
      ensures forall k | 0 <= k < |signals| :: signals[k] == Picture(complete[k])
    {
      ghost var before := said;
      ghost var added: seq<Notice> := [];
      signals := [];
      var i := 0;
      while i < |complete|
        invariant i <= |complete| && |signals| == |added| == i && said == before + added
        invariant forall k | 0 <= k < i :: signals[k] == Picture(complete[k])
        invariant forall k | 0 <= k < i :: added[k] == Notice(Picture(complete[k]), now)
      {
        var notice := Notice(Picture(complete[i]), now);
        signals := signals + [Picture(complete[i])];
        Regroup(before, added, [notice]);
        said := said + [notice];
        added := added + [notice];
        i := i + 1;
      }
      ShownAt(complete, now);
      assert added == Shown(complete, now);
    }

    /** What the generator yields on one pass. */
    method Frames(chunk: Option<seq<byte>>, now: real) returns (signals: seq<Signal>)
      modifies this
      ensures View() == Pass(old(View()), chunk, now)
      ensures |said| == |old(said)| + |signals|
      ensures forall k | 0 <= k < |signals| :: said[|old(said)| + k] == Notice(signals[k], now)
    {
      if chunk.None? {
        var splash := SplashForSilence(now - silentSince, seenLiveFrame);
        if splash == Quiet {
          return [];
        }
        said := said + [Notice(Message(splash), now)];
        return [Message(splash)];
      }
      var complete: seq<seq<byte>>;
      complete, buffer := ExtractFrames(buffer + chunk.value);
      if complete == [] {
        return [];
      }
      silentSince := now;
      seenLiveFrame := true;
      signals := YieldAll(complete, now);
      ShownAt(complete, now);
    }
  }

  // ----- the pictures over a whole run -----

  datatype Turn = Turn(chunk: Option<seq<byte>>, now: real)

  function Run(w: Watch, turns: seq<Turn>): Watch
    decreases |turns|
  {
    if turns == [] then w else Run(Pass(w, turns[0].chunk, turns[0].now), turns[1..])
  }

  /** The bytes of every chunk received, across reconnects. */
  function Received(turns: seq<Turn>): seq<byte> {
    if turns == [] then []
    else (if turns[0].chunk.Some? then turns[0].chunk.value else []) + Received(turns[1..])
  }

  function Pictures(said: seq<Notice>): seq<seq<byte>> {
    if said == [] then []
    else (if said[0].signal.Picture? then [said[0].signal.jpeg] else []) + Pictures(said[1..])
  }

  lemma {:induction false} PicturesAppend(a: seq<Notice>, b: seq<Notice>)
    ensures Pictures(a + b) == Pictures(a) + Pictures(b)
  {
    if a == [] {
      assert a + b == b;
    } else {
      assert (a + b)[1..] == a[1..] + b;
      PicturesAppend(a[1..], b);
      Regroup(if a[0].signal.Picture? then [a[0].signal.jpeg] else [], Pictures(a[1..]), Pictures(b));
    }
  }

  lemma {:induction false} PicturesShown(pictures: seq<seq<byte>>, now: real)
    ensures Pictures(Shown(pictures, now)) == pictures
  {
    if pictures != [] {
      PicturesShown(pictures[1..], now);
      assert Shown(pictures, now)[1..] == Shown(pictures[1..], now);
    }
  }

  lemma PassShows(w: Watch, chunk: Option<seq<byte>>, now: real)
    ensures var after := Pass(w, chunk, now);
            var found := if chunk.None? then Extraction([], w.buffer) else Extract(w.buffer + chunk.value);
            after.buffer == found.rest && Pictures(after.said) == Pictures(w.said) + found.frames
  {
    match chunk
    case None =>
      PicturesAppend(w.said, [Notice(Message(SplashForSilence(now - w.silentSince, w.seenLiveFrame)), now)]);
    case Some(bytes) =>
      PicturesAppend(w.said, Shown(Extract(w.buffer + bytes).frames, now));
      PicturesShown(Extract(w.buffer + bytes).frames, now);
  }

  /**
   * Over every run, stalls and reconnects included, the viewer is shown exactly the pictures that one
   * extraction of all bytes received finds, in that order.
   */
  lemma {:induction false} RunShowsWhatWasReceived(w: Watch, turns: seq<Turn>)
    requires Extract(w.buffer) == Extraction([], w.buffer)
    ensures var end := Run(w, turns);
            var all := Extract(w.buffer + Received(turns));
            end.buffer == all.rest && Pictures(end.said) == Pictures(w.said) + all.frames
    decreases |turns|
  {
    if turns == [] {
      assert w.buffer + [] == w.buffer;
    } else {
      var bytes := if turns[0].chunk.Some? then turns[0].chunk.value else [];
      var next := Pass(w, turns[0].chunk, turns[0].now);
      var later := Received(turns[1..]);
      assert w.buffer + [] == w.buffer;
      PassShows(w, turns[0].chunk, turns[0].now);
      RestIsSettled(w.buffer + bytes);
      RunShowsWhatWasReceived(next, turns[1..]);
      ChunkIndependence(w.buffer + bytes, later);
      Regroup(w.buffer, bytes, later);
      Regroup(Pictures(w.said), Extract(w.buffer + bytes).frames, Extract(next.buffer + later).frames);
    }
  }

  // ----- what a viewer may be told -----

  ghost predicate ShownBetween(said: seq<Notice>, i: nat, j: nat)
    requires i <= j <= |said|
  {
    exists k :: i <= k < j && said[k].signal.Picture?
  }

  /** The three promises: about "connecting", about giving up early, and about taking a message back. */
  ghost predicate Honest(start: real, said: seq<Notice>) {
    && (forall i | 0 <= i < |said| && said[i].signal == Message(Connecting) :: !ShownBetween(said, 0, i))
    && (forall i | 0 <= i < |said| && said[i].signal == Message(Interrupted) && !ShownBetween(said, 0, i) ::
          said[i].at - start >= GIVE_UP_CONNECTING_S)
    && (forall i, j | 0 <= i < j < |said| && said[i].signal.Message? && said[j].signal.Message?
          && !ShownBetween(said, i, j) ::
          Rank(said[i].signal.splash) <= Rank(said[j].signal.splash))
  }

  /** What the loop's own variables know of the notices, at clock `now`. */
  ghost predicate Knows(w: Watch, now: real) {
    && (w.seenLiveFrame <==> ShownBetween(w.said, 0, |w.said|))
    && (!w.seenLiveFrame ==> w.silentSince == w.start)
    && (forall i | 0 <= i < |w.said| && w.said[i].signal.Message? && !ShownBetween(w.said, i, |w.said|) ::
          Rank(w.said[i].signal.splash) <= Rank(SplashForSilence(now - w.silentSince, w.seenLiveFrame)))
  }

  lemma SilenceOnlyEscalates(shorter: real, longer: real, seen: bool)
    requires shorter <= longer
    ensures Rank(SplashForSilence(shorter, seen)) <= Rank(SplashForSilence(longer, seen))
  {
  }

  lemma LaterKnows(w: Watch, before: real, now: real)
    requires Knows(w, before) && before <= now
    ensures Knows(w, now)
  {
    SilenceOnlyEscalates(before - w.silentSince, now - w.silentSince, w.seenLiveFrame);
  }

  /** A notice at the end changes nothing about what lies before it. */
  lemma ShownStays(said: seq<Notice>, notice: Notice, i: nat, j: nat)
    requires i <= j <= |said|
    ensures ShownBetween(said + [notice], i, j) == ShownBetween(said, i, j)
  {
    var longer := said + [notice];
    assert forall k | i <= k < j :: longer[k] == said[k];
    if ShownBetween(said, i, j) {
      var k :| i <= k < j && said[k].signal.Picture?;
      assert longer[k].signal.Picture?;
    }
  }

  lemma ShownUpTo(said: seq<Notice>, notice: Notice, i: nat)
    requires i <= |said|
    ensures ShownBetween(said + [notice], i, |said| + 1)
        <==> notice.signal.Picture? || ShownBetween(said, i, |said|)
  {
    var longer := said + [notice];
    assert longer[|said|] == notice;
    assert forall k | i <= k < |said| :: longer[k] == said[k];
    if ShownBetween(said, i, |said|) {
      var k :| i <= k < |said| && said[k].signal.Picture?;
      assert longer[k].signal.Picture?;
    }
  }

  /** A notice may be added when it keeps each promise with respect to what was said before. */
  lemma NoticeKeepsHonest(start: real, said: seq<Notice>, notice: Notice)
    requires Honest(start, said)
    requires notice.signal == Message(Connecting) ==> !ShownBetween(said, 0, |said|)
    requires notice.signal == Message(Interrupted) && !ShownBetween(said, 0, |said|) ==>
      notice.at - start >= GIVE_UP_CONNECTING_S
    requires forall i | 0 <= i < |said| && said[i].signal.Message? && notice.signal.Message?
      && !ShownBetween(said, i, |said|) :: Rank(said[i].signal.splash) <= Rank(notice.signal.splash)
    ensures Honest(start, said + [notice])
  {
    var longer := said + [notice];
    forall i, j | 0 <= i <= j <= |said| ensures ShownBetween(longer, i, j) == ShownBetween(said, i, j) {
      ShownStays(said, notice, i, j);
    }
  }

  /** One more message keeps the promises when it is the one the silence calls for. */
  lemma MessageKeepsHonest(w: Watch, now: real, splash: Splash)
    requires Honest(w.start, w.said) && Knows(w, now)
    requires splash == SplashForSilence(now - w.silentSince, w.seenLiveFrame)
    ensures var said := w.said + [Notice(Message(splash), now)];
            Honest(w.start, said) && Knows(w.(said := said), now)
  {
    var notice := Notice(Message(splash), now);
    NoticeKeepsHonest(w.start, w.said, notice);
    forall i | 0 <= i <= |w.said|
      ensures ShownBetween(w.said + [notice], i, |w.said| + 1) == ShownBetween(w.said, i, |w.said|)
    {
      ShownUpTo(w.said, notice, i);
    }
  }

  /** One more picture keeps the promises and starts the silence over. */
  lemma PictureKeepsHonest(w: Watch, now: real, jpeg: seq<byte>, after: Watch)
    requires Honest(w.start, w.said) && Knows(w, now)
    requires after == w.(said := w.said + [Notice(Picture(jpeg), now)], silentSince := now, seenLiveFrame := true)
    ensures Honest(w.start, after.said) && Knows(after, now)
  {
    var notice := Notice(Picture(jpeg), now);
    NoticeKeepsHonest(w.start, w.said, notice);
    forall i | 0 <= i <= |w.said| ensures ShownBetween(after.said, i, |after.said|) {
      ShownUpTo(w.said, notice, i);
    }
  }

  lemma {:induction false} PicturesKeepHonest(w: Watch, now: real, jpegs: seq<seq<byte>>, after: Watch)
    requires Honest(w.start, w.said) && Knows(w, now)
    requires after == w.(said := w.said + Shown(jpegs, now), silentSince := now, seenLiveFrame := true)
    requires jpegs != []
    ensures Honest(w.start, after.said) && Knows(after, now)
    decreases |jpegs|
  {
    var first := Notice(Picture(jpegs[0]), now);
    var next := w.(said := w.said + [first], silentSince := now, seenLiveFrame := true);
    PictureKeepsHonest(w, now, jpegs[0], next);
    Regroup(w.said, [first], Shown(jpegs[1..], now));
    if jpegs[1..] == [] {
      assert next.said + [] == next.said;
    } else {
      PicturesKeepHonest(next, now, jpegs[1..], after);
    }
  }

  lemma PassKeepsHonest(w: Watch, chunk: Option<seq<byte>>, now: real)
    requires Honest(w.start, w.said) && Knows(w, now)
    ensures var after := Pass(w, chunk, now);
            after.start == w.start && Honest(w.start, after.said) && Knows(after, now)
  {
    match chunk
    case None =>
      MessageKeepsHonest(w, now, SplashForSilence(now - w.silentSince, w.seenLiveFrame));
    case Some(bytes) =>
      var found := Extract(w.buffer + bytes);
      if found.frames != [] {
        PicturesKeepHonest(w.(buffer := found.rest), now, found.frames, Pass(w, chunk, now));
      }
  }

  ghost predicate ClockRuns(now: real, turns: seq<Turn>)
    decreases |turns|
  {
    turns != [] ==> now <= turns[0].now && ClockRuns(turns[0].now, turns[1..])
  }

  lemma {:induction false} RunsStayHonest(w: Watch, now: real, turns: seq<Turn>)
    requires Honest(w.start, w.said) && Knows(w, now) && ClockRuns(now, turns)
    ensures Run(w, turns).start == w.start && Honest(w.start, Run(w, turns).said)
    decreases |turns|
  {
    if turns != [] {
      LaterKnows(w, now, turns[0].now);
      PassKeepsHonest(w, turns[0].chunk, turns[0].now);
      RunsStayHonest(Pass(w, turns[0].chunk, turns[0].now), turns[0].now, turns[1..]);
    }
  }

  /**
   * On every run: no "connecting" after a first picture, no "interrupted" to a viewer without one
   * before thirty seconds, and between two pictures the message only escalates.
   */
  lemma ViewerIsNeverMisled(now: real, turns: seq<Turn>)
    requires ClockRuns(now, turns)
    ensures Honest(now, Run(Joined(now), turns).said)
  {
    RunsStayHonest(Joined(now), now, turns);
  }

  // ----- pacing -----

  datatype Decision = Send | Drop | Stale

  function ClassifyFrame(elapsed: real, frameInterval: real, unsentBytes: nat, lastSentSize: nat): Decision {
    if frameInterval > 0.0 && elapsed < frameInterval then Drop
    else if unsentBytes < lastSentSize then Send
    else if elapsed * 1000.0 > MJPEG_SEND_TIMEOUT_MS then Stale
    else Drop
  }

  function FrameInterval(fps: int): real {
    if fps > 0 then 1.0 / fps as real else 0.0
  }

  datatype Pacing = Pacing(
    frameInterval: real, lastSentAt: real, lastSentSize: nat, sent: nat, dropped: nat)

  function NewPacing(fps: int, now: real): Pacing {
    Pacing(FrameInterval(fps), now, 1024, 0, 0)
  }

  class MjpegPacer {
    const frameInterval: real
    var lastSentAt: real
    var lastSentSize: nat
    var sent: nat
    var dropped: nat

    function View(): Pacing
      reads this
    {
      Pacing(frameInterval, lastSentAt, lastSentSize, sent, dropped)
    }

    constructor (fps: int, now: real)
      ensures View() == NewPacing(fps, now)
    {
      frameInterval := if fps > 0 then 1.0 / fps as real else 0.0;
      lastSentAt, lastSentSize, sent, dropped := now, 1024, 0, 0;
    }

    method Classify(unsentBytes: nat, now: real) returns (decision: Decision)
      modifies this`dropped
      ensures decision == ClassifyFrame(now - lastSentAt, frameInterval, unsentBytes, lastSentSize)
      ensures 0.0 < frameInterval && now - lastSentAt < frameInterval ==> decision == Drop
      ensures frameInterval <= 0.0 || now - lastSentAt >= frameInterval ==>
        && (decision == Send <==> unsentBytes < lastSentSize)
        && (decision == Stale <==> unsentBytes >= lastSentSize && now - lastSentAt > 10.0)
      ensures dropped == old(dropped) + if decision == Drop then 1 else 0
    {
      decision := ClassifyFrame(now - lastSentAt, frameInterval, unsentBytes, lastSentSize);
      if decision == Drop {
        dropped := dropped + 1;
      }
    }

    method NoteSent(frameSize: nat, headerSize: nat, now: real)
      modifies this
      ensures View() == old(View()).(
        lastSentAt := now, lastSentSize := headerSize + frameSize + 2, sent := old(sent) + 1)
    {
      lastSentAt := now;
      lastSentSize := headerSize + frameSize + 2;
      sent := sent + 1;
    }

    /** One frame relayed; `done` is when the write finished, None when it raised. */
    method Relay(offer: Offer) returns (outcome: Outcome)
      modifies this
      ensures (View(), outcome) == Relayed(old(View()), offer)
    {
      var decision := Classify(offer.unsentBytes, offer.now);
      if decision == Stale {
        return GaveUp;
      }
      if decision == Drop {
        return Dropped;
      }
      if offer.done.None? {
        return Broke;
      }
      NoteSent(offer.frameSize, offer.headerSize, offer.done.value);
      return Sent;
    }
  }

  /** A payload offered to the viewer and what the socket and the clock answer about it. */
  datatype Offer = Offer(frameSize: nat, headerSize: nat, unsentBytes: nat, now: real, done: Option<real>)

  datatype Outcome = Sent | Dropped | GaveUp | Broke

  function Relayed(p: Pacing, offer: Offer): (Pacing, Outcome) {
    match ClassifyFrame(offer.now - p.lastSentAt, p.frameInterval, offer.unsentBytes, p.lastSentSize)
    case Stale => (p, GaveUp)
    case Drop => (p.(dropped := p.dropped + 1), Dropped)
    case Send =>
      if offer.done.None? then (p, Broke)
      else (p.(lastSentAt := offer.done.value, lastSentSize := offer.headerSize + offer.frameSize + 2,
               sent := p.sent + 1), Sent)
  }

  /** The pump: offers until one gives up or breaks, and how many were taken. */
  function Pump(p: Pacing, offers: seq<Offer>): (Pacing, Outcome, nat)
    decreases |offers|
  {
    if offers == [] then (p, Dropped, 0)
    else
      var (next, outcome) := Relayed(p, offers[0]);
      if outcome == GaveUp || outcome == Broke then (next, outcome, 0)
      else var (end, last, n) := Pump(next, offers[1..]); (end, last, n + 1)
  }

  ghost predicate OffersInOrder(now: real, offers: seq<Offer>)
    decreases |offers|
  {
    offers != [] ==>
      && now <= offers[0].now
      && (offers[0].done.Some? ==> offers[0].now <= offers[0].done.value)
      && OffersInOrder(if offers[0].done.Some? then offers[0].done.value else offers[0].now, offers[1..])
  }

  lemma IntervalIsOneFrame(fps: int, waited: real)
    requires fps > 0 && waited >= FrameInterval(fps)
    ensures fps as real * waited >= 1.0
  {
    var rate := fps as real;
    assert rate * (1.0 / rate) == 1.0;
    assert rate * waited >= rate * (1.0 / rate);
  }

  /** Sent frames never exceed fps times the time since the pacer was made, whatever is offered when. */
  lemma {:induction false} PacingBound(p: Pacing, fps: int, created: real, now: real, offers: seq<Offer>)
    requires fps > 0 && p.frameInterval == FrameInterval(fps)
    requires p.sent as real <= fps as real * (p.lastSentAt - created)
    requires p.lastSentAt <= now && OffersInOrder(now, offers)
    ensures var end := Pump(p, offers).0;
            end.sent as real <= fps as real * (end.lastSentAt - created)
    decreases |offers|
  {
    if offers != [] {
      var (next, outcome) := Relayed(p, offers[0]);
      var rate := fps as real;
      if outcome == Sent {
        var waited := next.lastSentAt - p.lastSentAt;
        IntervalIsOneFrame(fps, waited);
        assert rate * (next.lastSentAt - created) == rate * (p.lastSentAt - created) + rate * waited;
      }
      if outcome == Sent || outcome == Dropped {
        var later := if offers[0].done.Some? then offers[0].done.value else offers[0].now;
        PacingBound(next, fps, created, later, offers[1..]);
      }
    }
  }

  lemma NeverFasterThanAsked(fps: int, created: real, offers: seq<Offer>)
    requires fps > 0 && OffersInOrder(created, offers)
    ensures var end := Pump(NewPacing(fps, created), offers).0;
            end.sent as real <= fps as real * (end.lastSentAt - created)
  {
    PacingBound(NewPacing(fps, created), fps, created, created, offers);
  }

  /** Until the viewer is given up, every frame offered is counted once, as sent or as dropped. */
  lemma {:induction false} EveryOfferCounted(p: Pacing, offers: seq<Offer>)
    ensures var (end, _, taken) := Pump(p, offers);
            end.sent + end.dropped == p.sent + p.dropped + taken
    ensures var (_, last, taken) := Pump(p, offers);
            taken == |offers| || last == GaveUp || last == Broke
    decreases |offers|
  {
    if offers != [] {
      var (next, outcome) := Relayed(p, offers[0]);
      if outcome == Sent || outcome == Dropped {
        EveryOfferCounted(next, offers[1..]);
      }
    }
  }

  /** The pacer as it stood when offer `k` came. */
  function Before(p: Pacing, offers: seq<Offer>, k: nat): Pacing
    requires k <= |offers|
  {
    if k == 0 then p else Relayed(Before(p, offers, k - 1), offers[k - 1]).0
  }

  predicate SentAt(p: Pacing, offers: seq<Offer>, k: nat)
    requires k < |offers|
  {
    Relayed(Before(p, offers, k), offers[k]).1 == Sent
  }

  lemma {:induction false} BeforeShifts(p: Pacing, offers: seq<Offer>, k: nat)
    requires 0 < k <= |offers|
    ensures Before(p, offers, k) == Before(Relayed(p, offers[0]).0, offers[1..], k - 1)
  {
    if k > 1 {
      BeforeShifts(p, offers, k - 1);
      assert offers[1..][k - 2] == offers[k - 1];
    }
  }

  /** A frame sent at any offer before `k` finished no later than the pacer's clock at `k`. */
  lemma {:induction false} SentBeforeTheClock(p: Pacing, offers: seq<Offer>, now: real, k: nat)
    requires k <= |offers| && p.lastSentAt <= now && OffersInOrder(now, offers)
    ensures forall j | 0 <= j < k && SentAt(p, offers, j) ::
      offers[j].done.Some? && offers[j].done.value <= Before(p, offers, k).lastSentAt
    ensures p.lastSentAt <= Before(p, offers, k).lastSentAt
    decreases k
  {
    if k > 0 {
      var next, later := Relayed(p, offers[0]).0, offers[1..];
      var clock := if offers[0].done.Some? then offers[0].done.value else offers[0].now;
      SentBeforeTheClock(next, later, clock, k - 1);
      BeforeShifts(p, offers, k);
      forall j | 0 <= j < k && SentAt(p, offers, j)
        ensures offers[j].done.Some? && offers[j].done.value <= Before(p, offers, k).lastSentAt
      {
        if j > 0 {
          BeforeShifts(p, offers, j);
          assert later[j - 1] == offers[j] && SentAt(next, later, j - 1);
        }
      }
    }
  }

  lemma {:induction false} PumpStopsBefore(p: Pacing, offers: seq<Offer>)
    ensures var (end, last, taken) := Pump(p, offers);
            && taken <= |offers| && (last == GaveUp ==> taken < |offers|)
            && (last == GaveUp ==> end == Before(p, offers, taken) && Relayed(end, offers[taken]) == (end, GaveUp))
    decreases |offers|
  {
    if offers != [] {
      var (next, outcome) := Relayed(p, offers[0]);
      if outcome == Sent || outcome == Dropped {
        PumpStopsBefore(next, offers[1..]);
        var taken := Pump(next, offers[1..]).2;
        BeforeShifts(p, offers, taken + 1);
      }
    }
  }

  /**
   * On every run with a clock that runs forward: a viewer given up had no frame finish in the ten seconds
   * before the offer it was given up at, nor its pacer made in them, and had not drained the last one.
   */
  lemma GivenUpAfterTenSilentSeconds(fps: int, created: real, offers: seq<Offer>)
    requires OffersInOrder(created, offers) && Pump(NewPacing(fps, created), offers).1 == GaveUp
    ensures var p := NewPacing(fps, created);
            var (end, _, taken) := Pump(p, offers);
            && taken < |offers|
            && offers[taken].now - created > 10.0 && offers[taken].unsentBytes >= end.lastSentSize
            && (forall j | 0 <= j < taken && SentAt(p, offers, j) ::
                  offers[j].done.Some? && offers[taken].now - offers[j].done.value > 10.0)
  {
    var p := NewPacing(fps, created);
    PumpStopsBefore(p, offers);
    var (end, _, taken) := Pump(p, offers);
    SentBeforeTheClock(p, offers, created, taken);
    GivenUpOnlyWhenStuck(end, offers[taken]);
  }

  /** A viewer is given up exactly when it is not merely early, has not drained, and 10 s have passed. */
  lemma GivenUpOnlyWhenStuck(p: Pacing, offer: Offer)
    ensures Relayed(p, offer).1 == GaveUp <==>
              && offer.now - p.lastSentAt > 10.0
              && offer.now - p.lastSentAt >= p.frameInterval
              && offer.unsentBytes >= p.lastSentSize
  {
  }

  /** Offers that each come a frame's interval or more after the last one went out, to a viewer that has drained. */
  ghost predicate Timely(last: real, fps: int, offers: seq<Offer>)
    decreases |offers|
  {
    offers != [] ==>
      && offers[0].unsentBytes == 0 && offers[0].done.Some? && offers[0].now <= offers[0].done.value
      && (fps > 0 ==> (offers[0].now - last) * fps as real >= 1.0)
      && Timely(offers[0].done.value, fps, offers[1..])
  }

  lemma TimelyIsLate(fps: int, waited: real)
    requires fps > 0 && waited * fps as real >= 1.0
    ensures waited >= FrameInterval(fps)
  {
    var rate := fps as real;
    assert rate * (1.0 / rate) == 1.0;
    if waited < 1.0 / rate {
      assert rate * (1.0 / rate - waited) > 0.0;
      assert rate * (1.0 / rate - waited) == rate * (1.0 / rate) - rate * waited;
    }
  }

  /** The throttle holds back no more than it must: of such a run every single frame is sent. */
  lemma {:induction false} TimelyFramesAreAllSent(p: Pacing, fps: int, offers: seq<Offer>)
    requires p.frameInterval == FrameInterval(fps) && p.lastSentSize > 0 && Timely(p.lastSentAt, fps, offers)
    ensures var (end, _, taken) := Pump(p, offers);
            taken == |offers| && end.sent == p.sent + |offers| && end.dropped == p.dropped
    decreases |offers|
  {
    if offers != [] {
      if fps > 0 {
        TimelyIsLate(fps, offers[0].now - p.lastSentAt);
      }
      TimelyFramesAreAllSent(Relayed(p, offers[0]).0, fps, offers[1..]);
    }
  }

  /** The bytes of the last payload sent before offer `k`: boundary and header, frame, and line end. */
  function LastPayload(p: Pacing, offers: seq<Offer>, k: nat): nat
    requires k <= |offers|
  {
    if k == 0 then p.lastSentSize
    else if SentAt(p, offers, k - 1) then offers[k - 1].headerSize + offers[k - 1].frameSize + 2
    else LastPayload(p, offers, k - 1)
  }

  lemma {:induction false} RemembersLastPayload(p: Pacing, offers: seq<Offer>, k: nat)
    requires k <= |offers|
    ensures Before(p, offers, k).lastSentSize == LastPayload(p, offers, k)
    ensures Before(p, offers, k).frameInterval == p.frameInterval
  {
    if k > 0 {
      RemembersLastPayload(p, offers, k - 1);
    }
  }

  /** At every offer of a run a frame that is not early goes to the socket iff less than the last payload is unsent. */
  lemma WrittenIffDrained(p: Pacing, offers: seq<Offer>, k: nat)
    requires k < |offers| && offers[k].now - Before(p, offers, k).lastSentAt >= p.frameInterval
    ensures Relayed(Before(p, offers, k), offers[k]).1 in {Sent, Broke}
       <==> offers[k].unsentBytes < LastPayload(p, offers, k)
  {
    RemembersLastPayload(p, offers, k);
  }
}
