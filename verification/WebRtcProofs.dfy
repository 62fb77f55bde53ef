/** What a viewer is promised over every run: its candidates, its pictures and messages, its closing. */
module WebRtcProofs {
  import opened Bytes
  import opened WebRtc
  import opened WebRtcServer
  import H264Frames
  import H264Proofs = H264FramesProofs
  import Mjpeg = MjpegStream

  // ----- the keyframe scan -----

  /** Wherever splitting on 4-byte codes finds an IDR slice or an SPS, the scan says so. */
  lemma SplitterKeyframesAreSeen(frame: seq<byte>, at: nat)
    requires H264Frames.CodeAt(frame, at)
    requires LowFiveBits(frame[at + 4]) == 5 || LowFiveBits(frame[at + 4]) == 7
    ensures CarriesKeyframe(frame)
  {
    assert KeyNalAt(frame, at + 1);
  }

  /** What makes a keyframe: an IDR slice or a sequence parameter set behind a 3-byte start code. */
  lemma KeyNalIs(data: seq<byte>, index: nat)
    requires index + 3 < |data|
    ensures KeyNalAt(data, index) <==>
              && data[index..index + 3] == [0, 0, 1]
              && (H264Proofs.KindOf(data[index + 3]) == H264Proofs.IdrSlice
                  || H264Proofs.KindOf(data[index + 3]) == H264Proofs.SequenceParameters)
  {
    var nalType := data[index + 3] % 32;
    if nalType < 13 {
      assert nalType in {0, 1, 2, 3, 4, 5, 6, 7, 8, 9, 10, 11, 12};
    }
    assert data[index..index + 3] == [data[index], data[index + 1], data[index + 2]];
  }

  // ----- one viewer's run -----

  /** What may happen to one viewer, with what the libraries and the network answer. */
  datatype Event =
    | FrameRelayed(now: int, frame: seq<byte>, takes: bool)
    | PingPass(now: int, answer: Answer)
    | SplashTurn(now: int, takes: bool)
    | PongHeard(now: int)
    | AnswerReceived
    | CandidatesReceived(candidates: seq<string>)
    | PeerChanged(peer: Peer)

  function Step(v: Viewer, e: Event, sessionTimeoutS: int): Viewer {
    match e
    case FrameRelayed(now, frame, takes) => Relay(v, now, frame, CarriesKeyframe(frame), takes)
    case PingPass(now, answer) => Ping(v, now, sessionTimeoutS, answer)
    case SplashTurn(now, takes) => SplashPass(v, now, takes)
    case PongHeard(now) => v.(lastPong := now)
    case AnswerReceived => TakeAnswer(v)
    case CandidatesReceived(candidates) => AddCandidates(v, candidates)
    case PeerChanged(peer) => v.(peer := peer)
  }

  function Run(v: Viewer, events: seq<Event>, sessionTimeoutS: int): Viewer
    decreases |events|
  {
    if events == [] then v else Run(Step(v, events[0], sessionTimeoutS), events[1..], sessionTimeoutS)
  }

  // ----- candidates -----

  /** The nonempty candidates of a request, in order. */
  function Nonempty(candidates: seq<string>): seq<string> {
    if candidates == [] then []
    else (if candidates[0] == "" then [] else [candidates[0]]) + Nonempty(candidates[1..])
  }

  function Received(events: seq<Event>): seq<string> {
    if events == [] then []
    else (if events[0].CandidatesReceived? then Nonempty(events[0].candidates) else []) + Received(events[1..])
  }

  /** None applied before the remote description, none waiting after it. */
  ghost predicate Orderly(v: Viewer) {
    && (v.answerReceived <==> v.remoteSet)
    && (v.answerReceived ==> v.pending == [])
    && (!v.remoteSet ==> v.applied == [])
  }

  lemma {:induction false} AddCandidatesConserves(v: Viewer, candidates: seq<string>)
    requires Orderly(v)
    ensures var after := AddCandidates(v, candidates);
            && Orderly(after)
            && after.applied + after.pending == v.applied + v.pending + Nonempty(candidates)
    decreases |candidates|
  {
    if candidates == [] {
      assert v.applied + v.pending + [] == v.applied + v.pending;
    } else {
      var next := AddCandidate(v, candidates[0]);
      AddCandidatesConserves(next, candidates[1..]);
      var first := if candidates[0] == "" then [] else [candidates[0]];
      assert next.applied + next.pending == v.applied + v.pending + first;
      Regroup(v.applied + v.pending, first, Nonempty(candidates[1..]));
    }
  }

  lemma {:induction false} AddCandidatesTouchesNothingElse(v: Viewer, candidates: seq<string>)
    ensures var after := AddCandidates(v, candidates);
            after == v.(applied := after.applied, pending := after.pending)
    decreases |candidates|
  {
    if candidates != [] {
      AddCandidatesTouchesNothingElse(AddCandidate(v, candidates[0]), candidates[1..]);
    }
  }

  lemma StepConserves(v: Viewer, e: Event, sessionTimeoutS: int)
    requires Orderly(v)
    ensures var after := Step(v, e, sessionTimeoutS);
            && Orderly(after)
            && after.applied + after.pending
               == v.applied + v.pending + if e.CandidatesReceived? then Nonempty(e.candidates) else []
  {
    assert v.applied + v.pending + [] == v.applied + v.pending;
    match e
    case CandidatesReceived(candidates) => AddCandidatesConserves(v, candidates);
    case AnswerReceived => assert v.applied + v.pending + [] == v.applied + v.pending;
    case _ =>
  }

  /**
   * For every interleaving, candidates applied followed by those waiting are the nonempty ones received,
   * in order; none is applied before the remote description and none waits after it.
   */
  lemma {:induction false} CandidatesAreConserved(v: Viewer, events: seq<Event>, sessionTimeoutS: int)
    requires Orderly(v)
    ensures var end := Run(v, events, sessionTimeoutS);
            Orderly(end) && end.applied + end.pending == v.applied + v.pending + Received(events)
    decreases |events|
  {
    if events == [] {
      assert v.applied + v.pending + [] == v.applied + v.pending;
    } else {
      var first := if events[0].CandidatesReceived? then Nonempty(events[0].candidates) else [];
      StepConserves(v, events[0], sessionTimeoutS);
      CandidatesAreConserved(Step(v, events[0], sessionTimeoutS), events[1..], sessionTimeoutS);
      Regroup(v.applied + v.pending, first, Received(events[1..]));
    }
  }

  // ----- closing -----

  ghost predicate OnlyGoodbyes(media: seq<Media>) {
    forall k | 0 <= k < |media| :: media[k] == SplashKeyframe(Mjpeg.Interrupted)
  }

  lemma ClosingStep(v: Viewer, e: Event, sessionTimeoutS: int)
    requires v.closing
    ensures var after := Step(v, e, sessionTimeoutS);
            && after.closing && after.closeAfter == v.closeAfter && after.said == v.said
            && (after.sent == v.sent || after.sent == v.sent + [SplashKeyframe(Mjpeg.Interrupted)])
  {
    if e.CandidatesReceived? {
      AddCandidatesTouchesNothingElse(v, e.candidates);
    }
  }

  /** Once closing a viewer stays so, its time does not move, and it is sent nothing but the goodbye. */
  lemma {:induction false} ClosingNeverReverts(v: Viewer, events: seq<Event>, sessionTimeoutS: int)
    requires v.closing
    ensures var end := Run(v, events, sessionTimeoutS);
            && end.closing && end.closeAfter == v.closeAfter
            && v.sent <= end.sent && OnlyGoodbyes(end.sent[|v.sent|..])
    decreases |events|
  {
    if events != [] {
      var next, end := Step(v, events[0], sessionTimeoutS), Run(v, events, sessionTimeoutS);
      ClosingStep(v, events[0], sessionTimeoutS);
      ClosingNeverReverts(next, events[1..], sessionTimeoutS);
      forall k | |v.sent| <= k < |end.sent| ensures end.sent[k] == SplashKeyframe(Mjpeg.Interrupted) {
        if k >= |next.sent| {
          assert end.sent[|next.sent|..][k - |next.sent|] == end.sent[k];
        } else {
          assert end.sent[k] == next.sent[k];
        }
      }
    }
  }

  /** What the library last said of the connection, if it said anything. */
  function LastPeer(peer: Peer, events: seq<Event>): Peer
    decreases |events|
  {
    if events == [] then peer
    else LastPeer(if events[0].PeerChanged? then events[0].peer else peer, events[1..])
  }

  predicate DuePass(e: Event, due: int) {
    e.PingPass? && e.now >= due
  }

  /** The events since the last ping pass at or after the time, None when there was no such pass. */
  function SinceDuePass(events: seq<Event>, due: int): Option<seq<Event>>
    decreases |events|
  {
    if events == [] then None
    else match SinceDuePass(events[1..], due)
      case Some(later) => Some(later)
      case None => if DuePass(events[0], due) then Some(events[1..]) else None
  }

  /**
   * Over every run a closing viewer's connection is what the library reports until the first ping pass at
   * or after its time; that pass tears it down, and only the library's word can say otherwise from then on.
   */
  lemma {:induction false} TornDownAtTheFirstDuePass(v: Viewer, events: seq<Event>, sessionTimeoutS: int)
    requires v.closing
    ensures Run(v, events, sessionTimeoutS).peer
         == match SinceDuePass(events, v.closeAfter)
            case None => LastPeer(v.peer, events)
            case Some(later) => LastPeer(Closed, later)
    decreases |events|
  {
    if events != [] {
      if events[0].CandidatesReceived? {
        AddCandidatesTouchesNothingElse(v, events[0].candidates);
      }
      ClosingStep(v, events[0], sessionTimeoutS);
      TornDownAtTheFirstDuePass(Step(v, events[0], sessionTimeoutS), events[1..], sessionTimeoutS);
    }
  }

  lemma LivingExactly(clients: seq<Client>, views: seq<Viewer>, p: nat)
    requires |clients| == |views| && AllDifferent(clients) && p < |clients|
    ensures clients[p] in Living(clients, views) <==> views[p].peer == Active
  {
    var marks := Alive(views);
    if marks[p] {
      MarkedAreKept(clients, marks, |clients|, p);
    }
    if clients[p] in Living(clients, views) {
      var j :| 0 <= j < |Living(clients, views)| && Living(clients, views)[j] == clients[p];
      var q := KeptAreMarked(clients, marks, |clients|, j);
    }
  }

  /** And the cleanup that follows the same pass takes it off the list. */
  lemma RemovedInTheSamePass(
    clients: seq<Client>, views: seq<Viewer>, now: int, sessionTimeoutS: int, answers: seq<Answer>, p: nat)
    requires |clients| == |views| == |answers| && AllDifferent(clients) && p < |clients|
    requires views[p].closing && now >= views[p].closeAfter
    ensures clients[p] !in Living(clients, PingAll(views, now, sessionTimeoutS, answers))
  {
    LivingExactly(clients, PingAll(views, now, sessionTimeoutS, answers), p);
  }

  // ----- who is closed by a ping pass -----

  /** With no session timeout, a ping pass turns on a viewer exactly for these two reasons. */
  lemma PingTurnsOnlyOnTheSilent(v: Viewer, now: int, a: Answer)
    requires !v.closing && v.peer == Active
    ensures var after := Ping(v, now, 0, a);
            after.closing || after.peer != Active <==>
              || (!a.channelOpen && now - v.startTime >= 30 * NS_PER_S)
              || (a.channelOpen && v.keepAlive && now - v.lastPong >= PONG_TIMEOUT_MS * NS_PER_MS)
  {
  }

  /** The clock of the events that carry one. */
  function ClockOf(e: Event, before: int): int {
    match e
    case FrameRelayed(now, _, _) => now
    case PingPass(now, _) => now
    case SplashTurn(now, _) => now
    case PongHeard(now) => now
    case _ => before
  }

  ghost predicate ClockRuns(now: int, events: seq<Event>)
    decreases |events|
  {
    events != [] ==> now <= ClockOf(events[0], now) && ClockRuns(ClockOf(events[0], now), events[1..])
  }

  ghost predicate PongedBefore(events: seq<Event>, k: nat, now: int) {
    exists j | 0 <= j < k && j < |events| :: events[j].PongHeard? && now - events[j].now < 30 * NS_PER_S
  }

  /** Ping pass `k` comes thirty seconds after joining, on an open channel, with no pong in the last thirty. */
  ghost predicate SilentPass(start: int, events: seq<Event>, k: nat) {
    && k < |events| && events[k].PingPass? && events[k].answer.channelOpen
    && events[k].now - start >= 30 * NS_PER_S && !PongedBefore(events, k, events[k].now)
  }

  /** Ping pass `k` comes thirty seconds after joining and finds the channel not open. */
  ghost predicate ShutPass(start: int, events: seq<Event>, k: nat) {
    && k < |events| && events[k].PingPass? && !events[k].answer.channelOpen
    && events[k].now - start >= 30 * NS_PER_S
  }

  ghost predicate PongAt(past: seq<Event>, j: nat, at: int) {
    j < |past| && past[j].PongHeard? && past[j].now == at
  }

  /** A viewer after `past`: it remembers when it joined and, as a keep-alive viewer, its last pong exactly. */
  ghost predicate Remembers(v: Viewer, start: int, past: seq<Event>) {
    && v.startTime == start && v.lastPong >= start
    && (forall j | 0 <= j < |past| && past[j].PongHeard? :: past[j].now <= v.lastPong)
    && (v.keepAlive ==> v.lastPong == start || exists j: nat :: PongAt(past, j, v.lastPong))
  }

  /** What a ping pass that finds the channel open needs to know of the events so far. */
  lemma SilentIsLateForPong(v: Viewer, start: int, past: seq<Event>, now: int)
    requires Remembers(v, start, past) && v.keepAlive
    ensures now - v.lastPong >= 30 * NS_PER_S
       <==> now - start >= 30 * NS_PER_S && !PongedBefore(past, |past|, now)
  {
    if v.lastPong != start {
      var j: nat :| PongAt(past, j, v.lastPong);
    }
  }

  lemma PastStays(past: seq<Event>, later: seq<Event>, now: int)
    ensures PongedBefore(past + later, |past|, now) == PongedBefore(past, |past|, now)
  {
    assert forall j | 0 <= j < |past| :: (past + later)[j] == past[j];
  }

  lemma StepRemembers(v: Viewer, start: int, past: seq<Event>, e: Event, now: int)
    requires Remembers(v, start, past) && !v.closing && v.lastPong <= now <= ClockOf(e, now)
    ensures var after := Step(v, e, 0);
            && after.keepAlive == v.keepAlive && after.lastPong <= ClockOf(e, now)
            && Remembers(after, start, past + [e])
  {
    var more := past + [e];
    assert more[|past|] == e;
    assert forall j: nat | j < |past| :: more[j] == past[j];
    if e.CandidatesReceived? {
      AddCandidatesTouchesNothingElse(v, e.candidates);
    }
    if v.keepAlive && v.lastPong != start {
      var j: nat :| PongAt(past, j, v.lastPong);
      assert PongAt(more, j, v.lastPong);
    }
    if e.PongHeard? {
      assert PongAt(more, |past|, e.now);
    }
  }

  lemma StepTurnsIffSilent(v: Viewer, start: int, past: seq<Event>, e: Event, later: seq<Event>)
    requires Remembers(v, start, past) && !v.closing
    ensures Step(v, e, 0).closing <==> v.keepAlive && SilentPass(start, past + [e] + later, |past|)
    ensures !ShutPass(start, past + [e] + later, |past|) ==>
      Step(v, e, 0).peer == if e.PeerChanged? then e.peer else v.peer
  {
    var all := past + [e] + later;
    assert all[|past|] == e && all == past + ([e] + later);
    if e.CandidatesReceived? {
      AddCandidatesTouchesNothingElse(v, e.candidates);
    }
    if e.PingPass? {
      PastStays(past, [e] + later, e.now);
      if v.keepAlive { SilentIsLateForPong(v, start, past, e.now); }
    }
  }

  lemma {:induction false} TurnedOnFrom(
    v: Viewer, start: int, past: seq<Event>, events: seq<Event>, all: seq<Event>, now: int
  )
    requires Remembers(v, start, past) && !v.closing && v.lastPong <= now && ClockRuns(now, events)
    requires all == past + events
    ensures Run(v, events, 0).closing
       <==> v.keepAlive && exists k | |past| <= k < |all| :: SilentPass(start, all, k)
    ensures !Run(v, events, 0).closing ==>
      (forall k | |past| <= k < |all| :: !ShutPass(start, all, k)) ==>
      Run(v, events, 0).peer == LastPeer(v.peer, events)
    decreases |events|
  {
    if events != [] {
      var e, later := events[0], events[1..];
      var next := Step(v, e, 0);
      assert all == past + [e] + later;
      StepTurnsIffSilent(v, start, past, e, later);
      if next.closing {
        assert SilentPass(start, all, |past|);
        ClosingNeverReverts(next, later, 0);
      } else {
        StepRemembers(v, start, past, e, now);
        TurnedOnFrom(next, start, past + [e], later, all, ClockOf(e, now));
      }
    }
  }

  /**
   * With no session timeout and a clock that runs forward, a viewer is turned on if and only if it keeps
   * alive and some ping pass, thirty seconds or more after it joined, finds its channel open and no pong in
   * the thirty seconds before.
   */
  lemma TurnedOnIffSilent(id: nat, start: int, keepAlive: bool, events: seq<Event>)
    requires ClockRuns(start, events)
    ensures Run(NewViewer(id, start, keepAlive), events, 0).closing
       <==> keepAlive && exists k | 0 <= k < |events| :: SilentPass(start, events, k)
  {
    TurnedOnFrom(NewViewer(id, start, keepAlive), start, [], events, events, start);
  }

  /**
   * So one whose channel opens within thirty seconds of joining and stays open, and that pongs within every
   * thirty seconds, is never closed, however long the run: its connection is what the library reports.
   */
  lemma HealthyViewersAreNeverClosed(id: nat, start: int, keepAlive: bool, events: seq<Event>)
    requires ClockRuns(start, events)
    requires forall k | 0 <= k < |events| && events[k].PingPass? && events[k].now - start >= 30 * NS_PER_S ::
      events[k].answer.channelOpen && (keepAlive ==> PongedBefore(events, k, events[k].now))
    ensures var end := Run(NewViewer(id, start, keepAlive), events, 0);
            !end.closing && end.peer == LastPeer(Active, events)
  {
    TurnedOnFrom(NewViewer(id, start, keepAlive), start, [], events, events, start);
  }

  // ----- the session timeout -----

  /** With a session timeout a ping pass makes a viewer close for its age, whatever its channel says, or its silence. */
  lemma PingRecyclesIff(v: Viewer, now: int, sessionTimeoutS: int, a: Answer)
    requires !v.closing && sessionTimeoutS > 0
    ensures Ping(v, now, sessionTimeoutS, a).closing <==>
              || now - v.startTime >= sessionTimeoutS * NS_PER_S
              || (a.channelOpen && v.keepAlive && now - v.lastPong >= PONG_TIMEOUT_MS * NS_PER_MS)
  {
    TruncatedSeconds(now - v.startTime, sessionTimeoutS);
    SameInstant(now - v.lastPong, PONG_TIMEOUT_MS);
  }

  lemma TruncatedSeconds(ns: int, s: int)
    requires s > 0
    ensures Truncated(ns, NS_PER_S) >= s <==> ns >= s * NS_PER_S
  {
  }

  ghost predicate PassAtAge(start: int, events: seq<Event>, age: int) {
    exists k | 0 <= k < |events| :: events[k].PingPass? && events[k].now - start >= age
  }

  lemma PassAtAgeSplits(start: int, events: seq<Event>, age: int)
    requires events != []
    ensures PassAtAge(start, events, age) <==>
              (events[0].PingPass? && events[0].now - start >= age) || PassAtAge(start, events[1..], age)
  {
    var later := events[1..];
    if k :| 0 <= k < |later| && later[k].PingPass? && later[k].now - start >= age {
      assert events[k + 1] == later[k];
    }
    if k :| 0 <= k < |events| && events[k].PingPass? && events[k].now - start >= age {
      assert k > 0 ==> later[k - 1] == events[k];
    }
  }

  lemma StepKeepsStart(v: Viewer, e: Event, sessionTimeoutS: int)
    ensures Step(v, e, sessionTimeoutS).startTime == v.startTime
    ensures Step(v, e, sessionTimeoutS).keepAlive == v.keepAlive
  {
    if e.CandidatesReceived? {
      AddCandidatesTouchesNothingElse(v, e.candidates);
    }
  }

  lemma OnlyOldAgeCloses(v: Viewer, e: Event, sessionTimeoutS: int)
    requires sessionTimeoutS > 0 && !v.closing && !v.keepAlive
    ensures Step(v, e, sessionTimeoutS).closing
       <==> e.PingPass? && e.now - v.startTime >= sessionTimeoutS * NS_PER_S
  {
    if e.PingPass? {
      PingRecyclesIff(v, e.now, sessionTimeoutS, e.answer);
    } else if e.CandidatesReceived? {
      AddCandidatesTouchesNothingElse(v, e.candidates);
    }
  }

  /**
   * Over every run with a session timeout, a viewer is made to close by the first ping pass that many
   * seconds after it joined; one that does not keep alive is made to close by nothing else.
   */
  lemma {:induction false} RecycledAtItsAge(v: Viewer, events: seq<Event>, sessionTimeoutS: int)
    requires sessionTimeoutS > 0 && !v.closing
    ensures PassAtAge(v.startTime, events, sessionTimeoutS * NS_PER_S) ==> Run(v, events, sessionTimeoutS).closing
    ensures !v.keepAlive && Run(v, events, sessionTimeoutS).closing ==>
              PassAtAge(v.startTime, events, sessionTimeoutS * NS_PER_S)
    decreases |events|
  {
    if events != [] {
      var next := Step(v, events[0], sessionTimeoutS);
      PassAtAgeSplits(v.startTime, events, sessionTimeoutS * NS_PER_S);
      StepKeepsStart(v, events[0], sessionTimeoutS);
      if !v.keepAlive {
        OnlyOldAgeCloses(v, events[0], sessionTimeoutS);
      }
      if next.closing {
        ClosingNeverReverts(next, events[1..], sessionTimeoutS);
      } else {
        if events[0].PingPass? {
          PingRecyclesIff(v, events[0].now, sessionTimeoutS, events[0].answer);
        }
        RecycledAtItsAge(next, events[1..], sessionTimeoutS);
      }
    }
  }

  // ----- the same messages as the MJPEG server -----

  lemma SameInstant(ns: int, ms: int)
    requires ms > 0
    ensures Truncated(ns, NS_PER_MS) >= ms <==> ns >= ms * NS_PER_MS
  {
  }

  lemma SecondsCompare(since: int, now: int, s: int)
    ensures Seconds(now) - Seconds(since) >= s as real <==> now - since >= s * 1000000000
  {
    var ns := now - since;
    assert Seconds(now) - Seconds(since) == ns as real / 1000000000.0;
    assert ns as real / 1000000000.0 >= s as real <==> ns as real >= s as real * 1000000000.0;
    assert s as real * 1000000000.0 == (s * 1000000000) as real;
  }

  /** The silence both servers judge: since the last live frame, or since joining when there was none. */
  function SilentSince(v: Viewer): int {
    if v.seenLiveFrame then v.lastLiveFrame else v.startTime
  }

  /** For the same history the two servers choose the same splash. */
  lemma SplashRulesAgree(v: Viewer, now: int)
    ensures SplashForViewer(v, now)
         == Mjpeg.SplashForSilence(Seconds(now) - Seconds(SilentSince(v)), v.seenLiveFrame)
  {
    var since := SilentSince(v);
    SameInstant(now - since, CONNECTING_AFTER_SILENT_MS);
    SameInstant(now - since, INTERRUPTED_AFTER_SILENT_MS);
    SameInstant(now - since, GIVE_UP_CONNECTING_MS);
    SecondsCompare(since, now, 2);
    SecondsCompare(since, now, 5);
    SecondsCompare(since, now, 30);
  }

  /** The viewer as the MJPEG server would remember it. */
  function AsWatch(v: Viewer): Mjpeg.Watch {
    Mjpeg.Watch(Seconds(v.startTime), [], Seconds(SilentSince(v)), v.seenLiveFrame, v.said)
  }

  ghost predicate Truthful(v: Viewer, now: int) {
    Mjpeg.Honest(Seconds(v.startTime), v.said) && Mjpeg.Knows(AsWatch(v), Seconds(now))
  }

  lemma LaterTruthful(v: Viewer, before: int, now: int)
    requires Truthful(v, before) && before <= now
    ensures Truthful(v, now)
  {
    Mjpeg.LaterKnows(AsWatch(v), Seconds(before), Seconds(now));
  }

  /** What is said about a viewer depends on nothing but these. */
  lemma SameWordsSameTruth(v: Viewer, after: Viewer, now: int)
    requires after.said == v.said && after.startTime == v.startTime
    requires after.seenLiveFrame == v.seenLiveFrame && SilentSince(after) == SilentSince(v)
    ensures Truthful(after, now) == Truthful(v, now)
  {
    assert AsWatch(after) == AsWatch(v);
  }

  lemma MessageKeepsTruthful(v: Viewer, now: int, takes: bool)
    requires Truthful(v, now)
    ensures Truthful(SplashPass(v, now, takes), now)
  {
    var after := SplashPass(v, now, takes);
    if after.said == v.said {
      SameWordsSameTruth(v, after, now);
    } else {
      SplashRulesAgree(v, now);
      Mjpeg.MessageKeepsHonest(AsWatch(v), Seconds(now), SplashForViewer(v, now));
      assert AsWatch(after) == AsWatch(v).(said := after.said);
    }
  }

  lemma PictureKeepsTruthful(v: Viewer, now: int, frame: seq<byte>, takes: bool)
    requires Truthful(v, now)
    ensures Truthful(Relay(v, now, frame, CarriesKeyframe(frame), takes), now)
  {
    var after := Relay(v, now, frame, CarriesKeyframe(frame), takes);
    if after.said == v.said {
      SameWordsSameTruth(v, after, now);
    } else {
      Mjpeg.PictureKeepsHonest(AsWatch(v), Seconds(now), frame, AsWatch(after));
    }
  }

  /** No other event says anything to a viewer. */
  lemma OtherEventsSayNothing(v: Viewer, e: Event, sessionTimeoutS: int)
    requires !e.SplashTurn? && !e.FrameRelayed?
    ensures var after := Step(v, e, sessionTimeoutS);
            && after.said == v.said && after.startTime == v.startTime
            && after.seenLiveFrame == v.seenLiveFrame && after.lastLiveFrame == v.lastLiveFrame
  {
    if e.CandidatesReceived? {
      AddCandidatesTouchesNothingElse(v, e.candidates);
    }
  }

  lemma StepKeepsTruthful(v: Viewer, e: Event, sessionTimeoutS: int, before: int)
    requires Truthful(v, before) && before <= ClockOf(e, before)
    ensures Truthful(Step(v, e, sessionTimeoutS), ClockOf(e, before))
    ensures Step(v, e, sessionTimeoutS).startTime == v.startTime
  {
    var now := ClockOf(e, before);
    LaterTruthful(v, before, now);
    if e.SplashTurn? {
      MessageKeepsTruthful(v, now, e.takes);
    } else if e.FrameRelayed? {
      PictureKeepsTruthful(v, now, e.frame, e.takes);
    } else {
      OtherEventsSayNothing(v, e, sessionTimeoutS);
      SameWordsSameTruth(v, Step(v, e, sessionTimeoutS), now);
    }
  }

  lemma {:induction false} RunsStayTruthful(v: Viewer, now: int, events: seq<Event>, sessionTimeoutS: int)
    requires Truthful(v, now) && ClockRuns(now, events)
    ensures Run(v, events, sessionTimeoutS).startTime == v.startTime
    ensures Mjpeg.Honest(Seconds(v.startTime), Run(v, events, sessionTimeoutS).said)
    decreases |events|
  {
    if events != [] {
      StepKeepsTruthful(v, events[0], sessionTimeoutS, now);
      RunsStayTruthful(
        Step(v, events[0], sessionTimeoutS), ClockOf(events[0], now), events[1..], sessionTimeoutS);
    }
  }

  /**
   * On every run of a viewer: never "connecting" after its first picture, never "interrupted" before
   * thirty seconds without one unless it is being closed, and only escalating while no frame comes.
   */
  lemma ViewerIsNeverMisled(id: nat, start: int, keepAlive: bool, events: seq<Event>, sessionTimeoutS: int)
    requires ClockRuns(start, events)
    ensures Mjpeg.Honest(Seconds(start), Run(NewViewer(id, start, keepAlive), events, sessionTimeoutS).said)
  {
    RunsStayTruthful(NewViewer(id, start, keepAlive), start, events, sessionTimeoutS);
  }
}
