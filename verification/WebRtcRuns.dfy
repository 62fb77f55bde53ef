/** Any run of the WebRTC server, seen from each viewer on its list: what the theorems about one viewer say of it. */
module WebRtcRuns {
  import opened Bytes
  import opened WebRtc
  import opened WebRtcServer
  import opened WebRtcProofs
  import Mjpeg = MjpegStream

  // ----- one turn of the server -----

  /** What reaches the server, with what the libraries answer about each viewer on its list. */
  datatype Turn =
    | FrameArrived(now: int, frame: seq<byte>, takes: seq<bool>)
    | PingAndClean(now: int, answers: seq<Answer>)
    | SplashRound(now: int, anyTrackOpen: bool, takes: seq<bool>)
    | OfferWanted(now: int, keepAlive: bool)
    | OfferGiven(now: int, keepAlive: bool)
    | AnswerGiven(id: nat)
    | CandidatesGiven(id: nat, candidates: seq<string>)
    | PongFrom(id: nat, now: int)
    | PeerReported(id: nat, peer: Peer)

  datatype Limits = Limits(maxClients: nat, sessionTimeoutS: int)

  /** The list, the id counter and the time of the last splash round. */
  datatype Room = Room(views: seq<Viewer>, counter: nat, lastSplash: int)

  predicate Fits(r: Room, t: Turn) {
    match t
    case FrameArrived(_, _, takes) => |takes| == |r.views|
    case PingAndClean(_, answers) => |answers| == |r.views|
    case SplashRound(_, _, takes) => |takes| == |r.views|
    case _ => true
  }

  predicate SplashIsDue(r: Room, t: Turn) {
    t.SplashRound? && t.anyTrackOpen && Truncated(t.now - r.lastSplash, NS_PER_MS) >= SPLASH_RESEND_MS
  }

  /** What a request or a callback does to the viewer it names. */
  function Addressed(v: Viewer, t: Turn): Viewer {
    match t
    case AnswerGiven(id) => if v.id == id then TakeAnswer(v) else v
    case CandidatesGiven(id, candidates) => if v.id == id then AddCandidates(v, candidates) else v
    case PongFrom(id, now) => if v.id == id then v.(lastPong := now) else v
    case PeerReported(id, peer) => if v.id == id then v.(peer := peer) else v
    case _ => v
  }

  function AddressedAll(views: seq<Viewer>, t: Turn): seq<Viewer> {
    seq(|views|, k requires 0 <= k < |views| => Addressed(views[k], t))
  }

  function Join(r: Room, v: Viewer): Room {
    r.(views := r.views + [v], counter := r.counter + 1)
  }

  /** The list after one turn. */
  function Advance(r: Room, t: Turn, limits: Limits): Room
    requires Fits(r, t)
  {
    match t
    case FrameArrived(now, frame, takes) => r.(views := RelayAll(r.views, now, frame, takes))
    case PingAndClean(now, answers) => r.(views := Stay(PingAll(r.views, now, limits.sessionTimeoutS, answers)))
    case SplashRound(now, _, takes) =>
      if SplashIsDue(r, t) then r.(views := SplashAll(r.views, now, takes), lastSplash := now) else r
    case OfferWanted(now, keepAlive) =>
      if |r.views| >= limits.maxClients then r else Join(r, NewViewer(r.counter + 1, now, keepAlive))
    case OfferGiven(now, keepAlive) =>
      var cleaned := r.(views := Stay(r.views));
      if |cleaned.views| >= limits.maxClients then cleaned
      else Join(cleaned, NewViewer(r.counter + 1, now, keepAlive).(remoteSet := true, answerReceived := true))
    case _ => r.(views := AddressedAll(r.views, t))
  }

  // ----- the class takes the same turns -----

  ghost function RoomOf(s: Server): Room
    reads s, s.clients
  {
    Room(Views(s.clients), s.counter, s.lastSplash)
  }

  ghost function LimitsOf(s: Server): Limits {
    Limits(s.maxClients, s.sessionTimeoutS)
  }

  lemma AddressesOne(views: seq<Viewer>, after: seq<Viewer>, t: Turn)
    requires |after| == |views| && forall k | 0 <= k < |views| :: after[k] == Addressed(views[k], t)
    ensures after == AddressedAll(views, t)
  {
  }

  /** The data channel's message callback of the viewer with that id. */
  method TakePong(s: Server, id: nat, now: int)
    requires s.Valid()
    modifies s.clients
    ensures s.Valid() && RoomOf(s) == Advance(old(RoomOf(s)), PongFrom(id, now), LimitsOf(s))
  {
    var client := s.FindClient(id);
    ghost var was := Views(s.clients);
    if client != null {
      client.HearPong(now);
    }
    AddressesOne(was, Views(s.clients), PongFrom(id, now));
  }

  method TakePeerReport(s: Server, id: nat, peer: Peer)
    requires s.Valid()
    modifies s.clients
    ensures s.Valid() && RoomOf(s) == Advance(old(RoomOf(s)), PeerReported(id, peer), LimitsOf(s))
  {
    var client := s.FindClient(id);
    ghost var was := Views(s.clients);
    if client != null {
      client.ReportPeer(peer);
    }
    AddressesOne(was, Views(s.clients), PeerReported(id, peer));
  }

  method TakeRequest(s: Server, t: Turn)
    requires s.Valid() && (t.AnswerGiven? || t.CandidatesGiven?)
    modifies s.clients
    ensures s.Valid() && RoomOf(s) == Advance(old(RoomOf(s)), t, LimitsOf(s))
  {
    ghost var was := Views(s.clients);
    match t {
      case AnswerGiven(id) => var _ := s.HandleAnswer(Some(id), false);
      case CandidatesGiven(id, candidates) => var _ := s.HandleCandidates(Some(id), candidates);
    }
    AddressesOne(was, Views(s.clients), t);
  }

  method TakeOffer(s: Server, t: Turn, described: bool)
    requires s.Valid() && (t.OfferWanted? || t.OfferGiven?)
    modifies s, s.clients
    ensures s.Valid() && RoomOf(s) == Advance(old(RoomOf(s)), t, LimitsOf(s))
  {
    match t {
      case OfferWanted(now, keepAlive) => var _ := s.HandleWantOffer(now, keepAlive, described);
      case OfferGiven(now, keepAlive) => var _ := s.HandleOffer(now, false, keepAlive, described);
    }
  }

  /** Every turn of the server's loop and of its callbacks computes the step on values. */
  method Take(s: Server, t: Turn, described: bool)
    requires s.Valid() && Fits(RoomOf(s), t)
    modifies s, s.clients
    ensures s.Valid() && RoomOf(s) == Advance(old(RoomOf(s)), t, LimitsOf(s))
  {
    match t {
      case FrameArrived(now, frame, takes) => s.SendFrame(frame, now, takes);
      case PingAndClean(now, answers) => s.PingAndCleanup(now, answers);
      case SplashRound(now, anyTrackOpen, takes) => s.MaybeSendSplash(now, anyTrackOpen, takes);
      case OfferWanted(_, _) => TakeOffer(s, t, described);
      case OfferGiven(_, _) => TakeOffer(s, t, described);
      case AnswerGiven(_) => TakeRequest(s, t);
      case CandidatesGiven(_, _) => TakeRequest(s, t);
      case PongFrom(id, now) => TakePong(s, id, now);
      case PeerReported(id, peer) => TakePeerReport(s, id, peer);
    }
  }

  // ----- what each listed viewer lives through -----

  /** When a viewer joined, how, and the events of its own since. */
  datatype Entry = Entry(start: int, keepAlive: bool, events: seq<Event>)

  /** What the turn is to the viewer at place `k` of the list, if anything. */
  function Lived(r: Room, t: Turn, k: nat): seq<Event>
    requires Fits(r, t) && k < |r.views|
  {
    match t
    case FrameArrived(now, frame, takes) => [FrameRelayed(now, frame, takes[k])]
    case PingAndClean(now, answers) => [PingPass(now, answers[k])]
    case SplashRound(now, _, takes) => if SplashIsDue(r, t) then [SplashTurn(now, takes[k])] else []
    case AnswerGiven(id) => if r.views[k].id == id then [AnswerReceived] else []
    case CandidatesGiven(id, candidates) => if r.views[k].id == id then [CandidatesReceived(candidates)] else []
    case PongFrom(id, now) => if r.views[k].id == id then [PongHeard(now)] else []
    case PeerReported(id, peer) => if r.views[k].id == id then [PeerChanged(peer)] else []
    case _ => []
  }

  /** The viewer at place `k` once it has lived through the turn, before anyone leaves or joins. */
  function After(r: Room, t: Turn, limits: Limits): seq<Viewer>
    requires Fits(r, t)
  {
    match t
    case FrameArrived(now, frame, takes) => RelayAll(r.views, now, frame, takes)
    case PingAndClean(now, answers) => PingAll(r.views, now, limits.sessionTimeoutS, answers)
    case SplashRound(now, _, takes) => if SplashIsDue(r, t) then SplashAll(r.views, now, takes) else r.views
    case OfferWanted(_, _) => r.views
    case OfferGiven(_, _) => r.views
    case _ => AddressedAll(r.views, t)
  }

  function LivedAll(r: Room, t: Turn, log: seq<Entry>): seq<Entry>
    requires Fits(r, t) && |log| == |r.views|
  {
    seq(|log|, k requires 0 <= k < |log| => log[k].(events := log[k].events + Lived(r, t, k)))
  }

  /** The entries of those who stay and of those who join, in list order. */
  function Record(r: Room, t: Turn, log: seq<Entry>, limits: Limits): seq<Entry>
    requires Fits(r, t) && |log| == |r.views|
  {
    var lived := LivedAll(r, t, log);
    match t
    case PingAndClean(now, answers) => Kept(lived, Alive(After(r, t, limits)), |log|)
    case OfferWanted(now, keepAlive) =>
      if |r.views| >= limits.maxClients then log else log + [Entry(now, keepAlive, [])]
    case OfferGiven(now, keepAlive) =>
      var kept := Kept(log, Alive(r.views), |log|);
      if |Stay(r.views)| >= limits.maxClients then kept else kept + [Entry(now, keepAlive, [AnswerReceived])]
    case _ => lived
  }

  /** The viewer is what its own events alone make of a new one. */
  ghost predicate RanAlone(v: Viewer, e: Entry, sessionTimeoutS: int) {
    v == Run(NewViewer(v.id, e.start, e.keepAlive), e.events, sessionTimeoutS)
  }

  ghost predicate AllRanAlone(views: seq<Viewer>, log: seq<Entry>, sessionTimeoutS: int) {
    |log| == |views| && forall k | 0 <= k < |views| :: RanAlone(views[k], log[k], sessionTimeoutS)
  }

  lemma {:induction false} RunAppend(v: Viewer, events: seq<Event>, more: seq<Event>, sessionTimeoutS: int)
    ensures Run(v, events + more, sessionTimeoutS) == Run(Run(v, events, sessionTimeoutS), more, sessionTimeoutS)
    decreases |events|
  {
    if events == [] {
      assert events + more == more;
    } else {
      assert (events + more)[1..] == events[1..] + more;
      RunAppend(Step(v, events[0], sessionTimeoutS), events[1..], more, sessionTimeoutS);
    }
  }

  lemma StepKeepsId(v: Viewer, e: Event, sessionTimeoutS: int)
    ensures Step(v, e, sessionTimeoutS).id == v.id
  {
    if e.CandidatesReceived? {
      AddCandidatesTouchesNothingElse(v, e.candidates);
    }
  }

  /** The turn does to each viewer what its own event does. */
  lemma LivedIsOneStep(r: Room, t: Turn, limits: Limits, k: nat)
    requires Fits(r, t) && k < |r.views|
    ensures |After(r, t, limits)| == |r.views|
    ensures After(r, t, limits)[k] == Run(r.views[k], Lived(r, t, k), limits.sessionTimeoutS)
    ensures After(r, t, limits)[k].id == r.views[k].id
  {
    var events := Lived(r, t, k);
    if events != [] {
      assert events == [events[0]] && events[1..] == [];
      StepKeepsId(r.views[k], events[0], limits.sessionTimeoutS);
    }
  }

  lemma LivingKeepsRanAlone(r: Room, t: Turn, log: seq<Entry>, limits: Limits)
    requires Fits(r, t) && AllRanAlone(r.views, log, limits.sessionTimeoutS)
    ensures AllRanAlone(After(r, t, limits), LivedAll(r, t, log), limits.sessionTimeoutS)
  {
    var after, lived := After(r, t, limits), LivedAll(r, t, log);
    assert r.views == [] ==> |after| == 0;
    forall k | 0 <= k < |r.views|
      ensures |after| == |r.views| && RanAlone(after[k], lived[k], limits.sessionTimeoutS)
    {
      LivedIsOneStep(r, t, limits, k);
      assert RanAlone(r.views[k], log[k], limits.sessionTimeoutS);
      var joined := NewViewer(r.views[k].id, log[k].start, log[k].keepAlive);
      RunAppend(joined, log[k].events, Lived(r, t, k), limits.sessionTimeoutS);
    }
  }

  /** Keeping by the same marks keeps viewers and entries side by side. */
  lemma {:induction false} KeptTogether<S, T>(a: seq<S>, b: seq<T>, marks: seq<bool>, n: nat, j: nat) returns (p: nat)
    requires n <= |a| == |b| == |marks| && j < |Kept(a, marks, n)|
    ensures |Kept(b, marks, n)| == |Kept(a, marks, n)|
    ensures p < n && marks[p] && Kept(a, marks, n)[j] == a[p] && Kept(b, marks, n)[j] == b[p]
    decreases n
  {
    KeptAlike(a, b, marks, n);
    KeptAlike(a, b, marks, n - 1);
    if j < |Kept(a, marks, n - 1)| {
      p := KeptTogether(a, b, marks, n - 1, j);
    } else {
      p := n - 1;
    }
  }

  lemma {:induction false} KeptAlike<S, T>(a: seq<S>, b: seq<T>, marks: seq<bool>, n: nat)
    requires n <= |a| == |b| == |marks|
    ensures |Kept(a, marks, n)| == |Kept(b, marks, n)|
    decreases n
  {
    if n > 0 {
      KeptAlike(a, b, marks, n - 1);
    }
  }

  lemma LeavingKeepsRanAlone(views: seq<Viewer>, log: seq<Entry>, sessionTimeoutS: int)
    requires AllRanAlone(views, log, sessionTimeoutS)
    ensures AllRanAlone(Stay(views), Kept(log, Alive(views), |log|), sessionTimeoutS)
  {
    KeptAlike(views, log, Alive(views), |views|);
    forall j | 0 <= j < |Stay(views)|
      ensures RanAlone(Stay(views)[j], Kept(log, Alive(views), |log|)[j], sessionTimeoutS)
    {
      var p := KeptTogether(views, log, Alive(views), |views|, j);
      assert RanAlone(views[p], log[p], sessionTimeoutS);
    }
  }

  lemma JoiningRunsAlone(id: nat, now: int, keepAlive: bool, sessionTimeoutS: int)
    ensures RanAlone(NewViewer(id, now, keepAlive), Entry(now, keepAlive, []), sessionTimeoutS)
    ensures RanAlone(NewViewer(id, now, keepAlive).(remoteSet := true, answerReceived := true),
                     Entry(now, keepAlive, [AnswerReceived]), sessionTimeoutS)
  {
    var joined := NewViewer(id, now, keepAlive);
    assert [AnswerReceived][1..] == [];
    assert joined.applied + joined.pending == [];
    assert Step(joined, AnswerReceived, sessionTimeoutS) == joined.(remoteSet := true, answerReceived := true);
  }

  lemma OneMoreRanAlone(views: seq<Viewer>, log: seq<Entry>, v: Viewer, e: Entry, sessionTimeoutS: int)
    requires AllRanAlone(views, log, sessionTimeoutS) && RanAlone(v, e, sessionTimeoutS)
    ensures AllRanAlone(views + [v], log + [e], sessionTimeoutS)
  {
  }

  lemma TurnKeepsRanAlone(r: Room, t: Turn, log: seq<Entry>, limits: Limits)
    requires Fits(r, t) && AllRanAlone(r.views, log, limits.sessionTimeoutS)
    ensures AllRanAlone(Advance(r, t, limits).views, Record(r, t, log, limits), limits.sessionTimeoutS)
  {
    var T, id := limits.sessionTimeoutS, r.counter + 1;
    if t.OfferWanted? {
      JoiningRunsAlone(id, t.now, t.keepAlive, T);
      OneMoreRanAlone(r.views, log, NewViewer(id, t.now, t.keepAlive), Entry(t.now, t.keepAlive, []), T);
    } else if t.OfferGiven? {
      var joined := NewViewer(id, t.now, t.keepAlive).(remoteSet := true, answerReceived := true);
      var kept := Kept(log, Alive(r.views), |log|);
      LeavingKeepsRanAlone(r.views, log, T);
      JoiningRunsAlone(id, t.now, t.keepAlive, T);
      OneMoreRanAlone(Stay(r.views), kept, joined, Entry(t.now, t.keepAlive, [AnswerReceived]), T);
    } else {
      LivingKeepsRanAlone(r, t, log, limits);
      if t.PingAndClean? {
        LeavingKeepsRanAlone(After(r, t, limits), LivedAll(r, t, log), T);
      }
    }
  }

  // ----- every run of the server -----

  const EMPTY: seq<Viewer> := []

  function Opened(now: int): Room {
    Room(EMPTY, 0, now)
  }

  /** Some run of turns leads from `r` and its entries to `end` and its entries. */
  ghost predicate Reaches(r: Room, log: seq<Entry>, turns: seq<Turn>, limits: Limits, end: Room, logged: seq<Entry>)
    decreases |turns|
  {
    if turns == [] then end == r && logged == log
    else
      && Fits(r, turns[0]) && |log| == |r.views|
      && Reaches(Advance(r, turns[0], limits), Record(r, turns[0], log, limits), turns[1..], limits, end, logged)
  }

  lemma {:induction false} RunKeepsRanAlone(
    r: Room, log: seq<Entry>, turns: seq<Turn>, limits: Limits, end: Room, logged: seq<Entry>)
    requires Reaches(r, log, turns, limits, end, logged) && AllRanAlone(r.views, log, limits.sessionTimeoutS)
    requires |r.views| <= limits.maxClients
    ensures AllRanAlone(end.views, logged, limits.sessionTimeoutS) && |end.views| <= limits.maxClients
    decreases |turns|
  {
    if turns != [] {
      TurnKeepsRanAlone(r, turns[0], log, limits);
      RunKeepsRanAlone(
        Advance(r, turns[0], limits), Record(r, turns[0], log, limits), turns[1..], limits, end, logged);
    }
  }

  /**
   * After any run of the server every viewer on its list is exactly what its own events alone would have
   * made of it, whatever happened to the others, and the list is no longer than allowed.
   */
  lemma EveryViewerRanAlone(start: int, turns: seq<Turn>, limits: Limits, end: Room, logged: seq<Entry>)
    requires Reaches(Opened(start), [], turns, limits, end, logged)
    ensures AllRanAlone(end.views, logged, limits.sessionTimeoutS) && |end.views| <= limits.maxClients
  {
    RunKeepsRanAlone(Opened(start), [], turns, limits, end, logged);
  }

  /** So for every viewer on the list candidates are conserved. */
  lemma ListedCandidatesAreConserved(
    start: int, turns: seq<Turn>, limits: Limits, end: Room, logged: seq<Entry>, k: nat)
    requires Reaches(Opened(start), [], turns, limits, end, logged) && k < |end.views|
    ensures |logged| == |end.views| && Orderly(end.views[k])
    ensures end.views[k].applied + end.views[k].pending == Received(logged[k].events)
  {
    EveryViewerRanAlone(start, turns, limits, end, logged);
    assert RanAlone(end.views[k], logged[k], limits.sessionTimeoutS);
    var joined := NewViewer(end.views[k].id, logged[k].start, logged[k].keepAlive);
    CandidatesAreConserved(joined, logged[k].events, limits.sessionTimeoutS);
    assert joined.applied + joined.pending + Received(logged[k].events) == Received(logged[k].events);
  }

  // ----- the clock of the server -----

  function TurnClock(t: Turn, before: int): int {
    match t
    case FrameArrived(now, _, _) => now
    case PingAndClean(now, _) => now
    case SplashRound(now, _, _) => now
    case OfferWanted(now, _) => now
    case OfferGiven(now, _) => now
    case PongFrom(_, now) => now
    case _ => before
  }

  ghost predicate TurnsInOrder(now: int, turns: seq<Turn>)
    decreases |turns|
  {
    turns != [] ==> now <= TurnClock(turns[0], now) && TurnsInOrder(TurnClock(turns[0], now), turns[1..])
  }

  /** Where the clock stands after the events. */
  function ClockAfter(now: int, events: seq<Event>): int
    decreases |events|
  {
    if events == [] then now else ClockAfter(ClockOf(events[0], now), events[1..])
  }

  ghost predicate Timed(e: Entry, now: int) {
    ClockRuns(e.start, e.events) && ClockAfter(e.start, e.events) <= now
  }

  ghost predicate AllTimed(log: seq<Entry>, now: int) {
    forall k | 0 <= k < |log| :: Timed(log[k], now)
  }

  lemma {:induction false} ClockGoesOn(start: int, events: seq<Event>, e: Event, now: int)
    requires ClockRuns(start, events) && ClockAfter(start, events) <= now
    requires ClockOf(e, now) >= now
    requires ClockOf(e, ClockAfter(start, events)) == ClockAfter(start, events) || ClockOf(e, now) == ClockOf(e, start)
    ensures ClockRuns(start, events + [e]) && ClockAfter(start, events + [e]) <= ClockOf(e, now)
    decreases |events|
  {
    if events == [] {
      assert events + [e] == [e] && [e][1..] == [];
    } else {
      assert (events + [e])[1..] == events[1..] + [e];
      ClockGoesOn(ClockOf(events[0], start), events[1..], e, now);
    }
  }

  lemma LivedIsTimed(r: Room, t: Turn, log: seq<Entry>, k: nat, now: int)
    requires Fits(r, t) && |log| == |r.views| && k < |log| && Timed(log[k], now) && now <= TurnClock(t, now)
    ensures Timed(LivedAll(r, t, log)[k], TurnClock(t, now))
  {
    var lived := Lived(r, t, k);
    if lived == [] {
      assert log[k].events + lived == log[k].events;
    } else {
      assert lived == [lived[0]];
      ClockGoesOn(log[k].start, log[k].events, lived[0], now);
    }
  }

  lemma TurnKeepsTimed(r: Room, t: Turn, log: seq<Entry>, limits: Limits, now: int)
    requires Fits(r, t) && |log| == |r.views| && AllTimed(log, now) && now <= TurnClock(t, now)
    ensures AllTimed(Record(r, t, log, limits), TurnClock(t, now))
  {
    var lived, record := LivedAll(r, t, log), Record(r, t, log, limits);
    forall k | 0 <= k < |log| ensures Timed(lived[k], TurnClock(t, now)) && Timed(log[k], TurnClock(t, now)) {
      LivedIsTimed(r, t, log, k, now);
    }
    if t.PingAndClean? {
      forall j | 0 <= j < |record| ensures Timed(record[j], TurnClock(t, now)) {
        var p := KeptAreMarked(lived, Alive(After(r, t, limits)), |log|, j);
      }
    } else if t.OfferGiven? {
      var kept := Kept(log, Alive(r.views), |log|);
      assert [AnswerReceived][1..] == [];
      forall j | 0 <= j < |kept| ensures Timed(kept[j], TurnClock(t, now)) {
        var p := KeptAreMarked(log, Alive(r.views), |log|, j);
      }
    }
  }

  lemma {:induction false} RunKeepsTimed(
    r: Room, log: seq<Entry>, turns: seq<Turn>, limits: Limits, end: Room, logged: seq<Entry>, now: int)
    requires Reaches(r, log, turns, limits, end, logged) && AllTimed(log, now) && TurnsInOrder(now, turns)
    ensures forall k | 0 <= k < |logged| :: ClockRuns(logged[k].start, logged[k].events)
    decreases |turns|
  {
    if turns == [] {
      assert forall k | 0 <= k < |log| :: Timed(log[k], now);
    } else {
      TurnKeepsTimed(r, turns[0], log, limits, now);
      RunKeepsTimed(
        Advance(r, turns[0], limits), Record(r, turns[0], log, limits), turns[1..], limits, end, logged,
        TurnClock(turns[0], now));
    }
  }

  /** And for every viewer on the list the three promises about its messages hold. */
  lemma ListedViewersAreNotMisled(
    start: int, turns: seq<Turn>, limits: Limits, end: Room, logged: seq<Entry>, k: nat)
    requires Reaches(Opened(start), [], turns, limits, end, logged) && TurnsInOrder(start, turns) && k < |end.views|
    ensures |logged| == |end.views| && Mjpeg.Honest(Seconds(logged[k].start), end.views[k].said)
  {
    EveryViewerRanAlone(start, turns, limits, end, logged);
    RunKeepsTimed(Opened(start), [], turns, limits, end, logged, start);
    assert RanAlone(end.views[k], logged[k], limits.sessionTimeoutS);
    ViewerIsNeverMisled(
      end.views[k].id, logged[k].start, logged[k].keepAlive, logged[k].events, limits.sessionTimeoutS);
  }

  /** And with no session timeout it is closing iff one of its own ping passes found it silent. */
  lemma ListedViewersCloseIffSilent(
    start: int, turns: seq<Turn>, maxClients: nat, end: Room, logged: seq<Entry>, k: nat)
    requires Reaches(Opened(start), [], turns, Limits(maxClients, 0), end, logged)
    requires TurnsInOrder(start, turns) && k < |end.views|
    ensures |logged| == |end.views|
    ensures end.views[k].closing <==>
              && logged[k].keepAlive
              && exists j | 0 <= j < |logged[k].events| :: SilentPass(logged[k].start, logged[k].events, j)
  {
    var limits := Limits(maxClients, 0);
    EveryViewerRanAlone(start, turns, limits, end, logged);
    RunKeepsTimed(Opened(start), [], turns, limits, end, logged, start);
    assert RanAlone(end.views[k], logged[k], 0);
    TurnedOnIffSilent(end.views[k].id, logged[k].start, logged[k].keepAlive, logged[k].events);
  }
}
