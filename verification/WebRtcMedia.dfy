/** What a viewer's track is sent over every run: the live frames, the messages the silence earns, the goodbyes. */
module WebRtcMedia {
  import opened Bytes
  import opened WebRtc
  import opened WebRtcProofs
  import opened WebRtcRuns
  import Mjpeg = MjpegStream

  // ----- live frames -----

  function FramesOf(media: seq<Media>): seq<seq<byte>> {
    if media == [] then [] else (if media[0].Frame? then [media[0].bytes] else []) + FramesOf(media[1..])
  }

  function SplashesOf(media: seq<Media>): seq<Mjpeg.Splash> {
    if media == [] then []
    else (if media[0].SplashKeyframe? then [media[0].splash] else []) + SplashesOf(media[1..])
  }

  lemma {:induction false} MediaAppend(a: seq<Media>, b: seq<Media>)
    ensures FramesOf(a + b) == FramesOf(a) + FramesOf(b)
    ensures SplashesOf(a + b) == SplashesOf(a) + SplashesOf(b)
  {
    if a == [] {
      assert a + b == b;
    } else {
      assert (a + b)[1..] == a[1..] + b;
      MediaAppend(a[1..], b);
      Regroup(if a[0].Frame? then [a[0].bytes] else [], FramesOf(a[1..]), FramesOf(b));
      Regroup(if a[0].SplashKeyframe? then [a[0].splash] else [], SplashesOf(a[1..]), SplashesOf(b));
    }
  }

  lemma OneMoreMedium(media: seq<Media>, m: Media)
    ensures FramesOf(media + [m]) == FramesOf(media) + if m.Frame? then [m.bytes] else []
    ensures SplashesOf(media + [m]) == SplashesOf(media) + if m.SplashKeyframe? then [m.splash] else []
  {
    MediaAppend(media, [m]);
    assert [m][1..] == [];
    assert FramesOf([m]) == if m.Frame? then [m.bytes] else [];
    assert SplashesOf([m]) == if m.SplashKeyframe? then [m.splash] else [];
  }

  /** The frame of the event, if the track took one. */
  function TakenBy(e: Event): seq<seq<byte>> {
    if e.FrameRelayed? && e.takes then [e.frame] else []
  }

  /** The frames the track took, in order. */
  function Taken(events: seq<Event>): seq<seq<byte>> {
    if events == [] then [] else TakenBy(events[0]) + Taken(events[1..])
  }

  /** How many events the viewer lives through before the one that makes it close. */
  function LiveFor(v: Viewer, events: seq<Event>, sessionTimeoutS: int): (n: nat)
    ensures n <= |events|
    decreases |events|
  {
    if events == [] || Step(v, events[0], sessionTimeoutS).closing then 0
    else 1 + LiveFor(Step(v, events[0], sessionTimeoutS), events[1..], sessionTimeoutS)
  }

  /** The pictures among the frames: those from the first keyframe on, or all once one was seen. */
  function FromKeyframe(frames: seq<seq<byte>>, seen: bool): seq<seq<byte>> {
    if seen || frames == [] || CarriesKeyframe(frames[0]) then frames else FromKeyframe(frames[1..], false)
  }

  lemma OneMorePicture(said: seq<Mjpeg.Notice>, n: Mjpeg.Notice)
    ensures Mjpeg.Pictures(said + [n]) == Mjpeg.Pictures(said) + if n.signal.Picture? then [n.signal.jpeg] else []
  {
    Mjpeg.PicturesAppend(said, [n]);
    assert [n][1..] == [];
    assert Mjpeg.Pictures([n]) == if n.signal.Picture? then [n.signal.jpeg] else [];
  }

  ghost predicate SendsOnly(v: Viewer, after: Viewer, frames: seq<seq<byte>>) {
    && FramesOf(after.sent) == FramesOf(v.sent) + frames
    && Mjpeg.Pictures(after.said) == Mjpeg.Pictures(v.said) + if after.seenLiveFrame then frames else []
  }

  lemma NothingSent(v: Viewer, after: Viewer)
    requires after.sent == v.sent && after.said == v.said
    ensures SendsOnly(v, after, [])
  {
    assert FramesOf(v.sent) + [] == FramesOf(v.sent);
    assert Mjpeg.Pictures(v.said) + [] == Mjpeg.Pictures(v.said);
  }

  lemma SplashSendsNoFrame(v: Viewer, now: int, takes: bool)
    ensures SendsOnly(v, SplashPass(v, now, takes), [])
  {
    var splash, after := SplashForViewer(v, now), SplashPass(v, now, takes);
    if after == v {
      NothingSent(v, after);
    } else {
      OneMoreMedium(v.sent, SplashKeyframe(splash));
      OneMorePicture(v.said, Mjpeg.Notice(Mjpeg.Message(splash), Seconds(now)));
    }
  }

  lemma RelaySendsTheFrame(v: Viewer, now: int, frame: seq<byte>, takes: bool)
    requires !v.closing
    ensures var after := Relay(v, now, frame, CarriesKeyframe(frame), takes);
            && SendsOnly(v, after, if takes then [frame] else [])
            && after.seenLiveFrame == (v.seenLiveFrame || (takes && CarriesKeyframe(frame)))
  {
    if takes {
      OneMoreMedium(v.sent, Frame(frame));
      OneMorePicture(v.said, Mjpeg.Notice(Mjpeg.Picture(frame), Seconds(now)));
      assert Mjpeg.Pictures(v.said) + [] == Mjpeg.Pictures(v.said);
    } else {
      NothingSent(v, v);
    }
  }

  lemma LiveStepSends(v: Viewer, e: Event, sessionTimeoutS: int)
    requires !v.closing && !Step(v, e, sessionTimeoutS).closing
    ensures var after := Step(v, e, sessionTimeoutS);
            && SendsOnly(v, after, TakenBy(e))
            && after.seenLiveFrame == (v.seenLiveFrame || (TakenBy(e) != [] && CarriesKeyframe(TakenBy(e)[0])))
  {
    if e.FrameRelayed? {
      RelaySendsTheFrame(v, e.now, e.frame, e.takes);
    } else if e.SplashTurn? {
      SplashSendsNoFrame(v, e.now, e.takes);
    } else {
      OthersSendNothing(v, e, sessionTimeoutS);
      OtherEventsSayNothing(v, e, sessionTimeoutS);
      NothingSent(v, Step(v, e, sessionTimeoutS));
    }
  }

  lemma GoodbyeSendsNoFrame(v: Viewer, after: Viewer)
    requires after.said == v.said
    requires after.sent == v.sent || after.sent == v.sent + [SplashKeyframe(Mjpeg.Interrupted)]
    ensures SendsOnly(v, after, [])
  {
    if after.sent == v.sent {
      NothingSent(v, after);
    } else {
      OneMoreMedium(v.sent, SplashKeyframe(Mjpeg.Interrupted));
      assert Mjpeg.Pictures(v.said) + [] == Mjpeg.Pictures(v.said);
    }
  }

  lemma OnlyPingsTurnAway(v: Viewer, e: Event, sessionTimeoutS: int)
    requires !v.closing && Step(v, e, sessionTimeoutS).closing
    ensures e.PingPass?
  {
    if e.CandidatesReceived? {
      AddCandidatesTouchesNothingElse(v, e.candidates);
    }
  }

  /** Once closing, or at the turn to it, no frame is sent and no picture shown. */
  lemma ClosingSendsNoFrame(v: Viewer, e: Event, sessionTimeoutS: int)
    requires Step(v, e, sessionTimeoutS).closing
    ensures SendsOnly(v, Step(v, e, sessionTimeoutS), [])
  {
    if v.closing {
      ClosingStep(v, e, sessionTimeoutS);
    } else {
      OnlyPingsTurnAway(v, e, sessionTimeoutS);
      TurningAwaySaysGoodbye(v, e.now, sessionTimeoutS, e.answer);
    }
    GoodbyeSendsNoFrame(v, Step(v, e, sessionTimeoutS));
  }

  lemma {:induction false} ClosedRunSendsNoFrame(v: Viewer, events: seq<Event>, sessionTimeoutS: int)
    requires v.closing
    ensures var end := Run(v, events, sessionTimeoutS);
            FramesOf(end.sent) == FramesOf(v.sent) && Mjpeg.Pictures(end.said) == Mjpeg.Pictures(v.said)
    decreases |events|
  {
    if events != [] {
      ClosingStep(v, events[0], sessionTimeoutS);
      ClosingSendsNoFrame(v, events[0], sessionTimeoutS);
      ClosedRunSendsNoFrame(Step(v, events[0], sessionTimeoutS), events[1..], sessionTimeoutS);
    }
  }

  lemma FromKeyframeStep(first: seq<seq<byte>>, frames: seq<seq<byte>>, seen: bool)
    requires |first| <= 1
    ensures var after := seen || (first != [] && CarriesKeyframe(first[0]));
            FromKeyframe(first + frames, seen) == (if after then first else []) + FromKeyframe(frames, after)
  {
    if first == [] {
      assert first + frames == frames && [] + FromKeyframe(frames, seen) == FromKeyframe(frames, seen);
    } else {
      assert (first + frames)[0] == first[0] && (first + frames)[1..] == frames;
      assert [] + FromKeyframe(frames, false) == FromKeyframe(frames, false);
    }
  }

  /**
   * Over every run the frames sent are, in order, those the track took before the viewer was made to
   * close, and the pictures it was shown are those of them from the first keyframe on.
   */
  lemma {:induction false} FramesReachTheTrack(v: Viewer, events: seq<Event>, sessionTimeoutS: int)
    requires !v.closing
    ensures var end := Run(v, events, sessionTimeoutS);
            var live := Taken(events[..LiveFor(v, events, sessionTimeoutS)]);
            && FramesOf(end.sent) == FramesOf(v.sent) + live
            && Mjpeg.Pictures(end.said) == Mjpeg.Pictures(v.said) + FromKeyframe(live, v.seenLiveFrame)
    decreases |events|
  {
    var n := LiveFor(v, events, sessionTimeoutS);
    if n == 0 {
      assert events[..0] == [];
      assert FramesOf(v.sent) + [] == FramesOf(v.sent);
      assert Mjpeg.Pictures(v.said) + [] == Mjpeg.Pictures(v.said);
      if events != [] {
        ClosingSendsNoFrame(v, events[0], sessionTimeoutS);
        ClosedRunSendsNoFrame(Step(v, events[0], sessionTimeoutS), events[1..], sessionTimeoutS);
      }
    } else {
      var next, first := Step(v, events[0], sessionTimeoutS), TakenBy(events[0]);
      LiveStepSends(v, events[0], sessionTimeoutS);
      FramesReachTheTrack(next, events[1..], sessionTimeoutS);
      assert events[..n][1..] == events[1..][..n - 1];
      var later := Taken(events[1..][..n - 1]);
      Regroup(FramesOf(v.sent), first, later);
      FromKeyframeStep(first, later, v.seenLiveFrame);
      Regroup(Mjpeg.Pictures(v.said), if next.seenLiveFrame then first else [],
              FromKeyframe(later, next.seenLiveFrame));
    }
  }

  /**
   * With no session timeout and a clock that runs forward, the event that ends the live frames is the
   * first ping pass that finds a keep-alive viewer silent.
   */
  lemma {:induction false} LiveUntilSilent(v: Viewer, start: int, past: seq<Event>, events: seq<Event>, now: int)
    requires Remembers(v, start, past) && !v.closing && v.lastPong <= now && ClockRuns(now, events)
    ensures var n := LiveFor(v, events, 0);
            && (n < |events| ==> v.keepAlive && SilentPass(start, past + events, |past| + n))
            && forall k | |past| <= k < |past| + n :: !(v.keepAlive && SilentPass(start, past + events, k))
    decreases |events|
  {
    if events != [] {
      var e, later := events[0], events[1..];
      assert past + events == past + [e] + later;
      StepTurnsIffSilent(v, start, past, e, later);
      if !Step(v, e, 0).closing {
        StepRemembers(v, start, past, e, now);
        LiveUntilSilent(Step(v, e, 0), start, past + [e], later, ClockOf(e, now));
      }
    }
  }

  // ----- messages -----

  function MessagesOf(said: seq<Mjpeg.Notice>): seq<Mjpeg.Splash> {
    if said == [] then []
    else (if said[0].signal.Message? then [said[0].signal.splash] else []) + MessagesOf(said[1..])
  }

  lemma {:induction false} OneMoreNotice(said: seq<Mjpeg.Notice>, n: Mjpeg.Notice)
    ensures MessagesOf(said + [n]) == MessagesOf(said) + if n.signal.Message? then [n.signal.splash] else []
  {
    if said == [] {
      assert said + [n] == [n] && [n][1..] == [];
    } else {
      assert (said + [n])[1..] == said[1..] + [n];
      OneMoreNotice(said[1..], n);
      Regroup(if said[0].signal.Message? then [said[0].signal.splash] else [], MessagesOf(said[1..]),
              if n.signal.Message? then [n.signal.splash] else []);
    }
  }

  /** The splashes its track took are the messages the viewer was told, in order. */
  ghost predicate ToldIsSent(v: Viewer) {
    SplashesOf(v.sent) == MessagesOf(v.said)
  }

  lemma FrameKeepsTold(v: Viewer, now: int, frame: seq<byte>, takes: bool)
    requires ToldIsSent(v)
    ensures ToldIsSent(Relay(v, now, frame, CarriesKeyframe(frame), takes))
  {
    OneMoreMedium(v.sent, Frame(frame));
    OneMoreNotice(v.said, Mjpeg.Notice(Mjpeg.Picture(frame), Seconds(now)));
    assert SplashesOf(v.sent) + [] == SplashesOf(v.sent) && MessagesOf(v.said) + [] == MessagesOf(v.said);
  }

  lemma SplashKeepsTold(v: Viewer, now: int, takes: bool)
    requires ToldIsSent(v)
    ensures ToldIsSent(SplashPass(v, now, takes))
  {
    var splash := SplashForViewer(v, now);
    OneMoreMedium(v.sent, SplashKeyframe(splash));
    OneMoreNotice(v.said, Mjpeg.Notice(Mjpeg.Message(splash), Seconds(now)));
  }

  lemma OthersSendNothing(v: Viewer, e: Event, sessionTimeoutS: int)
    requires !e.SplashTurn? && !e.FrameRelayed? && !v.closing && !Step(v, e, sessionTimeoutS).closing
    ensures Step(v, e, sessionTimeoutS).sent == v.sent && Step(v, e, sessionTimeoutS).said == v.said
  {
    if e.CandidatesReceived? {
      AddCandidatesTouchesNothingElse(v, e.candidates);
    }
  }

  lemma StepKeepsTold(v: Viewer, e: Event, sessionTimeoutS: int)
    requires !v.closing && !Step(v, e, sessionTimeoutS).closing && ToldIsSent(v)
    ensures ToldIsSent(Step(v, e, sessionTimeoutS))
  {
    if e.FrameRelayed? {
      FrameKeepsTold(v, e.now, e.frame, e.takes);
    } else if e.SplashTurn? {
      SplashKeepsTold(v, e.now, e.takes);
    } else {
      OthersSendNothing(v, e, sessionTimeoutS);
    }
  }

  /** Over every run, until a viewer is made to close, it is told only what it is sent and sent only what it is told. */
  lemma {:induction false} MessagesReachTheTrack(v: Viewer, events: seq<Event>, sessionTimeoutS: int)
    requires !v.closing && ToldIsSent(v) && !Run(v, events, sessionTimeoutS).closing
    ensures ToldIsSent(Run(v, events, sessionTimeoutS))
    decreases |events|
  {
    if events != [] {
      var next := Step(v, events[0], sessionTimeoutS);
      if next.closing {
        ClosingNeverReverts(next, events[1..], sessionTimeoutS);
      } else {
        StepKeepsTold(v, events[0], sessionTimeoutS);
        MessagesReachTheTrack(next, events[1..], sessionTimeoutS);
      }
    }
  }

  /** When the last picture was shown, or when the viewer joined. */
  function LastShown(start: real, said: seq<Mjpeg.Notice>): real
    decreases |said|
  {
    if said == [] then start
    else if said[|said| - 1].signal.Picture? then said[|said| - 1].at
    else LastShown(start, said[..|said| - 1])
  }

  /** Both loops remember just that. */
  ghost predicate RemembersLast(w: Mjpeg.Watch) {
    w.silentSince == LastShown(w.start, w.said) && (w.seenLiveFrame <==> Mjpeg.Pictures(w.said) != [])
  }

  /** What a silence earns a viewer: nothing before two seconds, and so on. */
  function Earned(start: real, said: seq<Mjpeg.Notice>, now: real): seq<Mjpeg.Notice> {
    var silent := now - LastShown(start, said);
    if Mjpeg.Pictures(said) != [] then
      if silent >= 5.0 then [Mjpeg.Notice(Mjpeg.Message(Mjpeg.Interrupted), now)] else []
    else if silent >= 30.0 then [Mjpeg.Notice(Mjpeg.Message(Mjpeg.Interrupted), now)]
    else if silent >= 2.0 then [Mjpeg.Notice(Mjpeg.Message(Mjpeg.Connecting), now)]
    else []
  }

  lemma MessageKeepsLast(start: real, said: seq<Mjpeg.Notice>, splash: Mjpeg.Splash, now: real)
    ensures var longer := said + [Mjpeg.Notice(Mjpeg.Message(splash), now)];
            LastShown(start, longer) == LastShown(start, said) && Mjpeg.Pictures(longer) == Mjpeg.Pictures(said)
  {
    var longer := said + [Mjpeg.Notice(Mjpeg.Message(splash), now)];
    assert longer[..|longer| - 1] == said;
    OneMorePicture(said, Mjpeg.Notice(Mjpeg.Message(splash), now));
  }

  lemma ShownSetsLast(start: real, said: seq<Mjpeg.Notice>, pictures: seq<seq<byte>>, now: real)
    requires pictures != []
    ensures LastShown(start, said + Mjpeg.Shown(pictures, now)) == now
  {
    Mjpeg.ShownAt(pictures, now);
    var shown := Mjpeg.Shown(pictures, now);
    var longer := said + shown;
    assert longer[|longer| - 1] == shown[|shown| - 1];
  }

  lemma EarnedIsTheSplash(w: Mjpeg.Watch, now: real)
    requires RemembersLast(w)
    ensures var splash := Mjpeg.SplashForSilence(now - w.silentSince, w.seenLiveFrame);
            Earned(w.start, w.said, now)
            == if splash == Mjpeg.Quiet then [] else [Mjpeg.Notice(Mjpeg.Message(splash), now)]
  {
    var last, shown := LastShown(w.start, w.said), Mjpeg.Pictures(w.said) != [];
    assert w.silentSince == last && w.seenLiveFrame == shown;
  }

  lemma ToldRemembersLast(w: Mjpeg.Watch, splash: Mjpeg.Splash, now: real, after: Mjpeg.Watch)
    requires RemembersLast(w)
    requires after == w.(said := w.said + [Mjpeg.Notice(Mjpeg.Message(splash), now)])
    ensures RemembersLast(after)
  {
    MessageKeepsLast(w.start, w.said, splash, now);
  }

  /** A pass that brings nothing tells the viewer what its history earns. */
  lemma SilentPassTells(w: Mjpeg.Watch, now: real, after: Mjpeg.Watch)
    requires RemembersLast(w) && after == Mjpeg.Pass(w, None, now)
    ensures RemembersLast(after) && after.start == w.start
    ensures after.said == w.said + Earned(w.start, w.said, now)
  {
    var splash := Mjpeg.SplashForSilence(now - w.silentSince, w.seenLiveFrame);
    EarnedIsTheSplash(w, now);
    if splash == Mjpeg.Quiet {
      assert w.said + [] == w.said;
    } else {
      ToldRemembersLast(w, splash, now, after);
    }
  }

  lemma PassRemembersLast(w: Mjpeg.Watch, chunk: Option<seq<byte>>, now: real)
    requires RemembersLast(w)
    ensures RemembersLast(Mjpeg.Pass(w, chunk, now)) && Mjpeg.Pass(w, chunk, now).start == w.start
  {
    match chunk
    case None => SilentPassTells(w, now, Mjpeg.Pass(w, chunk, now));
    case Some(bytes) =>
      var frames := Mjpeg.JpegFrames.Extract(w.buffer + bytes).frames;
      Mjpeg.PassShows(w, chunk, now);
      if frames != [] {
        ShownSetsLast(w.start, w.said, frames, now);
      } else {
        assert Mjpeg.Pictures(w.said) + [] == Mjpeg.Pictures(w.said);
      }
  }

  lemma {:induction false} RunRemembersLast(w: Mjpeg.Watch, turns: seq<Mjpeg.Turn>)
    requires RemembersLast(w)
    ensures RemembersLast(Mjpeg.Run(w, turns)) && Mjpeg.Run(w, turns).start == w.start
    decreases |turns|
  {
    if turns != [] {
      PassRemembersLast(w, turns[0].chunk, turns[0].now);
      RunRemembersLast(Mjpeg.Pass(w, turns[0].chunk, turns[0].now), turns[1..]);
    }
  }

  /** After any run of the MJPEG stream a pass that brings nothing tells the viewer exactly what its history earns. */
  lemma MjpegSilenceIsTold(start: real, turns: seq<Mjpeg.Turn>, now: real)
    ensures var w := Mjpeg.Run(Mjpeg.Joined(start), turns);
            Mjpeg.Pass(w, None, now).said == w.said + Earned(start, w.said, now)
  {
    RunRemembersLast(Mjpeg.Joined(start), turns);
    var w := Mjpeg.Run(Mjpeg.Joined(start), turns);
    SilentPassTells(w, now, Mjpeg.Pass(w, None, now));
  }

  lemma SplashTellsWhatIsEarned(v: Viewer, now: int, takes: bool)
    requires RemembersLast(AsWatch(v)) && !v.closing
    ensures RemembersLast(AsWatch(SplashPass(v, now, takes)))
    ensures SplashPass(v, now, takes).said
         == v.said + if takes then Earned(Seconds(v.startTime), v.said, Seconds(now)) else []
  {
    SplashRulesAgree(v, now);
    MessageKeepsLast(Seconds(v.startTime), v.said, SplashForViewer(v, now), Seconds(now));
    assert v.said + [] == v.said;
  }

  lemma FrameRemembersLast(v: Viewer, now: int, frame: seq<byte>, takes: bool)
    requires RemembersLast(AsWatch(v))
    ensures RemembersLast(AsWatch(Relay(v, now, frame, CarriesKeyframe(frame), takes)))
  {
    OneMorePicture(v.said, Mjpeg.Notice(Mjpeg.Picture(frame), Seconds(now)));
  }

  lemma StepRemembersLast(v: Viewer, e: Event, sessionTimeoutS: int)
    requires RemembersLast(AsWatch(v))
    ensures RemembersLast(AsWatch(Step(v, e, sessionTimeoutS)))
    ensures Step(v, e, sessionTimeoutS).startTime == v.startTime
  {
    if e.SplashTurn? {
      if !v.closing { SplashTellsWhatIsEarned(v, e.now, e.takes); }
    } else if e.FrameRelayed? {
      FrameRemembersLast(v, e.now, e.frame, e.takes);
    } else {
      OtherEventsSayNothing(v, e, sessionTimeoutS);
    }
  }

  lemma {:induction false} ViewerRemembersLast(v: Viewer, events: seq<Event>, sessionTimeoutS: int)
    requires RemembersLast(AsWatch(v))
    ensures RemembersLast(AsWatch(Run(v, events, sessionTimeoutS)))
    ensures Run(v, events, sessionTimeoutS).startTime == v.startTime
    decreases |events|
  {
    if events != [] {
      StepRemembersLast(v, events[0], sessionTimeoutS);
      ViewerRemembersLast(Step(v, events[0], sessionTimeoutS), events[1..], sessionTimeoutS);
    }
  }

  /** After any run of a viewer that is not closing, a splash round tells it exactly what its history earns. */
  lemma ViewerSilenceIsTold(
    id: nat, start: int, keepAlive: bool, events: seq<Event>, sessionTimeoutS: int, now: int, takes: bool)
    requires !Run(NewViewer(id, start, keepAlive), events, sessionTimeoutS).closing
    ensures var v := Run(NewViewer(id, start, keepAlive), events, sessionTimeoutS);
            && SplashPass(v, now, takes).said
               == v.said + (if takes then Earned(Seconds(start), v.said, Seconds(now)) else [])
            && |SplashPass(v, now, takes).sent| - |v.sent| == |SplashPass(v, now, takes).said| - |v.said|
  {
    var joined := NewViewer(id, start, keepAlive);
    ViewerRemembersLast(joined, events, sessionTimeoutS);
    SplashTellsWhatIsEarned(Run(joined, events, sessionTimeoutS), now, takes);
  }

  // ----- goodbyes -----

  /** The ping passes before the time on which the track takes the goodbye. */
  function Goodbyes(events: seq<Event>, due: int): nat {
    if events == [] then 0
    else
      (if events[0].PingPass? && events[0].now < due && events[0].answer.takes then 1 else 0)
      + Goodbyes(events[1..], due)
  }

  /** A ping pass that makes a viewer close gives it a second and sends it the goodbye its track takes. */
  lemma TurningAwaySaysGoodbye(v: Viewer, now: int, sessionTimeoutS: int, a: Answer)
    requires !v.closing && Ping(v, now, sessionTimeoutS, a).closing
    ensures var after := Ping(v, now, sessionTimeoutS, a);
            && after.closeAfter == now + NS_PER_S && after.said == v.said && after.peer == v.peer
            && after.sent == v.sent + if a.takes then [SplashKeyframe(Mjpeg.Interrupted)] else []
  {
    assert v.sent + [] == v.sent;
  }

  /** Over every run a closing viewer is sent one goodbye at each pass before its time that its track takes. */
  lemma {:induction false} GoodbyeAtEveryPass(v: Viewer, events: seq<Event>, sessionTimeoutS: int)
    requires v.closing
    ensures |Run(v, events, sessionTimeoutS).sent| == |v.sent| + Goodbyes(events, v.closeAfter)
    decreases |events|
  {
    if events != [] {
      if events[0].CandidatesReceived? {
        AddCandidatesTouchesNothingElse(v, events[0].candidates);
      }
      ClosingStep(v, events[0], sessionTimeoutS);
      GoodbyeAtEveryPass(Step(v, events[0], sessionTimeoutS), events[1..], sessionTimeoutS);
    }
  }

  /** An open channel that stays is pinged iff a second has passed since the last ping that went out. */
  lemma PingedEverySecond(v: Viewer, now: int, sessionTimeoutS: int, a: Answer)
    requires !v.closing && !Ping(v, now, sessionTimeoutS, a).closing && a.channelOpen
    ensures Ping(v, now, sessionTimeoutS, a).lastPing
         == if now - v.lastPing >= 1000 * NS_PER_MS && a.pingTaken then now else v.lastPing
  {
  }

  /** From joining on, then, that is all the frames it was sent and all the pictures it was shown. */
  lemma NewViewersGetTheirFrames(
    id: nat, start: int, keepAlive: bool, events: seq<Event>, sessionTimeoutS: int, live: seq<seq<byte>>)
    requires live == Taken(events[..LiveFor(NewViewer(id, start, keepAlive), events, sessionTimeoutS)])
    ensures var end := Run(NewViewer(id, start, keepAlive), events, sessionTimeoutS);
            FramesOf(end.sent) == live && Mjpeg.Pictures(end.said) == FromKeyframe(live, false)
  {
    FramesReachTheTrack(NewViewer(id, start, keepAlive), events, sessionTimeoutS);
    assert [] + live == live && [] + FromKeyframe(live, false) == FromKeyframe(live, false);
  }

  // ----- every run of the server -----

  /** Every viewer on the list was sent the frames its track took before it was made to close, and no others. */
  lemma ListedTracksGetTheirFrames(
    start: int, turns: seq<Turn>, limits: Limits, end: Room, logged: seq<Entry>, k: nat)
    requires Reaches(Opened(start), [], turns, limits, end, logged) && k < |end.views|
    ensures |logged| == |end.views|
    ensures var (v, e) := (end.views[k], logged[k]);
            var joined := NewViewer(v.id, e.start, e.keepAlive);
            var live := Taken(e.events[..LiveFor(joined, e.events, limits.sessionTimeoutS)]);
            FramesOf(v.sent) == live && Mjpeg.Pictures(v.said) == FromKeyframe(live, false)
  {
    EveryViewerRanAlone(start, turns, limits, end, logged);
    var v, e := end.views[k], logged[k];
    assert RanAlone(v, e, limits.sessionTimeoutS);
    NewViewersGetTheirFrames(v.id, e.start, e.keepAlive, e.events, limits.sessionTimeoutS,
      Taken(e.events[..LiveFor(NewViewer(v.id, e.start, e.keepAlive), e.events, limits.sessionTimeoutS)]));
  }
}
