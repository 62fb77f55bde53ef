/**
 * The viewers of apps/stream-webrtc/main.cpp: frames and splashes relayed to each, candidates, the
 * graceful close, the ping pass and the cleanup. Time is steady_clock's, in nanoseconds.
 */
module WebRtc {
  import opened Bytes
  import opened Mjpeg = MjpegStream

  const PING_INTERVAL_MS: int := 1000
  const CONNECT_TIMEOUT_MS: int := 30000
  const PONG_TIMEOUT_MS: int := 30000
  const CONNECTING_AFTER_SILENT_MS: int := 2000
  const INTERRUPTED_AFTER_SILENT_MS: int := 5000
  const SPLASH_RESEND_MS: int := 1000
  const GIVE_UP_CONNECTING_MS: int := 30000
  const SPLASH_FLUSH_MS: int := 1000

  const NS_PER_MS: nat := 1000000
  const NS_PER_S: nat := 1000000000

  /** duration_cast, toward zero. */
  function Truncated(ns: int, unit: nat): int
    requires unit > 0
  {
    if ns >= 0 then ns / unit else -((-ns) / unit)
  }

  function ElapsedMs(since: int, now: int): int {
    Truncated(now - since, NS_PER_MS)
  }

  /** The same instant on the clock of the MJPEG server, in seconds. */
  function Seconds(ns: int): real {
    ns as real / 1000000000.0
  }

  // ----- does a frame carry a keyframe -----

  predicate StartsNalUnit(data: seq<byte>, index: nat)
    requires index + 2 < |data|
  {
    data[index] == 0 && data[index + 1] == 0 && data[index + 2] == 1
  }

  /** An IDR slice or a sequence parameter set behind a start code at `index`. */
  predicate KeyNalAt(data: seq<byte>, index: nat) {
    && index + 3 < |data|
    && StartsNalUnit(data, index)
    && (LowFiveBits(data[index + 3]) == 5 || LowFiveBits(data[index + 3]) == 7)
  }

  predicate CarriesKeyframe(data: seq<byte>) {
    exists index | 0 <= index < |data| :: KeyNalAt(data, index)
  }

  method FrameCarriesKeyframe(data: seq<byte>) returns (carries: bool)
    ensures carries == CarriesKeyframe(data)
  {
    var index := 0;
    while index + 3 < |data|
      invariant forall k | 0 <= k < index :: !KeyNalAt(data, k)
    {
      if !StartsNalUnit(data, index) {
        index := index + 1;
        continue;
      }
      var nalType := LowFiveBits(data[index + 3]);
      if nalType == 5 || nalType == 7 {
        assert KeyNalAt(data, index);
        return true;
      }
      index := index + 1;
    }
    return false;
  }

  // ----- one viewer -----

  datatype Media = Frame(bytes: seq<byte>) | SplashKeyframe(splash: Splash)

  datatype Peer = Active | Closed | Failed

  /**
   * A viewer with its history: `sent` is everything its track took, `said` what it was shown and told
   * while not closing, `applied` the candidates its connection was given.
   */
  datatype Viewer = Viewer(
    id: nat, startTime: int, lastPing: int, lastPong: int, pending: seq<string>, answerReceived: bool,
    keepAlive: bool, closing: bool, seenLiveFrame: bool, lastLiveFrame: int, closeAfter: int, peer: Peer,
    remoteSet: bool, applied: seq<string>, sent: seq<Media>, said: seq<Notice>)

  function NewViewer(id: nat, now: int, keepAlive: bool): Viewer {
    Viewer(id, now, 0, now, [], false, keepAlive, false, false, now, 0, Active, false, [], [], [])
  }

  /** `takes` is whether the track is open and takes the data. */
  function Relay(v: Viewer, now: int, frame: seq<byte>, carriesKeyframe: bool, takes: bool): Viewer {
    if v.closing || !takes then v
    else
      var seen := v.seenLiveFrame || carriesKeyframe;
      v.(sent := v.sent + [Frame(frame)], lastLiveFrame := now, seenLiveFrame := seen,
         said := if seen then v.said + [Notice(Picture(frame), Seconds(now))] else v.said)
  }

  function SplashWhileConnecting(waitedMs: int): Splash {
    if waitedMs >= GIVE_UP_CONNECTING_MS then Interrupted
    else if waitedMs >= CONNECTING_AFTER_SILENT_MS then Connecting
    else Quiet
  }

  function SplashForViewer(v: Viewer, now: int): Splash {
    if !v.seenLiveFrame then SplashWhileConnecting(ElapsedMs(v.startTime, now))
    else if ElapsedMs(v.lastLiveFrame, now) >= INTERRUPTED_AFTER_SILENT_MS then Interrupted
    else Quiet
  }

  /** What one viewer gets on a splash pass. */
  function SplashPass(v: Viewer, now: int, takes: bool): Viewer {
    var splash := SplashForViewer(v, now);
    if v.closing || splash == Quiet || !takes then v
    else v.(sent := v.sent + [SplashKeyframe(splash)], said := v.said + [Notice(Message(splash), Seconds(now))])
  }

  function ClosingSplash(v: Viewer, takes: bool): Viewer {
    if takes then v.(sent := v.sent + [SplashKeyframe(Interrupted)]) else v
  }

  function BeginClose(v: Viewer, now: int, takes: bool): Viewer {
    ClosingSplash(v.(closing := true, closeAfter := now + SPLASH_FLUSH_MS * NS_PER_MS), takes)
  }

  function AdvanceClose(v: Viewer, now: int, takes: bool): Viewer {
    if now >= v.closeAfter then v.(peer := Closed) else ClosingSplash(v, takes)
  }

  /** What the libraries answer about one viewer during a pass. */
  datatype Answer = Answer(takes: bool, channelOpen: bool, pingTaken: bool)

  /** One viewer's share of `ping_clients`. */
  function Ping(v: Viewer, now: int, sessionTimeoutS: int, a: Answer): Viewer {
    var elapsed := Truncated(now - v.startTime, NS_PER_S);
    if v.closing then AdvanceClose(v, now, a.takes)
    else if sessionTimeoutS > 0 && elapsed >= sessionTimeoutS then BeginClose(v, now, a.takes)
    else if !a.channelOpen then
      if elapsed * 1000 >= CONNECT_TIMEOUT_MS then v.(peer := Closed) else v
    else if ElapsedMs(v.lastPong, now) >= PONG_TIMEOUT_MS && v.keepAlive then BeginClose(v, now, a.takes)
    else
      var heard := if ElapsedMs(v.lastPong, now) >= PONG_TIMEOUT_MS then v.(lastPong := now) else v;
      if ElapsedMs(v.lastPing, now) >= PING_INTERVAL_MS && a.pingTaken then heard.(lastPing := now) else heard
  }

  function AddCandidate(v: Viewer, candidate: string): Viewer {
    if candidate == "" then v
    else if v.answerReceived then v.(applied := v.applied + [candidate])
    else v.(pending := v.pending + [candidate])
  }

  function AddCandidates(v: Viewer, candidates: seq<string>): Viewer
    decreases |candidates|
  {
    if candidates == [] then v else AddCandidates(AddCandidate(v, candidates[0]), candidates[1..])
  }

  function TakeAnswer(v: Viewer): Viewer {
    v.(remoteSet := true, answerReceived := true, applied := v.applied + v.pending, pending := [])
  }

  class Client {
    const id: nat
    var startTime: int
    var lastPing: int
    var lastPong: int
    var pendingCandidates: seq<string>
    var answerReceived: bool
    var keepAlive: bool
    var closing: bool
    var seenLiveFrame: bool
    var lastLiveFrame: int
    var closeAfter: int
    var peer: Peer
    ghost var remoteSet: bool
    ghost var applied: seq<string>
    ghost var sent: seq<Media>
    ghost var said: seq<Notice>

    ghost function View(): Viewer
      reads this
    {
      Viewer(id, startTime, lastPing, lastPong, pendingCandidates, answerReceived, keepAlive, closing,
             seenLiveFrame, lastLiveFrame, closeAfter, peer, remoteSet, applied, sent, said)
    }

    constructor (id: nat, now: int, keepAlive: bool)
      ensures View() == NewViewer(id, now, keepAlive)
    {
      this.id, startTime, lastPing, lastPong := id, now, 0, now;
      pendingCandidates, answerReceived, this.keepAlive, closing := [], false, keepAlive, false;
      seenLiveFrame, lastLiveFrame, closeAfter, peer := false, now, 0, Active;
      remoteSet, applied, sent, said := false, [], [], [];
    }

    method RelayFrame(now: int, frame: seq<byte>, carriesKeyframe: bool, takes: bool)
      modifies this
      ensures View() == Relay(old(View()), now, frame, carriesKeyframe, takes)
    {
      if closing {
        return;
      }
      if !takes {
        return;
      }
      sent := sent + [Frame(frame)];
      lastLiveFrame := now;
      if carriesKeyframe {
        seenLiveFrame := true;
      }
      if seenLiveFrame {
        said := said + [Notice(Picture(frame), Seconds(now))];
      }
    }

    method SendSplash(now: int, takes: bool)
      modifies this
      ensures View() == SplashPass(old(View()), now, takes)
    {
      if closing {
        return;
      }
      var waited := if seenLiveFrame then ElapsedMs(lastLiveFrame, now) else ElapsedMs(startTime, now);
      var splash :=
        if !seenLiveFrame then SplashWhileConnecting(waited)
        else if waited >= INTERRUPTED_AFTER_SILENT_MS then Interrupted
        else Quiet;
      if splash == Quiet {
        return;
      }
      if takes {
        sent := sent + [SplashKeyframe(splash)];
        said := said + [Notice(Message(splash), Seconds(now))];
      }
    }

    method SendClosingSplash(takes: bool)
      modifies this`sent
      ensures View() == ClosingSplash(old(View()), takes)
    {
      if takes {
        sent := sent + [SplashKeyframe(Interrupted)];
      }
    }

    method BeginToClose(now: int, takes: bool)
      modifies this
      ensures View() == BeginClose(old(View()), now, takes)
    {
      closing := true;
      closeAfter := now + SPLASH_FLUSH_MS * NS_PER_MS;
      SendClosingSplash(takes);
    }

    method PingOnce(now: int, sessionTimeoutS: int, a: Answer)
      modifies this
      ensures View() == Ping(old(View()), now, sessionTimeoutS, a)
    {
      if closing {
        if now >= closeAfter {
          peer := Closed;
          return;
        }
        SendClosingSplash(a.takes);
        return;
      }
      var elapsed := Truncated(now - startTime, NS_PER_S);
      if sessionTimeoutS > 0 && elapsed >= sessionTimeoutS {
        BeginToClose(now, a.takes);
        return;
      }
      if !a.channelOpen {
        if elapsed * 1000 >= CONNECT_TIMEOUT_MS {
          peer := Closed;
        }
        return;
      }
      if ElapsedMs(lastPong, now) >= PONG_TIMEOUT_MS {
        if keepAlive {
          BeginToClose(now, a.takes);
          return;
        }
        lastPong := now;
      }
      if ElapsedMs(lastPing, now) >= PING_INTERVAL_MS {
        if a.pingTaken {
          lastPing := now;
        }
      }
    }

    method MarkClosed()
      modifies this`peer
      ensures View() == old(View()).(peer := Closed)
    {
      peer := Closed;
    }

    /** What the library itself makes of the connection. */
    method ReportPeer(state: Peer)
      modifies this`peer
      ensures View() == old(View()).(peer := state)
    {
      peer := state;
    }

    /** The data channel's message callback. */
    method HearPong(now: int)
      modifies this`lastPong
      ensures View() == old(View()).(lastPong := now)
    {
      lastPong := now;
    }

    method ReceiveAnswer()
      modifies this
      ensures View() == TakeAnswer(old(View()))
    {
      remoteSet := true;
      answerReceived := true;
      ghost var before := applied;
      var k := 0;
      while k < |pendingCandidates|
        modifies this`applied
        invariant k <= |pendingCandidates|
        invariant applied == before + pendingCandidates[..k]
      {
        applied := applied + [pendingCandidates[k]];
        k := k + 1;
      }
      assert pendingCandidates[..k] == pendingCandidates;
      pendingCandidates := [];
    }

    method ReceiveCandidates(candidates: seq<string>)
      modifies this
      ensures View() == AddCandidates(old(View()), candidates)
    {
      var k := 0;
      while k < |candidates|
        invariant k <= |candidates|
        invariant AddCandidates(View(), candidates[k..]) == AddCandidates(old(View()), candidates)
      {
        ghost var before := View();
        assert candidates[k..][1..] == candidates[k + 1..];
        if candidates[k] != "" {
          if answerReceived {
            applied := applied + [candidates[k]];
          } else {
            pendingCandidates := pendingCandidates + [candidates[k]];
          }
        }
        assert View() == AddCandidate(before, candidates[k]);
        k := k + 1;
      }
    }
  }
}
