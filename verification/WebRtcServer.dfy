/** The list of viewers of apps/stream-webrtc/main.cpp: the passes over it and the signalling requests. */
module WebRtcServer {
  import opened Bytes
  import opened WebRtc

  datatype Response =
    | OfferFor(id: nat) | AnswerFor(id: nat) | Accepted
    | MaxClientsReached | NoDescription | MissingField | ClientNotFound | UnknownType

  /** The state of every viewer, in list order. */
  ghost function Views(clients: seq<Client>): (views: seq<Viewer>)
    reads clients
    ensures |views| == |clients| && forall k | 0 <= k < |clients| :: views[k] == clients[k].View()
  {
    seq(|clients|, k requires 0 <= k < |clients| reads clients => clients[k].View())
  }

  ghost predicate AllDifferent(clients: seq<Client>) {
    forall j, k | 0 <= j < k < |clients| :: clients[j] != clients[k]
  }

  /** A pass whose first `k` entries are done. */
  function Midway(want: seq<Viewer>, was: seq<Viewer>, k: nat): seq<Viewer>
    requires |want| == |was|
  {
    seq(|was|, j requires 0 <= j < |was| => if j < k then want[j] else was[j])
  }

  lemma PassStep(want: seq<Viewer>, was: seq<Viewer>, k: nat)
    requires |want| == |was|
    ensures Midway(want, was, 0) == was
    ensures k < |was| ==> Midway(want, was, k)[k := want[k]] == Midway(want, was, k + 1)
    ensures Midway(want, was, |was|) == want
  {
  }

  function RelayAll(views: seq<Viewer>, now: int, frame: seq<byte>, takes: seq<bool>): seq<Viewer>
    requires |takes| == |views|
  {
    seq(|views|, k requires 0 <= k < |views| => Relay(views[k], now, frame, CarriesKeyframe(frame), takes[k]))
  }

  function PingAll(views: seq<Viewer>, now: int, sessionTimeoutS: int, answers: seq<Answer>): seq<Viewer>
    requires |answers| == |views|
  {
    seq(|views|, k requires 0 <= k < |views| => Ping(views[k], now, sessionTimeoutS, answers[k]))
  }

  function SplashAll(views: seq<Viewer>, now: int, takes: seq<bool>): seq<Viewer>
    requires |takes| == |views|
  {
    seq(|views|, k requires 0 <= k < |views| => SplashPass(views[k], now, takes[k]))
  }

  /** Whose connection is neither closed nor failed. */
  function Alive(views: seq<Viewer>): seq<bool> {
    seq(|views|, k requires 0 <= k < |views| => views[k].peer == Active)
  }

  function SweptOne(v: Viewer): Viewer {
    if v.peer == Failed then v.(peer := Closed) else v
  }

  /** After a sweep no connection is failed: it has been closed. */
  function Swept(views: seq<Viewer>): seq<Viewer> {
    seq(|views|, k requires 0 <= k < |views| => SweptOne(views[k]))
  }

  /** The marked items among the first `n`, in order. */
  function Kept<T>(items: seq<T>, marks: seq<bool>, n: nat): (kept: seq<T>)
    requires n <= |items| == |marks|
    ensures |kept| <= n
    decreases n
  {
    if n == 0 then [] else Kept(items, marks, n - 1) + if marks[n - 1] then [items[n - 1]] else []
  }

  lemma {:induction false} KeptAreMarked<T>(items: seq<T>, marks: seq<bool>, n: nat, j: nat) returns (p: nat)
    requires n <= |items| == |marks| && j < |Kept(items, marks, n)|
    ensures p < n && marks[p] && items[p] == Kept(items, marks, n)[j]
    decreases n
  {
    if j < |Kept(items, marks, n - 1)| {
      p := KeptAreMarked(items, marks, n - 1, j);
    } else {
      p := n - 1;
    }
  }

  /** Every marked item is kept. */
  lemma {:induction false} MarkedAreKept<T>(items: seq<T>, marks: seq<bool>, n: nat, p: nat)
    requires p < n <= |items| == |marks| && marks[p]
    ensures items[p] in Kept(items, marks, n)
    decreases n
  {
    if p < n - 1 {
      MarkedAreKept(items, marks, n - 1, p);
    }
  }

  /** Two kept items stand in the list in the same order. */
  lemma {:induction false} KeptInOrder<T>(items: seq<T>, marks: seq<bool>, n: nat, i: nat, j: nat)
    returns (p: nat, q: nat)
    requires n <= |items| == |marks| && i < j < |Kept(items, marks, n)|
    ensures p < q < n && items[p] == Kept(items, marks, n)[i] && items[q] == Kept(items, marks, n)[j]
    decreases n
  {
    if j < |Kept(items, marks, n - 1)| {
      p, q := KeptInOrder(items, marks, n - 1, i, j);
    } else {
      p := KeptAreMarked(items, marks, n - 1, i);
      q := n - 1;
    }
  }

  /** The clients of a list whose connections are neither closed nor failed. */
  function Living(clients: seq<Client>, views: seq<Viewer>): (alive: seq<Client>)
    requires |clients| == |views|
    ensures |alive| <= |clients|
  {
    Kept(clients, Alive(views), |clients|)
  }

  /** A list without repetition, whose ids the counter has given. */
  ghost predicate Listed(clients: seq<Client>, counter: nat) {
    && AllDifferent(clients)
    && (forall j, k | 0 <= j < k < |clients| :: clients[j].id != clients[k].id)
    && forall k | 0 <= k < |clients| :: clients[k].id <= counter
  }

  lemma KeptAreListed(clients: seq<Client>, marks: seq<bool>, counter: nat)
    requires Listed(clients, counter) && |marks| == |clients|
    ensures Listed(Kept(clients, marks, |clients|), counter)
  {
    var kept := Kept(clients, marks, |clients|);
    forall j, k | 0 <= j < k < |kept| ensures kept[j] != kept[k] && kept[j].id != kept[k].id {
      var p, q := KeptInOrder(clients, marks, |clients|, j, k);
    }
    forall k | 0 <= k < |kept| ensures kept[k].id <= counter {
      var p := KeptAreMarked(clients, marks, |clients|, k);
    }
  }

  /** The views of those who stay. */
  function Stay(views: seq<Viewer>): (stay: seq<Viewer>)
    ensures |stay| <= |views|
  {
    Kept(views, Alive(views), |views|)
  }

  lemma {:induction false} KeptViews(clients: seq<Client>, views: seq<Viewer>, marks: seq<bool>, n: nat)
    requires n <= |clients| == |views| == |marks|
    requires forall k | 0 <= k < n && marks[k] :: clients[k].View() == views[k]
    ensures Views(Kept(clients, marks, n)) == Kept(views, marks, n)
    decreases n
  {
    if n > 0 {
      KeptViews(clients, views, marks, n - 1);
    }
  }

  class Server {
    var clients: seq<Client>
    const maxClients: nat
    const sessionTimeoutS: int
    var counter: nat
    var lastSplash: int

    ghost predicate Valid()
      reads this, clients
    {
      |clients| <= maxClients && Listed(clients, counter)
    }

    constructor (maxClients: nat, sessionTimeoutS: int, now: int)
      ensures Valid() && clients == [] && this.maxClients == maxClients && this.sessionTimeoutS == sessionTimeoutS
    {
      this.maxClients, this.sessionTimeoutS := maxClients, sessionTimeoutS;
      clients, counter, lastSplash := [], 0, now;
    }

    // ----- one entry of the list -----

    method RelayAt(k: nat, now: int, frame: seq<byte>, carries: bool, takes: bool)
      requires k < |clients| && AllDifferent(clients)
      modifies clients[k]
      ensures Views(clients) == old(Views(clients))[k := Relay(old(Views(clients))[k], now, frame, carries, takes)]
    {
      clients[k].RelayFrame(now, frame, carries, takes);
      forall j | 0 <= j < |clients| && j != k ensures clients[j].View() == old(clients[j].View()) {}
    }

    method PingAt(k: nat, now: int, a: Answer)
      requires k < |clients| && AllDifferent(clients)
      modifies clients[k]
      ensures Views(clients) == old(Views(clients))[k := Ping(old(Views(clients))[k], now, sessionTimeoutS, a)]
    {
      clients[k].PingOnce(now, sessionTimeoutS, a);
      forall j | 0 <= j < |clients| && j != k ensures clients[j].View() == old(clients[j].View()) {}
    }

    method SplashAt(k: nat, now: int, takes: bool)
      requires k < |clients| && AllDifferent(clients)
      modifies clients[k]
      ensures Views(clients) == old(Views(clients))[k := SplashPass(old(Views(clients))[k], now, takes)]
    {
      clients[k].SendSplash(now, takes);
      forall j | 0 <= j < |clients| && j != k ensures clients[j].View() == old(clients[j].View()) {}
    }

    method SweepAt(k: nat) returns (keep: bool)
      requires k < |clients| && AllDifferent(clients)
      modifies clients[k]
      ensures keep == (old(Views(clients))[k].peer == Active)
      ensures Views(clients) == old(Views(clients))[k := SweptOne(old(Views(clients))[k])]
    {
      assert clients[k].View() == Views(clients)[k];
      keep := clients[k].peer == Active;
      if clients[k].peer == Failed {
        clients[k].MarkClosed();
      }
      forall j | 0 <= j < |clients| && j != k ensures clients[j].View() == old(clients[j].View()) {}
    }

    // ----- the passes -----

    method AnyClientAwaitsFirstPicture() returns (awaits: bool)
      ensures awaits == exists k | 0 <= k < |clients| :: !clients[k].seenLiveFrame
    {
      for k := 0 to |clients|
        invariant forall j | 0 <= j < k :: clients[j].seenLiveFrame
      {
        if !clients[k].seenLiveFrame {
          return true;
        }
      }
      return false;
    }

    /** The frame is scanned once, if some viewer still waits; each fares as if it were scanned for it alone. */
    method SendFrame(frame: seq<byte>, now: int, takes: seq<bool>)
      requires Valid() && |takes| == |clients|
      modifies clients
      ensures Valid() && Views(clients) == RelayAll(old(Views(clients)), now, frame, takes)
    {
      var awaits := AnyClientAwaitsFirstPicture();
      var carries := false;
      if awaits {
        carries := FrameCarriesKeyframe(frame);
      }
      ghost var was := Views(clients);
      ghost var want := RelayAll(was, now, frame, takes);
      forall k | 0 <= k < |clients| ensures want[k] == Relay(was[k], now, frame, carries, takes[k]) {}
      PassStep(want, was, 0);
      for k := 0 to |clients|
        invariant Views(clients) == Midway(want, was, k)
      {
        RelayAt(k, now, frame, carries, takes[k]);
        PassStep(want, was, k);
      }
    }

    method PingClients(now: int, answers: seq<Answer>)
      requires Valid() && |answers| == |clients|
      modifies clients
      ensures Valid() && Views(clients) == PingAll(old(Views(clients)), now, sessionTimeoutS, answers)
    {
      ghost var was := Views(clients);
      ghost var want := PingAll(was, now, sessionTimeoutS, answers);
      PassStep(want, was, 0);
      for k := 0 to |clients|
        invariant Views(clients) == Midway(want, was, k)
      {
        PingAt(k, now, answers[k]);
        PassStep(want, was, k);
      }
    }

    method DeliverSplashes(now: int, takes: seq<bool>)
      requires Valid() && |takes| == |clients|
      modifies clients
      ensures Valid() && Views(clients) == SplashAll(old(Views(clients)), now, takes)
    {
      ghost var was := Views(clients);
      ghost var want := SplashAll(was, now, takes);
      PassStep(want, was, 0);
      for k := 0 to |clients|
        invariant Views(clients) == Midway(want, was, k)
      {
        SplashAt(k, now, takes[k]);
        PassStep(want, was, k);
      }
    }

    /** `anyTrackOpen` is what `has_clients` found. */
    method MaybeSendSplash(now: int, anyTrackOpen: bool, takes: seq<bool>)
      requires Valid() && |takes| == |clients|
      modifies this`lastSplash, clients
      ensures Valid() && clients == old(clients)
      ensures var due := anyTrackOpen && ElapsedMs(old(lastSplash), now) >= SPLASH_RESEND_MS;
              && lastSplash == (if due then now else old(lastSplash))
              && Views(clients) == if due then SplashAll(old(Views(clients)), now, takes) else old(Views(clients))
    {
      if !anyTrackOpen {
        return;
      }
      if ElapsedMs(lastSplash, now) < SPLASH_RESEND_MS {
        return;
      }
      ghost var was := Views(clients);
      lastSplash := now;
      assert Views(clients) == was;
      DeliverSplashes(now, takes);
    }

    /** One turn of the scan below. */
    method SweepTurn(k: nat, kept: seq<Client>, ghost was: seq<Viewer>) returns (after: seq<Client>)
      requires k < |clients| == |was| && AllDifferent(clients)
      requires Views(clients) == Midway(Swept(was), was, k) && kept == Kept(clients, Alive(was), k)
      modifies clients[k]
      ensures Views(clients) == Midway(Swept(was), was, k + 1) && after == Kept(clients, Alive(was), k + 1)
    {
      var keep := SweepAt(k);
      PassStep(Swept(was), was, k);
      after := if keep then kept + [clients[k]] else kept;
    }

    /** The scan of `remove_if`: who stays, each failed connection being closed on the way. */
    method Sweep() returns (kept: seq<Client>)
      requires AllDifferent(clients)
      modifies clients
      ensures kept == Living(clients, old(Views(clients)))
      ensures Views(clients) == Swept(old(Views(clients)))
    {
      ghost var was := Views(clients);
      PassStep(Swept(was), was, 0);
      kept := [];
      for k := 0 to |clients|
        invariant kept == Kept(clients, Alive(was), k)
        invariant Views(clients) == Midway(Swept(was), was, k)
      {
        kept := SweepTurn(k, kept, was);
      }
    }

    /** Viewers whose connection closed or failed leave the list. */
    method CleanupClients()
      requires Valid()
      modifies this`clients, clients
      ensures Valid()
      ensures clients == Living(old(clients), old(Views(clients))) && Views(clients) == Stay(old(Views(clients)))
      ensures forall c | c in clients :: c in old(clients) && c.View() == old(c.View())
    {
      ghost var all, was := clients, Views(clients);
      var kept := Sweep();
      KeptAreListed(all, Alive(was), counter);
      forall k | 0 <= k < |kept| ensures kept[k] in all && kept[k].View() == old(kept[k].View()) {
        var p := KeptAreMarked(all, Alive(was), |all|, k);
        assert Views(all)[p] == Swept(was)[p] == was[p];
      }
      forall k | 0 <= k < |all| && Alive(was)[k] ensures all[k].View() == was[k] {
        assert Views(all)[k] == Swept(was)[k];
      }
      KeptViews(all, was, Alive(was), |all|);
      clients := kept;
    }

    /** The main loop's pair of passes: a closing viewer whose time has come is closed and removed at once. */
    method PingAndCleanup(now: int, answers: seq<Answer>)
      requires Valid() && |answers| == |clients|
      modifies this`clients, clients
      ensures Valid()
      ensures clients == Living(old(clients), PingAll(old(Views(clients)), now, sessionTimeoutS, answers))
      ensures Views(clients) == Stay(PingAll(old(Views(clients)), now, sessionTimeoutS, answers))
      ensures forall c | c in clients :: c in old(clients)
    {
      PingClients(now, answers);
      CleanupClients();
    }

    method FindClient(id: nat) returns (client: Client?)
      requires Valid()
      ensures client != null ==> client in clients && client.id == id
      ensures client == null ==> forall k | 0 <= k < |clients| :: clients[k].id != id
    {
      for k := 0 to |clients|
        invariant forall j | 0 <= j < k :: clients[j].id != id
      {
        if clients[k].id == id {
          return clients[k];
        }
      }
      return null;
    }

    method CreateClient(now: int, keepAlive: bool) returns (client: Client)
      requires Valid() && |clients| < maxClients
      modifies this`counter, this`clients
      ensures Valid() && fresh(client) && counter == old(counter) + 1
      ensures clients == old(clients) + [client]
      ensures client.View() == NewViewer(counter, now, keepAlive)
    {
      counter := counter + 1;
      client := new Client(counter, now, keepAlive);
      clients := clients + [client];
    }

    /** "request": an offer is made unless the list is full. `described` is whether a description came. */
    method HandleWantOffer(now: int, keepAlive: bool, described: bool) returns (response: Response)
      requires Valid()
      modifies this`counter, this`clients
      ensures Valid()
      ensures if |old(clients)| >= maxClients
              then response == MaxClientsReached && clients == old(clients) && counter == old(counter)
              else
                && counter == old(counter) + 1
                && |clients| == |old(clients)| + 1 && clients[..|old(clients)|] == old(clients)
                && response == if described then OfferFor(counter) else NoDescription
      ensures Views(clients) == if |old(clients)| >= maxClients then old(Views(clients))
                                else old(Views(clients)) + [NewViewer(counter, now, keepAlive)]
    {
      if |clients| >= maxClients {
        return MaxClientsReached;
      }
      var client := CreateClient(now, keepAlive);
      if !described {
        return NoDescription;
      }
      return OfferFor(client.id);
    }

    /** "answer": the waiting candidates follow the remote description. */
    method HandleAnswer(id: Option<nat>, sdpEmpty: bool) returns (response: Response)
      requires Valid()
      modifies clients
      ensures Valid()
      ensures response == MissingField <==> id.None? || sdpEmpty
      ensures response == Accepted <==> id.Some? && !sdpEmpty && exists c | c in clients :: c.id == id.value
      ensures response in {MissingField, ClientNotFound, Accepted}
      ensures forall c | c in clients ::
        c.View() == if response == Accepted && c.id == id.value then TakeAnswer(old(c.View())) else old(c.View())
    {
      if id.None? || sdpEmpty {
        return MissingField;
      }
      var client := FindClient(id.value);
      if client == null {
        return ClientNotFound;
      }
      client.ReceiveAnswer();
      return Accepted;
    }

    /** A viewer that came with its own offer has its remote description from the start. */
    method CreateOffering(now: int, keepAlive: bool) returns (client: Client)
      requires Valid() && |clients| < maxClients
      modifies this`counter, this`clients
      ensures Valid() && fresh(client) && counter == old(counter) + 1 == client.id
      ensures clients == old(clients) + [client]
      ensures client.View() == NewViewer(counter, now, keepAlive).(remoteSet := true, answerReceived := true)
    {
      client := CreateClient(now, keepAlive);
      client.remoteSet := true;
      client.answerReceived := true;
    }

    /** "offer": after a cleanup, a viewer whose own offer is taken is answered unless the list is full. */
    method HandleOffer(now: int, sdpEmpty: bool, keepAlive: bool, described: bool) returns (response: Response)
      requires Valid()
      modifies this`counter, this`clients, clients
      ensures Valid()
      ensures var kept := Living(old(clients), old(Views(clients)));
              if sdpEmpty then response == MissingField && clients == old(clients)
              else if |kept| >= maxClients then response == MaxClientsReached && clients == kept
              else
                && |clients| == |kept| + 1 && clients[..|kept|] == kept
                && response == if described then AnswerFor(counter) else NoDescription
      ensures var stay := Stay(old(Views(clients)));
              if sdpEmpty then counter == old(counter) && Views(clients) == old(Views(clients))
              else if |stay| >= maxClients then counter == old(counter) && Views(clients) == stay
              else
                && counter == old(counter) + 1
                && Views(clients)
                   == stay + [NewViewer(counter, now, keepAlive).(remoteSet := true, answerReceived := true)]
    {
      if sdpEmpty {
        return MissingField;
      }
      CleanupClients();
      if |clients| >= maxClients {
        return MaxClientsReached;
      }
      var client := CreateOffering(now, keepAlive);
      if !described {
        return NoDescription;
      }
      return AnswerFor(client.id);
    }

    /** "remote_candidate": each goes to the connection or waits for the remote description. */
    method HandleCandidates(id: Option<nat>, candidates: seq<string>) returns (response: Response)
      requires Valid()
      modifies clients
      ensures Valid()
      ensures response == MissingField <==> id.None?
      ensures response == Accepted <==> id.Some? && exists c | c in clients :: c.id == id.value
      ensures response in {MissingField, ClientNotFound, Accepted}
      ensures forall c | c in clients ::
        c.View() == if response == Accepted && c.id == id.value then AddCandidates(old(c.View()), candidates)
                    else old(c.View())
    {
      if id.None? {
        return MissingField;
      }
      var client := FindClient(id.value);
      if client == null {
        return ClientNotFound;
      }
      client.ReceiveCandidates(candidates);
      return Accepted;
    }
  }
}
