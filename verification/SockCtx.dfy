/**
 * The fan-out of common/capture-common/sock_ctx.h: eight client slots, each offered every frame whole,
 * and the drop rule of frame_backlog.h. Connections are numbered so that no number is used twice.
 */
module SockCtx {
  import opened Bytes

  const SOCK_MAX_CLIENTS: nat := 8
  const SOCK_IDLE_TIMEOUT_MS: int := 3000
  const SOCK_WRITE_TIMEOUT_MS: int := 100

  datatype Timespec = Timespec(sec: int, nsec: int)

  /** C division, toward zero. */
  function TruncDiv(a: int, b: nat): int
    requires b > 0
  {
    if a >= 0 then a / b else -((-a) / b)
  }

  function ElapsedMs(since: Timespec, now: Timespec): int {
    (now.sec - since.sec) * 1000 + TruncDiv(now.nsec - since.nsec, 1000000)
  }

  /** `reader_cannot_take_whole_frame`. */
  predicate CannotTakeWholeFrame(unsentBytes: nat, capacityBytes: nat, offeredBytes: nat) {
    if offeredBytes > capacityBytes then unsentBytes > 0 else unsentBytes >= offeredBytes
  }

  // ----- one frame to one client -----

  /** What `send` answers: bytes taken, no room (and the clock then), or an error. */
  datatype SendTurn = Took(n: nat) | WouldBlock(now: Timespec) | Failed

  datatype SendResult = SentWhole | TimedOut | SendFailed

  /**
   * How many bytes of `size` leave in a row of send calls, and how it ends. Running out of answers
   * stands for a reader that takes nothing more until the timeout.
   */
  function Transfer(size: nat, start: Timespec, turns: seq<SendTurn>): (r: (nat, SendResult))
    ensures r.0 <= size
    ensures r.1 == SentWhole ==> r.0 == size
    ensures r.1 != SentWhole ==> r.0 < size
    decreases |turns|
  {
    if size == 0 then (0, SentWhole)
    else if turns == [] then (0, TimedOut)
    else match turns[0]
      case Failed => (0, SendFailed)
      case WouldBlock(now) =>
        if ElapsedMs(start, now) >= SOCK_WRITE_TIMEOUT_MS then (0, TimedOut)
        else Transfer(size, start, turns[1..])
      case Took(n) =>
        var written := if n <= size then n else size;
        var (more, end) := Transfer(size - written, start, turns[1..]);
        (written + more, end)
  }

  /** `sock_write_client_fd`: `sent` is what went out on the connection. */
  method WriteClient(data: seq<byte>, start: Timespec, turns: seq<SendTurn>)
    returns (result: SendResult, sent: seq<byte>)
    ensures sent == data[..Transfer(|data|, start, turns).0]
    ensures result == Transfer(|data|, start, turns).1
  {
    sent := [];
    var ptr: nat := 0;
    var k: nat := 0;
    while ptr < |data|
      invariant ptr <= |data| && k <= |turns|
      invariant sent == data[..ptr]
      invariant Transfer(|data|, start, turns)
             == (ptr + Transfer(|data| - ptr, start, turns[k..]).0, Transfer(|data| - ptr, start, turns[k..]).1)
      decreases |turns| - k
    {
      if k == |turns| {
        return TimedOut, sent;
      }
      var turn := turns[k];
      assert turns[k..][1..] == turns[k + 1..];
      k := k + 1;
      match turn
      case Failed =>
        return SendFailed, sent;
      case WouldBlock(now) =>
        if ElapsedMs(start, now) >= SOCK_WRITE_TIMEOUT_MS {
          return TimedOut, sent;
        }
      case Took(n) =>
        var written := if n <= |data| - ptr then n else |data| - ptr;
        sent := sent + data[ptr..ptr + written];
        ptr := ptr + written;
    }
    assert data[..ptr] == data;
    return SentWhole, sent;
  }

  // ----- the slots and their connections -----

  /** One slot of the table; a negative descriptor means it is free. */
  datatype Client = Client(fd: int, lastTime: Timespec, numFrames: nat, numDropped: nat)

  /**
   * The history of one connection: how many frames had been offered when it joined, which ones it was
   * sent whole since, and every byte sent.
   */
  datatype Wire = Wire(joined: nat, picks: seq<nat>, bytes: seq<byte>)

  /** The table, the history of each slot's connection, of those hung up on, and the frames offered. */
  datatype Hub = Hub(
    listening: bool, clients: seq<Client>, numClients: int, oneFrame: bool, needKeyframe: bool, allowDrops: bool,
    wires: seq<Wire>, ended: seq<Wire>, offered: seq<seq<byte>>)

  predicate Shaped(h: Hub) {
    |h.clients| == |h.wires| == SOCK_MAX_CLIENTS
  }

  function CloseSlot(h: Hub, i: nat): Hub
    requires Shaped(h) && i < SOCK_MAX_CLIENTS
  {
    h.(clients := h.clients[i := h.clients[i].(fd := -1)], numClients := h.numClients - 1,
       ended := h.ended + [h.wires[i]])
  }

  /** The first free slot at or after `i`. */
  function FreeSlot(clients: seq<Client>, i: nat): (slot: Option<nat>)
    ensures slot.Some? ==> i <= slot.value < |clients| && clients[slot.value].fd < 0
    ensures slot.None? ==> forall k | i <= k < |clients| :: clients[k].fd >= 0
    decreases |clients| - i
  {
    if i >= |clients| then None else if clients[i].fd < 0 then Some(i) else FreeSlot(clients, i + 1)
  }

  /** A connection waiting to be accepted, and the clock when it is. */
  datatype Pending = Pending(fd: nat, at: Timespec)

  /** One turn of the accept loop: into the first free slot, or closed when there is none. */
  function Admit(h: Hub, p: Pending): Hub
    requires Shaped(h)
  {
    match FreeSlot(h.clients, 0)
    case None => h
    case Some(slot) =>
      h.(clients := h.clients[slot := Client(p.fd, p.at, 0, 0)], numClients := h.numClients + 1, needKeyframe := true,
         wires := h.wires[slot := Wire(|h.offered|, [], [])])
  }

  function AdmitAll(h: Hub, pending: seq<Pending>): Hub
    requires Shaped(h)
    decreases |pending|
  {
    if pending == [] then h else AdmitAll(Admit(h, pending[0]), pending[1..])
  }

  /** What the kernel says of one client while a frame is offered to it. */
  datatype Answer = Answer(unsentBytes: nat, capacityBytes: nat, start: Timespec, turns: seq<SendTurn>)

  /** The frame, the last of `h.offered`, is written to slot `i`. */
  function Deliver(h: Hub, i: nat, now: Timespec, a: Answer): Hub
    requires Shaped(h) && i < SOCK_MAX_CLIENTS && h.offered != []
  {
    var client, wire := h.clients[i], h.wires[i];
    var last := |h.offered| - 1;
    var frame := h.offered[last];
    var (sent, result) := Transfer(|frame|, a.start, a.turns);
    var onWire := wire.(bytes := wire.bytes + frame[..sent]);
    if result != SentWhole then CloseSlot(h.(wires := h.wires[i := onWire]), i)
    else
      var served := h.(clients := h.clients[i := client.(lastTime := now, numFrames := client.numFrames + 1)],
                       wires := h.wires[i := onWire.(picks := wire.picks + [last])]);
      if h.oneFrame then CloseSlot(served, i) else served
  }

  /** One slot's share of `sock_write_cb`: idle ones are closed, slow ones skipped, the rest written to. */
  function Serve(h: Hub, i: nat, now: Timespec, a: Answer): Hub
    requires Shaped(h) && i < SOCK_MAX_CLIENTS && h.offered != []
  {
    var client := h.clients[i];
    if client.fd < 0 then h
    else if ElapsedMs(client.lastTime, now) >= SOCK_IDLE_TIMEOUT_MS then CloseSlot(h, i)
    else if h.allowDrops && CannotTakeWholeFrame(a.unsentBytes, a.capacityBytes, |h.offered[|h.offered| - 1]|) then
      h.(clients := h.clients[i := client.(numDropped := client.numDropped + 1)])
    else Deliver(h, i, now, a)
  }

  function ServeFrom(h: Hub, i: nat, now: Timespec, answers: seq<Answer>): Hub
    requires Shaped(h) && i <= SOCK_MAX_CLIENTS && h.offered != [] && |answers| == SOCK_MAX_CLIENTS
    decreases SOCK_MAX_CLIENTS - i
  {
    if i == SOCK_MAX_CLIENTS then h else ServeFrom(Serve(h, i, now, answers[i]), i + 1, now, answers)
  }

  /** `sock_write_cb`. */
  function Write(h: Hub, frame: seq<byte>, now: Timespec, answers: seq<Answer>): Hub
    requires Shaped(h) && |answers| == SOCK_MAX_CLIENTS
  {
    ServeFrom(h.(offered := h.offered + [frame]), 0, now, answers)
  }

  function HangUp(h: Hub, i: nat): Hub
    requires Shaped(h) && i < SOCK_MAX_CLIENTS
  {
    if h.clients[i].fd < 0 then h
    else h.(clients := h.clients[i := h.clients[i].(fd := -1)], ended := h.ended + [h.wires[i]])
  }

  /** `sock_close`, with the last `left` slots still to go through; the whole of it when `left` is all of them. */
  function CloseLast(h: Hub, left: nat): Hub
    requires Shaped(h) && left <= SOCK_MAX_CLIENTS
    decreases left
  {
    if left == 0 then h.(numClients := 0, listening := false)
    else CloseLast(HangUp(h, SOCK_MAX_CLIENTS - left), left - 1)
  }

  // ----- the count -----

  function Occupied(clients: seq<Client>): nat {
    if clients == [] then 0 else (if clients[0].fd >= 0 then 1 else 0) + Occupied(clients[1..])
  }

  lemma {:induction false} OccupiedUpdate(clients: seq<Client>, i: nat, c: Client)
    requires i < |clients|
    ensures Occupied(clients[i := c])
         == Occupied(clients) - (if clients[i].fd >= 0 then 1 else 0) + if c.fd >= 0 then 1 else 0
    ensures clients[i].fd >= 0 ==> Occupied(clients) > 0
  {
    if i == 0 {
      assert clients[i := c][1..] == clients[1..];
    } else {
      OccupiedUpdate(clients[1..], i - 1, c);
      assert clients[i := c][1..] == clients[1..][i - 1 := c];
    }
  }

  lemma {:induction false} OccupiedAtMost(clients: seq<Client>)
    ensures Occupied(clients) <= |clients|
  {
    if clients != [] {
      OccupiedAtMost(clients[1..]);
    }
  }

  /** The counter is the number of occupied slots. */
  predicate Counted(h: Hub) {
    Shaped(h) && h.numClients == Occupied(h.clients)
  }

  lemma CloseKeepsCount(h: Hub, i: nat)
    requires Counted(h) && i < SOCK_MAX_CLIENTS && h.clients[i].fd >= 0
    ensures h.numClients > 0 && Counted(CloseSlot(h, i))
  {
    OccupiedUpdate(h.clients, i, h.clients[i].(fd := -1));
  }

  lemma UpdateKeepsCount(h: Hub, i: nat, c: Client, wires: seq<Wire>)
    requires Counted(h) && i < SOCK_MAX_CLIENTS && h.clients[i].fd >= 0 && c.fd >= 0 && |wires| == SOCK_MAX_CLIENTS
    ensures Counted(h.(clients := h.clients[i := c], wires := wires))
  {
    OccupiedUpdate(h.clients, i, c);
  }

  lemma DeliverKeepsCount(h: Hub, i: nat, now: Timespec, a: Answer)
    requires Counted(h) && i < SOCK_MAX_CLIENTS && h.offered != [] && h.clients[i].fd >= 0
    ensures Counted(Deliver(h, i, now, a))
  {
    var client, wire := h.clients[i], h.wires[i];
    var frame := h.offered[|h.offered| - 1];
    var (sent, result) := Transfer(|frame|, a.start, a.turns);
    var onWire := wire.(bytes := wire.bytes + frame[..sent]);
    if result != SentWhole {
      CloseKeepsCount(h.(wires := h.wires[i := onWire]), i);
    } else {
      var busy := client.(lastTime := now, numFrames := client.numFrames + 1);
      var wires := h.wires[i := onWire.(picks := wire.picks + [|h.offered| - 1])];
      UpdateKeepsCount(h, i, busy, wires);
      CloseKeepsCount(h.(clients := h.clients[i := busy], wires := wires), i);
    }
  }

  lemma ServeKeepsCount(h: Hub, i: nat, now: Timespec, a: Answer)
    requires Counted(h) && i < SOCK_MAX_CLIENTS && h.offered != []
    ensures Counted(Serve(h, i, now, a)) && Serve(h, i, now, a).offered == h.offered
  {
    var c := h.clients[i];
    if c.fd >= 0 {
      CloseKeepsCount(h, i);
      UpdateKeepsCount(h, i, c.(numDropped := c.numDropped + 1), h.wires);
      DeliverKeepsCount(h, i, now, a);
    }
  }

  lemma AdmitKeepsCount(h: Hub, p: Pending)
    requires Counted(h)
    ensures Counted(Admit(h, p))
  {
    var slot := FreeSlot(h.clients, 0);
    if slot.Some? {
      OccupiedUpdate(h.clients, slot.value, Client(p.fd, p.at, 0, 0));
    }
  }

  class Context {
    var listenFd: int
    const clients: array<Client>
    var numClients: int
    var oneFrame: bool
    var needKeyframe: bool
    var allowDrops: bool
    ghost var wires: seq<Wire>
    ghost var ended: seq<Wire>
    ghost var offered: seq<seq<byte>>

    ghost predicate Valid()
      reads this, clients
    {
      clients.Length == SOCK_MAX_CLIENTS && |wires| == SOCK_MAX_CLIENTS && Counted(View())
    }

    ghost function View(): Hub
      reads this, clients
    {
      Hub(listenFd >= 0, clients[..], numClients, oneFrame, needKeyframe, allowDrops, wires, ended, offered)
    }

    /** `sock_open`; a negative descriptor says that socket, bind or listen failed. */
    constructor (listenFd: int, oneFrame: bool, allowDrops: bool)
      ensures Valid() && fresh(clients)
      ensures View().listening == (listenFd >= 0) && numClients == 0 && ended == [] && offered == []
      ensures this.oneFrame == oneFrame && this.allowDrops == allowDrops
      ensures forall i | 0 <= i < SOCK_MAX_CLIENTS :: clients[i].fd == -1
    {
      this.listenFd := listenFd;
      this.oneFrame, needKeyframe, this.allowDrops := oneFrame, false, allowDrops;
      clients := new Client[SOCK_MAX_CLIENTS](_ => Client(-1, Timespec(0, 0), 0, 0));
      numClients := 0;
      wires := seq(SOCK_MAX_CLIENTS, _ => Wire(0, [], []));
      ended, offered := [], [];
      new;
      NoneOccupied(clients[..]);
    }

    static lemma {:induction false} NoneOccupied(clients: seq<Client>)
      requires forall i | 0 <= i < |clients| :: clients[i].fd < 0
      ensures Occupied(clients) == 0
    {
      if clients != [] {
        NoneOccupied(clients[1..]);
      }
    }

    /** The three assertions of `sock_close_client` are its preconditions; every caller meets them. */
    method CloseClient(i: nat)
      requires clients.Length == SOCK_MAX_CLIENTS && |wires| == SOCK_MAX_CLIENTS
      requires i < SOCK_MAX_CLIENTS && clients[i].fd >= 0 && numClients > 0
      modifies this`numClients, this`ended, clients
      ensures |wires| == SOCK_MAX_CLIENTS && View() == CloseSlot(old(View()), i)
    {
      ended := ended + [wires[i]];
      clients[i] := clients[i].(fd := -1);
      numClients := numClients - 1;
    }

    /** `pending` are the connections accept hands out before it has no more. */
    method AcceptClients(pending: seq<Pending>) returns (accepted: bool)
      requires Valid()
      modifies this, clients
      ensures Valid()
      ensures View() == if old(listenFd) >= 0 then AdmitAll(old(View()), pending) else old(View())
      ensures accepted == (numClients > old(numClients))
    {
      if listenFd < 0 {
        return false;
      }
      accepted := false;
      var k := 0;
      while k < |pending|
        invariant k <= |pending| && Valid() && listenFd == old(listenFd)
        invariant AdmitAll(View(), pending[k..]) == AdmitAll(old(View()), pending)
        invariant numClients >= old(numClients) && accepted == (numClients > old(numClients))
        decreases |pending| - k
      {
        var p := pending[k];
        assert pending[k..][1..] == pending[k + 1..];
        ghost var before := View();
        AdmitKeepsCount(before, p);
        var slot := FirstFree();
        if slot.Some? {
          clients[slot.value] := Client(p.fd, p.at, 0, 0);
          numClients := numClients + 1;
          needKeyframe := true;
          accepted := true;
          wires := wires[slot.value := Wire(|offered|, [], [])];
        }
        assert View() == Admit(before, p);
        k := k + 1;
      }
    }

    /** The inner loop of accepting: the first slot whose descriptor is negative. */
    method FirstFree() returns (slot: Option<nat>)
      requires clients.Length == SOCK_MAX_CLIENTS
      ensures slot == FreeSlot(clients[..], 0)
    {
      var i := 0;
      while i < SOCK_MAX_CLIENTS
        invariant i <= SOCK_MAX_CLIENTS
        invariant FreeSlot(clients[..], 0) == FreeSlot(clients[..], i)
      {
        if clients[i].fd < 0 {
          return Some(i);
        }
        i := i + 1;
      }
      return None;
    }

    /** The write to one client, and what follows from how it ended. */
    method DeliverTo(i: nat, frame: seq<byte>, now: Timespec, a: Answer)
      requires Valid() && i < SOCK_MAX_CLIENTS && clients[i].fd >= 0
      requires offered != [] && offered[|offered| - 1] == frame
      modifies this`numClients, this`wires, this`ended, clients
      ensures |wires| == SOCK_MAX_CLIENTS && View() == Deliver(old(View()), i, now, a)
    {
      var client := clients[i];
      CloseKeepsCount(View(), i);
      var result, sent := WriteClient(frame, a.start, a.turns);
      wires := wires[i := wires[i].(bytes := wires[i].bytes + sent)];
      if result != SentWhole {
        CloseClient(i);
        return;
      }
      clients[i] := client.(lastTime := now, numFrames := client.numFrames + 1);
      wires := wires[i := wires[i].(picks := wires[i].picks + [|offered| - 1])];
      if oneFrame {
        CloseClient(i);
      }
    }

    /** One client's share of the loop below. */
    method ServeClient(i: nat, frame: seq<byte>, now: Timespec, a: Answer)
      requires Valid() && i < SOCK_MAX_CLIENTS
      requires offered != [] && offered[|offered| - 1] == frame
      modifies this`numClients, this`wires, this`ended, clients
      ensures Valid() && View() == Serve(old(View()), i, now, a)
    {
      ServeKeepsCount(View(), i, now, a);
      var client := clients[i];
      if client.fd < 0 {
        return;
      }
      CloseKeepsCount(View(), i);
      if ElapsedMs(client.lastTime, now) >= SOCK_IDLE_TIMEOUT_MS {
        CloseClient(i);
        return;
      }
      if allowDrops && CannotTakeWholeFrame(a.unsentBytes, a.capacityBytes, |frame|) {
        clients[i] := client.(numDropped := client.numDropped + 1);
        return;
      }
      DeliverTo(i, frame, now, a);
    }

    method WriteFrame(frame: seq<byte>, now: Timespec, answers: seq<Answer>)
      requires Valid() && |answers| == SOCK_MAX_CLIENTS
      modifies this, clients
      ensures Valid()
      ensures View() == Write(old(View()), frame, now, answers)
    {
      offered := offered + [frame];
      ghost var begun := View();
      var i := 0;
      while i < SOCK_MAX_CLIENTS
        invariant i <= SOCK_MAX_CLIENTS && Valid()
        invariant offered == begun.offered
        invariant ServeFrom(View(), i, now, answers) == ServeFrom(begun, 0, now, answers)
      {
        ServeKeepsCount(View(), i, now, answers[i]);
        ServeClient(i, frame, now, answers[i]);
        i := i + 1;
      }
    }

    method HangUpOn(i: nat)
      requires clients.Length == |wires| == SOCK_MAX_CLIENTS && i < SOCK_MAX_CLIENTS
      modifies this`ended, clients
      ensures |wires| == SOCK_MAX_CLIENTS && View() == HangUp(old(View()), i)
      ensures clients[i].fd < 0 && forall k | 0 <= k < SOCK_MAX_CLIENTS && k != i :: clients[k] == old(clients[k])
    {
      if clients[i].fd >= 0 {
        ended := ended + [wires[i]];
        clients[i] := clients[i].(fd := -1);
      }
    }

    /** The loop of `sock_close`. */
    method HangUpAll()
      requires clients.Length == |wires| == SOCK_MAX_CLIENTS
      modifies this`ended, clients
      ensures |wires| == SOCK_MAX_CLIENTS && forall k | 0 <= k < SOCK_MAX_CLIENTS :: clients[k].fd < 0
      ensures CloseLast(View(), 0) == CloseLast(old(View()), |old(View()).clients|)
    {
      ghost var end := CloseLast(View(), |View().clients|);
      var i := 0;
      while i < SOCK_MAX_CLIENTS
        modifies this`ended, clients
        invariant i <= SOCK_MAX_CLIENTS && |wires| == SOCK_MAX_CLIENTS
        invariant forall k | 0 <= k < i :: clients[k].fd < 0
        invariant CloseLast(View(), SOCK_MAX_CLIENTS - i) == end
      {
        HangUpOn(i);
        i := i + 1;
      }
    }

    method Close()
      requires Valid()
      modifies this, clients
      ensures Valid()
      ensures View() == CloseLast(old(View()), |old(View()).clients|)
    {
      HangUpAll();
      NoneOccupied(clients[..]);
      numClients := 0;
      if listenFd >= 0 {
        listenFd := -1;
      }
    }
  }
}
