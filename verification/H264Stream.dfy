/**
 * The rolling receive buffer of common/stream-common/h264_stream.h: one connection to the capture
 * socket, whose bytes are split into frames as they arrive.
 */
module H264Stream {
  import opened Bytes
  import opened H264Frames

  const MIN_FRAME_SIZE: nat := 64 * 1024
  const MAX_FRAME_SIZE: nat := 2 * 1024 * 1024

  /** What `read` may answer. */
  datatype ReadAnswer = Chunk(bytes: seq<byte>) | PeerClosed | Failed

  /**
   * The stream with its history: `held` is buf[0..size), `room` the vector's size, `gone` the bytes
   * received on this connection and since let go of, `offered` every frame handed to the callback.
   */
  datatype Connection = Connection(
    open: bool, held: seq<byte>, room: nat, gone: seq<byte>, offered: seq<seq<byte>>)
  {
    /** Every byte read since the connection opened. */
    function Received(): seq<byte> {
      gone + held
    }
  }

  const FRESH: Connection := Connection(true, [], 0, [], [])
  const SHUT: Connection := Connection(false, [], 0, [], [])

  /** The resize or reset that precedes a read. */
  function Prepare(c: Connection): Connection {
    if |c.held| >= MAX_FRAME_SIZE then c.(held := [], gone := c.gone + c.held)
    else if |c.held| + MIN_FRAME_SIZE / 2 > c.room then c.(room := |c.held| + MIN_FRAME_SIZE)
    else c
  }

  /** How many bytes the next read asks for. */
  function Request(c: Connection): int {
    Prepare(c).room - |Prepare(c).held|
  }

  predicate Answers(c: Connection, answer: ReadAnswer) {
    answer.Chunk? ==> 0 < |answer.bytes| <= Request(c)
  }

  /** What is kept of `held`: the tail the splitter returned or, after a null return, everything. */
  function Settle(c: Connection, held: seq<byte>, split: Splitting): Connection
    requires split.rest.Some? ==> split.rest.value <= |held|
  {
    var heard := c.(offered := c.offered + split.frames);
    match split.rest
    case None => heard.(held := held)
    case Some(r) =>
      var room := if c.room > MIN_FRAME_SIZE then |held| - r + MIN_FRAME_SIZE else c.room;
      heard.(held := held[r..], gone := c.gone + held[..r], room := room)
  }

  /** Splitting what is held once `bytes` have arrived. */
  function Absorb(c: Connection, bytes: seq<byte>): Connection {
    Settle(c, c.held + bytes, Split(c.held + bytes, 0))
  }

  /** One call of `h264_stream_process`. */
  function Receive(c: Connection, answer: ReadAnswer): Connection {
    if !c.open then c
    else match answer
      case Chunk(bytes) => Absorb(Prepare(c), bytes)
      case _ => Prepare(c).(open := false)
  }

  /** std::vector::resize. */
  function Resize(v: seq<byte>, n: nat): (r: seq<byte>)
    ensures |r| == n
    ensures forall i | 0 <= i < |v| && i < n :: r[i] == v[i]
  {
    if n <= |v| then v[..n] else v + seq(n - |v|, _ => 0)
  }

  class Stream {
    var fd: int
    var buf: seq<byte>
    var size: nat
    ghost var gone: seq<byte>
    ghost var offered: seq<seq<byte>>

    ghost predicate Valid()
      reads this
    {
      size <= |buf|
    }

    ghost function View(): Connection
      reads this
      requires Valid()
    {
      Connection(fd >= 0, buf[..size], |buf|, gone, offered)
    }

    constructor ()
      ensures Valid() && View() == SHUT && fd == -1
    {
      fd, buf, size := -1, [], 0;
      gone, offered := [], [];
    }

    /** `socketFd` and `connected` are what socket() and connect() answered. */
    method Open(socketFd: int, connected: bool) returns (ok: bool)
      requires Valid()
      modifies this
      ensures Valid()
      ensures ok == (old(fd) < 0 && socketFd >= 0 && connected)
      ensures if old(fd) >= 0 then View() == old(View()) && fd == old(fd)
              else if ok then View() == FRESH && fd == socketFd
              else View() == SHUT
    {
      if fd >= 0 {
        return false;
      }
      size := 0;
      buf := Resize(buf, 0);
      gone, offered := [], [];
      fd := socketFd;
      if fd < 0 {
        return false;
      }
      if !connected {
        fd := -1;
        return false;
      }
      return true;
    }

    method Close() returns (ok: bool)
      requires Valid()
      modifies this
      ensures Valid()
      ensures ok == (old(fd) >= 0)
      ensures View() == if ok then SHUT else old(View())
    {
      if fd < 0 {
        return false;
      }
      fd := -1;
      buf := [];
      size := 0;
      gone, offered := [], [];
      return true;
    }

    /** What follows a position in the buffer moves to its front, as memmove and resize leave it. */
    method Keep(rest: nat)
      requires Valid() && rest <= size
      modifies this`buf, this`size, this`gone
      ensures Valid() && gone == old(gone + buf[..rest])
      ensures size == old(size) - rest && buf[..size] == old(buf[rest..size])
      ensures |buf| == if old(|buf|) > MIN_FRAME_SIZE then size + MIN_FRAME_SIZE else old(|buf|)
    {
      gone := gone + buf[..rest];
      var remaining := size - rest;
      if remaining > 0 {
        buf := buf[rest..size] + buf[remaining..];
      }
      assert buf[..remaining] == old(buf[rest..size]);
      size := remaining;
      if |buf| > MIN_FRAME_SIZE {
        buf := Resize(buf, remaining + MIN_FRAME_SIZE);
      }
      assert buf[..size] == old(buf[rest..size]);
    }

    /** Make room for a read, or start over when a whole frame's worth is held. */
    method MakeRoom()
      requires Valid()
      modifies this`buf, this`size, this`gone
      ensures Valid() && View() == Prepare(old(View()))
    {
      if size >= MAX_FRAME_SIZE {
        gone := gone + buf[..size];
        size := 0;
      } else if size + MIN_FRAME_SIZE / 2 > |buf| {
        ghost var held := buf[..size];
        buf := Resize(buf, size + MIN_FRAME_SIZE);
        assert buf[..size] == held;
      }
    }

    /** `answer` is what the read of Request(View()) bytes brought. */
    method Process(answer: ReadAnswer) returns (result: int, frames: seq<seq<byte>>)
      requires Valid() && Answers(View(), answer)
      modifies this
      ensures Valid()
      ensures View() == Receive(old(View()), answer)
      ensures View().offered == old(View()).offered + frames
      ensures result == -1 <==> old(fd) < 0 || !answer.Chunk?
      ensures result >= 0 ==> result + size == |Prepare(old(View())).held| + |answer.bytes|
    {
      frames := [];
      if fd < 0 {
        return -1, frames;
      }
      MakeRoom();
      if !answer.Chunk? {
        fd := -1;
        return -1, frames;
      }
      ghost var prepared := View();
      var n := |answer.bytes|;
      buf := buf[..size] + answer.bytes + buf[size + n..];
      size := size + n;
      assert buf[..size] == prepared.held + answer.bytes;

      var rest: Option<nat>;
      frames, rest := ProcessFrames(buf[..size]);
      offered := offered + frames;
      if rest.None? {
        return 0, frames;
      }
      ghost var held := buf[..size];
      assert buf[..rest.value] == held[..rest.value] && buf[rest.value..size] == held[rest.value..];
      Keep(rest.value);
      return rest.value, frames;
    }
  }
}
