/**
 * The access-unit splitter of common/stream-common/h264_frames.h.
 * A buffer is the bytes between `data` and `end`; a position is an index into it.
 */
module H264Frames {
  import opened Bytes

  /** The 4-byte start code, followed by at least the NAL header byte. */
  predicate CodeAt(buf: seq<byte>, i: nat) {
    i + 4 < |buf| && buf[i] == 0 && buf[i + 1] == 0 && buf[i + 2] == 0 && buf[i + 3] == 1
  }

  /** The least position at or after `from` that holds a start code. */
  function NextCode(buf: seq<byte>, from: nat): (at: Option<nat>)
    ensures at.Some? ==> from <= at.value && at.value + 4 < |buf|
    decreases |buf| - from
  {
    if from + 4 >= |buf| then None
    else if CodeAt(buf, from) then Some(from)
    else NextCode(buf, from + 1)
  }

  lemma {:induction false} NextCodeIsLeast(buf: seq<byte>, from: nat)
    ensures var at := NextCode(buf, from);
            && (at.None? ==> forall i: nat | from <= i :: !CodeAt(buf, i))
            && (at.Some? ==> CodeAt(buf, at.value))
            && (at.Some? ==> forall i | from <= i < at.value :: !CodeAt(buf, i))
    decreases |buf| - from
  {
    if from + 4 < |buf| && !CodeAt(buf, from) {
      NextCodeIsLeast(buf, from + 1);
    }
  }

  predicate IsSliceType(nalType: byte) {
    nalType == 1 || nalType == 5
  }

  predicate IsNewFrame(nal: seq<byte>) {
    && |nal| >= 5
    && IsSliceType(LowFiveBits(nal[4]))
    && (|nal| < 6 || TopBitSet(nal[5]))
  }

  predicate IsAudFrame(nal: seq<byte>) {
    |nal| == 6 && LowFiveBits(nal[4]) == 9 && TopBitSet(nal[5])
  }

  predicate NewFrameAt(buf: seq<byte>, i: nat) {
    CodeAt(buf, i) && IsNewFrame(buf[i..])
  }

  /** A first slice lies strictly between the two positions. */
  predicate FirstSliceBetween(buf: seq<byte>, start: nat, end: nat)
    decreases end
  {
    start + 1 < end && (NewFrameAt(buf, end - 1) || FirstSliceBetween(buf, start, end - 1))
  }

  lemma {:induction false} FirstSliceBetweenExists(buf: seq<byte>, start: nat, end: nat)
    ensures FirstSliceBetween(buf, start, end) <==> exists i :: start < i < end && NewFrameAt(buf, i)
    decreases end
  {
    if start + 1 < end {
      FirstSliceBetweenExists(buf, start, end - 1);
      assert NewFrameAt(buf, end - 1) ==> start < end - 1 < end;
    }
  }

  /** `next` closes the frame that opened at `start`. */
  predicate EndsFrame(buf: seq<byte>, start: nat, next: nat) {
    && CodeAt(buf, next)
    && (IsAudFrame(buf[next..]) || (IsNewFrame(buf[next..]) && FirstSliceBetween(buf, start, next)))
  }

  /** The least position at or after `from` that closes the frame opened at `start`. */
  function NextBoundary(buf: seq<byte>, start: nat, from: nat): (next: Option<nat>)
    ensures next.Some? ==> from <= next.value && next.value + 4 < |buf|
    decreases |buf| - from
  {
    if from + 4 >= |buf| then None
    else if EndsFrame(buf, start, from) then Some(from)
    else NextBoundary(buf, start, from + 1)
  }

  lemma {:induction false} NextBoundaryIsLeast(buf: seq<byte>, start: nat, from: nat)
    ensures var next := NextBoundary(buf, start, from);
            && (next.None? ==> forall i: nat | from <= i :: !EndsFrame(buf, start, i))
            && (next.Some? ==> EndsFrame(buf, start, next.value))
            && (next.Some? ==> forall i | from <= i < next.value :: !EndsFrame(buf, start, i))
    decreases |buf| - from
  {
    if from + 4 < |buf| && !EndsFrame(buf, start, from) {
      NextBoundaryIsLeast(buf, start, from + 1);
    }
  }

  /** The frames handed to the callback, and the position returned (None for the null pointer). */
  datatype Splitting = Splitting(frames: seq<seq<byte>>, rest: Option<nat>)

  /** What `h264_process_frames` does from position `data` on. */
  function Split(buf: seq<byte>, data: nat): (s: Splitting)
    requires data <= |buf|
    ensures s.rest.Some? ==> data <= s.rest.value <= |buf| < s.rest.value + 8
    decreases |buf| - data
  {
    if |buf| - data < 8 then Splitting([], Some(data))
    else match NextCode(buf, data)
      case None => Splitting([], Some(|buf| - 4))
      case Some(start) =>
        match NextBoundary(buf, start, start + 1)
        case None => Splitting([], None)
        case Some(next) =>
          var tail := Split(buf, next);
          Splitting([buf[start..next]] + tail.frames, tail.rest)
  }

  // ----- the loops -----

  method FindNal(buf: seq<byte>, from: nat) returns (at: Option<nat>)
    requires from <= |buf|
    ensures at == NextCode(buf, from)
  {
    NextCodeIsLeast(buf, from);
    var i := from;
    while i + 3 < |buf|
      invariant from <= i
      invariant forall k | from <= k < i :: !CodeAt(buf, k)
    {
      if buf[i] == 0 && buf[i + 1] == 0 && buf[i + 2] == 0 && buf[i + 3] == 1 && |buf| - i > 4 {
        assert CodeAt(buf, i);
        return Some(i);
      }
      i := i + 1;
    }
    return None;
  }

  /** Start codes cannot overlap, so a scan may step over the four bytes of the one it stands on. */
  lemma CodesDoNotOverlap(buf: seq<byte>, first: nat, second: nat)
    requires CodeAt(buf, first) && CodeAt(buf, second) && first < second
    ensures first + 4 <= second
  {
  }

  /** The inner loop: walk the NALs after `start`, remembering whether a first slice was seen. */
  method FindFrameEnd(buf: seq<byte>, start: nat) returns (end: Option<nat>)
    requires CodeAt(buf, start)
    ensures end == NextBoundary(buf, start, start + 1)
  {
    NextBoundaryIsLeast(buf, start, start + 1);
    var next := start;
    var foundSlice := false;
    while true
      invariant start <= next && CodeAt(buf, next)
      invariant foundSlice <==> FirstSliceBetween(buf, start, next + 1)
      invariant forall i | start < i <= next :: !EndsFrame(buf, start, i)
      decreases |buf| - next
    {
      var found := FindNal(buf, next + 4);
      NextCodeIsLeast(buf, next + 4);
      forall i | next < i < next + 4 ensures !CodeAt(buf, i) {
        if CodeAt(buf, i) { CodesDoNotOverlap(buf, next, i); }
      }
      if found.None? {
        return None;
      }
      var here := found.value;
      FirstSliceBetweenExists(buf, start, next + 1);
      FirstSliceBetweenExists(buf, start, here);
      if IsAudFrame(buf[here..]) {
        assert EndsFrame(buf, start, here);
        return found;
      } else if IsNewFrame(buf[here..]) {
        if foundSlice {
          assert EndsFrame(buf, start, here);
          return found;
        }
        foundSlice := true;
      }
      next := here;
    }
  }

  /** One turn of the outer loop: the frame found moves from what is left to split to what was handed over. */
  lemma TakeFrame(buf: seq<byte>, done: seq<seq<byte>>, data: nat, start: nat, next: nat)
    requires data + 8 <= |buf|
    requires NextCode(buf, data) == Some(start) && NextBoundary(buf, start, start + 1) == Some(next)
    ensures start < next <= |buf|
    ensures Split(buf, data).rest == Split(buf, next).rest
    ensures done + Split(buf, data).frames == (done + [buf[start..next]]) + Split(buf, next).frames
  {
    Regroup(done, [buf[start..next]], Split(buf, next).frames);
  }

  method ProcessFrames(buf: seq<byte>) returns (frames: seq<seq<byte>>, rest: Option<nat>)
    ensures Splitting(frames, rest) == Split(buf, 0)
  {
    frames := [];
    var data := 0;
    while |buf| - data >= 8
      invariant data <= |buf|
      invariant Split(buf, 0) == Splitting(frames + Split(buf, data).frames, Split(buf, data).rest)
      decreases |buf| - data
    {
      var start := FindNal(buf, data);
      if start.None? {
        if |buf| - data > 4 {
          return frames, Some(|buf| - 4);
        }
        return frames, None;
      }
      assert CodeAt(buf, start.value) by { NextCodeIsLeast(buf, data); }
      var next := FindFrameEnd(buf, start.value);
      if next.None? {
        return frames, None;
      }
      TakeFrame(buf, frames, data, start.value, next.value);
      frames := frames + [buf[start.value..next.value]];
      data := next.value;
    }
    return frames, Some(data);
  }
}
