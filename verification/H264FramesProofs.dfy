/** What splitting keeps, what it repeats, and what its one-bit slice test means. */
module H264FramesProofs {
  import opened Bytes
  import opened H264Frames

  // ----- boundaries -----

  /** `end` is the least position after the start code at `start` that ends the frame it opens. */
  ghost predicate AccessUnit(buf: seq<byte>, start: nat, end: nat) {
    && CodeAt(buf, start) && start < end <= |buf| && EndsFrame(buf, start, end)
    && forall i | start < i < end :: !EndsFrame(buf, start, i)
  }

  /** `cuts` are the frame boundaries of `frames` in `buf`. */
  ghost predicate CutInto(buf: seq<byte>, cuts: seq<nat>, frames: seq<seq<byte>>) {
    && |cuts| == |frames| + 1
    && forall k | 0 <= k < |frames| :: CutAt(buf, cuts[k], cuts[k + 1], frames[k])
  }

  ghost predicate CutAt(buf: seq<byte>, start: nat, end: nat, frame: seq<byte>) {
    AccessUnit(buf, start, end) && frame == buf[start..end]
  }

  /** Eight bytes or more from the end a frame opens that nothing in the buffer ends. */
  ghost predicate NeverEnds(buf: seq<byte>, start: nat) {
    CodeAt(buf, start) && start + 8 <= |buf| && forall i: nat | start < i :: !EndsFrame(buf, start, i)
  }

  lemma CutBefore(buf: seq<byte>, start: nat, cuts: seq<nat>, frames: seq<seq<byte>>, first: seq<byte>)
    requires CutInto(buf, cuts, frames) && CutAt(buf, start, cuts[0], first)
    ensures CutInto(buf, [start] + cuts, [first] + frames)
  {
    forall k | 1 <= k < |frames| + 1
      ensures CutAt(buf, ([start] + cuts)[k], ([start] + cuts)[k + 1], ([first] + frames)[k])
    {
      assert CutAt(buf, cuts[k - 1], cuts[k], frames[k - 1]);
    }
  }

  /** Every frame handed over is exactly one access unit, the first one opening at the first code. */
  lemma {:induction false} FramesAreAccessUnits(buf: seq<byte>, data: nat) returns (cuts: seq<nat>)
    requires data <= |buf| && Split(buf, data).frames != []
    ensures CutInto(buf, cuts, Split(buf, data).frames)
    ensures NextCode(buf, data) == Some(cuts[0])
    ensures Split(buf, data).rest.Some? ==> Split(buf, data).rest.value == cuts[|cuts| - 1] > |buf| - 8
    ensures Split(buf, data).rest.None? ==> NeverEnds(buf, cuts[|cuts| - 1])
    decreases |buf| - data
  {
    var start := NextCode(buf, data).value;
    var next := NextBoundary(buf, start, start + 1).value;
    NextCodeIsLeast(buf, data);
    NextBoundaryIsLeast(buf, start, start + 1);
    cuts := [next];
    if Split(buf, next).frames != [] {
      cuts := FramesAreAccessUnits(buf, next);
    } else if |buf| - next >= 8 {
      NextBoundaryIsLeast(buf, next, next + 1);
    }
    CutBefore(buf, start, cuts, Split(buf, next).frames, buf[start..next]);
    cuts := [start] + cuts;
  }

  // ----- the null return -----

  /** `cuts` lead from the first start code over one or more access units to a frame that never ends. */
  ghost predicate LeadsToOpenFrame(buf: seq<byte>, data: nat, cuts: seq<nat>) {
    && |cuts| >= 2 && NextCode(buf, data) == Some(cuts[0])
    && (forall k | 0 <= k < |cuts| - 1 :: AccessUnit(buf, cuts[k], cuts[k + 1]))
    && NeverEnds(buf, cuts[|cuts| - 1])
  }

  /** Whole frames stand at the front of the buffer and the one after them is still open. */
  ghost predicate HoldsFramesAndOpenOne(buf: seq<byte>) {
    exists cuts: seq<nat> :: LeadsToOpenFrame(buf, 0, cuts)
  }

  lemma AccessUnitIsFound(buf: seq<byte>, start: nat, end: nat)
    requires AccessUnit(buf, start, end)
    ensures NextBoundary(buf, start, start + 1) == Some(end)
  {
    NextBoundaryIsLeast(buf, start, start + 1);
  }

  lemma {:induction false} OpenFrameReturnsNull(buf: seq<byte>, data: nat, cuts: seq<nat>)
    requires data <= |buf| && LeadsToOpenFrame(buf, data, cuts)
    ensures Split(buf, data).frames != [] && Split(buf, data).rest.None?
    decreases |cuts|
  {
    assert AccessUnit(buf, cuts[0], cuts[1]);
    AccessUnitIsFound(buf, cuts[0], cuts[1]);
    if |cuts| == 2 {
      NextBoundaryIsLeast(buf, cuts[1], cuts[1] + 1);
    } else {
      forall k | 0 <= k < |cuts[1..]| - 1 ensures AccessUnit(buf, cuts[1..][k], cuts[1..][k + 1]) {
        assert AccessUnit(buf, cuts[k + 1], cuts[k + 2]);
      }
      assert AccessUnit(buf, cuts[1], cuts[2]);
      OpenFrameReturnsNull(buf, cuts[1], cuts[1..]);
      assert cuts[1] + 8 <= |buf| by { LastIsFarthest(buf, cuts, 1); }
    }
    assert data + 8 <= |buf| by { LastIsFarthest(buf, cuts, 0); }
  }

  lemma {:induction false} LastIsFarthest(buf: seq<byte>, cuts: seq<nat>, k: nat)
    requires k < |cuts| && forall j | 0 <= j < |cuts| - 1 :: AccessUnit(buf, cuts[j], cuts[j + 1])
    ensures cuts[k] <= cuts[|cuts| - 1]
    decreases |cuts| - k
  {
    if k + 1 < |cuts| {
      assert AccessUnit(buf, cuts[k], cuts[k + 1]);
      LastIsFarthest(buf, cuts, k + 1);
    }
  }

  /** Frames are handed over together with the null return iff whole frames stand before an open one. */
  lemma NullWithFramesIff(buf: seq<byte>)
    ensures Split(buf, 0).frames != [] && Split(buf, 0).rest.None? <==> HoldsFramesAndOpenOne(buf)
  {
    if Split(buf, 0).frames != [] && Split(buf, 0).rest.None? {
      var cuts := FramesAreAccessUnits(buf, 0);
      forall k | 0 <= k < |cuts| - 1 ensures AccessUnit(buf, cuts[k], cuts[k + 1]) {
        assert CutAt(buf, cuts[k], cuts[k + 1], Split(buf, 0).frames[k]);
      }
      assert LeadsToOpenFrame(buf, 0, cuts);
    }
    if HoldsFramesAndOpenOne(buf) {
      var cuts: seq<nat> :| LeadsToOpenFrame(buf, 0, cuts);
      OpenFrameReturnsNull(buf, 0, cuts);
    }
  }

  lemma CodeFound(buf: seq<byte>, data: nat, start: nat)
    requires NextCode(buf, data) == Some(start)
    ensures data <= start && CodeAt(buf, start)
  {
    NextCodeIsLeast(buf, data);
  }

  /** Frames are handed over iff the first start code opens an access unit, and that one is the first of them. */
  lemma FirstUnitIsHandedOver(buf: seq<byte>)
    ensures Split(buf, 0).frames != [] <==>
              NextCode(buf, 0).Some? && exists end: nat :: AccessUnit(buf, NextCode(buf, 0).value, end)
    ensures forall end: nat :: NextCode(buf, 0).Some? && AccessUnit(buf, NextCode(buf, 0).value, end) ==>
              Split(buf, 0).frames != [] && Split(buf, 0).frames[0] == buf[NextCode(buf, 0).value..end]
  {
    if NextCode(buf, 0).Some? {
      var start := NextCode(buf, 0).value;
      forall end: nat | AccessUnit(buf, start, end)
        ensures Split(buf, 0).frames != [] && Split(buf, 0).frames[0] == buf[start..end]
      {
        AccessUnitIsFound(buf, start, end);
        CodesDoNotOverlap(buf, start, end);
        FirstFrame(buf, 0, start, end);
      }
    }
    if Split(buf, 0).frames != [] {
      var cuts := FramesAreAccessUnits(buf, 0);
      assert CutAt(buf, cuts[0], cuts[1], Split(buf, 0).frames[0]);
    }
  }

  // ----- conservation -----

  lemma Rejoin(buf: seq<byte>, data: nat, next: nat, frames: seq<seq<byte>>, rest: seq<byte>)
    requires data <= next <= |buf| && Concat(frames) + rest == buf[next..]
    ensures Concat([buf[data..next]] + frames) + rest == buf[data..]
  {
    var all := [buf[data..next]] + frames;
    assert all[1..] == frames;
    assert Concat(all) + rest == buf[data..next] + (Concat(frames) + rest);
  }

  /**
   * A call that returns a position and handed frames over lost nothing and repeated nothing: frames
   * and tail together are the input from its first start code on, and the tail is under eight bytes.
   */
  lemma {:induction false} Conservation(buf: seq<byte>, data: nat)
    requires data <= |buf| && Split(buf, data).rest.Some? && Split(buf, data).frames != []
    ensures var (split, start) := (Split(buf, data), NextCode(buf, data));
            && start.Some?
            && split.rest.value <= |buf| < split.rest.value + 8
            && Concat(split.frames) + buf[split.rest.value..] == buf[start.value..]
            && CodeAt(buf, split.rest.value)
    decreases |buf| - data
  {
    var start := NextCode(buf, data).value;
    var next := NextBoundary(buf, start, start + 1).value;
    assert CodeAt(buf, next) by { NextBoundaryIsLeast(buf, start, start + 1); }
    TakeFrame(buf, [], data, start, next);
    var tail := Split(buf, next);
    if tail.frames == [] {
      assert tail.rest == Some(next);
    } else {
      Conservation(buf, next);
    }
    Rejoin(buf, start, next, tail.frames, buf[tail.rest.value..]);
  }

  /**
   * Bytes thrown away when no frame was found never hold the beginning of a start code, not even one
   * whose later bytes have yet to arrive.
   */
  lemma DiscardedHoldsNoCode(buf: seq<byte>, later: seq<byte>, i: nat)
    requires Split(buf, 0).rest.Some? && Split(buf, 0).frames == []
    requires i < Split(buf, 0).rest.value
    ensures Split(buf, 0).rest.value == |buf| - 4
    ensures !CodeAt(buf + later, i)
  {
    NextCodeIsLeast(buf, 0);
    assert !CodeAt(buf, i);
  }

  // ----- more bytes behind the buffer -----

  lemma NewFrameSurvivesExtension(buf: seq<byte>, longer: seq<byte>, i: nat)
    requires buf <= longer && i + 6 <= |buf|
    ensures IsNewFrame(longer[i..]) == IsNewFrame(buf[i..])
    ensures NewFrameAt(longer, i) == NewFrameAt(buf, i)
  {
    assert longer[i..][4] == longer[i + 4] == buf[i + 4] == buf[i..][4];
    assert longer[i..][5] == longer[i + 5] == buf[i + 5] == buf[i..][5];
  }

  /** At least eight bytes before the end, more bytes after the buffer cannot change a boundary. */
  lemma BoundarySurvivesExtension(buf: seq<byte>, longer: seq<byte>, start: nat, next: nat)
    requires buf <= longer && start < next && next + 8 <= |buf|
    ensures EndsFrame(longer, start, next) == EndsFrame(buf, start, next)
  {
    NewFrameSurvivesExtension(buf, longer, next);
    forall i | start < i < next ensures NewFrameAt(longer, i) == NewFrameAt(buf, i) {
      NewFrameSurvivesExtension(buf, longer, i);
    }
    FirstSliceBetweenExists(buf, start, next);
    FirstSliceBetweenExists(longer, start, next);
  }

  lemma NextCodeSurvivesExtension(buf: seq<byte>, longer: seq<byte>, from: nat)
    requires buf <= longer && NextCode(buf, from).Some?
    ensures NextCode(longer, from) == NextCode(buf, from)
  {
    var at := NextCode(buf, from).value;
    NextCodeIsLeast(buf, from);
    NextCodeIsLeast(longer, from);
    forall i | from <= i <= at ensures CodeAt(longer, i) == CodeAt(buf, i) {}
    assert CodeAt(longer, at);
  }

  lemma NextBoundarySurvivesExtension(buf: seq<byte>, longer: seq<byte>, start: nat, next: nat)
    requires buf <= longer && NextBoundary(buf, start, start + 1) == Some(next) && next + 8 <= |buf|
    ensures NextBoundary(longer, start, start + 1) == Some(next)
  {
    NextBoundaryIsLeast(buf, start, start + 1);
    NextBoundaryIsLeast(longer, start, start + 1);
    forall i | start < i <= next ensures EndsFrame(longer, start, i) == EndsFrame(buf, start, i) {
      BoundarySurvivesExtension(buf, longer, start, i);
    }
    assert EndsFrame(longer, start, next);
  }

  lemma PrefixAfterFirst<T>(first: T, frames: seq<T>, more: seq<T>)
    requires frames <= more
    ensures [first] + frames <= [first] + more
  {
  }

  lemma FirstFrame(buf: seq<byte>, data: nat, start: nat, next: nat)
    requires data + 8 <= |buf|
    requires NextCode(buf, data) == Some(start) && NextBoundary(buf, start, start + 1) == Some(next)
    ensures Split(buf, data).frames == [buf[start..next]] + Split(buf, next).frames
  {
  }

  lemma SameSlice(buf: seq<byte>, longer: seq<byte>, start: nat, end: nat)
    requires buf <= longer && start <= end <= |buf|
    ensures longer[start..end] == buf[start..end]
  {
  }

  /**
   * After a null return the whole buffer is kept, and whatever arrives next, splitting it again
   * begins with exactly the frames already handed over: each of them is offered a second time.
   */
  lemma {:induction false} NullReturnOffersAgain(buf: seq<byte>, longer: seq<byte>, data: nat)
    requires buf <= longer && data <= |buf| && Split(buf, data).rest.None?
    ensures Split(buf, data).frames <= Split(longer, data).frames
    decreases |buf| - data
  {
    var start := NextCode(buf, data).value;
    var boundary := NextBoundary(buf, start, start + 1);
    if boundary.Some? {
      var next := boundary.value;
      NullReturnOffersAgain(buf, longer, next);
      FirstFrame(buf, data, start, next);
      assert NextCode(longer, data) == Some(start) by { NextCodeSurvivesExtension(buf, longer, data); }
      assert NextBoundary(longer, start, start + 1) == Some(next) by {
        NextBoundarySurvivesExtension(buf, longer, start, next);
      }
      FirstFrame(longer, data, start, next);
      SameSlice(buf, longer, start, next);
      PrefixAfterFirst(buf[start..next], Split(buf, next).frames, Split(longer, next).frames);
    }
  }

  // ----- what a boundary test reads -----

  /** An access unit delimiter closes a frame only as the last six bytes of the buffer. */
  lemma DelimiterOnlyAtBufferEnd(buf: seq<byte>, start: nat, next: nat)
    requires start < next && CodeAt(buf, next) && LowFiveBits(buf[next + 4]) == 9
    ensures EndsFrame(buf, start, next) <==> next + 6 == |buf| && TopBitSet(buf[next + 5])
  {
    var nal := buf[next..];
    assert nal[4] == buf[next + 4];
    if |nal| == 6 {
      assert nal[5] == buf[next + 5];
    }
  }

  const PICTURE: seq<byte> := [0, 0, 0, 1, 0x65, 0x88]
  const DELIMITER: seq<byte> := [0, 0, 0, 1, 0x09, 0x80]

  lemma DelimiterEndingReadClosesPicture()
    ensures Split(PICTURE + DELIMITER, 0) == Splitting([PICTURE], Some(6))
  {
    var short := PICTURE + DELIMITER;
    assert short == [0, 0, 0, 1, 0x65, 0x88, 0, 0, 0, 1, 0x09, 0x80];
    assert short[6..] == DELIMITER;
    assert EndsFrame(short, 0, 6);
    NextBoundaryIsLeast(short, 0, 1);
    assert NextBoundary(short, 0, 1) == Some(6);
    assert short[0..6] == PICTURE;
  }

  lemma DelimiterInsideReadClosesNothing(next: byte)
    ensures Split(PICTURE + DELIMITER + [next], 0) == Splitting([], None)
  {
    var long := PICTURE + DELIMITER + [next];
    assert long == [0, 0, 0, 1, 0x65, 0x88, 0, 0, 0, 1, 0x09, 0x80, next];
    assert CodeAt(long, 0);
    NextBoundaryIsLeast(long, 0, 1);
    forall i: nat | 1 <= i ensures !EndsFrame(long, 0, i) {
      if CodeAt(long, i) {
        assert i == 6;
        assert long[6..] == [0, 0, 0, 1, 0x09, 0x80, next];
      }
    }
  }

  /**
   * So the frames do depend on how the bytes were cut into reads: a picture whose delimiter ends a
   * read is handed over; with one more byte in the same read it is not.
   */
  lemma SplittingDependsOnReads(next: byte)
    ensures Split(PICTURE + DELIMITER, 0).frames == [PICTURE]
    ensures Split(PICTURE + DELIMITER + [next], 0).frames == []
  {
    DelimiterEndingReadClosesPicture();
    DelimiterInsideReadClosesNothing(next);
  }

  // ----- NAL unit types -----

  /** The content of a NAL unit, Table 7-1 in section 7.4.1 of ITU-T H.264. */
  datatype NalKind =
    | NonIdrSlice | PartitionA | PartitionB | PartitionC | IdrSlice | Sei | SequenceParameters | PictureParameters
    | Delimiter | EndOfSequence | EndOfStream | Filler | Other

  const KINDS: seq<NalKind> :=
    [Other, NonIdrSlice, PartitionA, PartitionB, PartitionC, IdrSlice, Sei, SequenceParameters, PictureParameters,
     Delimiter, EndOfSequence, EndOfStream, Filler]

  function KindOf(header: byte): NalKind {
    var nalType := header % 32;
    if nalType < 13 then KINDS[nalType] else Other
  }

  /** `primary_pic_type`, the first three bits behind a delimiter's header: section 7.3.2.4. */
  function PrimaryPicType(payload: byte): nat {
    payload / 32
  }

  /**
   * What the two tests look for: a slice, IDR or not, whose header says or has yet to say that it opens a
   * picture; and a delimiter of six bytes whose picture type is four or more.
   */
  lemma WhatOpensAndWhatEnds(nal: seq<byte>)
    requires |nal| >= 5
    ensures IsNewFrame(nal) <==>
              && (KindOf(nal[4]) == NonIdrSlice || KindOf(nal[4]) == IdrSlice)
              && (|nal| == 5 || nal[5] >= 0x80)
    ensures IsAudFrame(nal) <==> KindOf(nal[4]) == Delimiter && |nal| == 6 && PrimaryPicType(nal[5]) >= 4
  {
    var nalType := nal[4] % 32;
    if nalType < 13 {
      assert nalType in {0, 1, 2, 3, 4, 5, 6, 7, 8, 9, 10, 11, 12};
    }
  }

  // ----- the one-bit slice test -----

  /** Bit `k` of a byte, the most significant one first. */
  predicate BitOf(b: byte, k: nat)
    decreases k
  {
    if k == 0 then TopBitSet(b) else BitOf(b % 128 * 2, k - 1)
  }

  predicate BitAt(data: seq<byte>, k: nat)
    requires k / 8 < |data|
  {
    BitOf(data[k / 8], k % 8)
  }

  /** The number of zero bits before the first one bit, or None when the data runs out. */
  function LeadingZeros(data: seq<byte>, k: nat): Option<nat>
    decreases 8 * |data| - k
  {
    if k / 8 >= |data| then None
    else if BitAt(data, k) then Some(0)
    else match LeadingZeros(data, k + 1)
      case None => None
      case Some(n) => Some(n + 1)
  }

  /** The `n` bits from `k` on, read as an unsigned number. */
  function BitsValue(data: seq<byte>, k: nat, n: nat): Option<nat>
    decreases n
  {
    if n == 0 then Some(0)
    else if (k + n - 1) / 8 >= |data| then None
    else match BitsValue(data, k, n - 1)
      case None => None
      case Some(v) => Some(2 * v + if BitAt(data, k + n - 1) then 1 else 0)
  }

  function Pow2(n: nat): (p: nat)
    ensures p >= 1
  {
    if n == 0 then 1 else 2 * Pow2(n - 1)
  }

  /** ue(v), section 9.1 of ITU-T H.264: codeNum = 2^leadingZeroBits - 1 + read_bits(leadingZeroBits). */
  function UnsignedExpGolomb(data: seq<byte>): Option<nat> {
    match LeadingZeros(data, 0)
    case None => None
    case Some(zeros) =>
      match BitsValue(data, zeros + 1, zeros)
      case None => None
      case Some(suffix) => var codeNum: nat := Pow2(zeros) - 1 + suffix; Some(codeNum)
  }

  lemma {:induction false} Pow2Grows(n: nat)
    requires n > 0
    ensures Pow2(n) >= 2
  {
    if n > 1 { Pow2Grows(n - 1); }
  }

  /** Testing the top bit of the first slice-header byte asks whether `first_mb_in_slice` is zero. */
  lemma TopBitMeansFirstMacroblock(nal: seq<byte>)
    requires |nal| >= 6 && IsSliceType(LowFiveBits(nal[4])) && UnsignedExpGolomb(nal[5..]).Some?
    ensures IsNewFrame(nal) <==> UnsignedExpGolomb(nal[5..]).value == 0
  {
    var header := nal[5..];
    assert header[0] == nal[5];
    assert BitAt(header, 0) == TopBitSet(nal[5]);
    var zeros := LeadingZeros(header, 0).value;
    assert zeros == 0 <==> BitAt(header, 0);
    if zeros > 0 {
      Pow2Grows(zeros);
    }
  }
}
