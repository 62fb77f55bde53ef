/** When the frames handed over do not depend on how the bytes were cut into reads. */
module H264Reads {
  import opened Bytes
  import opened H264Frames
  import opened H264FramesProofs

  // ----- bytes in front -----

  /** `kept` are the bytes of `whole` from `shift` on. */
  ghost predicate EndsWith(whole: seq<byte>, shift: nat, kept: seq<byte>) {
    shift + |kept| == |whole| && forall i | 0 <= i < |kept| :: kept[i] == whole[shift + i]
  }

  /** Bytes in front of a buffer shift its codes, its slices and its boundaries and change nothing else. */
  lemma CodeBehind(whole: seq<byte>, shift: nat, kept: seq<byte>, i: nat)
    requires EndsWith(whole, shift, kept)
    ensures CodeAt(whole, shift + i) == CodeAt(kept, i)
  {
    if i + 4 < |kept| {
      assert kept[i] == whole[shift + i] && kept[i + 1] == whole[shift + i + 1];
      assert kept[i + 2] == whole[shift + i + 2] && kept[i + 3] == whole[shift + i + 3];
    }
  }

  lemma PieceBehind(whole: seq<byte>, shift: nat, kept: seq<byte>, start: nat, end: nat)
    requires EndsWith(whole, shift, kept) && start <= end <= |kept|
    ensures whole[shift + start..shift + end] == kept[start..end]
    ensures whole[shift + start..] == kept[start..]
  {
  }

  lemma {:induction false} NextCodeBehind(whole: seq<byte>, shift: nat, kept: seq<byte>, from: nat)
    requires EndsWith(whole, shift, kept)
    ensures NextCode(whole, shift + from)
         == match NextCode(kept, from) case None => None case Some(at) => Some(shift + at)
    decreases |kept| - from
  {
    if from + 4 < |kept| {
      CodeBehind(whole, shift, kept, from);
      NextCodeBehind(whole, shift, kept, from + 1);
    }
  }

  lemma NewFrameBehind(whole: seq<byte>, shift: nat, kept: seq<byte>, i: nat)
    requires EndsWith(whole, shift, kept)
    ensures NewFrameAt(whole, shift + i) == NewFrameAt(kept, i)
  {
    CodeBehind(whole, shift, kept, i);
    if i <= |kept| {
      PieceBehind(whole, shift, kept, i, i);
    }
  }

  lemma {:induction false} SliceBehind(whole: seq<byte>, shift: nat, kept: seq<byte>, start: nat, end: nat)
    requires EndsWith(whole, shift, kept)
    ensures FirstSliceBetween(whole, shift + start, shift + end) == FirstSliceBetween(kept, start, end)
    decreases end
  {
    if start + 1 < end {
      NewFrameBehind(whole, shift, kept, end - 1);
      SliceBehind(whole, shift, kept, start, end - 1);
    }
  }

  lemma EndBehind(whole: seq<byte>, shift: nat, kept: seq<byte>, start: nat, next: nat)
    requires EndsWith(whole, shift, kept)
    ensures EndsFrame(whole, shift + start, shift + next) == EndsFrame(kept, start, next)
  {
    CodeBehind(whole, shift, kept, next);
    SliceBehind(whole, shift, kept, start, next);
    if next <= |kept| {
      PieceBehind(whole, shift, kept, next, next);
    }
  }

  lemma {:induction false} BoundaryBehind(whole: seq<byte>, shift: nat, kept: seq<byte>, start: nat, from: nat)
    requires EndsWith(whole, shift, kept)
    ensures NextBoundary(whole, shift + start, shift + from)
         == match NextBoundary(kept, start, from) case None => None case Some(next) => Some(shift + next)
    decreases |kept| - from
  {
    if from + 4 < |kept| {
      EndBehind(whole, shift, kept, start, from);
      BoundaryBehind(whole, shift, kept, start, from + 1);
    }
  }

  lemma NoFrame(buf: seq<byte>, data: nat)
    requires data <= |buf|
    requires data + 8 <= |buf| && NextCode(buf, data).Some? ==>
      NextBoundary(buf, NextCode(buf, data).value, NextCode(buf, data).value + 1).None?
    ensures Split(buf, data).frames == []
  {
  }

  /** A buffer from a position on, and where its first frame stands. */
  ghost predicate Opens(buf: seq<byte>, data: nat, start: nat, next: nat) {
    && data + 8 <= |buf| && NextCode(buf, data) == Some(start) && NextBoundary(buf, start, start + 1) == Some(next)
  }

  lemma SameFirstFrame(a: seq<byte>, i: nat, start: nat, next: nat, b: seq<byte>, j: nat, from: nat, end: nat)
    requires Opens(a, i, start, next) && Opens(b, j, from, end)
    requires a[start..next] == b[from..end] && Split(a, next).frames == Split(b, end).frames
    ensures Split(a, i).frames == Split(b, j).frames
  {
    FirstFrame(a, i, start, next);
    FirstFrame(b, j, from, end);
  }

  lemma OpensBehind(whole: seq<byte>, shift: nat, kept: seq<byte>, data: nat, start: nat, next: nat)
    requires EndsWith(whole, shift, kept) && Opens(kept, data, start, next)
    ensures Opens(whole, shift + data, shift + start, shift + next)
    ensures whole[shift + start..shift + next] == kept[start..next]
  {
    NextCodeBehind(whole, shift, kept, data);
    BoundaryBehind(whole, shift, kept, start, start + 1);
    assert shift + (start + 1) == (shift + start) + 1;
    PieceBehind(whole, shift, kept, start, next);
  }

  lemma NoFrameBehind(whole: seq<byte>, shift: nat, kept: seq<byte>, data: nat)
    requires data <= |kept| && EndsWith(whole, shift, kept)
    requires data + 8 <= |kept| && NextCode(kept, data).Some? ==>
      NextBoundary(kept, NextCode(kept, data).value, NextCode(kept, data).value + 1).None?
    ensures Split(whole, shift + data).frames == Split(kept, data).frames
  {
    NoFrame(kept, data);
    NextCodeBehind(whole, shift, kept, data);
    if NextCode(kept, data).Some? {
      var start := NextCode(kept, data).value;
      BoundaryBehind(whole, shift, kept, start, start + 1);
      assert shift + (start + 1) == (shift + start) + 1;
    }
    NoFrame(whole, shift + data);
  }

  /** So splitting behind them finds the same frames. */
  lemma {:induction false} SplitBehind(whole: seq<byte>, shift: nat, kept: seq<byte>, data: nat)
    requires data <= |kept| && EndsWith(whole, shift, kept)
    ensures Split(whole, shift + data).frames == Split(kept, data).frames
    decreases |kept| - data
  {
    if start: nat, next: nat :| Opens(kept, data, start, next) {
      OpensBehind(whole, shift, kept, data, start, next);
      SplitBehind(whole, shift, kept, next);
      SameFirstFrame(whole, shift + data, shift + start, shift + next, kept, data, start, next);
    } else {
      assert data + 8 <= |kept| && NextCode(kept, data).Some? ==>
        NextBoundary(kept, NextCode(kept, data).value, NextCode(kept, data).value + 1).None? by {
        if data + 8 <= |kept| && NextCode(kept, data).Some? {
          var start := NextCode(kept, data).value;
          if NextBoundary(kept, start, start + 1).Some? {
            assert Opens(kept, data, start, NextBoundary(kept, start, start + 1).value);
          }
        }
      }
      NoFrameBehind(whole, shift, kept, data);
    }
  }

  /** What is split from a position on is what is split of the bytes from there on. */
  lemma SplitFrom(buf: seq<byte>, data: nat)
    requires data <= |buf|
    ensures Split(buf, data).frames == Split(buf[data..], 0).frames
  {
    SplitBehind(buf, data, buf[data..], 0);
  }

  // ----- bytes given up before the first code -----

  /** A buffer too short to be split holds no whole frame either way. */
  lemma ShortHoldsNoFrame(buf: seq<byte>, data: nat)
    requires data <= |buf|
    requires NextCode(buf, data).Some? ==> |buf| < NextCode(buf, data).value + 8
    ensures Split(buf, data).frames == []
  {
    if NextCode(buf, data).Some? {
      var start := NextCode(buf, data).value;
      NextCodeIsLeast(buf, data);
      NextBoundaryIsLeast(buf, start, start + 1);
      if NextBoundary(buf, start, start + 1).Some? {
        CodesDoNotOverlap(buf, start, NextBoundary(buf, start, start + 1).value);
      }
    }
  }

  lemma NothingBeforeTheCode(buf: seq<byte>, data: nat)
    requires data <= |buf|
    requires forall i | 0 <= i < data :: !CodeAt(buf, i)
    ensures Split(buf, 0).frames == Split(buf, data).frames
  {
    assert NextCode(buf, 0) == NextCode(buf, data) by {
      NextCodeIsLeast(buf, 0);
      NextCodeIsLeast(buf, data);
    }
    if |buf| - data < 8 {
      ShortHoldsNoFrame(buf, 0);
    }
  }

  // ----- bytes behind -----

  /** Before the last boundary, more bytes behind the buffer change nothing. */
  lemma EarlierBoundariesStay(buf: seq<byte>, longer: seq<byte>, start: nat, next: nat, i: nat)
    requires buf <= longer && CodeAt(buf, next) && start < i < next
    ensures EndsFrame(longer, start, i) == EndsFrame(buf, start, i)
    ensures NewFrameAt(longer, i) == NewFrameAt(buf, i)
  {
    if CodeAt(buf, i) {
      CodesDoNotOverlap(buf, i, next);
      BoundarySurvivesExtension(buf, longer, start, i);
      NewFrameSurvivesExtension(buf, longer, i);
    }
  }

  /** A boundary at the end of the buffer outlives more bytes iff a first slice still opens there. */
  lemma LastBoundaryStays(buf: seq<byte>, longer: seq<byte>, start: nat, next: nat)
    requires buf < longer && start < next && EndsFrame(buf, start, next)
    ensures EndsFrame(longer, start, next) <==> IsNewFrame(longer[next..])
  {
    FirstSliceBetweenExists(buf, start, next);
    FirstSliceBetweenExists(longer, start, next);
    forall i | start < i < next ensures NewFrameAt(longer, i) == NewFrameAt(buf, i) {
      EarlierBoundariesStay(buf, longer, start, next, i);
    }
    assert buf[next..][4] == longer[next..][4];
    if |buf[next..]| >= 6 {
      assert buf[next..][5] == longer[next..][5];
    }
  }

  lemma BoundaryWithMore(buf: seq<byte>, longer: seq<byte>, start: nat, next: nat)
    requires buf < longer && NextBoundary(buf, start, start + 1) == Some(next)
    ensures IsNewFrame(longer[next..]) ==> NextBoundary(longer, start, start + 1) == Some(next)
    ensures var there := NextBoundary(longer, start, start + 1);
            !IsNewFrame(longer[next..]) && there.Some? ==> there.value > next
  {
    NextBoundaryIsLeast(buf, start, start + 1);
    NextBoundaryIsLeast(longer, start, start + 1);
    LastBoundaryStays(buf, longer, start, next);
    forall i | start < i < next ensures !EndsFrame(longer, start, i) {
      EarlierBoundariesStay(buf, longer, start, next, i);
    }
  }

  lemma ShorterFirst(frames: seq<seq<byte>>, first: seq<byte>, more: seq<seq<byte>>)
    requires frames != [] && |frames[0]| < |first|
    ensures !(frames <= [first] + more)
  {
  }

  /** The first frame found with more bytes is another one when the boundary that ended it is gone. */
  lemma FrameGrewOrWent(buf: seq<byte>, longer: seq<byte>, data: nat, start: nat, next: nat, frames: seq<seq<byte>>)
    requires buf < longer && Opens(buf, data, start, next) && !IsNewFrame(longer[next..])
    requires frames != [] && |frames[0]| == next - start
    ensures !(frames <= Split(longer, data).frames)
  {
    NextCodeSurvivesExtension(buf, longer, data);
    BoundaryWithMore(buf, longer, start, next);
    var boundary := NextBoundary(longer, start, start + 1);
    if boundary.None? {
      NoFrame(longer, data);
    } else {
      FirstFrame(longer, data, start, boundary.value);
      ShorterFirst(frames, longer[start..boundary.value], Split(longer, boundary.value).frames);
    }
  }

  /** The frames of the longer buffer go on from where splitting the shorter one stopped, or differ before. */
  ghost predicate GoesOn(buf: seq<byte>, longer: seq<byte>, data: nat, stop: nat)
    requires data <= |buf| <= |longer| && stop <= |longer|
  {
    if IsNewFrame(longer[stop..])
    then Split(longer, data).frames == Split(buf, data).frames + Split(longer, stop).frames
    else !(Split(buf, data).frames <= Split(longer, data).frames)
  }

  lemma LastFrameGoesOn(buf: seq<byte>, longer: seq<byte>, data: nat, start: nat, next: nat)
    requires buf < longer && data + 8 <= |buf| && NextCode(buf, data) == Some(start)
    requires NextBoundary(buf, start, start + 1) == Some(next) && Split(buf, next).frames == []
    ensures GoesOn(buf, longer, data, next)
  {
    FirstFrame(buf, data, start, next);
    assert Split(buf, data).frames == [buf[start..next]];
    if IsNewFrame(longer[next..]) {
      NextCodeSurvivesExtension(buf, longer, data);
      BoundaryWithMore(buf, longer, start, next);
      FirstFrame(longer, data, start, next);
      SameSlice(buf, longer, start, next);
    } else {
      FrameGrewOrWent(buf, longer, data, start, next, Split(buf, data).frames);
    }
  }

  lemma EarlierFrameGoesOn(buf: seq<byte>, longer: seq<byte>, data: nat, start: nat, next: nat, stop: nat)
    requires buf < longer && data + 8 <= |buf| && NextCode(buf, data) == Some(start)
    requires NextBoundary(buf, start, start + 1) == Some(next) && next + 8 <= |buf|
    requires stop <= |buf| && GoesOn(buf, longer, next, stop)
    ensures GoesOn(buf, longer, data, stop)
  {
    NextCodeSurvivesExtension(buf, longer, data);
    NextBoundarySurvivesExtension(buf, longer, start, next);
    FirstFrame(buf, data, start, next);
    FirstFrame(longer, data, start, next);
    SameSlice(buf, longer, start, next);
    OneMoreInFront(buf[start..next], Split(buf, next).frames, Split(longer, next).frames);
    Regroup([buf[start..next]], Split(buf, next).frames, Split(longer, stop).frames);
  }

  /**
   * Splitting the buffer with more bytes behind it goes on where splitting the buffer stopped if its last
   * boundary stands, and otherwise does not even begin with the same frames.
   */
  lemma {:induction false} SplitWithMore(buf: seq<byte>, longer: seq<byte>, data: nat)
    requires buf < longer && data <= |buf| && Split(buf, data).frames != [] && Split(buf, data).rest.Some?
    ensures GoesOn(buf, longer, data, Split(buf, data).rest.value)
    decreases |buf| - data
  {
    var start := NextCode(buf, data).value;
    var next := NextBoundary(buf, start, start + 1).value;
    TakeFrame(buf, [], data, start, next);
    if Split(buf, next).frames == [] {
      NextBoundaryCloses(buf, start, next);
      LastFrameGoesOn(buf, longer, data, start, next);
    } else {
      SplitWithMore(buf, longer, next);
      EarlierFrameGoesOn(buf, longer, data, start, next, Split(buf, data).rest.value);
    }
  }

  lemma NextBoundaryCloses(buf: seq<byte>, start: nat, next: nat)
    requires NextBoundary(buf, start, start + 1) == Some(next)
    requires Split(buf, next).frames == [] && Split(buf, next).rest.Some?
    ensures Split(buf, next).rest == Some(next)
  {
    NextBoundaryIsLeast(buf, start, start + 1);
  }

  lemma OneMoreInFront<T>(first: T, frames: seq<T>, more: seq<T>)
    ensures [first] + frames <= [first] + more <==> frames <= more
  {
    if [first] + frames <= [first] + more {
      assert ([first] + more)[1..] == more && ([first] + frames)[1..] == frames;
      assert frames == more[..|frames|];
    }
  }

  // ----- two reads or one -----

  /** What the caller holds on to after a read. */
  function Kept(buf: seq<byte>): seq<byte> {
    match Split(buf, 0).rest
    case None => buf
    case Some(r) => buf[r..]
  }

  /**
   * The first slice or delimiter that ended the last frame is still one with `more` behind it: it is no
   * delimiter, and of a slice cut right behind its NAL header the next byte says it is a first one.
   */
  predicate StillEnds(nal: seq<byte>, more: seq<byte>) {
    more == [] || (!IsAudFrame(nal) && (|nal| == 5 ==> TopBitSet(more[0])))
  }

  lemma StillEndsMeans(buf: seq<byte>, more: seq<byte>, start: nat, next: nat)
    requires more != [] && EndsFrame(buf, start, next)
    ensures IsNewFrame((buf + more)[next..]) <==> StillEnds(buf[next..], more)
  {
    var nal, longer := buf[next..], (buf + more)[next..];
    assert longer == nal + more;
    assert longer[4] == nal[4];
    assert longer[5] == if |nal| == 5 then more[0] else nal[5];
  }

  lemma LastCutEnds(buf: seq<byte>) returns (start: nat)
    requires Split(buf, 0).frames != [] && Split(buf, 0).rest.Some?
    ensures EndsFrame(buf, start, Split(buf, 0).rest.value)
  {
    var cuts := FramesAreAccessUnits(buf, 0);
    var last := |cuts| - 2;
    assert CutAt(buf, cuts[last], cuts[last + 1], Split(buf, 0).frames[last]);
    start := cuts[last];
  }

  /** The two reads hand over what one would. */
  predicate SameFrames(buf: seq<byte>, more: seq<byte>) {
    Split(buf, 0).frames + Split(Kept(buf) + more, 0).frames == Split(buf + more, 0).frames
  }

  /** Splitting what was kept and what came goes on from where splitting the first read stopped. */
  lemma KeptIsFrom(buf: seq<byte>, more: seq<byte>, r: nat)
    requires r <= |buf|
    ensures Split(buf[r..] + more, 0).frames == Split(buf + more, r).frames
  {
    SplitFrom(buf + more, r);
    assert (buf + more)[r..] == buf[r..] + more;
  }

  lemma WithoutFrames(buf: seq<byte>, more: seq<byte>)
    requires Split(buf, 0).frames == []
    ensures SameFrames(buf, more)
  {
    var rest := Split(buf, 0).rest;
    assert [] + Split(Kept(buf) + more, 0).frames == Split(Kept(buf) + more, 0).frames;
    if rest.Some? {
      var r := rest.value;
      KeptIsFrom(buf, more, r);
      forall i | 0 <= i < r ensures !CodeAt(buf + more, i) {
        DiscardedHoldsNoCode(buf, more, i);
      }
      NothingBeforeTheCode(buf + more, r);
    }
  }

  lemma WithFrames(buf: seq<byte>, more: seq<byte>)
    requires Split(buf, 0).frames != [] && Split(buf, 0).rest.Some? && more != []
    ensures SameFrames(buf, more) <==> StillEnds(Kept(buf), more)
  {
    var first, r := Split(buf, 0).frames, Split(buf, 0).rest.value;
    var start := LastCutEnds(buf);
    StillEndsMeans(buf, more, start, r);
    SplitWithMore(buf, buf + more, 0);
    KeptIsFrom(buf, more, r);
    if SameFrames(buf, more) {
      assert first <= Split(buf + more, 0).frames;
    }
  }

  /**
   * Two reads hand over the frames that one read of all their bytes would, if and only if the first leaves
   * no frame open behind whole ones and, when it hands frames over, what ended the last of them still ends it.
   */
  lemma ReadsDoNotMatterIff(buf: seq<byte>, more: seq<byte>)
    ensures SameFrames(buf, more) <==>
              && !HoldsFramesAndOpenOne(buf)
              && (Split(buf, 0).frames != [] ==> StillEnds(Kept(buf), more))
  {
    NullWithFramesIff(buf);
    var first := Split(buf, 0);
    if first.frames == [] {
      WithoutFrames(buf, more);
    } else if first.rest.None? {
      assert |first.frames + Split(buf + more, 0).frames| > |Split(buf + more, 0).frames|;
    } else if more == [] {
      assert buf + more == buf && Kept(buf) + more == Kept(buf);
      assert first.frames + [] == first.frames;
    } else {
      WithFrames(buf, more);
    }
  }

  // ----- any number of reads -----

  /** The frames of a row of reads, each splitting what was kept and what it brought. */
  function Feed(kept: seq<byte>, chunks: seq<seq<byte>>): seq<seq<byte>>
    decreases |chunks|
  {
    if chunks == [] then []
    else Split(kept + chunks[0], 0).frames + Feed(Kept(kept + chunks[0]), chunks[1..])
  }

  /** Each read but the last leaves off where the bytes to come change nothing about it. */
  ghost predicate LeavesOffWell(kept: seq<byte>, chunks: seq<seq<byte>>)
    decreases |chunks|
  {
    |chunks| > 1 ==>
      var buf, later := kept + chunks[0], Concat(chunks[1..]);
      && !HoldsFramesAndOpenOne(buf)
      && (Split(buf, 0).frames != [] ==> StillEnds(Kept(buf), later))
      && LeavesOffWell(Kept(buf), chunks[1..])
  }

  /** Any such row of reads, however many, hands over the frames that one read of all the bytes would. */
  lemma {:induction false} ReadsDoNotMatter(kept: seq<byte>, chunks: seq<seq<byte>>)
    requires chunks != [] && LeavesOffWell(kept, chunks)
    ensures Feed(kept, chunks) == Split(kept + Concat(chunks), 0).frames
    decreases |chunks|
  {
    var buf, later := kept + chunks[0], Concat(chunks[1..]);
    Regroup(kept, chunks[0], later);
    if |chunks| == 1 {
      assert buf + [] == buf && Split(buf, 0).frames + [] == Split(buf, 0).frames;
      assert Concat(chunks) == chunks[0] + [] == chunks[0];
    } else {
      ReadsDoNotMatterIff(buf, later);
      ReadsDoNotMatter(Kept(buf), chunks[1..]);
    }
  }

  // ----- reads on which they do matter -----

  const LEAD: seq<byte> := [0, 0, 0, 1, 0x67, 0x42, 0, 0, 0, 1, 0x65, 0x88]
  const BARE_SLICE: seq<byte> := [0, 0, 0, 1, 0x41]

  lemma LeadHoldsFirstSlice(buf: seq<byte>)
    requires LEAD + BARE_SLICE <= buf
    ensures forall i | 0 <= i <= 12 :: CodeAt(buf, i) <==> i in {0, 6, 12}
    ensures !EndsFrame(buf, 0, 6) && FirstSliceBetween(buf, 0, 12)
  {
    assert LEAD + BARE_SLICE == [0, 0, 0, 1, 0x67, 0x42, 0, 0, 0, 1, 0x65, 0x88, 0, 0, 0, 1, 0x41];
    assert buf[6..][4] == buf[10] == 0x65 && buf[6..][5] == buf[11] == 0x88;
    assert NewFrameAt(buf, 6);
    FirstSliceBetweenExists(buf, 0, 12);
    FirstSliceBetweenExists(buf, 0, 6);
  }

  lemma BareSliceEndsIff(buf: seq<byte>)
    requires LEAD + BARE_SLICE <= buf
    ensures EndsFrame(buf, 0, 12) <==> |buf| == 17 || TopBitSet(buf[17])
  {
    LeadHoldsFirstSlice(buf);
    assert buf[12..][4] == buf[16] == 0x41;
    if |buf| > 17 {
      assert buf[12..][5] == buf[17];
    }
  }

  lemma BareSliceEndsRead()
    ensures Split(LEAD + BARE_SLICE, 0) == Splitting([LEAD], Some(12))
  {
    var buf := LEAD + BARE_SLICE;
    LeadHoldsFirstSlice(buf);
    BareSliceEndsIff(buf);
    NextBoundaryIsLeast(buf, 0, 1);
    assert NextBoundary(buf, 0, 1) == Some(12);
    assert buf[0..12] == LEAD;
    TakeFrame(buf, [], 0, 0, 12);
  }

  lemma BareSliceInsideRead(next: byte)
    requires !TopBitSet(next)
    ensures Split(LEAD + BARE_SLICE + [next], 0) == Splitting([], None)
  {
    var buf := LEAD + BARE_SLICE + [next];
    LeadHoldsFirstSlice(buf);
    BareSliceEndsIff(buf);
    NextBoundaryIsLeast(buf, 0, 1);
    forall i | 1 <= i && i + 4 < |buf| ensures !EndsFrame(buf, 0, i) {
      assert |buf| == 18 && i <= 13;
      assert i == 13 ==> buf[i + 2] == 1;
    }
  }

  /**
   * A read cut right behind a slice's NAL header takes it for a first slice and hands the picture before it
   * over; with the next byte in the same read, saying it is none, nothing is handed over.
   */
  lemma BareSliceDependsOnReads(next: byte)
    requires !TopBitSet(next)
    ensures Split(LEAD + BARE_SLICE, 0).frames == [LEAD]
    ensures Split(LEAD + BARE_SLICE + [next], 0).frames == []
    ensures !SameFrames(LEAD + BARE_SLICE, [next])
  {
    BareSliceEndsRead();
    BareSliceInsideRead(next);
  }

  const LATER_SLICE: seq<byte> := [0, 0, 0, 1, 0x41, 0x9a, 0x21, 0x42]

  /**
   * A read that ends eight bytes into a picture hands the picture before it over and returns null: the
   * bytes meet the condition under which frames are handed over again.
   */
  lemma OpenPictureReturnsNull()
    ensures Split(LEAD + LATER_SLICE, 0) == Splitting([LEAD], None)
    ensures HoldsFramesAndOpenOne(LEAD + LATER_SLICE)
  {
    var buf := LEAD + LATER_SLICE;
    assert buf == LEAD + BARE_SLICE + [0x9a, 0x21, 0x42];
    LeadHoldsFirstSlice(buf);
    BareSliceEndsIff(buf);
    NextBoundaryIsLeast(buf, 0, 1);
    assert NextBoundary(buf, 0, 1) == Some(12) && buf[0..12] == LEAD;
    NothingEndsTheLaterSlice();
    FirstFrame(buf, 0, 0, 12);
    TakeFrame(buf, [], 0, 0, 12);
    NullWithFramesIff(buf);
  }

  lemma NothingEndsTheLaterSlice()
    ensures Split(LEAD + LATER_SLICE, 12) == Splitting([], None)
  {
    var buf := LEAD + LATER_SLICE;
    assert buf == LEAD + BARE_SLICE + [0x9a, 0x21, 0x42];
    LeadHoldsFirstSlice(buf);
    NextBoundaryIsLeast(buf, 12, 13);
    forall i | 13 <= i && i + 4 < |buf| ensures !EndsFrame(buf, 12, i) {
      assert i <= 15 && buf[15] == 1;
      assert i == 13 ==> buf[i + 2] == 1;
      assert i == 14 ==> buf[i + 1] == 1;
    }
  }
}
