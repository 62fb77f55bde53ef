/**
 * The JPEG extractor of apps/stream-http/camera-stream.py: bytes in, whole pictures out, the
 * unfinished tail carried to the next read.
 */
module JpegFrames {
  import opened Bytes

  /** `bytes.find` of a two-byte marker FF `second`, from position `from` on. */
  predicate MarkerAt(buf: seq<byte>, second: byte, i: nat) {
    i + 1 < |buf| && buf[i] == 0xff && buf[i + 1] == second
  }

  const SOI: byte := 0xd8
  const EOI: byte := 0xd9

  function Find(buf: seq<byte>, second: byte, from: nat): (at: Option<nat>)
    ensures at.Some? ==> from <= at.value && MarkerAt(buf, second, at.value)
    decreases |buf| - from
  {
    if from + 1 >= |buf| then None
    else if MarkerAt(buf, second, from) then Some(from)
    else Find(buf, second, from + 1)
  }

  lemma {:induction false} FindIsFirst(buf: seq<byte>, second: byte, from: nat)
    ensures var at := Find(buf, second, from);
            && (at.None? ==> forall i: nat | from <= i :: !MarkerAt(buf, second, i))
            && (at.Some? ==> forall i | from <= i < at.value :: !MarkerAt(buf, second, i))
    decreases |buf| - from
  {
    if from + 1 < |buf| && !MarkerAt(buf, second, from) {
      FindIsFirst(buf, second, from + 1);
    }
  }

  datatype Extraction = Extraction(frames: seq<seq<byte>>, rest: seq<byte>)

  /** The last byte, which may be the first half of a marker, or nothing. */
  function LastByte(buf: seq<byte>): seq<byte> {
    if buf == [] then [] else [buf[|buf| - 1]]
  }

  /** Where the first whole picture begins and ends, if there is one. */
  function FirstPicture(buf: seq<byte>): (p: Option<(nat, nat)>)
    ensures p.Some? ==> p.value.0 + 4 <= p.value.1 <= |buf|
  {
    match Find(buf, SOI, 0)
    case None => None
    case Some(start) =>
      match Find(buf, EOI, start + 2)
      case None => None
      case Some(end) => Some((start, end + 2))
  }

  /** What is carried over when no whole picture is left. */
  function Leftover(buf: seq<byte>): seq<byte> {
    match Find(buf, SOI, 0)
    case None => LastByte(buf)
    case Some(start) => buf[start..]
  }

  /** `extract_jpeg_frames`. */
  function Extract(buf: seq<byte>): Extraction
    decreases |buf|
  {
    match FirstPicture(buf)
    case None => Extraction([], Leftover(buf))
    case Some((start, end)) =>
      var later := Extract(buf[end..]);
      Extraction([buf[start..end]] + later.frames, later.rest)
  }

  method ExtractFrames(buffer: seq<byte>) returns (frames: seq<seq<byte>>, remaining: seq<byte>)
    ensures Extraction(frames, remaining) == Extract(buffer)
  {
    frames := [];
    remaining := buffer;
    while true
      invariant Extract(buffer) == Extraction(frames + Extract(remaining).frames, Extract(remaining).rest)
      decreases |remaining|
    {
      var start := Find(remaining, SOI, 0);
      if start.None? {
        assert FirstPicture(remaining).None?;
        return frames, if remaining != [] then remaining[|remaining| - 1..] else [];
      }
      var end := Find(remaining, EOI, start.value + 2);
      if end.None? {
        assert FirstPicture(remaining).None?;
        return frames, remaining[start.value..];
      }
      assert FirstPicture(remaining) == Some((start.value, end.value + 2));
      Regroup(frames, [remaining[start.value..end.value + 2]], Extract(remaining[end.value + 2..]).frames);
      frames := frames + [remaining[start.value..end.value + 2]];
      remaining := remaining[end.value + 2..];
    }
  }

  /** `first_jpeg`: chunks are taken one by one until a picture is whole; none means empty. */
  method FirstJpeg(chunks: seq<seq<byte>>) returns (picture: seq<byte>)
    ensures var all := Extract(Concat(chunks)).frames;
            picture == if all == [] then [] else all[0]
  {
    var buffer := [];
    var i := 0;
    while i < |chunks|
      invariant i <= |chunks|
      invariant Extract(Concat(chunks[..i])) == Extraction([], buffer)
    {
      ghost var seen := Concat(chunks[..i]);
      var frames: seq<seq<byte>>;
      ChunkIndependence(seen, chunks[i]);
      frames, buffer := ExtractFrames(buffer + chunks[i]);
      assert chunks[..i + 1] == chunks[..i] + [chunks[i]];
      ConcatLast(chunks[..i], chunks[i]);
      if frames != [] {
        assert chunks == chunks[..i + 1] + chunks[i + 1..];
        ConcatAppend(chunks[..i + 1], chunks[i + 1..]);
        ChunkIndependence(Concat(chunks[..i + 1]), Concat(chunks[i + 1..]));
        return frames[0];
      }
      i := i + 1;
    }
    assert chunks[..i] == chunks;
    return [];
  }

  // ----- the answer does not depend on how the bytes were cut -----

  lemma MarkerInPrefix(buf: seq<byte>, more: seq<byte>, second: byte, i: nat)
    requires i + 1 < |buf|
    ensures MarkerAt(buf + more, second, i) == MarkerAt(buf, second, i)
  {
  }

  lemma FoundStaysFound(buf: seq<byte>, more: seq<byte>, second: byte, from: nat)
    requires Find(buf, second, from).Some?
    ensures Find(buf + more, second, from) == Find(buf, second, from)
  {
    var long, at := buf + more, Find(buf, second, from).value;
    FindIsFirst(buf, second, from);
    FindIsFirst(long, second, from);
    forall i | from <= i <= at ensures MarkerAt(long, second, i) == MarkerAt(buf, second, i) {
      MarkerInPrefix(buf, more, second, i);
    }
    assert MarkerAt(long, second, at);
  }

  lemma MarkerAfter(gone: seq<byte>, kept: seq<byte>, second: byte, i: nat)
    ensures MarkerAt(gone + kept, second, |gone| + i) == MarkerAt(kept, second, i)
  {
  }

  ghost predicate NoMarkerBefore(buf: seq<byte>, second: byte, from: nat, end: nat) {
    forall i | from <= i < end :: !MarkerAt(buf, second, i)
  }

  /** Bytes in front that hold no marker only shift where the next one is found. */
  lemma FindBehind(gone: seq<byte>, kept: seq<byte>, second: byte, from: nat, first: nat)
    requires NoMarkerBefore(gone + kept, second, from, |gone|)
    requires first == if from < |gone| then 0 else from - |gone|
    ensures Find(gone + kept, second, from)
         == match Find(kept, second, first) case None => None case Some(at) => Some(|gone| + at)
  {
    var whole := gone + kept;
    FindIsFirst(whole, second, from);
    FindIsFirst(kept, second, first);
    forall i: nat ensures MarkerAt(whole, second, |gone| + i) == MarkerAt(kept, second, i) {
      MarkerAfter(gone, kept, second, i);
    }
    var here, there := Find(whole, second, from), Find(kept, second, first);
    if here.Some? {
      assert here.value >= |gone|;
      assert MarkerAt(kept, second, here.value - |gone|);
    }
    if there.Some? {
      assert MarkerAt(whole, second, |gone| + there.value);
    }
  }

  lemma PictureBehind(gone: seq<byte>, kept: seq<byte>)
    requires NoMarkerBefore(gone + kept, SOI, 0, |gone|)
    ensures FirstPicture(gone + kept)
         == match FirstPicture(kept) case None => None case Some((s, e)) => Some((|gone| + s, |gone| + e))
  {
    FindBehind(gone, kept, SOI, 0, 0);
    if Find(kept, SOI, 0).Some? {
      var start := Find(kept, SOI, 0).value;
      FindBehind(gone, kept, EOI, |gone| + start + 2, start + 2);
    }
  }

  lemma LeftoverBehind(gone: seq<byte>, kept: seq<byte>)
    requires NoMarkerBefore(gone + kept, SOI, 0, |gone|) && (gone != [] ==> kept != [])
    ensures Leftover(gone + kept) == Leftover(kept)
  {
    FindBehind(gone, kept, SOI, 0, 0);
    if Find(kept, SOI, 0).Some? {
      var start := Find(kept, SOI, 0).value;
      assert (gone + kept)[|gone| + start..] == kept[start..];
    }
  }

  /** Bytes before the first SOI never change the answer, as long as a last byte remains. */
  lemma GarbageIsSkipped(gone: seq<byte>, kept: seq<byte>)
    requires NoMarkerBefore(gone + kept, SOI, 0, |gone|) && (gone != [] ==> kept != [])
    ensures Extract(gone + kept) == Extract(kept)
  {
    PictureBehind(gone, kept);
    if FirstPicture(kept).None? {
      LeftoverBehind(gone, kept);
    } else {
      var (start, end) := FirstPicture(kept).value;
      SliceBehind(gone, kept, start, end);
      SamePicture(gone + kept, |gone| + start, |gone| + end, kept, start, end);
    }
  }

  lemma SliceBehind(gone: seq<byte>, kept: seq<byte>, start: nat, end: nat)
    requires start <= end <= |kept|
    ensures (gone + kept)[|gone| + start..|gone| + end] == kept[start..end]
    ensures (gone + kept)[|gone| + end..] == kept[end..]
  {
  }

  lemma SamePicture(a: seq<byte>, start: nat, end: nat, b: seq<byte>, from: nat, to: nat)
    requires FirstPicture(a) == Some((start, end)) && FirstPicture(b) == Some((from, to))
    requires a[start..end] == b[from..to] && a[end..] == b[to..]
    ensures Extract(a) == Extract(b)
  {
  }

  /** With no whole picture in `buf`, what it leaves over is all the next read needs. */
  lemma LeftoverSuffices(buf: seq<byte>, more: seq<byte>)
    requires FirstPicture(buf).None?
    ensures Extract(buf + more) == Extract(Leftover(buf) + more)
  {
    FindIsFirst(buf, SOI, 0);
    var keep := |buf| - |Leftover(buf)|;
    var gone := buf[..keep];
    assert buf == gone + Leftover(buf);
    Regroup(gone, Leftover(buf), more);
    forall i | 0 <= i < |gone| ensures !MarkerAt(buf + more, SOI, i) {
      MarkerInPrefix(buf, more, SOI, i);
    }
    GarbageIsSkipped(gone, Leftover(buf) + more);
  }

  lemma PictureStays(buf: seq<byte>, more: seq<byte>)
    requires FirstPicture(buf).Some?
    ensures FirstPicture(buf + more) == FirstPicture(buf)
  {
    FoundStaysFound(buf, more, SOI, 0);
    FoundStaysFound(buf, more, EOI, Find(buf, SOI, 0).value + 2);
  }

  /** Cutting the bytes anywhere and carrying the remainder over gives the same pictures and remainder. */
  lemma {:induction false} ChunkIndependence(buf: seq<byte>, more: seq<byte>)
    ensures Extract(buf + more).frames == Extract(buf).frames + Extract(Extract(buf).rest + more).frames
    ensures Extract(buf + more).rest == Extract(Extract(buf).rest + more).rest
    decreases |buf|
  {
    if FirstPicture(buf).None? {
      LeftoverSuffices(buf, more);
    } else {
      var (start, end) := FirstPicture(buf).value;
      PictureStays(buf, more);
      ChunkIndependence(buf[end..], more);
      assert (buf + more)[start..end] == buf[start..end];
      assert (buf + more)[end..] == buf[end..] + more;
      Regroup([buf[start..end]], Extract(buf[end..]).frames, Extract(Extract(buf).rest + more).frames);
    }
  }

  /** Feeding chunk after chunk: the pictures so far and the bytes carried. */
  function Feed(carried: seq<byte>, chunks: seq<seq<byte>>): Extraction
    decreases |chunks|
  {
    if chunks == [] then Extraction([], carried)
    else
      var now := Extract(carried + chunks[0]);
      var later := Feed(now.rest, chunks[1..]);
      Extraction(now.frames + later.frames, later.rest)
  }

  /** A remainder holds no whole picture, and extracting it again changes nothing. */
  lemma {:induction false} RestIsSettled(buf: seq<byte>)
    ensures Extract(Extract(buf).rest) == Extraction([], Extract(buf).rest)
    decreases |buf|
  {
    if FirstPicture(buf).None? {
      LeftoverSuffices(buf, []);
      assert buf + [] == buf && Leftover(buf) + [] == Leftover(buf);
    } else {
      RestIsSettled(buf[FirstPicture(buf).value.1..]);
    }
  }

  /** However a stream is cut into chunks, feeding them one by one equals one call on the whole. */
  lemma {:induction false} FeedingEqualsOneCall(carried: seq<byte>, chunks: seq<seq<byte>>)
    requires Extract(carried) == Extraction([], carried)
    ensures Feed(carried, chunks) == Extract(carried + Concat(chunks))
    decreases |chunks|
  {
    if chunks == [] {
      assert carried + [] == carried;
    } else {
      var rest := Extract(carried + chunks[0]).rest;
      RestIsSettled(carried + chunks[0]);
      FeedingEqualsOneCall(rest, chunks[1..]);
      ChunkIndependence(carried + chunks[0], Concat(chunks[1..]));
      Regroup(carried, chunks[0], Concat(chunks[1..]));
    }
  }

  // ----- whole pictures in, the same pictures out -----

  /** A picture: SOI, a body, and an EOI with no other EOI after the SOI. */
  ghost predicate WholePicture(picture: seq<byte>) {
    && |picture| >= 4
    && MarkerAt(picture, SOI, 0)
    && Find(picture, EOI, 2) == Some(|picture| - 2)
  }

  lemma PictureInFront(picture: seq<byte>, later: seq<byte>)
    requires WholePicture(picture)
    ensures FirstPicture(picture + later) == Some((0, |picture|))
  {
    assert Find(picture, SOI, 0) == Some(0);
    PictureStays(picture, later);
  }

  /** Every picture handed over is whole. */
  lemma {:induction false} OnlyWholePictures(buf: seq<byte>, k: nat)
    requires k < |Extract(buf).frames|
    ensures WholePicture(Extract(buf).frames[k])
    decreases |buf|
  {
    var (start, end) := FirstPicture(buf).value;
    if k == 0 {
      var picture := buf[start..end];
      FindIsFirst(buf, EOI, start + 2);
      FindIsFirst(picture, EOI, 2);
      forall i | 0 <= i < |picture| - 1 ensures MarkerAt(picture, EOI, i) == MarkerAt(buf, EOI, start + i) {}
      assert MarkerAt(picture, EOI, |picture| - 2);
      assert MarkerAt(buf, SOI, start);
    } else {
      OnlyWholePictures(buf[end..], k - 1);
    }
  }

  /** Pictures sent back to back come out as they went in, with nothing left over. */
  lemma {:induction false} PicturesRoundTrip(pictures: seq<seq<byte>>)
    requires forall k | 0 <= k < |pictures| :: WholePicture(pictures[k])
    ensures Extract(Concat(pictures)) == Extraction(pictures, [])
    decreases |pictures|
  {
    if pictures != [] {
      var first, later := pictures[0], Concat(pictures[1..]);
      PicturesRoundTrip(pictures[1..]);
      PictureInFront(first, later);
      assert (first + later)[0..|first|] == first;
      assert (first + later)[|first|..] == later;
    }
  }

  /** And so they do whatever reads the stream was cut into. */
  lemma PicturesSurviveAnyCut(pictures: seq<seq<byte>>, chunks: seq<seq<byte>>)
    requires forall k | 0 <= k < |pictures| :: WholePicture(pictures[k])
    requires Concat(chunks) == Concat(pictures)
    ensures Feed([], chunks) == Extraction(pictures, [])
  {
    FeedingEqualsOneCall([], chunks);
    assert [] + Concat(chunks) == Concat(chunks);
    PicturesRoundTrip(pictures);
  }

  /** No two bytes FF `second` side by side from `from` on. */
  ghost predicate Without(buf: seq<byte>, from: nat, second: byte) {
    forall i | from <= i && i + 1 < |buf| :: !(buf[i] == 0xff && buf[i + 1] == second)
  }

  /**
   * A picture is what stands between FF D8 and the first FF D9 behind it, the SOI and EOI markers of
   * section B.1.1.3 of ITU-T T.81: with any bytes in front that hold no FF D8 it comes out as it is.
   */
  lemma PictureBetweenMarkers(garbage: seq<byte>, body: seq<byte>)
    requires Without(garbage + [0xff], 0, 0xd8) && Without(body + [0xff], 0, 0xd9)
    ensures var picture := [0xff, 0xd8] + body + [0xff, 0xd9];
            Extract(garbage + picture) == Extraction([picture], [])
  {
    var picture := [0xff, 0xd8] + body + [0xff, 0xd9];
    PictureHasItsMarkers(body, picture);
    PicturesRoundTrip([picture]);
    assert Concat([picture]) == picture + [] == picture;
    forall i | 0 <= i < |garbage| ensures !MarkerAt(garbage + picture, SOI, i) {
      var whole, short := garbage + picture, garbage + [0xff];
      assert whole[i] == short[i] && whole[i + 1] == short[i + 1];
    }
    GarbageIsSkipped(garbage, picture);
  }

  lemma PictureHasItsMarkers(body: seq<byte>, picture: seq<byte>)
    requires picture == [0xff, 0xd8] + body + [0xff, 0xd9] && Without(body + [0xff], 0, 0xd9)
    ensures WholePicture(picture)
  {
    var end := |picture| - 2;
    FindIsFirst(picture, EOI, 2);
    assert MarkerAt(picture, EOI, end);
    forall i | 2 <= i < end ensures !MarkerAt(picture, EOI, i) {
      var inner := body + [0xff];
      assert picture[i] == inner[i - 2] && picture[i + 1] == inner[i - 1];
    }
  }
}
