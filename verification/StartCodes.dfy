/** `normalize_start_codes` of assets/generate-splash.sh: every NAL behind a 4-byte start code. */
module StartCodes {
  import opened Bytes
  import opened H264Frames

  /** The 3-byte start code 00 00 01. */
  predicate ShortCodeAt(data: seq<byte>, i: nat) {
    i + 2 < |data| && data[i] == 0 && data[i + 1] == 0 && data[i + 2] == 1
  }

  const LONG_CODE: seq<byte> := [0, 0, 0, 1]

  /** Positions of the short codes from `from` on; a scan that finds one steps over its three bytes. */
  function Starts(data: seq<byte>, from: nat): (starts: seq<nat>)
    ensures forall s | s in starts :: from <= s && ShortCodeAt(data, s)
    decreases |data| - from
  {
    if from + 2 >= |data| then []
    else if ShortCodeAt(data, from) then [from] + Starts(data, from + 3)
    else Starts(data, from + 1)
  }

  /** The bytes behind the code at `start`, up to `end` less the zero that opens the next long code. */
  function Payload(data: seq<byte>, start: nat, end: nat): seq<byte>
    requires start + 3 <= |data|
  {
    if end < start + 3 || end > |data| then []
    else if end < |data| && start + 3 < end && data[end - 1] == 0 then data[start + 3..end - 1]
    else data[start + 3..end]
  }

  /** The NALs that begin at the given codes. */
  function Nals(data: seq<byte>, starts: seq<nat>): seq<seq<byte>>
    requires forall s | s in starts :: ShortCodeAt(data, s)
  {
    if starts == [] then []
    else
      assert starts[0] in starts && ShortCodeAt(data, starts[0]);
      [Payload(data, starts[0], if |starts| > 1 then starts[1] else |data|)] + Nals(data, starts[1..])
  }

  /** NALs written one after another, each behind a 4-byte code. */
  function Join(nals: seq<seq<byte>>): seq<byte> {
    if nals == [] then [] else LONG_CODE + nals[0] + Join(nals[1..])
  }

  /** The NALs of a whole file. */
  function NalsOf(data: seq<byte>): seq<seq<byte>> {
    Nals(data, Starts(data, 0))
  }

  // ----- the two loops -----

  lemma ShortCodesDoNotOverlap(data: seq<byte>, i: nat, j: nat)
    requires ShortCodeAt(data, i) && ShortCodeAt(data, j) && i < j
    ensures i + 3 <= j
  {
  }

  /** The scan lists every code there is: the bytes it steps over hold none. */
  lemma {:induction false} NoCodeMissed(data: seq<byte>, from: nat, i: nat)
    requires from <= i && ShortCodeAt(data, i)
    ensures i in Starts(data, from)
    decreases |data| - from
  {
    if !ShortCodeAt(data, from) {
      NoCodeMissed(data, from + 1, i);
    } else if from < i {
      ShortCodesDoNotOverlap(data, from, i);
      NoCodeMissed(data, from + 3, i);
    }
  }

  method FindStarts(data: seq<byte>) returns (starts: seq<nat>)
    ensures starts == Starts(data, 0)
    ensures forall i: nat :: i in starts <==> ShortCodeAt(data, i)
  {
    starts := [];
    var index := 0;
    while index + 2 < |data|
      invariant starts + Starts(data, index) == Starts(data, 0)
      decreases |data| - index
    {
      if data[index] == 0 && data[index + 1] == 0 && data[index + 2] == 1 {
        Regroup(starts, [index], Starts(data, index + 3));
        starts := starts + [index];
        index := index + 3;
      } else {
        index := index + 1;
      }
    }
    assert starts + [] == starts;
    forall i: nat | ShortCodeAt(data, i) ensures i in starts {
      NoCodeMissed(data, 0, i);
    }
  }

  lemma {:induction false} CodesInOrder(data: seq<byte>, from: nat, k: nat)
    requires k + 1 < |Starts(data, from)|
    ensures Starts(data, from)[k] + 3 <= Starts(data, from)[k + 1]
    decreases |data| - from
  {
    if !ShortCodeAt(data, from) {
      CodesInOrder(data, from + 1, k);
    } else if k > 0 {
      CodesInOrder(data, from + 3, k - 1);
    } else {
      assert Starts(data, from)[1] in Starts(data, from + 3);
    }
  }

  method Normalize(data: seq<byte>) returns (out: seq<byte>)
    ensures out == Join(NalsOf(data))
  {
    var starts := FindStarts(data);
    out := [];
    var position := 0;
    while position < |starts|
      invariant position <= |starts|
      invariant out + Join(Nals(data, starts[position..])) == Join(NalsOf(data))
    {
      var left := starts[position..];
      assert starts[position] in starts && ShortCodeAt(data, starts[position]);
      assert left[1..] == starts[position + 1..];
      if position + 1 < |starts| {
        CodesInOrder(data, 0, position);
        assert starts[position + 1] in starts && ShortCodeAt(data, starts[position + 1]);
      }
      var payloadStart := starts[position] + 3;
      var payloadEnd := if position + 1 < |starts| then starts[position + 1] else |data|;
      ghost var next := payloadEnd;
      if payloadEnd < |data| && data[payloadEnd - 1] == 0 {
        payloadEnd := payloadEnd - 1;
      }
      assert data[payloadStart..payloadEnd] == Payload(data, starts[position], next);
      Regroup(out, LONG_CODE + data[payloadStart..payloadEnd], Join(Nals(data, left[1..])));
      out := out + (LONG_CODE + data[payloadStart..payloadEnd]);
      position := position + 1;
    }
    assert out + [] == out;
  }

  // ----- what a scan finds -----

  /** A stretch without codes adds nothing. */
  lemma {:induction false} StartsSkip(data: seq<byte>, from: nat, end: nat)
    requires from <= end
    requires forall i | from <= i < end :: !ShortCodeAt(data, i)
    ensures Starts(data, from) == Starts(data, end)
    decreases end - from
  {
    if from < end {
      assert !ShortCodeAt(data, from);
      StartsSkip(data, from + 1, end);
    }
  }

  /** The first position found is the first code there is. */
  lemma {:induction false} FirstStart(data: seq<byte>, from: nat)
    ensures var starts := Starts(data, from);
            var first := if starts == [] then |data| else starts[0];
            forall i | from <= i < first :: !ShortCodeAt(data, i)
    decreases |data| - from
  {
    if from + 2 < |data| && !ShortCodeAt(data, from) {
      FirstStart(data, from + 1);
    }
  }

  ghost predicate CodeFree(nal: seq<byte>) {
    forall i: nat :: !ShortCodeAt(nal, i)
  }

  lemma CodeFreeSlice(data: seq<byte>, start: nat, end: nat)
    requires start <= end <= |data|
    requires forall i | start <= i < end :: !ShortCodeAt(data, i)
    ensures CodeFree(data[start..end])
  {
    forall i: nat ensures !ShortCodeAt(data[start..end], i) {
      assert !ShortCodeAt(data, start + i) || start + i >= end;
    }
  }

  /** No NAL holds a start code. */
  lemma {:induction false} NalsAreCodeFree(data: seq<byte>, from: nat)
    ensures forall k | 0 <= k < |Nals(data, Starts(data, from))| :: CodeFree(Nals(data, Starts(data, from))[k])
    decreases |data| - from
  {
    if from + 2 >= |data| {
    } else if !ShortCodeAt(data, from) {
      NalsAreCodeFree(data, from + 1);
    } else {
      NalsAreCodeFree(data, from + 3);
      FirstStart(data, from + 3);
      var later := Starts(data, from + 3);
      var end := if later == [] then |data| else later[0];
      assert later != [] ==> end in later && ShortCodeAt(data, end);
      var first := Payload(data, from, end);
      assert CodeFree(first) by {
        CodeFreeSlice(data, from + 3, end);
        if end > from + 3 {
          CodeFreeSlice(data, from + 3, end - 1);
        }
      }
      assert Starts(data, from)[1..] == later;
      assert Nals(data, Starts(data, from)) == [first] + Nals(data, later);
    }
  }

  // ----- reading back what was written -----

  /** Where the short codes lie in NALs joined from `base` on. */
  function Offsets(base: nat, nals: seq<seq<byte>>): seq<nat>
    decreases |nals|
  {
    if nals == [] then [] else [base + 1] + Offsets(base + 4 + |nals[0]|, nals[1..])
  }

  predicate LongCodeAt(whole: seq<byte>, at: nat) {
    at + 4 <= |whole| && whole[at] == 0 && whole[at + 1] == 0 && whole[at + 2] == 0 && whole[at + 3] == 1
  }

  /** From `at` to its end `whole` holds exactly these NALs, each behind a long code. */
  predicate Laid(whole: seq<byte>, at: nat, nals: seq<seq<byte>>)
    decreases |nals|
  {
    if nals == [] then at == |whole|
    else
      && LongCodeAt(whole, at) && at + 4 + |nals[0]| <= |whole|
      && whole[at + 4..at + 4 + |nals[0]|] == nals[0]
      && Laid(whole, at + 4 + |nals[0]|, nals[1..])
  }

  lemma OneNalLaid(before: seq<byte>, nal: seq<byte>, later: seq<byte>, whole: seq<byte>)
    requires whole == before + (LONG_CODE + nal + later)
    ensures |before| + 4 + |nal| <= |whole| && LongCodeAt(whole, |before|)
    ensures whole[|before| + 4..|before| + 4 + |nal|] == nal
    ensures whole == before + LONG_CODE + nal + later
  {
    var at := |before|;
    assert whole[at] == LONG_CODE[0] && whole[at + 1] == LONG_CODE[1];
    assert whole[at + 2] == LONG_CODE[2] && whole[at + 3] == LONG_CODE[3];
  }

  lemma {:induction false} JoinIsLaid(before: seq<byte>, nals: seq<seq<byte>>, whole: seq<byte>)
    requires whole == before + Join(nals)
    ensures Laid(whole, |before|, nals)
    decreases |nals|
  {
    if nals != [] {
      OneNalLaid(before, nals[0], Join(nals[1..]), whole);
      JoinIsLaid(before + LONG_CODE + nals[0], nals[1..], whole);
    }
  }

  lemma JoinedFromTheStart(nals: seq<seq<byte>>)
    ensures Laid(Join(nals), 0, nals)
  {
    var whole := Join(nals);
    assert whole == [] + whole;
    JoinIsLaid([], nals, whole);
  }

  /** Between its long code and the next, a code-free NAL makes no new code, not even with its neighbour. */
  lemma NoNewCode(whole: seq<byte>, at: nat, nals: seq<seq<byte>>, i: nat)
    requires nals != [] && Laid(whole, at, nals) && CodeFree(nals[0])
    requires at + 4 <= i < at + 4 + |nals[0]|
    ensures !ShortCodeAt(whole, i)
  {
    var k, end := i - (at + 4), at + 4 + |nals[0]|;
    assert !ShortCodeAt(nals[0], k);
    if i + 2 < end {
      var nal := whole[at + 4..end];
      assert nal[k] == whole[i] && nal[k + 1] == whole[i + 1] && nal[k + 2] == whole[i + 2];
    } else if nals[1..] != [] {
      assert LongCodeAt(whole, end);
    }
  }

  lemma {:induction false} StartsOfLaid(whole: seq<byte>, at: nat, nals: seq<seq<byte>>)
    requires Laid(whole, at, nals) && forall k | 0 <= k < |nals| :: CodeFree(nals[k])
    ensures Starts(whole, at) == Offsets(at, nals)
    decreases |nals|
  {
    if nals != [] {
      var end := at + 4 + |nals[0]|;
      StartsOfLaid(whole, end, nals[1..]);
      forall i | at + 4 <= i < end ensures !ShortCodeAt(whole, i) {
        NoNewCode(whole, at, nals, i);
      }
      StartsSkip(whole, at + 4, end);
    }
  }

  lemma {:induction false} NalsOfLaid(whole: seq<byte>, at: nat, nals: seq<seq<byte>>)
    requires Laid(whole, at, nals) && forall k | 0 <= k < |nals| :: CodeFree(nals[k])
    ensures Nals(whole, Starts(whole, at)) == nals
    decreases |nals|
  {
    StartsOfLaid(whole, at, nals);
    if nals != [] {
      var end := at + 4 + |nals[0]|;
      StartsOfLaid(whole, end, nals[1..]);
      NalsOfLaid(whole, end, nals[1..]);
      assert Starts(whole, at)[1..] == Starts(whole, end);
      assert nals[1..] != [] ==> LongCodeAt(whole, end);
    }
  }

  /** Writing NALs and reading them back gives the same NALs. */
  lemma JoinRoundTrip(nals: seq<seq<byte>>)
    requires forall k | 0 <= k < |nals| :: CodeFree(nals[k])
    ensures NalsOf(Join(nals)) == nals
  {
    JoinedFromTheStart(nals);
    NalsOfLaid(Join(nals), 0, nals);
  }

  /** Normalising keeps every NAL, and doing it twice changes nothing. */
  lemma NormalizeKeepsMeaning(data: seq<byte>)
    ensures NalsOf(Join(NalsOf(data))) == NalsOf(data)
    ensures Join(NalsOf(Join(NalsOf(data)))) == Join(NalsOf(data))
  {
    NalsAreCodeFree(data, 0);
    JoinRoundTrip(NalsOf(data));
  }

  // ----- what the capture feed's splitter sees of it -----

  /** Where the long code of NAL `k` stands in the joined file. */
  function Place(nals: seq<seq<byte>>, k: nat): nat
    requires k <= |nals|
  {
    if k == 0 then 0 else 4 + |nals[0]| + Place(nals[1..], k - 1)
  }

  /** A NAL `h264_find_nal` can report: something follows its code. */
  predicate Reported(nals: seq<seq<byte>>, k: nat) {
    k < |nals| && (k + 1 < |nals| || nals[k] != [])
  }

  lemma CodeInside(whole: seq<byte>, at: nat, nals: seq<seq<byte>>, i: nat)
    requires nals != [] && Laid(whole, at, nals) && CodeFree(nals[0])
    requires at < i < at + 4 + |nals[0]|
    ensures !CodeAt(whole, i)
  {
    assert whole[at + 3] == 1;
    if CodeAt(whole, i) && i >= at + 4 {
      assert ShortCodeAt(whole, i + 1);
      if i + 1 < at + 4 + |nals[0]| {
        NoNewCode(whole, at, nals, i + 1);
      }
    }
  }

  lemma {:induction false} CodesOfLaid(whole: seq<byte>, at: nat, nals: seq<seq<byte>>, i: nat)
    requires Laid(whole, at, nals) && forall k | 0 <= k < |nals| :: CodeFree(nals[k])
    ensures CodeAt(whole, at + i) <==> exists k: nat :: Reported(nals, k) && Place(nals, k) == i
    decreases |nals|
  {
    if nals != [] {
      var first, later := 4 + |nals[0]|, nals[1..];
      if i == 0 {
        assert later != [] ==> LongCodeAt(whole, at + first);
        assert CodeAt(whole, at) <==> Reported(nals, 0);
        if k: nat :| Reported(nals, k) && Place(nals, k) == 0 { assert k == 0; }
      } else if i < first {
        CodeInside(whole, at, nals, at + i);
      } else {
        CodesOfLaid(whole, at + first, later, i - first);
        if k: nat :| Reported(later, k) && Place(later, k) == i - first {
          assert Reported(nals, k + 1) && Place(nals, k + 1) == i;
        }
        if k: nat :| Reported(nals, k) && Place(nals, k) == i {
          assert k > 0 && Reported(later, k - 1) && Place(later, k - 1) == i - first;
        }
      }
    }
  }

  /** `h264_find_nal` matches exactly at the codes written, one for every NAL but an empty last one. */
  lemma FindNalSeesEveryNal(nals: seq<seq<byte>>, i: nat)
    requires forall k | 0 <= k < |nals| :: CodeFree(nals[k])
    ensures CodeAt(Join(nals), i) <==> exists k: nat :: Reported(nals, k) && Place(nals, k) == i
  {
    var whole, at: nat := Join(nals), 0;
    assert Laid(whole, at, nals) by {
      JoinedFromTheStart(nals);
    }
    CodesOfLaid(whole, at, nals, i);
    assert at + i == i;
  }

  // ----- what the encoder wrote -----

  /** A NAL as an encoder writes it, behind a 3-byte or a 4-byte start code. */
  datatype Coded = Coded(long: bool, nal: seq<byte>)

  function CodeBytes(c: Coded): seq<byte> {
    if c.long then [0, 0, 0, 1] else [0, 0, 1]
  }

  function Written(coded: seq<Coded>): seq<byte> {
    if coded == [] then [] else CodeBytes(coded[0]) + coded[0].nal + Written(coded[1..])
  }

  function NalsIn(coded: seq<Coded>): seq<seq<byte>> {
    if coded == [] then [] else [coded[0].nal] + NalsIn(coded[1..])
  }

  /** No NAL holds a start code, and none before a 3-byte code ends in a zero, which would read as part of the code. */
  ghost predicate WellCoded(coded: seq<Coded>) {
    && (forall k | 0 <= k < |coded| :: CodeFree(coded[k].nal))
    && forall k | 0 <= k < |coded| - 1 && !coded[k + 1].long && coded[k].nal != [] ::
         coded[k].nal[|coded[k].nal| - 1] != 0
  }

  function CodeLength(c: Coded): nat {
    if c.long then 4 else 3
  }

  /** From `at` to its end `whole` is exactly what was written. */
  predicate Stands(whole: seq<byte>, at: nat, coded: seq<Coded>)
    decreases |coded|
  {
    if coded == [] then at == |whole|
    else
      var start, end := at + CodeLength(coded[0]), at + CodeLength(coded[0]) + |coded[0].nal|;
      && end <= |whole| && ShortCodeAt(whole, start - 3) && (coded[0].long ==> whole[at] == 0)
      && whole[start..end] == coded[0].nal
      && Stands(whole, end, coded[1..])
  }

  lemma OneStands(before: seq<byte>, c: Coded, later: seq<byte>, front: seq<byte>, whole: seq<byte>)
    requires whole == before + (CodeBytes(c) + c.nal + later) && front == before + CodeBytes(c) + c.nal
    ensures var start := |before| + CodeLength(c);
            && |front| == start + |c.nal| <= |whole| && whole == front + later
            && ShortCodeAt(whole, start - 3) && (c.long ==> whole[|before|] == 0)
            && whole[start..|front|] == c.nal
  {
    var at, code := |before|, CodeBytes(c);
    assert whole[at] == code[0] && whole[at + 1] == code[1] && whole[at + 2] == code[2];
    assert c.long ==> whole[at + 3] == code[3];
  }

  /** The first NAL of what was written stands at `at`, and the next code at `end`. */
  predicate FirstStands(whole: seq<byte>, at: nat, c: Coded, end: nat) {
    var start := at + CodeLength(c);
    && end == start + |c.nal| <= |whole| && ShortCodeAt(whole, start - 3) && (c.long ==> whole[at] == 0)
    && whole[start..end] == c.nal
  }

  lemma StandsFrom(whole: seq<byte>, at: nat, coded: seq<Coded>, end: nat)
    requires coded != [] && FirstStands(whole, at, coded[0], end) && Stands(whole, end, coded[1..])
    ensures Stands(whole, at, coded)
  {
  }

  lemma {:induction false} WrittenStands(before: seq<byte>, coded: seq<Coded>, whole: seq<byte>)
    requires whole == before + Written(coded)
    ensures Stands(whole, |before|, coded)
    decreases |coded|
  {
    if coded != [] {
      var front, later := before + CodeBytes(coded[0]) + coded[0].nal, Written(coded[1..]);
      var end: nat := |front|;
      assert FirstStands(whole, |before|, coded[0], end) && whole == front + later by {
        OneStands(before, coded[0], later, front, whole);
      }
      assert Stands(whole, end, coded[1..]) by {
        WrittenStands(front, coded[1..], whole);
      }
      StandsFrom(whole, |before|, coded, end);
    }
  }

  lemma NoCodeInside(whole: seq<byte>, at: nat, coded: seq<Coded>, i: nat)
    requires coded != [] && Stands(whole, at, coded) && CodeFree(coded[0].nal)
    requires at + CodeLength(coded[0]) <= i < at + CodeLength(coded[0]) + |coded[0].nal|
    ensures !ShortCodeAt(whole, i)
  {
    var start := at + CodeLength(coded[0]);
    var k, end := i - start, start + |coded[0].nal|;
    assert !ShortCodeAt(coded[0].nal, k);
    if i + 2 < end {
      var nal := whole[start..end];
      assert nal[k] == whole[i] && nal[k + 1] == whole[i + 1] && nal[k + 2] == whole[i + 2];
    } else if coded[1..] != [] {
      assert ShortCodeAt(whole, end + CodeLength(coded[1]) - 3);
    }
  }

  /** The position of the code of each NAL. */
  function CodePlaces(at: nat, coded: seq<Coded>): seq<nat>
    decreases |coded|
  {
    if coded == [] then []
    else [at + CodeLength(coded[0]) - 3] + CodePlaces(at + CodeLength(coded[0]) + |coded[0].nal|, coded[1..])
  }

  lemma LaterIsWellCoded(coded: seq<Coded>)
    requires coded != [] && WellCoded(coded)
    ensures WellCoded(coded[1..])
  {
    forall k | 0 <= k < |coded[1..]| - 1 && !coded[1..][k + 1].long && coded[1..][k].nal != []
      ensures coded[1..][k].nal[|coded[1..][k].nal| - 1] != 0
    {
      assert coded[k + 1] == coded[1..][k] && coded[k + 2] == coded[1..][k + 1];
    }
  }

  lemma {:induction false} StartsOfWritten(whole: seq<byte>, at: nat, coded: seq<Coded>)
    requires Stands(whole, at, coded) && WellCoded(coded)
    ensures Starts(whole, at) == CodePlaces(at, coded)
    decreases |coded|
  {
    if coded != [] {
      var start := at + CodeLength(coded[0]);
      var end := start + |coded[0].nal|;
      LaterIsWellCoded(coded);
      StartsOfWritten(whole, end, coded[1..]);
      forall i | start <= i < end ensures !ShortCodeAt(whole, i) {
        NoCodeInside(whole, at, coded, i);
      }
      StartsSkip(whole, start, end);
      assert coded[0].long ==> !ShortCodeAt(whole, at);
    }
  }

  lemma FirstNalRead(whole: seq<byte>, at: nat, coded: seq<Coded>)
    requires coded != [] && Stands(whole, at, coded) && WellCoded(coded)
    ensures var start := at + CodeLength(coded[0]);
            var end := start + |coded[0].nal|;
            var next := if |coded| == 1 then |whole| else end + CodeLength(coded[1]) - 3;
            Payload(whole, start - 3, next) == coded[0].nal
  {
    var start := at + CodeLength(coded[0]);
    var end := start + |coded[0].nal|;
    if |coded| > 1 {
      assert Stands(whole, end, coded[1..]) && coded[1..][0] == coded[1];
      if !coded[1].long && coded[0].nal != [] {
        assert whole[end - 1] == whole[start..end][|coded[0].nal| - 1] != 0;
      }
    }
  }

  lemma NalsFrom(whole: seq<byte>, starts: seq<nat>, first: seq<byte>, later: seq<seq<byte>>)
    requires starts != [] && forall s | s in starts :: ShortCodeAt(whole, s)
    requires starts[0] + 3 <= |whole|
    requires Payload(whole, starts[0], if |starts| > 1 then starts[1] else |whole|) == first
    requires Nals(whole, starts[1..]) == later
    ensures Nals(whole, starts) == [first] + later
  {
  }

  lemma {:induction false} NalsOfWritten(whole: seq<byte>, at: nat, coded: seq<Coded>)
    requires Stands(whole, at, coded) && WellCoded(coded)
    ensures Nals(whole, Starts(whole, at)) == NalsIn(coded)
    decreases |coded|
  {
    var starts := Starts(whole, at);
    StartsOfWritten(whole, at, coded);
    if coded != [] {
      var end := at + CodeLength(coded[0]) + |coded[0].nal|;
      LaterIsWellCoded(coded);
      assert Nals(whole, starts[1..]) == NalsIn(coded[1..]) by {
        StartsOfWritten(whole, end, coded[1..]);
        NalsOfWritten(whole, end, coded[1..]);
        assert starts[1..] == Starts(whole, end);
      }
      assert starts[0] in starts;
      FirstNalRead(whole, at, coded);
      NalsFrom(whole, starts, coded[0].nal, NalsIn(coded[1..]));
    }
  }

  /**
   * Whatever mix of 3-byte and 4-byte codes an encoder wrote, normalising gives exactly its NALs, each
   * behind a 4-byte code.
   */
  lemma NormalizeKeepsWhatWasWritten(coded: seq<Coded>)
    requires WellCoded(coded)
    ensures Join(NalsOf(Written(coded))) == Join(NalsIn(coded))
    ensures NalsOf(Written(coded)) == NalsIn(coded)
  {
    var whole := Written(coded);
    assert whole == [] + whole;
    WrittenStands([], coded, whole);
    NalsOfWritten(whole, 0, coded);
  }
}
