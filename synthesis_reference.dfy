/**
 * A reference description of the segments `create_iframe_segments` produces,
 * written per I-frame by looking ahead in the rows rather than by carrying
 * state: an I-frame's byterange runs from its position to the position of
 * the row right after it (or has the probe size when that row is the
 * `format` row), and its span runs to the next I-frame (or to start plus
 * duration of the `format` row). Positions and times of 0 count as absent,
 * as Python's truth test makes them.
 *
 * For probe output of the documented shape (frame rows, then at most one
 * `format` row, last) the fold is proved equal to this description, and its
 * running size equal to the sum of the byterange lengths it records.
 */
module SynthesisReference {
  import opened Wrappers
  import opened Synthesis
  import opened SynthesisProperties

  /** Every row is a `frame` row. */
  predicate AllFrames(rows: seq<Row>)
  {
    forall i :: 0 <= i < |rows| ==> rows[i].Frame?
  }

  /** The documented probe output: frame rows, then at most one `format` row, which is last. */
  predicate WellFormed(rows: seq<Row>)
  {
    forall i :: 0 <= i < |rows| ==> rows[i].Frame? || (rows[i].Format? && i == |rows| - 1)
  }

  /** Where the span of an I-frame ends, given the rows after it. */
  function SpanEnd(rest: seq<Row>): Option<real>
  {
    if rest == [] then None
    else match rest[0]
      case Frame(t, _, _, ty) => if ty == "I" then Some(t) else SpanEnd(rest[1..])
      case Format(start, duration) => Some(start + duration)
      case Other(_) => None
  }

  /** The byterange of an I-frame at `pos` with probe size `size`, given the rows after it. */
  function RangeOf(pos: int, size: int, rest: seq<Row>): Option<ByteRange>
  {
    if pos == 0 || rest == [] then None
    else match rest[0]
      case Frame(_, next, _, _) => Some(ByteRange(next - pos, pos))
      case Format(_, _) => Some(ByteRange(size, pos))
      case Other(_) => None
  }

  /** The segment of the I-frame row `x`, given the rows after it. */
  function SegmentFor(uri: string, baseUri: string, x: Row, rest: seq<Row>): IframeSegment
    requires x.Frame?
  {
    var end := SpanEnd(rest);
    IframeSegment(uri, baseUri, RangeOf(x.position, x.size, rest),
      if x.displayedAt != 0.0 && end.Some? then Some(end.value - x.displayedAt) else None)
  }

  /** The segment contributed by the first row, if it is an I-frame. */
  function HeadSegment(uri: string, baseUri: string, x: Row, rest: seq<Row>): seq<IframeSegment>
  {
    if IsIFrame(x) then [SegmentFor(uri, baseUri, x, rest)] else []
  }

  /** One segment per I-frame row, in row order. */
  function ExpectedSegments(uri: string, baseUri: string, rows: seq<Row>): seq<IframeSegment>
  {
    if rows == [] then [] else HeadSegment(uri, baseUri, rows[0], rows[1..]) + ExpectedSegments(uri, baseUri, rows[1..])
  }

  /** The pending record for I-frame `x`: its position stays only until a later frame uses it (a position of 0 is never used). */
  function PrevFor(x: Row, rest: seq<Row>): PrevIframe
    requires x.Frame?
  {
    PrevIframe(Some(x.displayedAt), if rest == [] || x.position == 0 then Some(x.position) else None, Some(x.size))
  }

  /** The pending record after a run of frame rows: that of the last I-frame, if any. */
  function ExpectedPrev(rows: seq<Row>): PrevIframe
  {
    if rows == [] then NoPrev
    else if CountIFrames(rows[1..]) > 0 then ExpectedPrev(rows[1..])
    else if IsIFrame(rows[0]) then PrevFor(rows[0], rows[1..])
    else NoPrev
  }

  /** The byterange length a segment contributes, 0 when none was written. */
  function RangeLength(s: IframeSegment): int
  {
    if s.byterange.Some? then s.byterange.value.length else 0
  }

  /** The sum of the recorded byterange lengths. */
  function SumLengths(segs: seq<IframeSegment>): int
  {
    if segs == [] then 0 else RangeLength(segs[0]) + SumLengths(segs[1..])
  }

  /** The fold state after a run of frame rows, as the reference describes it. */
  function Expected(uri: string, baseUri: string, rows: seq<Row>): FoldState
  {
    var segs := ExpectedSegments(uri, baseUri, rows);
    FoldState(segs, ExpectedPrev(rows), SumLengths(segs), 0.0)
  }

  lemma {:induction false} SumLengthsAppend(a: seq<IframeSegment>, b: seq<IframeSegment>)
    ensures SumLengths(a + b) == SumLengths(a) + SumLengths(b)
  {
    if a == [] {
      assert a + b == b;
    } else {
      assert (a + b)[1..] == a[1..] + b;
      SumLengthsAppend(a[1..], b);
    }
  }

  lemma {:induction false} ExpectedCount(uri: string, baseUri: string, rows: seq<Row>)
    ensures |ExpectedSegments(uri, baseUri, rows)| == CountIFrames(rows)
  {
    if rows != [] {
      ExpectedCount(uri, baseUri, rows[1..]);
    }
  }

  /** Appending a row moves the end of a span only when no I-frame closed it yet. */
  lemma {:induction false} SpanEndSnoc(rest: seq<Row>, r: Row)
    requires AllFrames(rest)
    ensures SpanEnd(rest + [r]) == if CountIFrames(rest) > 0 then SpanEnd(rest) else SpanEnd([r])
  {
    if rest == [] {
      assert rest + [r] == [r];
    } else {
      assert (rest + [r])[0] == rest[0];
      assert (rest + [r])[1..] == rest[1..] + [r];
      SpanEndSnoc(rest[1..], r);
    }
  }

  /** The reference state always satisfies the last-segment invariant. */
  lemma {:induction false} ExpectedConsistent(uri: string, baseUri: string, rows: seq<Row>)
    ensures Consistent(Expected(uri, baseUri, rows))
    ensures ExpectedPrev(rows) != NoPrev ==> CountIFrames(rows) > 0
  {
    ExpectedCount(uri, baseUri, rows);
    if rows != [] {
      ExpectedConsistent(uri, baseUri, rows[1..]);
    }
  }

  /** Writing the last element of a list with a prefix in front writes the last element of the tail. */
  lemma SetLastShift(head: seq<IframeSegment>, segs: seq<IframeSegment>, br: ByteRange, d: real)
    requires |segs| > 0
    ensures SetLastByterange(head + segs, br) == head + SetLastByterange(segs, br)
    ensures SetLastDuration(head + segs, d) == head + SetLastDuration(segs, d)
  {
  }

  /** The state with `head` in front of its segments and `c` added to its size. */
  function Shifted(st: FoldState, head: seq<IframeSegment>, c: int): FoldState
  {
    FoldState(head + st.segments, st.prev, st.totalSize + c, st.videoDuration)
  }

  lemma ConsumePositionShift(st: FoldState, head: seq<IframeSegment>, c: int, pos: int)
    requires Consistent(st)
    ensures Consistent(Shifted(st, head, c))
    ensures ConsumePosition(Shifted(st, head, c), pos) == Shifted(ConsumePosition(st, pos), head, c)
  {
    var p := st.prev;
    if TruthyInt(p.position) {
      SetLastShift(head, st.segments, ByteRange(pos - p.position.value, p.position.value), 0.0);
    }
  }

  lemma OpenIframeShift(st: FoldState, head: seq<IframeSegment>, c: int, uri: string, baseUri: string, t: real, pos: int, size: int)
    requires Consistent(st)
    ensures Consistent(Shifted(st, head, c))
    ensures OpenIframe(Shifted(st, head, c), uri, baseUri, t, pos, size) == Shifted(OpenIframe(st, uri, baseUri, t, pos, size), head, c)
  {
    var p := st.prev;
    var segs := if TruthyReal(p.displayedAt) then SetLastDuration(st.segments, t - p.displayedAt.value) else st.segments;
    if TruthyReal(p.displayedAt) {
      SetLastShift(head, st.segments, ByteRange(0, 0), t - p.displayedAt.value);
    }
    assert (head + segs) + [NewSegment(uri, baseUri)] == head + (segs + [NewSegment(uri, baseUri)]);
  }

  /** A frame row acts on the end of the list only, so earlier segments and their sizes ride along. */
  lemma FrameStepShift(st: FoldState, head: seq<IframeSegment>, c: int,
                       uri: string, baseUri: string, t: real, pos: int, size: int, ty: string)
    requires Consistent(st)
    ensures Consistent(Shifted(st, head, c))
    ensures FrameStep(Shifted(st, head, c), uri, baseUri, t, pos, size, ty) == Shifted(FrameStep(st, uri, baseUri, t, pos, size, ty), head, c)
  {
    ConsumePositionShift(st, head, c, pos);
    var st1 := ConsumePosition(st, pos);
    if ty == "I" {
      OpenIframeShift(st1, head, c, uri, baseUri, t, pos, size);
    }
  }

  /** The same for a `format` row. */
  lemma FormatStepShift(st: FoldState, head: seq<IframeSegment>, c: int, start: real, duration: real)
    requires Consistent(st)
    ensures Consistent(Shifted(st, head, c))
    ensures FormatStep(Shifted(st, head, c), start, duration) == Shifted(FormatStep(st, start, duration), head, c)
  {
    var p := st.prev;
    if |st.segments| > 0 {
      var d := start + duration - (if p.displayedAt.Some? then p.displayedAt.value else 0.0);
      SetLastShift(head, st.segments, ByteRange(0, 0), d);
      var s1 := if TruthyReal(p.displayedAt) then SetLastDuration(st.segments, d) else st.segments;
      if TruthyInt(p.position) {
        SetLastShift(head, s1, ByteRange(p.size.value, p.position.value), 0.0);
      }
    }
  }

  /** With no I-frame so far, the reference state is the initial one. */
  lemma NoIFrameExpected(uri: string, baseUri: string, rows: seq<Row>)
    requires CountIFrames(rows) == 0
    ensures Expected(uri, baseUri, rows) == Initial
  {
    ExpectedCount(uri, baseUri, rows);
  }

  /** A later row never changes the segment of an I-frame that is already followed by another I-frame. */
  lemma SegmentForSnoc(uri: string, baseUri: string, x: Row, rest: seq<Row>, r: Row)
    requires x.Frame? && AllFrames(rest) && CountIFrames(rest) > 0
    ensures SegmentFor(uri, baseUri, x, rest + [r]) == SegmentFor(uri, baseUri, x, rest)
  {
    SpanEndSnoc(rest, r);
    assert rest != [];
    assert (rest + [r])[0] == rest[0];
  }

  /** Frame rows without an I-frame do not end a span. */
  lemma {:induction false} SpanEndNoIFrame(rest: seq<Row>)
    requires AllFrames(rest) && CountIFrames(rest) == 0
    ensures SpanEnd(rest) == None
  {
    if rest != [] {
      SpanEndNoIFrame(rest[1..]);
    }
  }

  /** The first half of a frame step when the pending I-frame `x` is followed by non-I frames `xs`. */
  lemma ConsumeAtIFrame(uri: string, baseUri: string, x: Row, xs: seq<Row>, r: Row)
    requires IsIFrame(x) && AllFrames(xs) && CountIFrames(xs) == 0 && r.Frame?
    ensures
      var s0 := SegmentFor(uri, baseUri, x, xs);
      var s1 := SegmentFor(uri, baseUri, x, xs + [r]);
      var st0 := FoldState([s0], PrevFor(x, xs), RangeLength(s0), 0.0);
      && Consistent(st0)
      && ConsumePosition(st0, r.position) == FoldState([s1.(duration := None)], PrevFor(x, xs + [r]), RangeLength(s1), 0.0)
      && s0.duration == None
  {
    SpanEndNoIFrame(xs);
    assert xs == [] ==> (xs + [r])[0] == r;
    assert xs != [] ==> (xs + [r])[0] == xs[0];
  }

  /** The reference state when the only I-frame is the first row. */
  lemma ExpectedOneIFrame(uri: string, baseUri: string, x: Row, xs: seq<Row>)
    requires IsIFrame(x) && CountIFrames(xs) == 0
    ensures
      var s0 := SegmentFor(uri, baseUri, x, xs);
      Expected(uri, baseUri, [x] + xs) == FoldState([s0], PrevFor(x, xs), RangeLength(s0), 0.0)
  {
    var rows := [x] + xs;
    assert rows[0] == x && rows[1..] == xs;
    NoIFrameExpected(uri, baseUri, xs);
    var s0 := SegmentFor(uri, baseUri, x, xs);
    assert [s0][1..] == [];
    assert ExpectedSegments(uri, baseUri, rows) == [s0] + [];
  }

  /** The reference state when the first row and the last row are the only I-frames. */
  lemma ExpectedTwoIFrames(uri: string, baseUri: string, x: Row, xs: seq<Row>, r: Row)
    requires IsIFrame(x) && AllFrames(xs) && CountIFrames(xs) == 0 && IsIFrame(r)
    ensures
      var s1 := SegmentFor(uri, baseUri, x, xs + [r]);
      Expected(uri, baseUri, [x] + xs + [r])
        == FoldState([s1, NewSegment(uri, baseUri)], PrevIframe(Some(r.displayedAt), Some(r.position), Some(r.size)), RangeLength(s1), 0.0)
  {
    var rows' := [x] + xs + [r];
    assert rows'[0] == x && rows'[1..] == xs + [r];
    CountIFramesSnoc(xs, r);
    ExpectedTailNew(uri, baseUri, xs, r);
    var s1 := SegmentFor(uri, baseUri, x, xs + [r]);
    var segs := ExpectedSegments(uri, baseUri, rows');
    assert segs == [s1] + [NewSegment(uri, baseUri)];
    assert segs[1..] == [NewSegment(uri, baseUri)];
    assert segs[1..][1..] == [];
    assert SumLengths(segs[1..]) == 0;
    assert SumLengths(segs) == RangeLength(s1);
    assert CountIFrames(rows'[1..]) > 0;
    assert ExpectedPrev(rows') == ExpectedPrev(xs + [r]);
  }

  /** The step case when the last I-frame is the first row: the pending record acts on its segment. */
  lemma FrameSnocAtIFrame(uri: string, baseUri: string, x: Row, xs: seq<Row>, r: Row)
    requires IsIFrame(x) && AllFrames(xs) && CountIFrames(xs) == 0 && r.Frame?
    requires Consistent(Expected(uri, baseUri, [x] + xs))
    ensures FrameStep(Expected(uri, baseUri, [x] + xs), uri, baseUri, r.displayedAt, r.position, r.size, r.pictType)
         == Expected(uri, baseUri, [x] + xs + [r])
  {
    ExpectedOneIFrame(uri, baseUri, x, xs);
    ConsumeAtIFrame(uri, baseUri, x, xs, r);
    SpanEndSnoc(xs, r);
    assert [r][1..] == [];
    CountIFramesSnoc(xs, r);
    if IsIFrame(r) {
      ExpectedTwoIFrames(uri, baseUri, x, xs, r);
    } else {
      assert [x] + xs + [r] == [x] + (xs + [r]);
      ExpectedOneIFrame(uri, baseUri, x, xs + [r]);
    }
  }

  /** After frame rows without an I-frame, an I-frame row yields exactly one fresh segment. */
  lemma ExpectedTailNew(uri: string, baseUri: string, xs: seq<Row>, r: Row)
    requires AllFrames(xs) && CountIFrames(xs) == 0 && IsIFrame(r)
    ensures ExpectedSegments(uri, baseUri, xs + [r]) == [NewSegment(uri, baseUri)]
    ensures ExpectedPrev(xs + [r]) == PrevIframe(Some(r.displayedAt), Some(r.position), Some(r.size))
  {
    if xs == [] {
      assert xs + [r] == [r];
      assert [r][1..] == [];
    } else {
      assert (xs + [r])[1..] == xs[1..] + [r];
      assert (xs + [r])[0] == xs[0];
      assert CountIFrames(xs[1..]) == 0;
      CountIFramesSnoc(xs[1..], r);
      ExpectedTailNew(uri, baseUri, xs[1..], r);
    }
  }

  /** Before a later I-frame, the first row's segment is simply in front of the rest. */
  lemma ExpectedCons(uri: string, baseUri: string, x: Row, xs: seq<Row>)
    requires CountIFrames(xs) > 0
    ensures
      var head := HeadSegment(uri, baseUri, x, xs);
      Expected(uri, baseUri, [x] + xs) == Shifted(Expected(uri, baseUri, xs), head, SumLengths(head))
  {
    var rows := [x] + xs;
    assert rows[0] == x && rows[1..] == xs;
    SumLengthsAppend(HeadSegment(uri, baseUri, x, xs), ExpectedSegments(uri, baseUri, xs));
  }

  /** The step case when a later row holds an I-frame: the first row's segment rides along. */
  lemma FrameSnocLater(uri: string, baseUri: string, x: Row, xs: seq<Row>, r: Row)
    requires x.Frame? && AllFrames(xs) && CountIFrames(xs) > 0 && r.Frame?
    requires Consistent(Expected(uri, baseUri, xs))
    requires FrameStep(Expected(uri, baseUri, xs), uri, baseUri, r.displayedAt, r.position, r.size, r.pictType)
          == Expected(uri, baseUri, xs + [r])
    ensures Consistent(Expected(uri, baseUri, [x] + xs))
    ensures FrameStep(Expected(uri, baseUri, [x] + xs), uri, baseUri, r.displayedAt, r.position, r.size, r.pictType)
         == Expected(uri, baseUri, [x] + xs + [r])
  {
    var head := HeadSegment(uri, baseUri, x, xs);
    var c := SumLengths(head);
    var e := Expected(uri, baseUri, xs);
    ExpectedCons(uri, baseUri, x, xs);
    ExpectedConsSnoc(uri, baseUri, x, xs, r);
    FrameStepShift(e, head, c, uri, baseUri, r.displayedAt, r.position, r.size, r.pictType);
  }

  /** With a later I-frame, the first row's segment stays in front when a row is appended. */
  lemma ExpectedConsSnoc(uri: string, baseUri: string, x: Row, xs: seq<Row>, r: Row)
    requires x.Frame? && AllFrames(xs) && CountIFrames(xs) > 0
    ensures
      var head := HeadSegment(uri, baseUri, x, xs);
      Expected(uri, baseUri, [x] + xs + [r]) == Shifted(Expected(uri, baseUri, xs + [r]), head, SumLengths(head))
  {
    HeadSegmentSnoc(uri, baseUri, x, xs, r);
    ExpectedCons(uri, baseUri, x, xs + [r]);
    assert [x] + xs + [r] == [x] + (xs + [r]);
  }

  /** A later I-frame shields the first row's segment from rows appended at the end. */
  lemma HeadSegmentSnoc(uri: string, baseUri: string, x: Row, xs: seq<Row>, r: Row)
    requires x.Frame? && AllFrames(xs) && CountIFrames(xs) > 0
    ensures CountIFrames(xs + [r]) > 0
    ensures HeadSegment(uri, baseUri, x, xs + [r]) == HeadSegment(uri, baseUri, x, xs)
  {
    CountIFramesSnoc(xs, r);
    if IsIFrame(x) {
      SegmentForSnoc(uri, baseUri, x, xs, r);
    }
  }

  /** A leading row that is not an I-frame changes nothing in the reference. */
  lemma SkipLeadingNonIFrame(uri: string, baseUri: string, x: Row, ys: seq<Row>)
    requires !IsIFrame(x)
    ensures Expected(uri, baseUri, [x] + ys) == Expected(uri, baseUri, ys)
  {
    var rows := [x] + ys;
    assert rows[0] == x && rows[1..] == ys;
    assert ExpectedSegments(uri, baseUri, rows) == [] + ExpectedSegments(uri, baseUri, ys);
    assert [] + ExpectedSegments(uri, baseUri, ys) == ExpectedSegments(uri, baseUri, ys);
    if CountIFrames(ys) == 0 {
      NoIFrameExpected(uri, baseUri, ys);
    }
  }

  /** One frame row takes the reference state of a run of frame rows to that of the longer run. */
  lemma {:induction false} FrameSnoc(uri: string, baseUri: string, rows: seq<Row>, r: Row)
    requires AllFrames(rows) && r.Frame?
    ensures Consistent(Expected(uri, baseUri, rows))
    ensures FrameStep(Expected(uri, baseUri, rows), uri, baseUri, r.displayedAt, r.position, r.size, r.pictType)
         == Expected(uri, baseUri, rows + [r])
  {
    ExpectedConsistent(uri, baseUri, rows);
    if rows == [] {
      assert rows + [r] == [r];
      assert [r][1..] == [];
    } else {
      var x, xs := rows[0], rows[1..];
      assert rows == [x] + xs;
      assert AllFrames(xs);
      if IsIFrame(x) && CountIFrames(xs) == 0 {
        FrameSnocAtIFrame(uri, baseUri, x, xs, r);
      } else {
        FrameSnoc(uri, baseUri, xs, r);
        if CountIFrames(xs) > 0 {
          assert x == rows[0];
          FrameSnocLater(uri, baseUri, x, xs, r);
        } else {
          SkipLeadingNonIFrame(uri, baseUri, x, xs);
          assert rows + [r] == [x] + (xs + [r]);
          SkipLeadingNonIFrame(uri, baseUri, x, xs + [r]);
        }
      }
    }
  }

  /** The segments and size after the closing `format` row, as the reference describes them. */
  predicate FormatMatches(uri: string, baseUri: string, st: FoldState, rows: seq<Row>)
  {
    var segs := ExpectedSegments(uri, baseUri, rows);
    st.segments == segs && st.totalSize == SumLengths(segs)
  }

  /** The format case when the last I-frame is the first row. */
  lemma {:induction false} FormatSnocAtIFrame(uri: string, baseUri: string, x: Row, xs: seq<Row>, start: real, duration: real)
    requires IsIFrame(x) && AllFrames(xs) && CountIFrames(xs) == 0
    ensures Consistent(Expected(uri, baseUri, [x] + xs))
    ensures FormatMatches(uri, baseUri, FormatStep(Expected(uri, baseUri, [x] + xs), start, duration), [x] + xs + [Format(start, duration)])
  {
    var f := Format(start, duration);
    ExpectedOneIFrame(uri, baseUri, x, xs);
    SpanEndNoIFrame(xs);
    SpanEndSnoc(xs, f);
    CountIFramesSnoc(xs, f);
    assert [x] + xs + [f] == [x] + (xs + [f]);
    ExpectedOneIFrame(uri, baseUri, x, xs + [f]);
    assert xs == [] ==> (xs + [f])[0] == f;
    assert xs != [] ==> (xs + [f])[0] == xs[0];
  }

  /** The format case when a later row holds an I-frame. */
  lemma {:induction false} FormatSnocLater(uri: string, baseUri: string, x: Row, xs: seq<Row>, start: real, duration: real)
    requires x.Frame? && AllFrames(xs) && CountIFrames(xs) > 0
    requires Consistent(Expected(uri, baseUri, xs))
    requires FormatMatches(uri, baseUri, FormatStep(Expected(uri, baseUri, xs), start, duration), xs + [Format(start, duration)])
    ensures Consistent(Expected(uri, baseUri, [x] + xs))
    ensures FormatMatches(uri, baseUri, FormatStep(Expected(uri, baseUri, [x] + xs), start, duration), [x] + xs + [Format(start, duration)])
  {
    var f := Format(start, duration);
    CountIFramesSnoc(xs, f);
    var head := HeadSegment(uri, baseUri, x, xs);
    if IsIFrame(x) {
      SegmentForSnoc(uri, baseUri, x, xs, f);
    }
    assert HeadSegment(uri, baseUri, x, xs + [f]) == head;
    ExpectedCons(uri, baseUri, x, xs);
    ExpectedCons(uri, baseUri, x, xs + [f]);
    assert [x] + xs + [f] == [x] + (xs + [f]);
    FormatStepShift(Expected(uri, baseUri, xs), head, SumLengths(head), start, duration);
  }

  /** The format case when no I-frame has been seen. */
  lemma FormatSnocNone(uri: string, baseUri: string, x: Row, xs: seq<Row>, start: real, duration: real)
    requires !IsIFrame(x) && CountIFrames(xs) == 0
    requires Consistent(Expected(uri, baseUri, xs))
    requires FormatMatches(uri, baseUri, FormatStep(Expected(uri, baseUri, xs), start, duration), xs + [Format(start, duration)])
    ensures Consistent(Expected(uri, baseUri, [x] + xs))
    ensures FormatMatches(uri, baseUri, FormatStep(Expected(uri, baseUri, [x] + xs), start, duration), [x] + xs + [Format(start, duration)])
  {
    var f := Format(start, duration);
    var rows' := [x] + xs + [f];
    assert rows'[0] == x && rows'[1..] == xs + [f];
    NoIFrameExpected(uri, baseUri, xs);
    NoIFrameExpected(uri, baseUri, [x] + xs);
    assert ExpectedSegments(uri, baseUri, rows') == [] + ExpectedSegments(uri, baseUri, xs + [f]);
    assert [] + ExpectedSegments(uri, baseUri, xs + [f]) == ExpectedSegments(uri, baseUri, xs + [f]);
  }

  /** The closing `format` row takes the reference state of the frame rows to the reference segments of all rows. */
  lemma {:induction false} FormatSnoc(uri: string, baseUri: string, rows: seq<Row>, start: real, duration: real)
    requires AllFrames(rows)
    ensures Consistent(Expected(uri, baseUri, rows))
    ensures FormatMatches(uri, baseUri, FormatStep(Expected(uri, baseUri, rows), start, duration), rows + [Format(start, duration)])
  {
    ExpectedConsistent(uri, baseUri, rows);
    var f := Format(start, duration);
    if rows == [] {
      assert rows + [f] == [f];
      assert [f][1..] == [];
    } else {
      var x, xs := rows[0], rows[1..];
      assert rows == [x] + xs;
      assert AllFrames(xs);
      if IsIFrame(x) && CountIFrames(xs) == 0 {
        FormatSnocAtIFrame(uri, baseUri, x, xs, start, duration);
      } else {
        FormatSnoc(uri, baseUri, xs, start, duration);
        if CountIFrames(xs) > 0 {
          assert x == rows[0];
          FormatSnocLater(uri, baseUri, x, xs, start, duration);
        } else {
          FormatSnocNone(uri, baseUri, x, xs, start, duration);
        }
      }
    }
  }

  /** On frame rows the fold is in the reference state. */
  lemma {:induction false} RunFrames(uri: string, baseUri: string, rows: seq<Row>)
    requires AllFrames(rows)
    ensures Run(uri, baseUri, rows) == Ok(Expected(uri, baseUri, rows))
  {
    if rows != [] {
      var init, r := rows[..|rows| - 1], rows[|rows| - 1];
      assert init + [r] == rows;
      RunFrames(uri, baseUri, init);
      FrameSnoc(uri, baseUri, init, r);
    }
  }

  /**
   * On probe output of the documented shape, the fold yields one segment per
   * I-frame as the reference describes it, and its running size is the sum of
   * the byterange lengths it recorded.
   */
  lemma FoldMatchesReference(uri: string, baseUri: string, rows: seq<Row>)
    requires WellFormed(rows)
    ensures Run(uri, baseUri, rows).Ok?
    ensures Run(uri, baseUri, rows).value.segments == ExpectedSegments(uri, baseUri, rows)
    ensures Run(uri, baseUri, rows).value.totalSize == SumLengths(ExpectedSegments(uri, baseUri, rows))
  {
    if rows != [] && rows[|rows| - 1].Format? {
      var init, f := rows[..|rows| - 1], rows[|rows| - 1];
      assert init + [f] == rows;
      assert AllFrames(init);
      RunFrames(uri, baseUri, init);
      FormatSnoc(uri, baseUri, init, f.startTime, f.duration);
    } else {
      RunFrames(uri, baseUri, rows);
    }
  }

  /** While frame rows are read, a pending position or time always belongs to a field of the last segment that is still unset. */
  lemma {:induction false} PendingFieldsUnset(uri: string, baseUri: string, rows: seq<Row>)
    requires AllFrames(rows)
    ensures
      var st := Expected(uri, baseUri, rows);
      && (TruthyInt(st.prev.position) ==> |st.segments| > 0 && st.segments[|st.segments| - 1].byterange.None?)
      && (TruthyReal(st.prev.displayedAt) ==> |st.segments| > 0 && st.segments[|st.segments| - 1].duration.None?)
  {
    ExpectedConsistent(uri, baseUri, rows);
    if rows != [] {
      var x, xs := rows[0], rows[1..];
      assert rows == [x] + xs;
      assert AllFrames(xs);
      if CountIFrames(xs) > 0 {
        PendingFieldsUnset(uri, baseUri, xs);
        ExpectedCons(uri, baseUri, x, xs);
        ExpectedCount(uri, baseUri, xs);
      } else if IsIFrame(x) {
        ExpectedOneIFrame(uri, baseUri, x, xs);
        SpanEndNoIFrame(xs);
      } else {
        NoIFrameExpected(uri, baseUri, rows);
      }
    }
  }

  /**
   * Each byterange and each duration is written at most once: before every row
   * of well-formed probe output, the fold's pending position and time point at
   * fields of the last segment that are still unset, and those are the only
   * fields a row writes.
   */
  lemma WritesLandOnUnsetFields(uri: string, baseUri: string, rows: seq<Row>, k: nat)
    requires WellFormed(rows) && k < |rows|
    ensures Run(uri, baseUri, rows[..k]).Ok?
    ensures
      var st := Run(uri, baseUri, rows[..k]).value;
      && (TruthyInt(st.prev.position) ==> |st.segments| > 0 && st.segments[|st.segments| - 1].byterange.None?)
      && (TruthyReal(st.prev.displayedAt) ==> |st.segments| > 0 && st.segments[|st.segments| - 1].duration.None?)
  {
    assert AllFrames(rows[..k]);
    RunFrames(uri, baseUri, rows[..k]);
    PendingFieldsUnset(uri, baseUri, rows[..k]);
  }

  /** The I-frame row `k` owns the segment numbered by the I-frames before it, and that segment is the one the reference gives it. */
  lemma {:induction false} ExpectedSegmentAt(uri: string, baseUri: string, rows: seq<Row>, k: nat)
    requires k < |rows| && IsIFrame(rows[k])
    ensures CountIFrames(rows[..k]) < |ExpectedSegments(uri, baseUri, rows)|
    ensures ExpectedSegments(uri, baseUri, rows)[CountIFrames(rows[..k])] == SegmentFor(uri, baseUri, rows[k], rows[k + 1..])
  {
    var head := HeadSegment(uri, baseUri, rows[0], rows[1..]);
    var tail := ExpectedSegments(uri, baseUri, rows[1..]);
    assert ExpectedSegments(uri, baseUri, rows) == head + tail;
    if k == 0 {
      assert rows[..0] == [];
    } else {
      ExpectedSegmentAt(uri, baseUri, rows[1..], k - 1);
      assert rows[1..][k - 1] == rows[k] && rows[1..][k - 1 + 1..] == rows[k + 1..];
      assert rows[..k][1..] == rows[1..][..k - 1] && rows[..k][0] == rows[0];
      assert CountIFrames(rows[..k]) == |head| + CountIFrames(rows[1..][..k - 1]);
    }
  }

  /**
   * Python truth values decide what is pending: in well-formed probe output an
   * I-frame at byte 0 never gets a byterange (and so adds nothing to the
   * size), and one shown at time 0 never gets a duration.
   */
  lemma FalsyFieldsNotPending(uri: string, baseUri: string, rows: seq<Row>, k: nat)
    requires WellFormed(rows) && k < |rows| && IsIFrame(rows[k])
    ensures Run(uri, baseUri, rows).Ok?
    ensures
      var segs := Run(uri, baseUri, rows).value.segments;
      var n := CountIFrames(rows[..k]);
      n < |segs| &&
      (rows[k].position == 0 ==> segs[n].byterange == None && RangeLength(segs[n]) == 0) &&
      (rows[k].displayedAt == 0.0 ==> segs[n].duration == None)
  {
    FoldMatchesReference(uri, baseUri, rows);
    ExpectedSegmentAt(uri, baseUri, rows, k);
  }

  /** The probe rows of the first sample transport-stream segment: two I-frames, each followed by a P-frame, then the format row. */
  function SampleRows(): seq<Row>
  {
    [Frame(10.0, 3008, 175, "I"), Frame(10.066667, 3196, 385, "P"),
     Frame(19.266667, 188376, 18539, "I"), Frame(19.333333, 210184, 148, "P"),
     Format(9.881, 10.119)]
  }

  /** The second half of the sample, from its second I-frame on, gives the byterange 21808@188376 spanning 0.733333 seconds. */
  lemma SampleSecondHalf(uri: string, baseUri: string)
    ensures ExpectedSegments(uri, baseUri, SampleRows()[2..]) ==
      [IframeSegment(uri, baseUri, Some(ByteRange(21808, 188376)), Some(0.733333))]
  {
    var rows := SampleRows();
    var r3 := rows[3..];
    var r2 := rows[2..];
    assert r3[1..] == [rows[4]] && [rows[4]][1..] == [];
    assert r2[1..] == r3;
    assert ExpectedSegments(uri, baseUri, [rows[4]]) == [];
    assert !IsIFrame(r3[0]);
    assert ExpectedSegments(uri, baseUri, r3) == [] + ExpectedSegments(uri, baseUri, [rows[4]]);
    assert SpanEnd(r3) == Some(9.881 + 10.119);
  }

  /** The sample gives the byteranges 188@3008 and 21808@188376, spans of 9.266667 and 0.733333 seconds. */
  lemma SampleExpected(uri: string, baseUri: string)
    ensures ExpectedSegments(uri, baseUri, SampleRows()) ==
      [IframeSegment(uri, baseUri, Some(ByteRange(188, 3008)), Some(9.266667)),
       IframeSegment(uri, baseUri, Some(ByteRange(21808, 188376)), Some(0.733333))]
  {
    var rows := SampleRows();
    var r2 := rows[2..];
    SampleSecondHalf(uri, baseUri);
    var seg2 := IframeSegment(uri, baseUri, Some(ByteRange(21808, 188376)), Some(0.733333));
    assert rows[1..] == [rows[1]] + r2 && ([rows[1]] + r2)[1..] == r2;
    assert ExpectedSegments(uri, baseUri, rows[1..]) == [seg2];
    assert SpanEnd(r2) == Some(19.266667);
    assert SegmentFor(uri, baseUri, rows[0], rows[1..]) == IframeSegment(uri, baseUri, Some(ByteRange(188, 3008)), Some(9.266667));
  }

  /** The sample gives the two byteranges above, 21996 bytes and 10.119 seconds. */
  lemma SampleSegments(uri: string, baseUri: string)
    ensures Synthesize(uri, baseUri, SampleRows()) == Ok(Synthesized(
      [IframeSegment(uri, baseUri, Some(ByteRange(188, 3008)), Some(9.266667)),
       IframeSegment(uri, baseUri, Some(ByteRange(21808, 188376)), Some(0.733333))],
      21996, 10.119))
  {
    var rows := SampleRows();
    assert WellFormed(rows);
    FoldMatchesReference(uri, baseUri, rows);
    VideoDurationFromFormat(uri, baseUri, rows);
    SampleExpected(uri, baseUri);
    var seg1 := IframeSegment(uri, baseUri, Some(ByteRange(188, 3008)), Some(9.266667));
    var seg2 := IframeSegment(uri, baseUri, Some(ByteRange(21808, 188376)), Some(0.733333));
    assert [seg1, seg2][1..] == [seg2] && [seg2][1..] == [];
    assert SumLengths([seg2]) == 21808 + SumLengths([]);
    assert SumLengths([seg1, seg2]) == 188 + SumLengths([seg2]);
    assert rows[..4][..3][..2][..1] == [rows[0]];
    assert LastFormatDuration(rows) == 10.119;
  }
}
