/**
 * `create_iframe_segments`, `_process_video_frame` and `_process_video_details`:
 * the fold that turns the probe rows of one transport-stream segment into
 * I-frame segments, each with a byterange `length@offset` and a duration,
 * together with the running size of the byteranges and the video duration.
 *
 * The pure functions `FrameStep`, `FormatStep` and `Run` state what one row
 * and what all rows do; the class `SegmentFold` and the method
 * `CreateIframeSegments` perform the same fold by updating state in place,
 * as the Python code does, and are proved to agree with them.
 */
module Synthesis {
  import opened Wrappers

  /** A row type that is neither `frame` nor `format`. */
  type OtherTag = t: string | t != "frame" && t != "format"

  /** One row of the probe output, already split into typed fields; `Other` is a row whose first field names neither handler. */
  datatype Row =
    | Frame(displayedAt: real, position: int, size: int, pictType: string)
    | Format(startTime: real, duration: real)
    | Other(tag: OtherTag)

  /** An HLS byterange `length@offset`. */
  datatype ByteRange = ByteRange(length: int, offset: int)

  /** An `m3u8.Segment`; `byterange` and `duration` are `None` until the fold writes them. */
  datatype IframeSegment = IframeSegment(
    uri: string,
    baseUri: string,
    byterange: Option<ByteRange>,
    duration: Option<real>)

  /** The `prev_iframe` dictionary: each field may be `None`. */
  datatype PrevIframe = PrevIframe(displayedAt: Option<real>, position: Option<int>, size: Option<int>)

  const NoPrev: PrevIframe := PrevIframe(None, None, None)

  /** The `ValueError` raised for a row that is neither `frame` nor `format`. */
  datatype SynthError = InvalidRowType(tag: string)

  /** Python's truth value of an optional number: `None` and zero are false. */
  predicate TruthyReal(x: Option<real>) { x.Some? && x.value != 0.0 }
  predicate TruthyInt(x: Option<int>) { x.Some? && x.value != 0 }

  /** Everything the fold carries from one row to the next. */
  datatype FoldState = FoldState(
    segments: seq<IframeSegment>,
    prev: PrevIframe,
    totalSize: int,
    videoDuration: real)

  /** What `create_iframe_segments` returns: the segments, `iframes_total_size`, `video_duration`. */
  datatype Synthesized = Synthesized(segments: seq<IframeSegment>, totalSize: int, videoDuration: real)

  const Initial: FoldState := FoldState([], NoPrev, 0, 0.0)

  /**
   * The last-segment invariant: while `prev_iframe` holds any field, the
   * segment list is non-empty (so `iframe_segments[-1]` exists), and a
   * position always comes with its size.
   */
  predicate Consistent(st: FoldState)
  {
    && ((st.prev.displayedAt.Some? || st.prev.position.Some? || st.prev.size.Some?) ==> |st.segments| > 0)
    && (st.prev.position.Some? ==> st.prev.size.Some?)
  }

  /** `iframe_segments[-1].byterange = ...` */
  function SetLastByterange(segs: seq<IframeSegment>, br: ByteRange): (r: seq<IframeSegment>)
    requires |segs| > 0
    ensures |r| == |segs| && r[..|r| - 1] == segs[..|segs| - 1]
    ensures r[|r| - 1] == segs[|segs| - 1].(byterange := Some(br))
  {
    segs[|segs| - 1 := segs[|segs| - 1].(byterange := Some(br))]
  }

  /** `iframe_segments[-1].duration = ...` */
  function SetLastDuration(segs: seq<IframeSegment>, d: real): (r: seq<IframeSegment>)
    requires |segs| > 0
    ensures |r| == |segs| && r[..|r| - 1] == segs[..|segs| - 1]
    ensures r[|r| - 1] == segs[|segs| - 1].(duration := Some(d))
  {
    segs[|segs| - 1 := segs[|segs| - 1].(duration := Some(d))]
  }

  /** A fresh segment of the transport stream, with nothing written yet. */
  function NewSegment(uri: string, baseUri: string): IframeSegment
  {
    IframeSegment(uri, baseUri, None, None)
  }

  /**
   * The first half of `_process_video_frame`: a pending I-frame position gets
   * its byterange, `(pos - position)@position`, from this frame's position,
   * the length is added to the running size, and the position is cleared.
   */
  function ConsumePosition(st: FoldState, pos: int): (r: FoldState)
    requires Consistent(st)
    ensures Consistent(r)
    ensures |r.segments| == |st.segments| && r.videoDuration == st.videoDuration
    ensures |st.segments| == 0 || r.segments[..|st.segments| - 1] == st.segments[..|st.segments| - 1]
    ensures r.prev.displayedAt == st.prev.displayedAt && r.prev.size == st.prev.size
  {
    var p := st.prev;
    if TruthyInt(p.position) then
      var length := pos - p.position.value;
      FoldState(SetLastByterange(st.segments, ByteRange(length, p.position.value)),
                p.(position := None), st.totalSize + length, st.videoDuration)
    else st
  }

  /**
   * The second half of `_process_video_frame`, for an I-frame: a pending time
   * closes the previous span, `t - displayed_at`, then a new segment is
   * appended and this frame becomes the pending I-frame.
   */
  function OpenIframe(st: FoldState, uri: string, baseUri: string, t: real, pos: int, size: int): (r: FoldState)
    requires Consistent(st)
    ensures Consistent(r)
    ensures |r.segments| == |st.segments| + 1 && r.segments[|r.segments| - 1] == NewSegment(uri, baseUri)
    ensures |st.segments| == 0 || r.segments[..|st.segments| - 1] == st.segments[..|st.segments| - 1]
    ensures r.prev == PrevIframe(Some(t), Some(pos), Some(size))
    ensures r.totalSize == st.totalSize && r.videoDuration == st.videoDuration
  {
    var p := st.prev;
    var segs := if TruthyReal(p.displayedAt) then SetLastDuration(st.segments, t - p.displayedAt.value) else st.segments;
    FoldState(segs + [NewSegment(uri, baseUri)], PrevIframe(Some(t), Some(pos), Some(size)), st.totalSize, st.videoDuration)
  }

  /** `_process_video_frame`: one `frame` row. */
  function FrameStep(st: FoldState, uri: string, baseUri: string, t: real, pos: int, size: int, pictType: string): (r: FoldState)
    requires Consistent(st)
    ensures Consistent(r)
    ensures |r.segments| == |st.segments| + (if pictType == "I" then 1 else 0)
    ensures |st.segments| == 0 || r.segments[..|st.segments| - 1] == st.segments[..|st.segments| - 1]
    ensures pictType == "I" ==> r.segments[|r.segments| - 1] == NewSegment(uri, baseUri)
    ensures pictType == "I" ==> r.prev == PrevIframe(Some(t), Some(pos), Some(size))
    ensures r.videoDuration == st.videoDuration
  {
    var st1 := ConsumePosition(st, pos);
    if pictType == "I" then OpenIframe(st1, uri, baseUri, t, pos, size) else st1
  }

  /**
   * `_process_video_details`: the pending I-frame spans to the end of the
   * video, a position still pending takes the probe-reported size, and the
   * video duration is the row's duration. `prev_iframe` is left as it is.
   */
  function FormatStep(st: FoldState, start: real, duration: real): (r: FoldState)
    requires Consistent(st)
    ensures Consistent(r)
    ensures |r.segments| == |st.segments| && r.prev == st.prev
    ensures r.videoDuration == duration
  {
    var p := st.prev;
    var segs1 := if TruthyReal(p.displayedAt) then SetLastDuration(st.segments, start + duration - p.displayedAt.value) else st.segments;
    if TruthyInt(p.position) then
      FoldState(SetLastByterange(segs1, ByteRange(p.size.value, p.position.value)), p, st.totalSize + p.size.value, duration)
    else
      FoldState(segs1, p, st.totalSize, duration)
  }

  /** One iteration of the `for row in iframes_and_format` loop. */
  function Step(st: FoldState, uri: string, baseUri: string, row: Row): (r: Result<FoldState, SynthError>)
    requires Consistent(st)
    ensures r.Ok? ==> Consistent(r.value)
    ensures r.Err? <==> row.Other?
  {
    match row
    case Frame(t, pos, size, ty) => Ok(FrameStep(st, uri, baseUri, t, pos, size, ty))
    case Format(start, duration) => Ok(FormatStep(st, start, duration))
    case Other(tag) => Err(InvalidRowType(tag))
  }

  /** Some row is neither `frame` nor `format` and has type `tag`. */
  predicate HasOtherRow(rows: seq<Row>, tag: string)
  {
    exists i :: 0 <= i < |rows| && rows[i].Other? && rows[i].tag == tag
  }

  /** The fold over all rows; the first invalid row aborts it. */
  function Run(uri: string, baseUri: string, rows: seq<Row>): (r: Result<FoldState, SynthError>)
    ensures r.Ok? ==> Consistent(r.value)
    ensures r.Ok? ==> |r.value.segments| <= |rows|
    ensures r.Err? ==> HasOtherRow(rows, r.error.tag)
  {
    if rows == [] then Ok(Initial)
    else
      var init := rows[..|rows| - 1];
      assert forall i :: 0 <= i < |init| ==> init[i] == rows[i];
      match Run(uri, baseUri, init)
      case Err(e) => Err(e)
      case Ok(st) => Step(st, uri, baseUri, rows[|rows| - 1])
  }

  /** `create_iframe_segments` on the rows the probe produced for one segment. */
  function Synthesize(uri: string, baseUri: string, rows: seq<Row>): (r: Result<Synthesized, SynthError>)
    ensures r.Ok? ==> |r.value.segments| <= |rows|
    ensures r.Err? ==> HasOtherRow(rows, r.error.tag)
  {
    match Run(uri, baseUri, rows)
    case Err(e) => Err(e)
    case Ok(st) => Ok(Synthesized(st.segments, st.totalSize, st.videoDuration))
  }

  /** The mutable state shared by `create_iframe_segments` and its two helpers. */
  class SegmentFold {
    const segmentUri: string
    const segmentBaseUri: string
    var iframeSegments: seq<IframeSegment>
    var prevIframe: PrevIframe
    var iframesTotalSize: int

    function State(videoDuration: real): FoldState
      reads this
    {
      FoldState(iframeSegments, prevIframe, iframesTotalSize, videoDuration)
    }

    constructor (uri: string, baseUri: string)
      ensures segmentUri == uri && segmentBaseUri == baseUri
      ensures State(0.0) == Initial
    {
      segmentUri, segmentBaseUri := uri, baseUri;
      iframeSegments, prevIframe, iframesTotalSize := [], NoPrev, 0;
    }

    /** `_process_video_frame` */
    method ProcessVideoFrame(t: real, pos: int, size: int, pictType: string)
      requires Consistent(State(0.0))
      modifies this
      ensures forall d :: State(d) == FrameStep(old(State(d)), segmentUri, segmentBaseUri, t, pos, size, pictType)
    {
      if TruthyInt(prevIframe.position) {
        var prevIframeSize := pos - prevIframe.position.value;
        iframeSegments := SetLastByterange(iframeSegments, ByteRange(prevIframeSize, prevIframe.position.value));
        iframesTotalSize := iframesTotalSize + prevIframeSize;
        prevIframe := prevIframe.(position := None);
      }
      if pictType == "I" {
        if TruthyReal(prevIframe.displayedAt) {
          iframeSegments := SetLastDuration(iframeSegments, t - prevIframe.displayedAt.value);
          prevIframe := prevIframe.(displayedAt := None);
        }
        iframeSegments := iframeSegments + [NewSegment(segmentUri, segmentBaseUri)];
        prevIframe := PrevIframe(Some(t), Some(pos), Some(size));
      }
    }

    /** `_process_video_details`; returns the video duration. */
    method ProcessVideoDetails(start: real, duration: real) returns (videoDuration: real)
      requires Consistent(State(0.0))
      modifies this
      ensures forall d :: State(videoDuration) == FormatStep(old(State(d)), start, duration)
    {
      videoDuration := duration;
      if TruthyReal(prevIframe.displayedAt) {
        iframeSegments := SetLastDuration(iframeSegments, start + duration - prevIframe.displayedAt.value);
      }
      if TruthyInt(prevIframe.position) {
        iframeSegments := SetLastByterange(iframeSegments, ByteRange(prevIframe.size.value, prevIframe.position.value));
        iframesTotalSize := iframesTotalSize + prevIframe.size.value;
      }
    }
  }

  /** Once the fold has failed on a prefix, it fails the same way on every longer prefix. */
  lemma {:induction false} RunErrPersists(uri: string, baseUri: string, rows: seq<Row>, k: nat)
    requires k <= |rows| && Run(uri, baseUri, rows[..k]).Err?
    ensures Run(uri, baseUri, rows) == Run(uri, baseUri, rows[..k])
    decreases |rows| - k
  {
    if k < |rows| {
      assert rows[..k + 1][..k] == rows[..k];
      RunErrPersists(uri, baseUri, rows, k + 1);
    } else {
      assert rows[..k] == rows;
    }
  }

  /** `create_iframe_segments`: reads the rows one at a time, updating the shared state in place. */
  method CreateIframeSegments(uri: string, baseUri: string, rows: seq<Row>) returns (r: Result<Synthesized, SynthError>)
    ensures r == Synthesize(uri, baseUri, rows)
  {
    var fold := new SegmentFold(uri, baseUri);
    var videoDuration: real := 0.0;
    var i := 0;
    while i < |rows|
      invariant 0 <= i <= |rows|
      invariant fold.segmentUri == uri && fold.segmentBaseUri == baseUri
      invariant Run(uri, baseUri, rows[..i]) == Ok(fold.State(videoDuration))
    {
      assert rows[..i + 1][..i] == rows[..i];
      match rows[i] {
        case Frame(t, pos, size, pictType) =>
          fold.ProcessVideoFrame(t, pos, size, pictType);
        case Format(start, duration) =>
          videoDuration := fold.ProcessVideoDetails(start, duration);
        case Other(tag) =>
          RunErrPersists(uri, baseUri, rows, i + 1);
          return Err(InvalidRowType(tag));
      }
      i := i + 1;
    }
    assert rows[..i] == rows;
    return Ok(Synthesized(fold.iframeSegments, fold.iframesTotalSize, videoDuration));
  }
}
