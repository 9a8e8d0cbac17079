/**
 * Properties of the I-frame segment fold that hold for every row sequence:
 * how many segments it appends, when it fails, which duration it returns,
 * and what it returns when the segment has no I-frame.
 */
module SynthesisProperties {
  import opened Wrappers
  import opened Synthesis

  /** A `frame` row whose picture type is `I`. */
  predicate IsIFrame(row: Row)
  {
    row.Frame? && row.pictType == "I"
  }

  /** The number of I-frame rows. */
  function CountIFrames(rows: seq<Row>): nat
  {
    if rows == [] then 0 else (if IsIFrame(rows[0]) then 1 else 0) + CountIFrames(rows[1..])
  }

  lemma {:induction false} CountIFramesSnoc(rows: seq<Row>, row: Row)
    ensures CountIFrames(rows + [row]) == CountIFrames(rows) + (if IsIFrame(row) then 1 else 0)
  {
    if rows == [] {
      assert rows + [row] == [row];
      assert [row][1..] == [];
    } else {
      assert (rows + [row])[1..] == rows[1..] + [row];
      CountIFramesSnoc(rows[1..], row);
    }
  }

  /** The duration field of the last `format` row, or 0 when there is none. */
  function LastFormatDuration(rows: seq<Row>): real
  {
    if rows == [] then 0.0
    else if rows[|rows| - 1].Format? then rows[|rows| - 1].duration
    else LastFormatDuration(rows[..|rows| - 1])
  }

  /** The fold succeeds exactly when every row is a `frame` or a `format` row. */
  lemma {:induction false} RunOkIff(uri: string, baseUri: string, rows: seq<Row>)
    ensures Run(uri, baseUri, rows).Ok? <==> forall i :: 0 <= i < |rows| ==> !rows[i].Other?
  {
    if rows != [] {
      var init := rows[..|rows| - 1];
      RunOkIff(uri, baseUri, init);
      assert forall i :: 0 <= i < |init| ==> init[i] == rows[i];
    }
  }

  /** The first row that is neither `frame` nor `format` is the one reported in the error. */
  lemma FirstInvalidRowReported(uri: string, baseUri: string, rows: seq<Row>, k: nat)
    requires k < |rows| && rows[k].Other?
    requires forall j :: 0 <= j < k ==> !rows[j].Other?
    ensures Run(uri, baseUri, rows) == Err(InvalidRowType(rows[k].tag))
  {
    var pre := rows[..k];
    RunOkIff(uri, baseUri, pre);
    assert rows[..k + 1][..k] == pre;
    RunErrPersists(uri, baseUri, rows, k + 1);
  }

  /** Exactly one segment is appended per I-frame row. */
  lemma {:induction false} SegmentCount(uri: string, baseUri: string, rows: seq<Row>)
    requires Run(uri, baseUri, rows).Ok?
    ensures |Run(uri, baseUri, rows).value.segments| == CountIFrames(rows)
  {
    if rows != [] {
      var init := rows[..|rows| - 1];
      SegmentCount(uri, baseUri, init);
      CountIFramesSnoc(init, rows[|rows| - 1]);
      assert init + [rows[|rows| - 1]] == rows;
    }
  }

  /** The returned video duration is the `duration` field of the last `format` row (not start plus duration), or 0. */
  lemma {:induction false} VideoDurationFromFormat(uri: string, baseUri: string, rows: seq<Row>)
    requires Run(uri, baseUri, rows).Ok?
    ensures Run(uri, baseUri, rows).value.videoDuration == LastFormatDuration(rows)
  {
    if rows != [] {
      VideoDurationFromFormat(uri, baseUri, rows[..|rows| - 1]);
    }
  }

  /** Without any I-frame row nothing is appended, nothing is counted and nothing is pending. */
  lemma {:induction false} NoIFramesNoSegments(uri: string, baseUri: string, rows: seq<Row>)
    requires Run(uri, baseUri, rows).Ok? && CountIFrames(rows) == 0
    ensures Run(uri, baseUri, rows).value.segments == []
    ensures Run(uri, baseUri, rows).value.totalSize == 0
    ensures Run(uri, baseUri, rows).value.prev == NoPrev
  {
    if rows != [] {
      var init := rows[..|rows| - 1];
      CountIFramesSnoc(init, rows[|rows| - 1]);
      assert init + [rows[|rows| - 1]] == rows;
      NoIFramesNoSegments(uri, baseUri, init);
    }
  }

  /** `create_iframe_segments` on a segment with no I-frame: no segments, size 0, and the format row's duration. */
  lemma NoIFramesResult(uri: string, baseUri: string, rows: seq<Row>)
    requires forall i :: 0 <= i < |rows| ==> !rows[i].Other?
    requires CountIFrames(rows) == 0
    ensures Synthesize(uri, baseUri, rows) == Ok(Synthesized([], 0, LastFormatDuration(rows)))
  {
    RunOkIff(uri, baseUri, rows);
    NoIFramesNoSegments(uri, baseUri, rows);
    VideoDurationFromFormat(uri, baseUri, rows);
  }

  /** Frame positions never go backwards, as in a transport stream read front to back. */
  predicate AscendingPositions(rows: seq<Row>)
  {
    forall i, j :: 0 <= i < j < |rows| && rows[i].Frame? && rows[j].Frame? ==> rows[i].position <= rows[j].position
  }

  /** The probe never reports a negative packet size. */
  predicate NonNegativeSizes(rows: seq<Row>)
  {
    forall i :: 0 <= i < |rows| && rows[i].Frame? ==> rows[i].size >= 0
  }

  /** A pending position and size are those of an earlier frame row. */
  lemma {:induction false} PendingFromEarlierRow(uri: string, baseUri: string, rows: seq<Row>)
    requires Run(uri, baseUri, rows).Ok?
    ensures
      var p := Run(uri, baseUri, rows).value.prev;
      p.position.Some? ==>
        exists i :: 0 <= i < |rows| && rows[i].Frame? && rows[i].position == p.position.value && p.size == Some(rows[i].size)
  {
    if rows != [] {
      var init, r := rows[..|rows| - 1], rows[|rows| - 1];
      PendingFromEarlierRow(uri, baseUri, init);
      var p := Run(uri, baseUri, rows).value.prev;
      var p0 := Run(uri, baseUri, init).value.prev;
      if IsIFrame(r) {
        assert rows[|rows| - 1] == r;
      } else if p.position.Some? {
        assert p == p0 || p == p0.(position := None);
        var i :| 0 <= i < |init| && init[i].Frame? && init[i].position == p0.position.value && p0.size == Some(init[i].size);
        assert rows[i] == init[i];
      }
    }
  }

  /** While positions ascend and sizes are non-negative, no row lowers the running size. */
  lemma TotalNonDecreasing(uri: string, baseUri: string, rows: seq<Row>, k: nat)
    requires AscendingPositions(rows) && NonNegativeSizes(rows)
    requires k < |rows| && Run(uri, baseUri, rows[..k + 1]).Ok?
    ensures Run(uri, baseUri, rows[..k]).Ok?
    ensures Run(uri, baseUri, rows[..k]).value.totalSize <= Run(uri, baseUri, rows[..k + 1]).value.totalSize
  {
    var pre := rows[..k];
    assert rows[..k + 1][..k] == pre;
    assert rows[..k + 1][k] == rows[k];
    PendingFromEarlierRow(uri, baseUri, pre);
    var st := Run(uri, baseUri, pre).value;
    if st.prev.position.Some? {
      var i :| 0 <= i < |pre| && pre[i].Frame? && pre[i].position == st.prev.position.value && st.prev.size == Some(pre[i].size);
      assert rows[i] == pre[i];
    }
  }

  /** With ascending positions and non-negative sizes the returned size is never negative. */
  lemma {:induction false} TotalNonNegative(uri: string, baseUri: string, rows: seq<Row>)
    requires AscendingPositions(rows) && NonNegativeSizes(rows)
    requires Run(uri, baseUri, rows).Ok?
    ensures Run(uri, baseUri, rows).value.totalSize >= 0
  {
    if rows != [] {
      var n := |rows| - 1;
      assert rows[..n + 1] == rows;
      TotalNonDecreasing(uri, baseUri, rows, n);
      var init := rows[..n];
      assert AscendingPositions(init) && NonNegativeSizes(init);
      TotalNonNegative(uri, baseUri, init);
    }
  }

  /** A lone I-frame closed by the format row spans to the end of the video and takes the probe's packet size. */
  lemma LoneIFrameClosedByFormat(uri: string, baseUri: string, pos: int, size: int)
    requires pos != 0
    ensures Synthesize(uri, baseUri, [Frame(10.0, pos, size, "I"), Format(9.881, 0.238)])
         == Ok(Synthesized([IframeSegment(uri, baseUri, Some(ByteRange(size, pos)), Some(0.119))], size, 0.238))
  {
    var rows := [Frame(10.0, pos, size, "I"), Format(9.881, 0.238)];
    var st1 := FoldState([NewSegment(uri, baseUri)], PrevIframe(Some(10.0), Some(pos), Some(size)), 0, 0.0);
    OneIFrameFirst(uri, baseUri, rows, 10.0, pos, size);
    assert rows[..|rows| - 1] == rows[..1];
    assert Run(uri, baseUri, rows) == Ok(FormatStep(st1, 9.881, 0.238));
    assert 9.881 + 0.238 - 10.0 == 0.119;
    var timed := SetLastDuration(st1.segments, 0.119);
    assert timed == [IframeSegment(uri, baseUri, None, Some(0.119))];
    assert SetLastByterange(timed, ByteRange(size, pos)) == [IframeSegment(uri, baseUri, Some(ByteRange(size, pos)), Some(0.119))];
  }

  /** After a first row that is an I-frame, the fold holds one fresh segment and that frame is pending. */
  lemma OneIFrameFirst(uri: string, baseUri: string, rows: seq<Row>, t: real, pos: int, size: int)
    requires |rows| > 0 && rows[0] == Frame(t, pos, size, "I")
    ensures Run(uri, baseUri, rows[..1]) == Ok(FoldState([NewSegment(uri, baseUri)], PrevIframe(Some(t), Some(pos), Some(size)), 0, 0.0))
  {
    var one := rows[..1];
    assert |one| == 1 && one[..0] == [] && one[0] == Frame(t, pos, size, "I");
    assert Run(uri, baseUri, one[..0]) == Ok(Initial);
    assert ConsumePosition(Initial, pos) == Initial;
    assert [] + [NewSegment(uri, baseUri)] == [NewSegment(uri, baseUri)];
    assert Run(uri, baseUri, one) == Step(Initial, uri, baseUri, one[0]);
  }
}
