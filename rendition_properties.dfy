/**
 * Properties of the per-rendition step: the I-frame playlist URI never
 * collides, the bandwidth is the rounded-up bit rate, the totals are sums
 * over the segments, and a rendition is skipped exactly when it has no
 * I-frame bytes or no duration.
 */
module RenditionProperties {
  import opened Wrappers
  import opened TextOps
  import opened Synthesis
  import opened SynthesisProperties
  import opened SynthesisReference
  import opened Codecs
  import opened Renditions

  /** Only the empty URI maps to the empty URI. */
  lemma IframeUriEmpty(s: string)
    ensures IframeUri(s) == "" <==> s == ""
  {
    if s != "" && !StartsWith(s, Extension) {
      assert IframeUri(s)[0] == s[0];
    }
  }

  /** Matching a word against a string with a known first character. */
  lemma StartsWithCons(c: char, s: string, w: string)
    requires |w| > 0
    ensures StartsWith([c] + s, w) <==> c == w[0] && StartsWith(s, w[1..])
  {
    if |w| <= |s| + 1 {
      assert ([c] + s)[..|w|] == [c] + s[..|w| - 1];
      assert w == [w[0]] + w[1..];
    }
  }

  /** A string that starts with a word starts with each prefix of it. */
  lemma StartsWithPrefix(s: string, w: string, n: nat)
    requires n <= |w|
    ensures StartsWith(s, w) ==> StartsWith(s, w[..n])
  {
    if StartsWith(s, w) {
      assert s[..n] == s[..|w|][..n];
    }
  }

  /** A URI starting with `.m3u8` is rewritten to one starting with '-'. */
  lemma ReplacedHead(v: string)
    requires StartsWith(v, Extension)
    ensures IframeUri(v) == ['-'] + (IframeExtension[1..] + IframeUri(v[5..]))
  {
    assert IframeExtension == ['-'] + IframeExtension[1..];
  }

  /** A prefix without '-' of the output was copied from the input: replacements always start with '-'. */
  lemma {:induction false} PlainPrefix(v: string, w: string)
    requires '-' !in w
    ensures StartsWith(IframeUri(v), w) ==> StartsWith(v, w)
    decreases |w|
  {
    if |w| > 0 && |v| > 0 {
      assert w[0] in w;
      if StartsWith(v, Extension) {
        ReplacedHead(v);
        StartsWithCons('-', IframeExtension[1..] + IframeUri(v[5..]), w);
      } else {
        assert IframeUri(v) == [v[0]] + IframeUri(v[1..]);
        StartsWithCons(v[0], IframeUri(v[1..]), w);
        assert v == [v[0]] + v[1..];
        StartsWithCons(v[0], v[1..], w);
        assert forall k :: 0 <= k < |w[1..]| ==> w[1..][k] == w[k + 1];
        PlainPrefix(v[1..], w[1..]);
      }
    }
  }

  /** Output without '-' that holds `.m3u8` never starts a replaced URI: every `.m3u8` of the input was replaced. */
  lemma {:induction false} ExtensionNotForged(v: string, w: string)
    requires '-' !in w && Contains(w, Extension)
    ensures !StartsWith(IframeUri(v), w)
    decreases |w|
  {
    assert w[0] in w;
    if |v| > 0 {
      if StartsWith(v, Extension) {
        ReplacedHead(v);
        StartsWithCons('-', IframeExtension[1..] + IframeUri(v[5..]), w);
      } else {
        var u := IframeUri(v[1..]);
        assert IframeUri(v) == [v[0]] + u;
        StartsWithCons(v[0], u, w);
        if StartsWith(w, Extension) {
          assert w[1..][..4] == w[1..5];
          assert forall k :: 0 <= k < |w[1..5]| ==> w[1..5][k] == w[k + 1];
          StartsWithPrefix(u, w[1..], 4);
          PlainPrefix(v[1..], w[1..5]);
          assert v == [v[0]] + v[1..];
          assert w[..5] == Extension && w[..5][1..] == w[1..5];
          StartsWithCons(v[0], v[1..], w[..5]);
        } else {
          assert forall k :: 0 <= k < |w[1..]| ==> w[1..][k] == w[k + 1];
          ExtensionNotForged(v[1..], w[1..]);
        }
      }
    }
  }

  /** The output starts with `-iframes.m3u8` exactly when the input starts with `.m3u8`. */
  lemma MarkerIffExtension(v: string)
    ensures StartsWith(IframeUri(v), IframeExtension) <==> StartsWith(v, Extension)
  {
    if |v| > 0 {
      if StartsWith(v, Extension) {
        assert IframeUri(v) == IframeExtension + IframeUri(v[5..]);
        assert (IframeExtension + IframeUri(v[5..]))[..|IframeExtension|] == IframeExtension;
      } else {
        var u := IframeUri(v[1..]);
        assert IframeUri(v) == [v[0]] + u;
        var w := IframeExtension[1..];
        assert forall k :: 0 <= k < |w| ==> w[k] != '-';
        assert w[7..] == Extension;
        ContainsAt(w, Extension, 7);
        ExtensionNotForged(v[1..], w);
        StartsWithCons(v[0], u, IframeExtension);
      }
    }
  }

  /** `Contains` holds when the word starts at some index. */
  lemma {:induction false} ContainsAt(s: string, w: string, k: nat)
    requires k <= |s| && StartsWith(s[k..], w)
    ensures Contains(s, w)
    decreases k
  {
    if k > 0 {
      assert s[1..][k - 1..] == s[k..];
      ContainsAt(s[1..], w, k - 1);
    }
  }

  /** Two different rendition URIs never get the same I-frame playlist URI. */
  lemma {:induction false} IframeUriInjective(s1: string, s2: string)
    requires IframeUri(s1) == IframeUri(s2)
    ensures s1 == s2
    decreases |s1|
  {
    IframeUriEmpty(s1);
    IframeUriEmpty(s2);
    if s1 != "" {
      MarkerIffExtension(s1);
      MarkerIffExtension(s2);
      if StartsWith(s1, Extension) {
        var t := IframeUri(s1[5..]);
        assert IframeUri(s1) == IframeExtension + t;
        assert IframeUri(s2) == IframeExtension + IframeUri(s2[5..]);
        assert t == IframeUri(s1)[13..];
        IframeUriInjective(s1[5..], s2[5..]);
        assert s1 == s1[..5] + s1[5..] && s2 == s2[..5] + s2[5..];
      } else {
        assert IframeUri(s1) == [s1[0]] + IframeUri(s1[1..]);
        assert IframeUri(s2) == [s2[0]] + IframeUri(s2[1..]);
        assert IframeUri(s1[1..]) == IframeUri(s1)[1..];
        IframeUriInjective(s1[1..], s2[1..]);
        assert s1 == [s1[0]] + s1[1..] && s2 == [s2[0]] + s2[1..];
      }
    }
  }

  /** A stem without '.' followed by `.m3u8` gets `-iframes` inserted before the extension. */
  lemma {:induction false} IframeUriOfStem(stem: string)
    requires forall k :: 0 <= k < |stem| ==> stem[k] != '.'
    ensures IframeUri(stem + Extension) == stem + IframeExtension
  {
    if stem == [] {
      assert stem + Extension == Extension;
      assert Extension[5..] == "";
      assert IframeExtension + "" == IframeExtension;
    } else {
      var s := stem + Extension;
      assert s[1..] == stem[1..] + Extension;
      IframeUriOfStem(stem[1..]);
      assert s[0] != '.';
      assert IframeUri(s) == [s[0]] + IframeUri(s[1..]);
    }
  }

  /** The rendition of the sample master playlist. */
  lemma IframeUriExample()
    ensures IframeUri("bigbuckbunny-400k.m3u8") == "bigbuckbunny-400k-iframes.m3u8"
  {
    var stem := "bigbuckbunny-400k";
    assert forall k :: 0 <= k < |stem| ==> stem[k] != '.';
    IframeUriOfStem(stem);
    assert stem + Extension == "bigbuckbunny-400k.m3u8";
    assert stem + IframeExtension == "bigbuckbunny-400k-iframes.m3u8" by {
      assert IframeExtension == "-iframes.m3u8";
      assert |stem + IframeExtension| == 30;
    }
  }

  /** Rounding up keeps the order of its arguments. */
  lemma CeilMonotone(x: real, y: real)
    requires x <= y
    ensures Ceil(x) <= Ceil(y)
  {
  }

  /** The advertised bandwidth is the least whole number of bits per second that covers the bit rate. */
  lemma BandwidthIsLeastCover(bytes: int, duration: real, n: int)
    requires duration != 0.0
    requires n as real >= bytes as real / duration * 8.0
    ensures Bandwidth(bytes, duration) as real >= bytes as real / duration * 8.0
    ensures n >= Bandwidth(bytes, duration)
  {
  }

  /** More bytes over the same duration never lower the advertised bandwidth. */
  lemma BandwidthMonotone(bytes1: int, bytes2: int, duration: real)
    requires duration > 0.0 && bytes1 <= bytes2
    ensures Bandwidth(bytes1, duration) <= Bandwidth(bytes2, duration)
  {
    var x := bytes1 as real / duration;
    var y := bytes2 as real / duration;
    assert x * duration == bytes1 as real && y * duration == bytes2 as real;
    assert x <= y;
    CeilMonotone(x * 8.0, y * 8.0);
  }

  /** The totals of two runs of segments, one after the other; the first failure wins. */
  function Combine(x: Result<Totals, GeneratorError>, y: Result<Totals, GeneratorError>): Result<Totals, GeneratorError>
  {
    match x
    case Err(e) => Err(e)
    case Ok(t) =>
      match y
      case Err(e) => Err(e)
      case Ok(u) => Ok(Totals(t.segments + u.segments, t.bytes + u.bytes, t.duration + u.duration))
  }

  /** Adding one more segment after two runs is adding it to the second run. */
  lemma AccumulateCombine(x: Result<Totals, GeneratorError>, y: Result<Totals, GeneratorError>, s: Result<Synthesized, GeneratorError>)
    ensures Accumulate(Combine(x, y), s) == Combine(x, Accumulate(y, s))
  {
    if x.Ok? && y.Ok? && s.Ok? {
      assert x.value.segments + y.value.segments + s.value.segments == x.value.segments + (y.value.segments + s.value.segments);
    }
  }

  /** The totals over a rendition are sums over its parts, segments kept in order. */
  lemma {:induction false} AggregateAppend(a: seq<TsSegment>, b: seq<TsSegment>)
    ensures Aggregate(a + b) == Combine(Aggregate(a), Aggregate(b))
    decreases |b|
  {
    if b == [] {
      assert a + b == a;
      if Aggregate(a).Ok? {
        assert Aggregate(a).value.segments + [] == Aggregate(a).value.segments;
      }
    } else {
      var n := |b| - 1;
      assert (a + b)[..|a + b| - 1] == a + b[..n];
      assert (a + b)[|a + b| - 1] == b[n];
      AggregateAppend(a, b[..n]);
      AccumulateCombine(Aggregate(a), Aggregate(b[..n]), SegmentResult(b[n]));
    }
  }

  /** A segment whose probe succeeded and whose rows are all `frame` or `format` rows. */
  predicate Usable(seg: TsSegment)
  {
    seg.probe.Probed? && forall j :: 0 <= j < |seg.probe.rows| ==> !seg.probe.rows[j].Other?
  }

  /** The accumulation fails exactly when some segment cannot be probed or holds a row of another type. */
  lemma {:induction false} AggregateOkIff(segs: seq<TsSegment>)
    ensures Aggregate(segs).Ok? <==> forall i :: 0 <= i < |segs| ==> Usable(segs[i])
  {
    if segs != [] {
      var n := |segs| - 1;
      var seg := segs[n];
      AggregateOkIff(segs[..n]);
      assert forall i :: 0 <= i < n ==> segs[..n][i] == segs[i];
      if seg.probe.Probed? {
        RunOkIff(seg.uri, seg.baseUri, seg.probe.rows);
      }
    }
  }

  /** Every probed segment is made of frame rows closed by at most one final `format` row. */
  predicate WellFormedStream(segs: seq<TsSegment>)
  {
    forall i :: 0 <= i < |segs| ==> segs[i].probe.Probed? && WellFormed(segs[i].probe.rows)
  }

  /** The I-frame segments the reference predicts for each media segment, one media segment after another. */
  function ExpectedStream(segs: seq<TsSegment>): seq<IframeSegment>
    requires forall i :: 0 <= i < |segs| ==> segs[i].probe.Probed?
  {
    if segs == [] then []
    else
      var seg := segs[|segs| - 1];
      ExpectedStream(segs[..|segs| - 1]) + ExpectedSegments(seg.uri, seg.baseUri, seg.probe.rows)
  }

  /** The durations of the closing `format` rows of the media segments, added up one media segment after another. */
  function StreamDuration(segs: seq<TsSegment>): real
    requires forall i :: 0 <= i < |segs| ==> segs[i].probe.Probed?
  {
    if segs == [] then 0.0
    else StreamDuration(segs[..|segs| - 1]) + LastFormatDuration(segs[|segs| - 1].probe.rows)
  }

  /**
   * For well-formed probe output the playlist lists the reference segments,
   * its byte total is their byte ranges' total and its duration is the sum of
   * the segments' `format` durations.
   */
  lemma {:induction false} AggregateMatchesReference(segs: seq<TsSegment>)
    requires WellFormedStream(segs)
    ensures Aggregate(segs).Ok?
    ensures Aggregate(segs).value.segments == ExpectedStream(segs)
    ensures Aggregate(segs).value.bytes == SumLengths(ExpectedStream(segs))
    ensures Aggregate(segs).value.duration == StreamDuration(segs)
  {
    if segs != [] {
      var n := |segs| - 1;
      var init := segs[..n];
      var seg := segs[n];
      assert WellFormedStream(init) by {
        assert forall i :: 0 <= i < n ==> init[i] == segs[i];
      }
      AggregateMatchesReference(init);
      var t := Aggregate(init).value;
      var x := SegmentFromReference(seg);
      assert Aggregate(segs) == Accumulate(Ok(t), Ok(x));
      AccumulateOk(t, x);
      SumLengthsAppend(ExpectedStream(init), x.segments);
    }
  }

  /** A segment that went through adds its segments, bytes and duration to the totals. */
  lemma AccumulateOk(t: Totals, x: Synthesized)
    ensures Accumulate(Ok(t), Ok(x)) == Ok(Totals(t.segments + x.segments, t.bytes + x.totalSize, t.duration + x.videoDuration))
  {
  }

  /** What one well-formed media segment contributes, as the reference describes it. */
  lemma SegmentFromReference(seg: TsSegment) returns (x: Synthesized)
    requires seg.probe.Probed? && WellFormed(seg.probe.rows)
    ensures SegmentResult(seg) == Ok(x)
    ensures x.segments == ExpectedSegments(seg.uri, seg.baseUri, seg.probe.rows)
    ensures x.totalSize == SumLengths(x.segments)
    ensures x.videoDuration == LastFormatDuration(seg.probe.rows)
  {
    var rows := seg.probe.rows;
    FoldMatchesReference(seg.uri, seg.baseUri, rows);
    VideoDurationFromFormat(seg.uri, seg.baseUri, rows);
    var st := Run(seg.uri, seg.baseUri, rows).value;
    x := Synthesized(st.segments, st.totalSize, st.videoDuration);
  }

  /** Segments with no I-frame add no playlist segment and no bytes. */
  lemma {:induction false} AggregateNoIFrames(segs: seq<TsSegment>)
    requires forall i :: 0 <= i < |segs| ==> Usable(segs[i]) && CountIFrames(segs[i].probe.rows) == 0
    ensures Aggregate(segs).Ok?
    ensures Aggregate(segs).value.segments == [] && Aggregate(segs).value.bytes == 0
  {
    if segs != [] {
      var n := |segs| - 1;
      var seg := segs[n];
      assert forall i :: 0 <= i < n ==> segs[..n][i] == segs[i];
      AggregateNoIFrames(segs[..n]);
      NoIFramesResult(seg.uri, seg.baseUri, seg.probe.rows);
    }
  }

  /** A rendition without any I-frame is left out of the master playlist. */
  lemma NoIFramesSkipped(p: Rendition)
    requires p.stream.Loaded?
    requires forall i :: 0 <= i < |p.stream.segments| ==> Usable(p.stream.segments[i]) && CountIFrames(p.stream.segments[i].probe.rows) == 0
    ensures IframePlaylistFor(p) == Ok(None)
  {
    AggregateNoIFrames(p.stream.segments);
  }

  /**
   * For well-formed probe output a rendition is skipped exactly when the
   * reference segments have no bytes or the `format` durations add up to
   * zero; otherwise its I-frame playlist sits beside it under the rewritten
   * URI, advertises the filtered codecs and the rounded-up bit rate of those
   * totals, and lists the reference segments.
   */
  lemma IframePlaylistOutcome(p: Rendition)
    requires p.stream.Loaded? && WellFormedStream(p.stream.segments)
    ensures
      var segs := p.stream.segments;
      var bytes := SumLengths(ExpectedStream(segs));
      var duration := StreamDuration(segs);
      var r := IframePlaylistFor(p);
      r.Ok? && (r.value.None? <==> bytes == 0 || duration == 0.0) &&
      (r.value.Some? ==>
        var x := r.value.value;
        x.reference.uri == IframeUri(p.uri) && x.data.uri == x.reference.uri &&
        x.reference.baseUri == p.baseUri &&
        x.reference.streamInfo.codecs == ConvertCodecsForIframes(p.codecs) &&
        x.data.content == IframeContent(IframesHeader, ExpectedStream(segs)) &&
        x.reference.streamInfo.bandwidth as real >= bytes as real / duration * 8.0 &&
        (x.reference.streamInfo.bandwidth - 1) as real < bytes as real / duration * 8.0)
  {
    AggregateMatchesReference(p.stream.segments);
  }

  /** Loading failures are reported before any segment is looked at. */
  lemma LoadErrors(p: Rendition)
    ensures p.stream.LoadFailed? ==> IframePlaylistFor(p) == Err(PlaylistLoadError("Invalid stream url"))
    ensures p.stream.NoAbsoluteUri? ==> IframePlaylistFor(p) == Err(BadPlaylistError("Invalid playlist - no absolute uri"))
    ensures p.stream.Loaded? ==> (IframePlaylistFor(p).Ok? <==> forall i :: 0 <= i < |p.stream.segments| ==> Usable(p.stream.segments[i]))
  {
    if p.stream.Loaded? {
      AggregateOkIff(p.stream.segments);
    }
  }
}
