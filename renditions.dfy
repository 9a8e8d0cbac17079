/**
 * `create_iframe_playlist` and `update_for_iframes`: the per-rendition
 * aggregation of I-frame segments, the skip rule for renditions without
 * usable data, the bandwidth, the I-frame playlist URI, and the ordered
 * filter over the renditions of a variant playlist.
 *
 * The m3u8 library objects are modelled by plain values: a loaded playlist
 * is the list of what the loader would have produced, and the text that
 * `dumps()` would write is represented by the structure it is written from.
 */
module Renditions {
  import opened Wrappers
  import opened TextOps
  import opened Synthesis
  import opened Codecs

  /** The exceptions that leave `update_for_iframes`. */
  datatype GeneratorError =
    | PlaylistLoadError(message: string)
    | BadPlaylistError(message: string)
    | DataError(segmentUri: string)
    | RowTypeError(tag: string)

  /** What probing one transport-stream segment gave: its rows, or a failed probe (exit status 1). */
  datatype ProbeOutput = Probed(rows: seq<Row>) | Unreadable

  /** A media segment of a rendition, with the probe output for its absolute URI. */
  datatype TsSegment = TsSegment(uri: string, baseUri: string, absoluteUri: string, probe: ProbeOutput)

  /** `m3u8.load(playlist.absolute_uri)`: the segments, an `IOError`, or no absolute URI at all. */
  datatype StreamLoad = Loaded(segments: seq<TsSegment>) | LoadFailed | NoAbsoluteUri

  /** One rendition of the variant playlist, as `master_playlist.playlists` lists it. */
  datatype Rendition = Rendition(uri: string, baseUri: string, codecs: Option<string>, stream: StreamLoad)

  /** The `iframe_stream_info` of a new I-frame playlist reference. */
  datatype IframeStreamInfo = IframeStreamInfo(bandwidth: int, codecs: Option<string>)

  /** The playlist-level tags `generate_m3u8_for_iframes` sets on every I-frame playlist. */
  datatype IframeHeader = IframeHeader(mediaSequence: int, version: string, targetDuration: int,
                                       playlistType: string, iFramesOnly: bool, endList: bool)

  const IframesHeader: IframeHeader := IframeHeader(0, "4", 10, "vod", true, true)

  /** An I-frame playlist document: its header and its segments, in the order they were added. */
  datatype IframeContent = IframeContent(header: IframeHeader, segments: seq<IframeSegment>)

  /** The `m3u8.IFramePlaylist` reference that goes into the master playlist. */
  datatype IframeReference = IframeReference(uri: string, baseUri: string, streamInfo: IframeStreamInfo)

  /** The `{'uri': ..., 'content': ...}` entry returned for a generated playlist. */
  datatype PlaylistData = PlaylistData(uri: string, content: IframeContent)

  /** What `create_iframe_playlist` returns for a rendition it does not skip. */
  datatype IframePlaylist = IframePlaylist(reference: IframeReference, data: PlaylistData)

  /** Sums over the transport-stream segments of one rendition. */
  datatype Totals = Totals(segments: seq<IframeSegment>, bytes: int, duration: real)

  /** The smallest integer not below `x` (Python's `int(ceil(x))`). */
  function Ceil(x: real): (n: int)
    ensures n as real >= x && (n as real) - 1.0 < x
  {
    var f := x.Floor;
    if f as real == x then f else f + 1
  }

  /** `int(ceil(total_bytes / total_duration * 8))` */
  function Bandwidth(bytes: int, duration: real): (n: int)
    requires duration != 0.0
    ensures n as real >= bytes as real / duration * 8.0
    ensures (n - 1) as real < bytes as real / duration * 8.0
  {
    Ceil(bytes as real / duration * 8.0)
  }

  /** `.m3u8` and what replaces it in an I-frame playlist URI. */
  const Extension: string := ".m3u8"
  const IframeExtension: string := "-iframes.m3u8"

  /** `playlist.uri.replace('.m3u8', '-iframes.m3u8')`: never shorter, and a URI without `.m3u8` is left as it is. */
  function IframeUri(uri: string): (r: string)
    ensures |uri| <= |r|
    ensures !Contains(uri, Extension) ==> r == uri
  {
    Replace(uri, Extension, IframeExtension)
  }

  /** `extract_iframe_metadata` followed by `create_iframe_segments` for one segment. */
  function SegmentResult(seg: TsSegment): (r: Result<Synthesized, GeneratorError>)
    ensures seg.probe.Unreadable? ==> r == Err(DataError(seg.absoluteUri))
    ensures r.Ok? ==> seg.probe.Probed? && |r.value.segments| <= |seg.probe.rows|
    ensures r.Err? && seg.probe.Probed? ==> r.error.RowTypeError? && HasOtherRow(seg.probe.rows, r.error.tag)
  {
    match seg.probe
    case Unreadable => Err(DataError(seg.absoluteUri))
    case Probed(rows) =>
      match Synthesize(seg.uri, seg.baseUri, rows)
      case Err(InvalidRowType(tag)) => Err(RowTypeError(tag))
      case Ok(s) => Ok(s)
  }

  /** Some media segment fails with error `e`. */
  predicate SomeSegmentFails(segs: seq<TsSegment>, e: GeneratorError)
  {
    exists i :: 0 <= i < |segs| && SegmentResult(segs[i]).Err? && SegmentResult(segs[i]).error == e
  }

  /** The accumulator loop of `create_iframe_playlist` over the first segments; the first failure aborts it. */
  function Aggregate(segs: seq<TsSegment>): (r: Result<Totals, GeneratorError>)
    ensures r.Err? ==> SomeSegmentFails(segs, r.error)
  {
    if segs == [] then Ok(Totals([], 0, 0.0))
    else Accumulate(Aggregate(segs[..|segs| - 1]), SegmentResult(segs[|segs| - 1]))
  }

  /** One pass of the accumulator loop: add a segment's I-frame segments, bytes and duration; a failure aborts. */
  function Accumulate(acc: Result<Totals, GeneratorError>, s: Result<Synthesized, GeneratorError>): (r: Result<Totals, GeneratorError>)
    ensures r.Ok? <==> acc.Ok? && s.Ok?
    ensures acc.Err? ==> r == acc
    ensures r.Ok? ==> |acc.value.segments| <= |r.value.segments| && r.value.segments[..|acc.value.segments|] == acc.value.segments
  {
    match acc
    case Err(e) => Err(e)
    case Ok(t) =>
      match s
      case Err(e) => Err(e)
      case Ok(x) => Ok(Totals(t.segments + x.segments, t.bytes + x.totalSize, t.duration + x.videoDuration))
  }

  /** `create_iframe_playlist`: `None` when the rendition yields no bytes or no duration. */
  function IframePlaylistFor(p: Rendition): (r: Result<Option<IframePlaylist>, GeneratorError>)
    ensures r.Ok? && r.value.Some? ==> r.value.value.reference.uri == IframeUri(p.uri) == r.value.value.data.uri
  {
    match p.stream
    case LoadFailed => Err(PlaylistLoadError("Invalid stream url"))
    case NoAbsoluteUri => Err(BadPlaylistError("Invalid playlist - no absolute uri"))
    case Loaded(segs) =>
      match Aggregate(segs)
      case Err(e) => Err(e)
      case Ok(t) =>
        if t.bytes != 0 && t.duration != 0.0 then
          var uri := IframeUri(p.uri);
          var info := IframeStreamInfo(Bandwidth(t.bytes, t.duration), ConvertCodecsForIframes(p.codecs));
          Ok(Some(IframePlaylist(IframeReference(uri, p.baseUri, info), PlaylistData(uri, IframeContent(IframesHeader, t.segments)))))
        else Ok(None)
  }

  /** Once the accumulation has failed on a prefix, it fails the same way on every longer prefix. */
  lemma {:induction false} AggregateErrPersists(segs: seq<TsSegment>, k: nat)
    requires k <= |segs| && Aggregate(segs[..k]).Err?
    ensures Aggregate(segs) == Aggregate(segs[..k])
    decreases |segs| - k
  {
    if k < |segs| {
      assert segs[..k + 1][..k] == segs[..k];
      AggregateErrPersists(segs, k + 1);
    } else {
      assert segs[..k] == segs;
    }
  }

  /** `iframe_playlist.add_segment` for each new segment in turn. */
  method AddSegments(content: IframeContent, segs: seq<IframeSegment>) returns (c: IframeContent)
    ensures c == IframeContent(content.header, content.segments + segs)
  {
    c := content;
    var j := 0;
    while j < |segs|
      invariant 0 <= j <= |segs|
      invariant c == IframeContent(content.header, content.segments + segs[..j])
    {
      c := c.(segments := c.segments + [segs[j]]);
      assert segs[..j + 1] == segs[..j] + [segs[j]];
      j := j + 1;
    }
    assert segs[..j] == segs;
  }

  /** `create_iframe_playlist`, accumulating the segments and the totals in place. */
  method CreateIframePlaylist(playlist: Rendition) returns (r: Result<Option<IframePlaylist>, GeneratorError>)
    ensures r == IframePlaylistFor(playlist)
  {
    var segs: seq<TsSegment>;
    match playlist.stream {
      case LoadFailed => return Err(PlaylistLoadError("Invalid stream url"));
      case NoAbsoluteUri => return Err(BadPlaylistError("Invalid playlist - no absolute uri"));
      case Loaded(s) => segs := s;
    }
    var iframePlaylist := IframeContent(IframesHeader, []);
    var totalBytes := 0;
    var totalDuration := 0.0;
    var i := 0;
    while i < |segs|
      invariant 0 <= i <= |segs|
      invariant iframePlaylist.header == IframesHeader
      invariant Aggregate(segs[..i]) == Ok(Totals(iframePlaylist.segments, totalBytes, totalDuration))
    {
      assert segs[..i + 1][..i] == segs[..i];
      var segment := segs[i];
      var rows: seq<Row>;
      match segment.probe {
        case Unreadable =>
          AggregateErrPersists(segs, i + 1);
          return Err(DataError(segment.absoluteUri));
        case Probed(rs) => rows := rs;
      }
      var res := CreateIframeSegments(segment.uri, segment.baseUri, rows);
      match res {
        case Err(InvalidRowType(tag)) =>
          AggregateErrPersists(segs, i + 1);
          return Err(RowTypeError(tag));
        case Ok(_) =>
      }
      var synthesized := res.value;
      iframePlaylist := AddSegments(iframePlaylist, synthesized.segments);
      totalBytes := totalBytes + synthesized.totalSize;
      totalDuration := totalDuration + synthesized.videoDuration;
      i := i + 1;
    }
    assert segs[..i] == segs;
    if totalBytes != 0 && totalDuration != 0.0 {
      var bandwidth := Ceil(totalBytes as real / totalDuration * 8.0);
      var streamInfo := IframeStreamInfo(bandwidth, ConvertCodecsForIframes(playlist.codecs));
      var uri := IframeUri(playlist.uri);
      var reference := IframeReference(uri, playlist.baseUri, streamInfo);
      return Ok(Some(IframePlaylist(reference, PlaylistData(uri, iframePlaylist))));
    } else {
      return Ok(None);
    }
  }

  /** A variant (master) playlist: its renditions and its I-frame playlist references. */
  datatype MasterPlaylist = MasterPlaylist(isVariant: bool, playlists: seq<Rendition>, iframePlaylists: seq<IframeReference>)

  /** `m3u8.load(url)`: the master playlist, or an `IOError`. */
  datatype MasterLoad = MasterLoaded(master: MasterPlaylist) | MasterLoadFailed

  /** The dictionary `update_for_iframes` returns; the master content is the playlist it is written from. */
  datatype UpdateResult = UpdateResult(masterUri: string, masterContent: MasterPlaylist, iframePlaylists: seq<PlaylistData>)

  /** `url.split('/')[-1]`: the '/'-free tail of the URL, after its last '/' unless it is the whole URL. */
  function LastPathPart(url: string): (r: string)
    ensures '/' !in r && |r| <= |url| && url[|url| - |r|..] == r
    ensures |r| < |url| ==> url[|url| - |r| - 1] == '/'
  {
    LastPieceIsSuffix(url, '/');
    var parts := Split(url, '/');
    parts[|parts| - 1]
  }

  /** The I-frame playlists made for the first renditions, skipped ones left out, in rendition order: at most one per rendition. */
  function Collect(ps: seq<Rendition>): (r: Result<seq<IframePlaylist>, GeneratorError>)
    ensures r.Ok? ==> |r.value| <= |ps|
  {
    if ps == [] then Ok([])
    else
      match Collect(ps[..|ps| - 1])
      case Err(e) => Err(e)
      case Ok(made) =>
        match IframePlaylistFor(ps[|ps| - 1])
        case Err(e) => Err(e)
        case Ok(None) => Ok(made)
        case Ok(Some(x)) => Ok(made + [x])
  }

  /** The references `add_iframe_playlist` adds, one per generated playlist. */
  function References(made: seq<IframePlaylist>): (refs: seq<IframeReference>)
    ensures |refs| == |made|
  {
    seq(|made|, i requires 0 <= i < |made| => made[i].reference)
  }

  /** The entries appended to `result['iframe_playlists']`, one per generated playlist. */
  function DataOf(made: seq<IframePlaylist>): (data: seq<PlaylistData>)
    ensures |data| == |made|
  {
    seq(|made|, i requires 0 <= i < |made| => made[i].data)
  }

  /** `update_for_iframes`: a successful update comes from a loaded variant master and keeps its renditions. */
  function UpdateFor(url: string, load: MasterLoad): (r: Result<UpdateResult, GeneratorError>)
    ensures r.Ok? ==> load.MasterLoaded? && r.value.masterContent.playlists == load.master.playlists && r.value.masterContent.isVariant
  {
    match load
    case MasterLoadFailed => Err(PlaylistLoadError("Invalid url"))
    case MasterLoaded(m) =>
      if !m.isVariant then Err(BadPlaylistError("Not a variant playlist"))
      else
        match Collect(m.playlists)
        case Err(e) => Err(e)
        case Ok(made) => Ok(UpdateResult(LastPathPart(url), m.(iframePlaylists := References(made)), DataOf(made)))
  }

  /** Once collecting has failed on a prefix of the renditions, it fails the same way on every longer prefix. */
  lemma {:induction false} CollectErrPersists(ps: seq<Rendition>, k: nat)
    requires k <= |ps| && Collect(ps[..k]).Err?
    ensures Collect(ps) == Collect(ps[..k])
    decreases |ps| - k
  {
    if k < |ps| {
      assert ps[..k + 1][..k] == ps[..k];
      CollectErrPersists(ps, k + 1);
    } else {
      assert ps[..k] == ps;
    }
  }

  /** `update_for_iframes`: clears the I-frame references of the master and adds one per generated playlist. */
  method UpdateForIframes(url: string, load: MasterLoad) returns (r: Result<UpdateResult, GeneratorError>)
    ensures r == UpdateFor(url, load)
  {
    var masterPlaylist: MasterPlaylist;
    match load {
      case MasterLoadFailed => return Err(PlaylistLoadError("Invalid url"));
      case MasterLoaded(m) => masterPlaylist := m;
    }
    if !masterPlaylist.isVariant {
      return Err(BadPlaylistError("Not a variant playlist"));
    }
    masterPlaylist := masterPlaylist.(iframePlaylists := []);
    var uri := LastPathPart(url);
    var iframePlaylists: seq<PlaylistData> := [];
    var playlists := masterPlaylist.playlists;
    ghost var made: seq<IframePlaylist> := [];
    var i := 0;
    while i < |playlists|
      invariant 0 <= i <= |playlists|
      invariant playlists == load.master.playlists
      invariant masterPlaylist == load.master.(iframePlaylists := References(made))
      invariant iframePlaylists == DataOf(made)
      invariant Collect(playlists[..i]) == Ok(made)
    {
      assert playlists[..i + 1][..i] == playlists[..i];
      var created := CreateIframePlaylist(playlists[i]);
      match created {
        case Err(e) =>
          CollectErrPersists(playlists, i + 1);
          return Err(e);
        case Ok(None) =>
        case Ok(Some(x)) =>
          masterPlaylist := masterPlaylist.(iframePlaylists := masterPlaylist.iframePlaylists + [x.reference]);
          iframePlaylists := iframePlaylists + [x.data];
          made := made + [x];
      }
      i := i + 1;
    }
    assert playlists[..i] == playlists;
    return Ok(UpdateResult(uri, masterPlaylist, iframePlaylists));
  }
}
