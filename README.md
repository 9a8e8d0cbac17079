# I-frame playlist generator, modelled in Dafny

The generator takes an HLS variant (master) playlist. For every rendition it
builds an I-frame-only playlist and adds a reference to it to the master
playlist.

For each transport-stream segment of a rendition, a probe lists the video
frames as rows `frame,<time>,<byte position>,<packet size>,<picture type>`.
The last row is `format,<start time>,<duration>`. A fold over these rows makes
one I-frame segment per `I` frame:

- The byterange is `length@offset`. Its length is the distance to the next
  frame's position. When the I-frame was the last frame, the probe's packet
  size is used instead.
- The duration runs to the next I-frame. When there is no later I-frame, it
  runs to the end of the video (`start + duration`).

The fold also keeps a running byte total and returns the video duration.

Per rendition, the segments, bytes and durations of all media segments are
added up. A rendition with zero bytes or zero duration is skipped. Otherwise
its I-frame playlist:

- advertises `ceil(bytes / duration * 8)` as its bandwidth;
- advertises the video (`avc1`) entries of the rendition's CODECS;
- is named after the rendition's URI with `.m3u8` replaced by
  `-iframes.m3u8`.

The update clears the master's old I-frame references. It then adds one
reference per generated playlist, in rendition order. It also returns the
master's file name, which is the last `/` component of the URL.

The project has these modules:

- `Wrappers`: `Option` and `Result`.
- `TextOps`: the Python string operations the generator uses (`split`,
  `strip`, `join`, `in`, `replace`), with Python's semantics.
- `Codecs`: `convert_codecs_for_iframes`.
- `Synthesis`: the row fold.
  - `FrameStep`, `FormatStep` and `Run` are pure functions that say what one
    row, and all rows, do.
  - The class `SegmentFold` and the method `CreateIframeSegments` perform the
    fold in place, as `create_iframe_segments`, `_process_video_frame` and
    `_process_video_details` do. They are proved equal to `Run`.
- `SynthesisProperties`: properties of the fold that hold for every row
  sequence.
- `SynthesisReference`: an independent, look-ahead description of the
  expected segments. Each I-frame's byterange and duration are read off the
  rows that follow it. The fold is proved to produce exactly these segments.
- `Renditions`: `create_iframe_playlist` (the method `CreateIframePlaylist`)
  and `update_for_iframes` (the method `UpdateForIframes`). Each is proved
  equal to a specification function.
- `RenditionProperties` and `UpdateProperties`: what those two promise.

Python truth values are kept explicit. A pending time or position of `0` (or
`0.0`) counts as absent, as `if prev_iframe['position']:` does.
`SynthesisReference.FalsyFieldsNotPending` states the consequence.

A probe row is a `frame` row, a `format` row, or `Other(tag)`, whose tag is
neither `frame` nor `format`: exactly the rows the fold rejects.

## Model

| member | source | states |
|---|---|---|
| TextOps.LStrip | iframeplaylistgenerator/generator.py:308 | the result is a suffix of the input that does not start with whitespace, and every character dropped is whitespace |
| TextOps.RStrip | iframeplaylistgenerator/generator.py:308 | the result is a prefix of the input that does not end with whitespace, and every character dropped is whitespace |
| TextOps.Strip | iframeplaylistgenerator/generator.py:308 | `k.strip()` leaves no whitespace at either end, and it is a slice of the input with only whitespace before and after it: exactly the leading and trailing whitespace is removed |
| TextOps.Contains | iframeplaylistgenerator/generator.py:308 | a word found by `in` is no longer than the string it is found in |
| TextOps.StripIsSlice | iframeplaylistgenerator/generator.py:308 | every character of a stripped entry comes from the entry |
| TextOps.Split | iframeplaylistgenerator/generator.py:307 | `split(',')` gives at least one piece and no piece contains the separator |
| TextOps.Join | iframeplaylistgenerator/generator.py:308 | a join of at least one piece starts with the first piece |
| TextOps.JoinSplit | iframeplaylistgenerator/generator.py:307-308 | joining the pieces of a split with the separator gives the original string back |
| TextOps.Replace | iframeplaylistgenerator/generator.py:91 | a string without the pattern comes back unchanged, and a replacement at least as long as the pattern never shortens the string |
| TextOps.LastPieceIsSuffix | iframeplaylistgenerator/generator.py:36 | the last piece of a split is a suffix, preceded by the separator unless it is the whole string |
| Codecs.ConvertCodecsForIframes | iframeplaylistgenerator/generator.py:302-310 | an absent codec string stays absent and a present one never becomes absent |
| Codecs.KeepVideo | iframeplaylistgenerator/generator.py:308 | the comprehension never yields more entries than it was given |
| Codecs.KeepVideoEntries | iframeplaylistgenerator/generator.py:307-308 | every kept entry is stripped, contains `avc1` and holds no comma |
| Codecs.RefilterEntries | iframeplaylistgenerator/generator.py:307-308 | splitting a ", "-joined list of video entries and filtering it again gives the same entries |
| Codecs.ConvertCodecsIdempotent | iframeplaylistgenerator/generator.py:302-310 | filtering an already filtered codec string returns it unchanged |
| Codecs.NoVideoGivesEmpty | iframeplaylistgenerator/generator.py:308 | with no `avc1` entry the result is empty |
| Codecs.KeepVideoAppend | iframeplaylistgenerator/generator.py:308 | the filter works entry by entry and keeps order: filtering a concatenation concatenates the results |
| Codecs.ConvertCodecsExample | tests/test_iframeplaylistgenerator.py:57-59 | `"avc1.4d001f, mp4a.40.5"` becomes `"avc1.4d001f"` |
| Synthesis.SetLastByterange | iframeplaylistgenerator/generator.py:189-190 | only the last segment changes, and only its byterange |
| Synthesis.SetLastDuration | iframeplaylistgenerator/generator.py:198-199 | only the last segment changes, and only its duration |
| Synthesis.ConsumePosition | iframeplaylistgenerator/generator.py:183-192 | keeps the last-segment invariant; segment count, earlier segments, pending time and size unchanged |
| Synthesis.OpenIframe | iframeplaylistgenerator/generator.py:194-205 | appends exactly one fresh segment, leaves earlier segments alone, makes this frame the pending I-frame, keeps the size |
| Synthesis.FrameStep | iframeplaylistgenerator/generator.py:150-207 | one segment more exactly for an `I` frame; earlier segments untouched; the new I-frame is pending; invariant kept |
| Synthesis.FormatStep | iframeplaylistgenerator/generator.py:210-247 | segment count and pending record unchanged; the video duration becomes the row's duration; invariant kept |
| Synthesis.Step | iframeplaylistgenerator/generator.py:133-145 | a row fails exactly when it is neither `frame` nor `format` |
| Synthesis.Run | iframeplaylistgenerator/generator.py:119-147 | after any prefix, whenever a field is pending there is a last segment to write to; a success has at most one segment per row; a failure names the tag of some row that is neither `frame` nor `format` |
| Synthesis.SegmentFold.constructor | iframeplaylistgenerator/generator.py:119-132 | the fold starts with no segments, nothing pending and size 0 |
| Synthesis.SegmentFold.ProcessVideoFrame | iframeplaylistgenerator/generator.py:150-207 | the in-place update leaves exactly the state `FrameStep` describes |
| Synthesis.SegmentFold.ProcessVideoDetails | iframeplaylistgenerator/generator.py:210-247 | the in-place update leaves exactly the state `FormatStep` describes and returns the video duration |
| Synthesis.RunErrPersists | iframeplaylistgenerator/generator.py:143-145 | an invalid row aborts the fold: the error of a prefix is the error of the whole |
| Synthesis.Synthesize | iframeplaylistgenerator/generator.py:115-147 | `create_iframe_segments` returns at most one I-frame segment per row, and an error it raises names the type of some row that is neither `frame` nor `format` |
| Synthesis.CreateIframeSegments | iframeplaylistgenerator/generator.py:115-147 | the loop over rows returns exactly `Synthesize` of the rows |
| SynthesisProperties.RunOkIff | iframeplaylistgenerator/generator.py:133-145 | the fold succeeds if and only if every row is `frame` or `format` |
| SynthesisProperties.FirstInvalidRowReported | iframeplaylistgenerator/generator.py:143-145 | the error names the first invalid row's type |
| SynthesisProperties.SegmentCount | iframeplaylistgenerator/generator.py:194-202 | the number of segments equals the number of `I` frame rows |
| SynthesisProperties.VideoDurationFromFormat | iframeplaylistgenerator/generator.py:233-247 | the returned duration is the last `format` row's duration field (not start plus duration), or 0 |
| SynthesisProperties.NoIFramesNoSegments | iframeplaylistgenerator/generator.py:119-147 | without an I-frame there are no segments, size 0 and nothing pending |
| SynthesisProperties.NoIFramesResult | iframeplaylistgenerator/generator.py:115-147 | without an I-frame the result is no segments, 0 bytes and the format row's duration |
| SynthesisProperties.PendingFromEarlierRow | iframeplaylistgenerator/generator.py:203-205 | a pending position and size are those of an earlier frame row |
| SynthesisProperties.TotalNonDecreasing | iframeplaylistgenerator/generator.py:186-191 | with ascending positions and non-negative sizes, no row lowers the running size |
| SynthesisProperties.TotalNonNegative | iframeplaylistgenerator/generator.py:240-246 | under the same conditions the returned size is never negative |
| SynthesisProperties.OneIFrameFirst | iframeplaylistgenerator/generator.py:201-205 | a first `I` frame yields one fresh segment with that frame pending |
| SynthesisProperties.LoneIFrameClosedByFormat | iframeplaylistgenerator/generator.py:234-246 | a last I-frame spans `start + duration - time` (0.119 s for 9.881 + 0.238 - 10.0) and takes the packet size as its byterange length |
| SynthesisReference.ExpectedCount | iframeplaylistgenerator/generator.py:194-202 | the reference lists one segment per `I` frame |
| SynthesisReference.SumLengthsAppend | iframeplaylistgenerator/generator.py:191 | byterange totals add up over concatenation |
| SynthesisReference.RunFrames | iframeplaylistgenerator/generator.py:150-207 | over frame rows the fold's whole state is the look-ahead reference's |
| SynthesisReference.FoldMatchesReference | iframeplaylistgenerator/generator.py:133-147 | for frame rows closed by at most one final `format` row, the fold succeeds, its segments are the reference segments (each byterange `next position - position @ position`, or the packet size at the end; each duration up to the next I-frame or the end of the video), and its size is the sum of their byterange lengths |
| SynthesisReference.PendingFieldsUnset | iframeplaylistgenerator/generator.py:183-200 | while frame rows are read, a pending position or time points at a byterange or duration of the last segment that is still unset |
| SynthesisReference.ExpectedSegmentAt | iframeplaylistgenerator/generator.py:194-205 | for every row holding an `I` frame, the reference has a segment at the index given by the number of `I` frames before it, and that segment is the one read off the rows that follow |
| SynthesisReference.FalsyFieldsNotPending | iframeplaylistgenerator/generator.py:183-199 | for every well-formed row sequence and every `I` frame in it: at byte position 0 its segment never gets a byterange and adds 0 bytes; at time 0.0 its segment never gets a duration |
| SynthesisReference.WritesLandOnUnsetFields | iframeplaylistgenerator/generator.py:183-246 | for well-formed rows every byterange and duration write lands on an unset field, so each is written at most once |
| SynthesisReference.SampleSecondHalf | tests/test_iframeplaylistgenerator.py:69-75 | from the sample's second I-frame on, the reference gives 21808@188376 for 0.733333 s |
| SynthesisReference.SampleExpected | tests/test_iframeplaylistgenerator.py:69-75 | the sample's rows give the reference segments 188@3008 for 9.266667 s and 21808@188376 for 0.733333 s |
| SynthesisReference.SampleSegments | tests/test_iframeplaylistgenerator.py:69-75 | the sample segment's rows give 188@3008 for 9.266667 s and 21808@188376 for 0.733333 s, 21996 bytes, 10.119 s |
| Renditions.Ceil | iframeplaylistgenerator/generator.py:84 | `int(ceil(x))` is the least integer not below `x` |
| Renditions.Bandwidth | iframeplaylistgenerator/generator.py:84 | the bandwidth is the least integer not below `bytes / duration * 8` |
| Renditions.IframeUri | iframeplaylistgenerator/generator.py:91 | the I-frame playlist URI is never shorter than the rendition URI, and a URI without `.m3u8` is kept as it is |
| Renditions.SegmentResult | iframeplaylistgenerator/generator.py:123-124 | an unreadable segment fails with `DataError` for its absolute URI; a success comes from probe rows and has at most one I-frame segment per row; any other failure is `RowTypeError` naming some row of another type |
| Renditions.Aggregate | iframeplaylistgenerator/generator.py:73-81 | a failed accumulation reports the error of some media segment |
| Renditions.Accumulate | iframeplaylistgenerator/generator.py:78-81 | one pass succeeds exactly when the totals so far and the segment did; an earlier failure is kept as it is; the segments so far stay a prefix of the new ones |
| Renditions.AggregateErrPersists | iframeplaylistgenerator/generator.py:76-81 | a failing media segment aborts the whole rendition with its error |
| Renditions.AddSegments | iframeplaylistgenerator/generator.py:78-79 | `add_segment` in a loop appends all new segments in order and keeps the playlist header |
| Renditions.IframePlaylistFor | iframeplaylistgenerator/generator.py:52-98 | a generated playlist's reference and its returned entry both carry the rewritten URI |
| Renditions.CreateIframePlaylist | iframeplaylistgenerator/generator.py:52-98 | the accumulator loop and the skip, bandwidth, codec and URI steps return exactly `IframePlaylistFor` |
| Renditions.LastPathPart | iframeplaylistgenerator/generator.py:36 | the master URI holds no '/', is a suffix of the URL, and follows a '/' unless it is the whole URL |
| Renditions.Collect | iframeplaylistgenerator/generator.py:41-46 | the loop over renditions yields at most one I-frame playlist per rendition |
| Renditions.CollectErrPersists | iframeplaylistgenerator/generator.py:40-46 | a failing rendition aborts the whole update with its error |
| Renditions.UpdateFor | iframeplaylistgenerator/generator.py:22-49 | a successful update came from a loaded variant master and keeps its renditions |
| Renditions.UpdateForIframes | iframeplaylistgenerator/generator.py:22-49 | the load and variant checks, clearing the references and the ordered loop over renditions return exactly `UpdateFor` |
| RenditionProperties.IframeUriEmpty | iframeplaylistgenerator/generator.py:91 | only the empty URI is rewritten to the empty URI |
| RenditionProperties.PlainPrefix | iframeplaylistgenerator/generator.py:91 | a prefix of the rewritten URI that holds no '-' was copied from the original |
| RenditionProperties.ExtensionNotForged | iframeplaylistgenerator/generator.py:91 | no `.m3u8` survives the rewrite except inside an inserted `-iframes.m3u8` |
| RenditionProperties.MarkerIffExtension | iframeplaylistgenerator/generator.py:91 | the rewritten URI starts with `-iframes.m3u8` if and only if the original starts with `.m3u8` |
| RenditionProperties.IframeUriInjective | iframeplaylistgenerator/generator.py:91 | two different rendition URIs never get the same I-frame playlist URI |
| RenditionProperties.IframeUriOfStem | iframeplaylistgenerator/generator.py:91 | a stem without '.' plus `.m3u8` becomes the stem plus `-iframes.m3u8` |
| RenditionProperties.IframeUriExample | tests/test_iframeplaylistgenerator.py:84-91 | `bigbuckbunny-400k.m3u8` becomes `bigbuckbunny-400k-iframes.m3u8` |
| RenditionProperties.CeilMonotone | iframeplaylistgenerator/generator.py:84 | rounding up preserves order |
| RenditionProperties.BandwidthIsLeastCover | iframeplaylistgenerator/generator.py:83-84 | the bandwidth covers `bytes / duration * 8` and is at most any integer that covers it |
| RenditionProperties.BandwidthMonotone | iframeplaylistgenerator/generator.py:84 | over the same positive duration, more bytes never give a lower bandwidth |
| RenditionProperties.AccumulateCombine | iframeplaylistgenerator/generator.py:78-81 | one more media segment after two runs is one more for the second run |
| RenditionProperties.AggregateAppend | iframeplaylistgenerator/generator.py:76-81 | the totals of a rendition are the sums over its parts, segments in order, the first failure winning |
| RenditionProperties.AggregateOkIff | iframeplaylistgenerator/generator.py:76-81 | the accumulation succeeds if and only if every media segment probes and has only `frame` and `format` rows |
| RenditionProperties.AggregateMatchesReference | iframeplaylistgenerator/generator.py:73-81 | for well-formed probe output the playlist lists the reference segments of every media segment in order, the byte total is their byterange total, and the duration is the sum of the media segments' `format` durations |
| RenditionProperties.AggregateNoIFrames | iframeplaylistgenerator/generator.py:76-81 | media segments without I-frames add no segment and no bytes |
| RenditionProperties.NoIFramesSkipped | iframeplaylistgenerator/generator.py:83-86 | a rendition without any I-frame is skipped |
| RenditionProperties.IframePlaylistOutcome | iframeplaylistgenerator/generator.py:73-98 | for well-formed probe output the rendition is skipped if and only if the reference segments' byterange lengths add up to 0 or the `format` durations add up to 0; otherwise reference and entry share the rewritten URI, keep the base URI, carry the filtered codecs, the fixed I-frame header, the reference segments, and those totals' rounded-up bit rate |
| RenditionProperties.LoadErrors | iframeplaylistgenerator/generator.py:66-71 | an unreadable stream is `PlaylistLoadError`, a missing absolute URI is `BadPlaylistError`, and a loaded stream fails if and only if some media segment is unusable |
| UpdateProperties.CollectAppend | iframeplaylistgenerator/generator.py:40-46 | collecting over two runs of renditions concatenates their playlists in order, the first failure winning |
| UpdateProperties.SkippedLeavesNoTrace | iframeplaylistgenerator/generator.py:42-43 | a skipped rendition changes nothing in the result |
| UpdateProperties.CollectOkIff | iframeplaylistgenerator/generator.py:40-46 | the update succeeds if and only if every rendition is processed without error |
| UpdateProperties.FirstFailureReported | iframeplaylistgenerator/generator.py:40-41 | the error of the first failing rendition is the update's error |
| UpdateProperties.CollectNoneSkipped | iframeplaylistgenerator/generator.py:40-46 | when no rendition is skipped, the k-th playlist is the k-th rendition's |
| UpdateProperties.CollectedAreGenerated | iframeplaylistgenerator/generator.py:40-46 | every collected playlist was generated for some rendition, and its reference and entry share one URI |
| UpdateProperties.UpdateLinksMatch | iframeplaylistgenerator/generator.py:34-48 | a successful update came from a variant playlist, keeps its renditions, and its k-th I-frame reference and k-th returned playlist share one URI |
| UpdateProperties.StaleReferencesIgnored | iframeplaylistgenerator/generator.py:34 | the I-frame references the master already had do not affect the result |
| UpdateProperties.UpdateIdempotent | iframeplaylistgenerator/generator.py:34-48 | updating the returned master again gives the same result |
| UpdateProperties.MasterUriIsLastComponent | iframeplaylistgenerator/generator.py:36 | the master URI has no '/', ends the URL, and follows a '/' unless it is the whole URL |
| UpdateProperties.LastPathPartOfPath | tests/test_iframeplaylistgenerator.py:94-98 | a URL ending in `/<name>` with a '/'-free name has `<name>` as master URI |

## Left out

- `extract_iframe_metadata` (iframeplaylistgenerator/generator.py:250-299) runs `ffprobe` and `grep` as subprocesses. It is not modelled.
  - A media segment's probe output is an input: either typed rows or `Unreadable`.
  - `Unreadable` stands for ffprobe's exit status 1 and gives `DataError` with the segment's absolute URI. The stderr detail of the message is not modelled.
  - The `grep` filters are not modelled, so the fold accepts any row sequence. They keep I-frame lines plus the line after each, plus the format line, and drop lines containing `N/A`.
- The `ffprobe -version` check and its `DependencyError` (lines 56-59) are not modelled. They depend on the environment only.
- The m3u8 library is not modelled. `m3u8.load` becomes an input value: `MasterLoad` for the master playlist, `StreamLoad` for a rendition's stream.
  - The `not master_playlist` half of the check at line 31 is not modelled: a loaded master is always present.
  - `dumps()` serialisation is not modelled. An I-frame playlist's content is its header and segments. The master content is the updated `MasterPlaylist` value.
  - `generate_m3u8_for_iframes` is the constant `IframesHeader`.
- CSV parsing and `float()` / `int()` are not modelled, so rows arrive typed. A malformed number (`ValueError`) and an empty CSV line (`IndexError` on `row[0]`) are outside the model.
- Floating point is not modelled: times, durations and the bandwidth quotient are exact reals. Bandwidth is an integer, not the string `str(...)`. A byterange is a pair, not the text `'{}@{}'`.
- Aliasing is not modelled. `m3u8.Segment` objects are values, and writing through `iframe_segments[-1]` is a functional update of the last element. `prev_iframe` rebinding is a field assignment.
- Synthesis.SegmentFold.ProcessVideoFrame and Synthesis.SegmentFold.ProcessVideoDetails require the last-segment invariant (`Consistent`). Python would raise `IndexError` without it. `Run` proves the fold always keeps it.
- SynthesisReference.FoldMatchesReference and SynthesisReference.WritesLandOnUnsetFields are stated only for well-formed probe output: frame rows, then at most one final `format` row.
  - `_process_video_details` does not clear the pending record. Rows after a `format` row can therefore rewrite the last byterange and count its size twice.
- RenditionProperties.AggregateMatchesReference, RenditionProperties.IframePlaylistOutcome and SynthesisReference.FalsyFieldsNotPending rely on that reference, so they too are stated only for well-formed probe output. RenditionProperties.LoadErrors and RenditionProperties.AggregateOkIff cover the success or failure of every other input.
- Behaviour of the code that the model keeps as written, though it is easy to misread:
  - The byte total is a running total of the sizes added while rows are read. It is proved equal to the sum of the final byterange lengths for well-formed rows (`FoldMatchesReference`). A frame row after a `format` row, while a position is still pending, counts that size twice.
  - An empty probe output is not an error; only ffprobe's exit status 1 raises `DataError`. A media segment with empty output contributes no segments, 0 bytes and 0 s (`NoIFramesResult`).
  - A pending field counts as present only when it is truthy, so a time of 0.0 or a position of 0 counts as absent (`SynthesisReference.FalsyFieldsNotPending`).
- The generator's exceptions module, `setup.py` and the tests are not modelled. The tests' sample values appear in the example lemmas.
