/**
 * `convert_codecs_for_iframes`: keep only the video (`avc1`) entries of an
 * HLS CODECS attribute, so that it describes an I-frame-only playlist.
 */
module Codecs {
  import opened Wrappers
  import opened TextOps

  /** The marker that identifies a video codec entry. */
  const VideoMarker: string := "avc1"

  /** The list comprehension `[k.strip() for k in entries if 'avc1' in k]`: never more entries than it was given. */
  function KeepVideo(entries: seq<string>): (r: seq<string>)
    ensures |r| <= |entries|
  {
    if entries == [] then []
    else (if Contains(entries[0], VideoMarker) then [Strip(entries[0])] else []) + KeepVideo(entries[1..])
  }

  /**
   * `None` stays `None`; otherwise the entries between commas that contain
   * `avc1`, stripped, joined with ", " (possibly the empty string).
   */
  function ConvertCodecsForIframes(codecs: Option<string>): (r: Option<string>)
    ensures r.None? <==> codecs.None?
  {
    match codecs
    case None => None
    case Some(c) => Some(Join(KeepVideo(Split(c, ',')), ", "))
  }

  /** What every entry kept by the filter looks like. */
  predicate VideoEntry(e: string)
  {
    Stripped(e) && Contains(e, VideoMarker) && ',' !in e
  }

  /** Entries kept from comma-free pieces are stripped, comma-free video entries. */
  lemma {:induction false} KeepVideoEntries(entries: seq<string>)
    requires forall i :: 0 <= i < |entries| ==> ',' !in entries[i]
    ensures forall i :: 0 <= i < |KeepVideo(entries)| ==> VideoEntry(KeepVideo(entries)[i])
  {
    if entries != [] {
      var e := entries[0];
      var rest := KeepVideo(entries[1..]);
      KeepVideoEntries(entries[1..]);
      if Contains(e, VideoMarker) {
        StrippedVideoEntry(e);
        var kept := [Strip(e)] + rest;
        assert KeepVideo(entries) == kept;
        forall i | 0 <= i < |kept|
          ensures VideoEntry(kept[i])
        {
          if i > 0 {
            assert kept[i] == rest[i - 1];
          }
        }
      } else {
        assert KeepVideo(entries) == rest;
      }
    }
  }

  /** A comma-free piece holding `avc1` is a video entry once stripped. */
  lemma StrippedVideoEntry(e: string)
    requires ',' !in e && Contains(e, VideoMarker)
    ensures VideoEntry(Strip(e))
  {
    ContainsStrip(e, VideoMarker);
    if ',' in Strip(e) {
      StripIsSlice(e, ',');
    }
  }

  /** Each entry after the first, as `split(',')` sees it in a ", "-joined string. */
  function Spaced(xs: seq<string>): (r: seq<string>)
    ensures |r| == |xs|
  {
    if xs == [] then [] else [" " + xs[0]] + Spaced(xs[1..])
  }

  /** Splitting a ", "-joined list of comma-free entries gives them back, each after the first with its leading space. */
  lemma {:induction false} SplitJoined(es: seq<string>)
    requires |es| > 0
    requires forall i :: 0 <= i < |es| ==> ',' !in es[i]
    ensures Split(Join(es, ", "), ',') == [es[0]] + Spaced(es[1..])
  {
    if |es| == 1 {
      assert es[0] + "" == es[0];
      SplitGlued(es[0], "", ',');
      assert Split("", ',') == [""];
      assert es[1..] == [];
    } else {
      var tail := Join(es[1..], ", ");
      SplitJoined(es[1..]);
      assert es[1..][0] == es[1];
      var r := Split(tail, ',');
      assert r == [es[1]] + Spaced(es[2..]) by {
        assert es[1..][1..] == es[2..];
      }
      assert Join(es, ", ") == es[0] + ([','] + (" " + tail));
      SplitGlued(es[0], [','] + (" " + tail), ',');
      assert ([','] + (" " + tail))[1..] == " " + tail;
      SplitGlued(" ", tail, ',');
      assert Split([','] + (" " + tail), ',') == [""] + Split(" " + tail, ',');
      assert Split(" " + tail, ',') == [" " + es[1]] + Spaced(es[2..]);
      assert Spaced(es[1..]) == [" " + es[1]] + Spaced(es[2..]);
      var x := [','] + (" " + tail);
      assert Split(x, ',')[0] == "" && Split(x, ',')[1..] == Split(" " + tail, ',');
      assert es[0] + "" == es[0];
    }
  }

  /** The filter keeps and un-spaces entries that are already video entries. */
  lemma {:induction false} KeepVideoSpaced(xs: seq<string>)
    requires forall i :: 0 <= i < |xs| ==> VideoEntry(xs[i])
    ensures KeepVideo(Spaced(xs)) == xs
  {
    if xs != [] {
      KeepVideoSpaced(xs[1..]);
      var e := xs[0];
      ContainsPrepend(' ', e, VideoMarker);
      assert LStrip(" " + e) == LStrip(e) by {
        assert (" " + e)[1..] == e;
      }
      StripOfStripped(e);
      assert Spaced(xs)[1..] == Spaced(xs[1..]);
      assert [e] + xs[1..] == xs;
    }
  }

  /** Re-filtering a ", "-joined list of video entries gives the same entries. */
  lemma RefilterEntries(es: seq<string>)
    requires forall i :: 0 <= i < |es| ==> VideoEntry(es[i])
    ensures KeepVideo(Split(Join(es, ", "), ',')) == es
  {
    if es == [] {
      assert Split("", ',') == [""];
      assert !StartsWith("", VideoMarker);
      assert KeepVideo([""]) == [];
    } else {
      SplitJoined(es);
      KeepVideoFirstSpaced(es);
    }
  }

  /** The filter keeps a first video entry followed by spaced video entries unchanged. */
  lemma KeepVideoFirstSpaced(es: seq<string>)
    requires |es| > 0
    requires forall i :: 0 <= i < |es| ==> VideoEntry(es[i])
    ensures KeepVideo([es[0]] + Spaced(es[1..])) == es
  {
    var pieces := [es[0]] + Spaced(es[1..]);
    assert pieces[0] == es[0] && pieces[1..] == Spaced(es[1..]);
    assert VideoEntry(es[0]);
    KeepVideoSpaced(es[1..]);
    StripOfStripped(es[0]);
    assert KeepVideo(pieces) == [es[0]] + es[1..];
    assert [es[0]] + es[1..] == es;
  }

  /** Filtering an already filtered codec string changes nothing. */
  lemma ConvertCodecsIdempotent(codecs: Option<string>)
    ensures ConvertCodecsForIframes(ConvertCodecsForIframes(codecs)) == ConvertCodecsForIframes(codecs)
  {
    if codecs.Some? {
      KeepVideoEntries(Split(codecs.value, ','));
      RefilterEntries(KeepVideo(Split(codecs.value, ',')));
    }
  }

  /** A codec string with no video entry becomes the empty string, never `None`. */
  lemma {:induction false} NoVideoGivesEmpty(entries: seq<string>)
    requires forall i :: 0 <= i < |entries| ==> !Contains(entries[i], VideoMarker)
    ensures KeepVideo(entries) == []
  {
    if entries != [] {
      NoVideoGivesEmpty(entries[1..]);
    }
  }

  /** The filter works entry by entry: it keeps the entries containing `avc1` in their order. */
  lemma {:induction false} KeepVideoAppend(entries: seq<string>, extra: seq<string>)
    ensures KeepVideo(entries + extra) == KeepVideo(entries) + KeepVideo(extra)
  {
    if entries == [] {
      assert entries + extra == extra;
    } else {
      var e := entries[0];
      var head := if Contains(e, VideoMarker) then [Strip(e)] else [];
      assert (entries + extra)[0] == e;
      assert (entries + extra)[1..] == entries[1..] + extra;
      KeepVideoAppend(entries[1..], extra);
      assert KeepVideo(entries + extra) == head + (KeepVideo(entries[1..]) + KeepVideo(extra));
      assert KeepVideo(entries) == head + KeepVideo(entries[1..]);
    }
  }

  /** A comma-free string is a single piece. */
  lemma SplitNoSep(a: string, sep: char)
    requires sep !in a
    ensures Split(a, sep) == [a]
  {
    assert a + "" == a;
    SplitGlued(a, "", sep);
    assert Split("", sep) == [""];
  }

  /** Two comma-free strings around one comma split into those two pieces. */
  lemma SplitPair(a: string, b: string, sep: char)
    requires sep !in a && sep !in b
    ensures Split(a + [sep] + b, sep) == [a, b]
  {
    SplitNoSep(b, sep);
    assert ([sep] + b)[0] == sep && ([sep] + b)[1..] == b;
    assert Split([sep] + b, sep) == [""] + [b];
    assert a + [sep] + b == a + ([sep] + b);
    SplitGlued(a, [sep] + b, sep);
    assert a + "" == a;
  }

  /** The sample CODECS attribute splits into a video piece and an audio piece. */
  lemma SplitSampleCodecs()
    ensures Split("avc1.4d001f, mp4a.40.5", ',') == ["avc1.4d001f", " mp4a.40.5"]
  {
    var video, audio := "avc1.4d001f", " mp4a.40.5";
    assert "avc1.4d001f, mp4a.40.5" == video + [','] + audio;
    SplitPair(video, audio, ',');
  }

  /** The audio entry of a muxed rendition is dropped and the video entry kept. */
  lemma ConvertCodecsExample()
    ensures ConvertCodecsForIframes(Some("avc1.4d001f, mp4a.40.5")) == Some("avc1.4d001f")
  {
    SplitSampleCodecs();
    KeepSample("avc1.4d001f", " mp4a.40.5");
  }

  lemma KeepSample(video: string, audio: string)
    requires video == "avc1.4d001f" && audio == " mp4a.40.5"
    ensures KeepVideo([video, audio]) == [video]
  {
    assert video[..4] == VideoMarker;
    assert Contains(video, VideoMarker);
    assert Stripped(video);
    StripOfStripped(video);
    assert forall k :: 0 <= k < |audio| ==> audio[k] != 'v';
    NotContainsNoV(audio);
    var pieces := [video, audio];
    assert pieces[1..] == [audio] && [audio][1..] == [];
    assert KeepVideo([audio]) == [];
  }

  /** A string with no 'v' cannot hold `avc1`. */
  lemma {:induction false} NotContainsNoV(s: string)
    requires forall k :: 0 <= k < |s| ==> s[k] != 'v'
    ensures !Contains(s, VideoMarker)
  {
    if |s| > 0 {
      NotContainsNoV(s[1..]);
      if |s| >= |VideoMarker| {
        assert s[..|VideoMarker|][1] == s[1];
      }
    }
  }
}
