/**
 * Properties of `update_for_iframes`: the renditions are visited in order,
 * skipped renditions leave no trace, the first failure aborts the whole
 * update, the master keeps its renditions and lists one reference per
 * generated playlist, and the master URI is the last path component.
 */
module UpdateProperties {
  import opened Wrappers
  import opened TextOps
  import opened Renditions

  /** Appending the playlists made for a second run of renditions; the first failure wins. */
  function Concat(x: Result<seq<IframePlaylist>, GeneratorError>, y: Result<seq<IframePlaylist>, GeneratorError>): Result<seq<IframePlaylist>, GeneratorError>
  {
    match x
    case Err(e) => Err(e)
    case Ok(a) =>
      match y
      case Err(e) => Err(e)
      case Ok(b) => Ok(a + b)
  }

  /** Collecting over two runs of renditions is collecting over each, results kept in rendition order. */
  lemma {:induction false} CollectAppend(a: seq<Rendition>, b: seq<Rendition>)
    ensures Collect(a + b) == Concat(Collect(a), Collect(b))
    decreases |b|
  {
    if b == [] {
      assert a + b == a;
      if Collect(a).Ok? {
        assert Collect(a).value + [] == Collect(a).value;
      }
    } else {
      var n := |b| - 1;
      assert (a + b)[..|a + b| - 1] == a + b[..n];
      assert (a + b)[|a + b| - 1] == b[n];
      CollectAppend(a, b[..n]);
      match Collect(a) {
        case Err(_) =>
        case Ok(x) =>
          match Collect(b[..n]) {
            case Err(_) =>
            case Ok(y) =>
              match IframePlaylistFor(b[n]) {
                case Err(_) =>
                case Ok(None) =>
                case Ok(Some(z)) =>
                  assert x + y + [z] == x + (y + [z]);
              }
          }
      }
    }
  }

  /** A rendition that is skipped changes nothing about the update. */
  lemma SkippedLeavesNoTrace(a: seq<Rendition>, p: Rendition, b: seq<Rendition>)
    requires IframePlaylistFor(p) == Ok(None)
    ensures Collect(a + [p] + b) == Collect(a + b)
  {
    assert Collect([p]) == Ok([]) by {
      assert [p][..0] == [];
    }
    CollectAppend(a, [p]);
    CollectAppend(a + [p], b);
    CollectAppend(a, b);
    if Collect(a).Ok? {
      assert Collect(a).value + [] == Collect(a).value;
    }
  }

  /** The update succeeds exactly when every rendition is processed without error. */
  lemma {:induction false} CollectOkIff(ps: seq<Rendition>)
    ensures Collect(ps).Ok? <==> forall i :: 0 <= i < |ps| ==> IframePlaylistFor(ps[i]).Ok?
  {
    if ps != [] {
      var n := |ps| - 1;
      CollectOkIff(ps[..n]);
      assert forall i :: 0 <= i < n ==> ps[..n][i] == ps[i];
    }
  }

  /** The error of the first failing rendition is the one the update reports. */
  lemma FirstFailureReported(ps: seq<Rendition>, k: nat)
    requires k < |ps| && IframePlaylistFor(ps[k]).Err?
    requires forall i :: 0 <= i < k ==> IframePlaylistFor(ps[i]).Ok?
    ensures Collect(ps) == Err(IframePlaylistFor(ps[k]).error)
  {
    CollectPrefixOk(ps, k);
    CollectFailsAt(ps, k);
  }

  /** Renditions that all go through collect without error. */
  lemma {:induction false} CollectPrefixOk(ps: seq<Rendition>, k: nat)
    requires k <= |ps|
    requires forall i :: 0 <= i < k ==> IframePlaylistFor(ps[i]).Ok?
    ensures Collect(ps[..k]).Ok?
  {
    var pre := ps[..k];
    assert forall i :: 0 <= i < k ==> pre[i] == ps[i];
    CollectOkIff(pre);
  }

  /** A rendition that fails after a prefix that went through is the error of the whole update. */
  lemma {:induction false} CollectFailsAt(ps: seq<Rendition>, k: nat)
    requires k < |ps| && Collect(ps[..k]).Ok? && IframePlaylistFor(ps[k]).Err?
    ensures Collect(ps) == Err(IframePlaylistFor(ps[k]).error)
  {
    var q := ps[..k + 1];
    var e := IframePlaylistFor(ps[k]).error;
    assert Collect(q) == Err(e) by {
      assert q[..|q| - 1] == ps[..k] && q[|q| - 1] == ps[k];
    }
    CollectErrPersists(ps, k + 1);
  }

  /** When no rendition is skipped, the k-th generated playlist belongs to the k-th rendition. */
  lemma {:induction false} CollectNoneSkipped(ps: seq<Rendition>)
    requires forall i :: 0 <= i < |ps| ==> IframePlaylistFor(ps[i]).Ok? && IframePlaylistFor(ps[i]).value.Some?
    ensures Collect(ps).Ok? && |Collect(ps).value| == |ps|
    ensures forall i :: 0 <= i < |ps| ==> Collect(ps).value[i] == IframePlaylistFor(ps[i]).value.value
  {
    if ps != [] {
      var n := |ps| - 1;
      var init := ps[..n];
      assert forall i :: 0 <= i < n ==> init[i] == ps[i];
      CollectNoneSkipped(init);
      var made := Collect(init).value;
      var x := IframePlaylistFor(ps[n]).value.value;
      assert Collect(ps) == Ok(made + [x]);
      forall i | 0 <= i < |ps|
        ensures Collect(ps).value[i] == IframePlaylistFor(ps[i]).value.value
      {
        if i < n {
          assert (made + [x])[i] == made[i] && init[i] == ps[i];
        } else {
          assert (made + [x])[i] == x;
        }
      }
    }
  }

  /**
   * A successful update keeps the renditions of the master, and its k-th
   * I-frame reference and its k-th returned playlist share one URI.
   */
  lemma UpdateLinksMatch(url: string, load: MasterLoad)
    requires UpdateFor(url, load).Ok?
    ensures
      var r := UpdateFor(url, load).value;
      load.MasterLoaded? && load.master.isVariant &&
      r.masterContent.playlists == load.master.playlists &&
      r.masterContent.isVariant &&
      |r.masterContent.iframePlaylists| == |r.iframePlaylists| <= |load.master.playlists| &&
      forall k :: 0 <= k < |r.iframePlaylists| ==> r.masterContent.iframePlaylists[k].uri == r.iframePlaylists[k].uri
  {
    var made := Collect(load.master.playlists).value;
    forall k | 0 <= k < |made|
      ensures made[k].reference.uri == made[k].data.uri
    {
      CollectedAreGenerated(load.master.playlists, k);
    }
  }

  /** Every collected playlist was generated for some rendition: it carries the rendition's rewritten URI in both places. */
  lemma {:induction false} CollectedAreGenerated(ps: seq<Rendition>, k: nat)
    requires Collect(ps).Ok? && k < |Collect(ps).value|
    ensures exists i :: 0 <= i < |ps| && IframePlaylistFor(ps[i]) == Ok(Some(Collect(ps).value[k]))
    ensures Collect(ps).value[k].reference.uri == Collect(ps).value[k].data.uri
  {
    var n := |ps| - 1;
    var made := Collect(ps[..n]).value;
    if k < |made| {
      CollectedAreGenerated(ps[..n], k);
      var i :| 0 <= i < n && IframePlaylistFor(ps[..n][i]) == Ok(Some(made[k]));
      assert ps[..n][i] == ps[i];
    } else {
      assert IframePlaylistFor(ps[n]) == Ok(Some(Collect(ps).value[k]));
    }
  }

  /** Whatever I-frame references the loaded master already had, the update result is the same. */
  lemma StaleReferencesIgnored(url: string, m: MasterPlaylist, stale: seq<IframeReference>)
    ensures UpdateFor(url, MasterLoaded(m.(iframePlaylists := stale))) == UpdateFor(url, MasterLoaded(m.(iframePlaylists := [])))
  {
  }

  /** Running the update on its own output master gives that master again. */
  lemma UpdateIdempotent(url: string, load: MasterLoad)
    requires UpdateFor(url, load).Ok?
    ensures UpdateFor(url, MasterLoaded(UpdateFor(url, load).value.masterContent)) == UpdateFor(url, load)
  {
  }

  /** The master URI is the part of the URL after its last '/'. */
  lemma MasterUriIsLastComponent(url: string, load: MasterLoad)
    requires UpdateFor(url, load).Ok?
    ensures
      var u := UpdateFor(url, load).value.masterUri;
      '/' !in u && |u| <= |url| && url[|url| - |u|..] == u &&
      (|u| < |url| ==> url[|url| - |u| - 1] == '/')
  {
    LastPieceIsSuffix(url, '/');
  }

  /** A URL made of any prefix, a '/' and a name without '/' has that name as its master URI. */
  lemma LastPathPartOfPath(base: string, name: string)
    requires forall k :: 0 <= k < |name| ==> name[k] != '/'
    ensures LastPathPart(base + ['/'] + name) == name
  {
    var s := base + ['/'] + name;
    LastPieceIsSuffix(s, '/');
    var parts := Split(s, '/');
    var last := parts[|parts| - 1];
    assert '/' !in last;
    assert s[|s| - |name| - 1] == '/';
    assert s[|s| - |name|..] == name;
  }
}
