/** `download_videos_sequential` of combine.py:249-272: the selected videos
    are downloaded one after another and the successful ones collected in a
    dict from video id to file path. The downloader itself is an input of the
    model: for each video it yields a path, nothing, or an exception. A
    video whose title is NULL makes the loop itself raise. */
module Acquisition {
  import opened Wrappers
  import opened Seqs
  import opened Dicts
  import opened Catalogue

  /** What one call of `download_video` did. */
  datatype Fetch = Fetched(path: string) | NotFetched | Raised

  /** The dict after downloading `videos` in order: a fetched video's path is
      stored under its id; a download that returned nothing or raised leaves
      the dict as it was. */
  function Downloads(videos: seq<Video>, download: Video -> Fetch): (d: Dict<string>)
    ensures Valid(d)
    ensures |d.keys| <= |videos|
    decreases |videos|
  {
    if videos == [] then Empty()
    else
      var before := Downloads(videos[..|videos| - 1], download);
      var v := videos[|videos| - 1];
      match download(v)
      case Fetched(path) => Put(before, v.id, path)
      case _ => before
  }

  /** Every video has a title; the `title` column is nullable. */
  predicate TitlesPresent(videos: seq<Video>) {
    forall i :: 0 <= i < |videos| ==> videos[i].title.Some?
  }

  /** The exception that leaves the loop: `download_video` slices the title
      before anything else, which raises a `TypeError` for a NULL title, and
      the handler slices it again, so the error escapes the handler. */
  datatype DownloadError = NullTitle(videoId: int)

  /** The loop of the source. An exception from a download of a titled video
      is caught and the loop goes on with the next video; the first video
      with a NULL title ends the loop with an exception. */
  method DownloadVideosSequential(videos: seq<Video>, download: Video -> Fetch)
    returns (r: Result<Dict<string>, DownloadError>)
    ensures r.Success? <==> TitlesPresent(videos)
    ensures r.Success? ==> r.value == Downloads(videos, download)
    ensures r.Failure? ==>
      exists k :: 0 <= k < |videos| && videos[k].title.None? && TitlesPresent(videos[..k])
                  && r.error == NullTitle(videos[k].id)
  {
    var downloaded := Empty();
    for i := 0 to |videos|
      invariant TitlesPresent(videos[..i])
      invariant downloaded == Downloads(videos[..i], download)
    {
      if videos[i].title.None? {
        return Failure(NullTitle(videos[i].id));
      }
      assert videos[..i + 1][..i] == videos[..i];
      var fetch := download(videos[i]);
      match fetch {
        case Fetched(path) => downloaded := Put(downloaded, videos[i].id, path);
        case NotFetched =>
        case Raised =>
      }
    }
    assert videos[..|videos|] == videos;
    r := Success(downloaded);
  }

  /** The keys are exactly the ids of the videos that were fetched: a subset
      of the input ids, and no failure anywhere keeps a later success out. */
  lemma {:induction false} DownloadsKeys(videos: seq<Video>, download: Video -> Fetch)
    ensures forall k :: (k in Downloads(videos, download).entries
      <==> exists i :: 0 <= i < |videos| && videos[i].id == k && download(videos[i]).Fetched?)
    decreases |videos|
  {
    if videos != [] {
      var init := videos[..|videos| - 1];
      DownloadsKeys(init, download);
      forall i | 0 <= i < |init| ensures init[i] == videos[i] { }
    }
  }

  /** A stored path is what the download of some video with that id fetched. */
  lemma {:induction false} DownloadsValues(videos: seq<Video>, download: Video -> Fetch)
    ensures forall k :: k in Downloads(videos, download).entries ==>
      exists i :: 0 <= i < |videos| && videos[i].id == k
        && download(videos[i]) == Fetched(Downloads(videos, download).entries[k])
    decreases |videos|
  {
    if videos != [] {
      var init := videos[..|videos| - 1];
      DownloadsValues(init, download);
      var d, before, v := Downloads(videos, download), Downloads(init, download), videos[|videos| - 1];
      forall k | k in d.entries
        ensures exists i :: 0 <= i < |videos| && videos[i].id == k && download(videos[i]) == Fetched(d.entries[k])
      {
        if download(v).Fetched? && k == v.id {
          assert videos[|videos| - 1].id == k && download(videos[|videos| - 1]) == Fetched(d.entries[k]);
        } else {
          assert k in before.entries && d.entries[k] == before.entries[k];
          var i :| 0 <= i < |init| && init[i].id == k && download(init[i]) == Fetched(before.entries[k]);
          assert videos[i] == init[i];
        }
      }
    }
  }

  function Ids(videos: seq<Video>): (r: seq<int>)
    ensures |r| == |videos|
    ensures forall i :: 0 <= i < |videos| ==> r[i] == videos[i].id
  {
    seq(|videos|, i requires 0 <= i < |videos| => videos[i].id)
  }

  /** The videos whose download fetched something, in order. */
  function FetchedVideos(videos: seq<Video>, download: Video -> Fetch): (r: seq<Video>)
    decreases |videos|
  {
    if videos == [] then []
    else
      var v := videos[|videos| - 1];
      FetchedVideos(videos[..|videos| - 1], download) + (if download(v).Fetched? then [v] else [])
  }

  /** With distinct ids (the table's primary key), the dict lists the fetched
      videos in download order. */
  lemma {:induction false} DownloadsInOrder(videos: seq<Video>, download: Video -> Fetch)
    requires Distinct(Ids(videos))
    ensures Downloads(videos, download).keys == Ids(FetchedVideos(videos, download))
    decreases |videos|
  {
    if videos != [] {
      var init, v := videos[..|videos| - 1], videos[|videos| - 1];
      assert Distinct(Ids(init)) by {
        forall i, j | 0 <= i < j < |init| ensures init[i].id != init[j].id {
          assert Ids(videos)[i] == init[i].id && Ids(videos)[j] == init[j].id;
        }
      }
      DownloadsInOrder(init, download);
      if download(v).Fetched? {
        DownloadsKeys(init, download);
        forall i | 0 <= i < |init| ensures init[i].id != v.id {
          assert Ids(videos)[i] == init[i].id && Ids(videos)[|videos| - 1] == v.id;
        }
        var f := FetchedVideos(init, download);
        assert Ids(f + [v]) == Ids(f) + [v.id];
      }
    }
  }

  /** With distinct ids, every fetched video is stored under its id with the
      path its download produced. */
  lemma DownloadsPaths(videos: seq<Video>, download: Video -> Fetch, w: Video)
    requires Distinct(Ids(videos))
    requires w in FetchedVideos(videos, download)
    ensures w.id in Downloads(videos, download).entries
    ensures download(w) == Fetched(Downloads(videos, download).entries[w.id])
  {
    FetchedMember(videos, download, w);
    var j :| 0 <= j < |videos| && videos[j] == w && download(w).Fetched?;
    DownloadsKeys(videos, download);
    DownloadsValues(videos, download);
    var d := Downloads(videos, download);
    var i :| 0 <= i < |videos| && videos[i].id == w.id && download(videos[i]) == Fetched(d.entries[w.id]);
    assert Ids(videos)[i] == Ids(videos)[j];
  }

  lemma {:induction false} FetchedMember(videos: seq<Video>, download: Video -> Fetch, w: Video)
    requires w in FetchedVideos(videos, download)
    ensures exists i :: 0 <= i < |videos| && videos[i] == w && download(w).Fetched?
    decreases |videos|
  {
    var init := videos[..|videos| - 1];
    if w in FetchedVideos(init, download) {
      FetchedMember(init, download, w);
      var i :| 0 <= i < |init| && init[i] == w && download(w).Fetched?;
      assert videos[i] == w;
    } else {
      assert videos[|videos| - 1] == w;
    }
  }
}
