/** The database side of `run_auto` (combine.py:407-497): the compilation
    row and one `compilation_videos` row per downloaded video written in one
    transaction, the duration reported when the compiled file cannot be
    probed, and the run as a whole from selection to the ledger write. */
module Ledger {
  import opened Wrappers
  import opened Seqs
  import opened Dicts
  import opened Catalogue
  import opened Selection
  import opened Acquisition
  import opened Compile
  import opened Text

  /** A `compilation_videos` row. */
  datatype JoinRow = JoinRow(compilationId: int, videoId: int, addedAt: int)

  /** The id SQLite gives a new row of an integer primary key: one more than
      the largest id, or 1 in an empty table. */
  function NextId(comps: seq<Compilation>): (id: int)
    ensures forall c :: c in comps ==> c.id < id
    decreases |comps|
  {
    if comps == [] then 1
    else
      var rest := NextId(comps[1..]);
      assert forall c :: c in comps[1..] ==> c in comps;
      if comps[0].id + 1 > rest then comps[0].id + 1 else rest
  }

  /** The creation time of the first compilation with this id. */
  function CreatedAtOf(comps: seq<Compilation>, id: int): Option<int>
    decreases |comps|
  {
    if comps == [] then None
    else if comps[0].id == id then Some(comps[0].createdAt)
    else CreatedAtOf(comps[1..], id)
  }

  /** The join of `compilation_videos` with `compilations` that the selector
      queries: one use per row whose compilation exists. */
  function UsesOf(comps: seq<Compilation>, rows: seq<JoinRow>): seq<Use>
    decreases |rows|
  {
    if rows == [] then []
    else
      var r := rows[|rows| - 1];
      UsesOf(comps, rows[..|rows| - 1])
      + (match CreatedAtOf(comps, r.compilationId)
         case Some(t) => [Use(r.videoId, r.compilationId, t)]
         case None => [])
  }

  /** Rows of one compilation. */
  function RowCount(rows: seq<JoinRow>, compilationId: int): nat
    decreases |rows|
  {
    if rows == [] then 0
    else RowCount(rows[..|rows| - 1], compilationId) + (if rows[|rows| - 1].compilationId == compilationId then 1 else 0)
  }

  /** Rows joining one compilation to one video. */
  function PairCount(rows: seq<JoinRow>, compilationId: int, videoId: int): nat
    decreases |rows|
  {
    if rows == [] then 0
    else
      var r := rows[|rows| - 1];
      PairCount(rows[..|rows| - 1], compilationId, videoId)
      + (if r.compilationId == compilationId && r.videoId == videoId then 1 else 0)
  }

  /** The rows the insert loop writes for a compilation, one per key in key order. */
  function RowsFor(id: int, keys: seq<int>, addedAt: int): (rows: seq<JoinRow>)
    ensures |rows| == |keys|
    ensures forall i :: 0 <= i < |keys| ==> rows[i] == JoinRow(id, keys[i], addedAt)
  {
    seq(|keys|, i requires 0 <= i < |keys| => JoinRow(id, keys[i], addedAt))
  }

  /** What the ledger keeps true when only `run_auto` writes it: ids are
      unique, every row belongs to a recorded compilation, and every
      compilation's `video_count` is the number of its rows. */
  ghost predicate Consistent(comps: seq<Compilation>, rows: seq<JoinRow>) {
    (forall i, j :: 0 <= i < j < |comps| ==> comps[i].id != comps[j].id)
    && (forall r :: r in rows ==> exists c :: c in comps && c.id == r.compilationId)
    && (forall c :: c in comps ==> c.videoCount == RowCount(rows, c.id))
  }

  // ---------------------------------------------------------------------------
  // Facts about the tables

  lemma {:induction false} RowCountAppend(a: seq<JoinRow>, b: seq<JoinRow>, id: int)
    ensures RowCount(a + b, id) == RowCount(a, id) + RowCount(b, id)
    decreases |b|
  {
    if b == [] {
      assert a + b == a;
    } else {
      assert (a + b)[..|a + b| - 1] == a + b[..|b| - 1];
      RowCountAppend(a, b[..|b| - 1], id);
    }
  }

  /** The rows of a new compilation count for it alone. */
  lemma {:induction false} RowsForCount(id: int, keys: seq<int>, t: int, other: int)
    ensures RowCount(RowsFor(id, keys, t), id) == |keys|
    ensures other != id ==> RowCount(RowsFor(id, keys, t), other) == 0
    decreases |keys|
  {
    if keys != [] {
      var init := keys[..|keys| - 1];
      assert RowsFor(id, keys, t)[..|keys| - 1] == RowsFor(id, init, t);
      RowsForCount(id, init, t, other);
    }
  }

  /** Exactly one join row per key of the dict. */
  lemma {:induction false} RowsForOnePerKey(id: int, keys: seq<int>, t: int, k: int)
    requires Distinct(keys)
    ensures PairCount(RowsFor(id, keys, t), id, k) == (if k in keys then 1 else 0)
    decreases |keys|
  {
    if keys != [] {
      var init := keys[..|keys| - 1];
      assert RowsFor(id, keys, t)[..|keys| - 1] == RowsFor(id, init, t);
      assert Distinct(init) by {
        forall i, j | 0 <= i < j < |init| ensures init[i] != init[j] {
          assert init[i] == keys[i] && init[j] == keys[j];
        }
      }
      RowsForOnePerKey(id, init, t, k);
      assert keys == init + [keys[|keys| - 1]];
      if k == keys[|keys| - 1] {
        forall i | 0 <= i < |init| ensures init[i] != k { assert init[i] == keys[i]; }
      }
    }
  }

  /** A row whose compilation exists yields a use with that compilation's time. */
  lemma {:induction false} UsesOfMember(comps: seq<Compilation>, rows: seq<JoinRow>, i: nat, t: int)
    requires i < |rows|
    requires CreatedAtOf(comps, rows[i].compilationId) == Some(t)
    ensures Use(rows[i].videoId, rows[i].compilationId, t) in UsesOf(comps, rows)
    decreases |rows|
  {
    if i < |rows| - 1 {
      assert rows[..|rows| - 1][i] == rows[i];
      UsesOfMember(comps, rows[..|rows| - 1], i, t);
    }
  }

  lemma {:induction false} UsesOfAppend(comps: seq<Compilation>, a: seq<JoinRow>, b: seq<JoinRow>)
    ensures UsesOf(comps, a + b) == UsesOf(comps, a) + UsesOf(comps, b)
    decreases |b|
  {
    if b == [] {
      assert a + b == a;
    } else {
      assert (a + b)[..|a + b| - 1] == a + b[..|b| - 1];
      assert (a + b)[|a + b| - 1] == b[|b| - 1];
      UsesOfAppend(comps, a, b[..|b| - 1]);
    }
  }

  /** A compilation appended with a fresh id is found under that id. */
  lemma {:induction false} CreatedAtOfNew(comps: seq<Compilation>, c: Compilation)
    requires forall d :: d in comps ==> d.id < c.id
    ensures CreatedAtOf(comps + [c], c.id) == Some(c.createdAt)
    decreases |comps|
  {
    if comps != [] {
      assert comps[0] in comps;
      forall d | d in comps[1..] ensures d.id < c.id { assert d in comps; }
      assert (comps + [c])[1..] == comps[1..] + [c];
      CreatedAtOfNew(comps[1..], c);
    } else {
      assert comps + [c] == [c];
    }
  }

  /** Appending a compilation does not change what an existing id resolves to. */
  lemma {:induction false} CreatedAtOfExtend(comps: seq<Compilation>, c: Compilation, id: int)
    requires exists d :: d in comps && d.id == id
    ensures CreatedAtOf(comps + [c], id) == CreatedAtOf(comps, id)
    ensures CreatedAtOf(comps, id).Some?
    decreases |comps|
  {
    assert (comps + [c])[0] == comps[0];
    if comps[0].id != id {
      var d :| d in comps && d.id == id;
      assert d in comps[1..];
      assert (comps + [c])[1..] == comps[1..] + [c];
      CreatedAtOfExtend(comps[1..], c, id);
    }
  }

  /** Recording a compilation leaves the uses of all earlier rows as they were. */
  lemma {:induction false} UsesOfExtend(comps: seq<Compilation>, c: Compilation, rows: seq<JoinRow>)
    requires forall r :: r in rows ==> exists d :: d in comps && d.id == r.compilationId
    ensures UsesOf(comps + [c], rows) == UsesOf(comps, rows)
    decreases |rows|
  {
    if rows != [] {
      var init, r := rows[..|rows| - 1], rows[|rows| - 1];
      forall q | q in init ensures exists d :: d in comps && d.id == q.compilationId { assert q in rows; }
      UsesOfExtend(comps, c, init);
      assert r in rows;
      CreatedAtOfExtend(comps, c, r.compilationId);
    }
  }

  /** The ledger after recording a compilation with a fresh id. */
  function Recorded(comps: seq<Compilation>, rows: seq<JoinRow>, topic: string, filename: string,
                    keys: seq<int>, now: int): (after: (seq<Compilation>, seq<JoinRow>))
    ensures |after.0| == |comps| + 1 && after.0[..|comps|] == comps
    ensures |after.1| == |rows| + |keys| && after.1[..|rows|] == rows
  {
    var id := NextId(comps);
    (comps + [Compilation(id, topic, filename, |keys|, now)], rows + RowsFor(id, keys, now))
  }

  /** Recording keeps the ledger consistent. */
  lemma RecordedConsistent(comps: seq<Compilation>, rows: seq<JoinRow>, topic: string, filename: string,
                           keys: seq<int>, now: int)
    requires Consistent(comps, rows)
    ensures var after := Recorded(comps, rows, topic, filename, keys, now);
      Consistent(after.0, after.1)
  {
    var c := Compilation(NextId(comps), topic, filename, |keys|, now);
    var added := RowsFor(NextId(comps), keys, now);
    assert Recorded(comps, rows, topic, filename, keys, now) == (comps + [c], rows + added);
    RecordedIdsUnique(comps, c);
    RecordedRowsReference(comps, rows, c, added);
    RecordedCounts(comps, rows, c, keys, now);
  }

  lemma RecordedIdsUnique(comps: seq<Compilation>, c: Compilation)
    requires forall i, j :: 0 <= i < j < |comps| ==> comps[i].id != comps[j].id
    requires forall d :: d in comps ==> d.id < c.id
    ensures var comps' := comps + [c];
      forall i, j :: 0 <= i < j < |comps'| ==> comps'[i].id != comps'[j].id
  {
    var comps' := comps + [c];
    forall i, j | 0 <= i < j < |comps'| ensures comps'[i].id != comps'[j].id {
      if j == |comps| { assert comps'[i] in comps; } else { assert comps'[i] == comps[i] && comps'[j] == comps[j]; }
    }
  }

  lemma RecordedRowsReference(comps: seq<Compilation>, rows: seq<JoinRow>, c: Compilation, added: seq<JoinRow>)
    requires forall r :: r in rows ==> exists d :: d in comps && d.id == r.compilationId
    requires forall r :: r in added ==> r.compilationId == c.id
    ensures forall r :: r in rows + added ==> exists d :: d in comps + [c] && d.id == r.compilationId
  {
    forall r | r in rows + added ensures exists d :: d in comps + [c] && d.id == r.compilationId {
      if r in rows {
        var d :| d in comps && d.id == r.compilationId;
        assert d in comps + [c];
      } else {
        assert c in comps + [c];
      }
    }
  }

  lemma RecordedCounts(comps: seq<Compilation>, rows: seq<JoinRow>, c: Compilation, keys: seq<int>, now: int)
    requires forall r :: r in rows ==> exists d :: d in comps && d.id == r.compilationId
    requires forall d :: d in comps ==> d.videoCount == RowCount(rows, d.id)
    requires c.id == NextId(comps) && c.videoCount == |keys|
    ensures forall d :: d in comps + [c] ==> d.videoCount == RowCount(rows + RowsFor(c.id, keys, now), d.id)
  {
    NoRowsOfFreshId(comps, rows, c.id);
    forall d | d in comps + [c] ensures d.videoCount == RowCount(rows + RowsFor(c.id, keys, now), d.id) {
      RowCountAppend(rows, RowsFor(c.id, keys, now), d.id);
      RowsForCount(c.id, keys, now, d.id);
      if d != c {
        assert d in comps;
      }
    }
  }

  /** No row of a consistent ledger belongs to an id above every recorded one. */
  lemma {:induction false} NoRowsOfFreshId(comps: seq<Compilation>, rows: seq<JoinRow>, id: int)
    requires forall r :: r in rows ==> exists c :: c in comps && c.id == r.compilationId
    requires forall c :: c in comps ==> c.id < id
    ensures RowCount(rows, id) == 0
    decreases |rows|
  {
    if rows != [] {
      var init := rows[..|rows| - 1];
      forall q | q in init ensures exists c :: c in comps && c.id == q.compilationId { assert q in rows; }
      NoRowsOfFreshId(comps, init, id);
      assert rows[|rows| - 1] in rows;
    }
  }

  /** After a recorded compilation, its videos are cooling for every window
      starting at or before its creation time, and every video cooling before
      is cooling still. */
  lemma RecordedVideosCool(comps: seq<Compilation>, rows: seq<JoinRow>, topic: string, filename: string,
                           keys: seq<int>, now: int, since: int, v: Video)
    requires Consistent(comps, rows)
    ensures var after := Recorded(comps, rows, topic, filename, keys, now);
      (v.id in keys && since <= now ==> IsCooling(v, UsesOf(after.0, after.1), since))
      && (IsCooling(v, UsesOf(comps, rows), since) ==> IsCooling(v, UsesOf(after.0, after.1), since))
  {
    var id := NextId(comps);
    var c := Compilation(id, topic, filename, |keys|, now);
    var comps' := comps + [c];
    var added := RowsFor(id, keys, now);
    UsesOfAppend(comps', rows, added);
    UsesOfExtend(comps, c, rows);
    if v.id in keys && since <= now {
      var i :| 0 <= i < |keys| && keys[i] == v.id;
      CreatedAtOfNew(comps, c);
      UsesOfMember(comps', added, i, now);
      var u := Use(v.id, id, now);
      assert u in UsesOf(comps', rows + added);
    }
  }

  // ---------------------------------------------------------------------------
  // The store

  /** The two tables `run_auto` writes. */
  class Store {
    var compilations: seq<Compilation>
    var rows: seq<JoinRow>

    constructor ()
      ensures compilations == [] && rows == []
    {
      compilations := [];
      rows := [];
    }

    /** What the selector's cooldown query sees. */
    function Uses(): seq<Use>
      reads this
    {
      UsesOf(compilations, rows)
    }

    /** The ledger write of `run_auto`: the compilation row is added and
        flushed to get its id, one join row is inserted per key of the dict,
        and the transaction is committed. `committed` says whether flush,
        inserts and commit all went through; when one of them fails the
        warning is logged and nothing is kept. */
    method RecordCompilation(topic: string, filename: string, videoFiles: Dict<string>, now: int,
                             committed: bool)
      returns (id: Option<int>)
      modifies this
      ensures committed ==> id == Some(NextId(old(compilations)))
      ensures committed ==>
        (compilations, rows) == Recorded(old(compilations), old(rows), topic, filename, videoFiles.keys, now)
      ensures !committed ==> id == None && compilations == old(compilations) && rows == old(rows)
    {
      var newId := NextId(compilations);
      var staged := compilations + [Compilation(newId, topic, filename, Size(videoFiles), now)];
      var stagedRows := rows;
      for i := 0 to |videoFiles.keys|
        invariant stagedRows == rows + RowsFor(newId, videoFiles.keys[..i], now)
      {
        assert RowsFor(newId, videoFiles.keys[..i + 1], now)
            == RowsFor(newId, videoFiles.keys[..i], now) + [JoinRow(newId, videoFiles.keys[i], now)];
        stagedRows := stagedRows + [JoinRow(newId, videoFiles.keys[i], now)];
      }
      assert videoFiles.keys[..|videoFiles.keys|] == videoFiles.keys;
      if committed {
        compilations, rows := staged, stagedRows;
        id := Some(newId);
      } else {
        id := None;
      }
    }
  }

  // ---------------------------------------------------------------------------
  // The reported duration

  /** `v.duration or 3600`: SQL NULL and 0 fall back to an hour; any other
      value, negative ones included, is taken as it is. */
  function RecordedDuration(v: Video): (d: int)
    ensures d <= EffectiveDuration(v)
    ensures v.duration.Some? && v.duration.value != 0 ==> d == v.duration.value
    ensures (v.duration.None? || v.duration == Some(0)) ==> d == DefaultDuration
  {
    match v.duration
    case Some(s) => if s != 0 then s else DefaultDuration
    case None => DefaultDuration
  }

  /** The sum over the selected videos that were downloaded. */
  function FallbackTotal(videos: seq<Video>, files: Dict<string>): int
    decreases |videos|
  {
    if videos == [] then 0
    else (if videos[0].id in files.entries then RecordedDuration(videos[0]) else 0)
         + FallbackTotal(videos[1..], files)
  }

  /** The fallback never exceeds what the selector charged for the same
      videos, so it stays within the budget the selection respected. */
  lemma {:induction false} FallbackWithinSelection(videos: seq<Video>, files: Dict<string>)
    ensures FallbackTotal(videos, files) <= TotalDuration(videos)
    decreases |videos|
  {
    if videos != [] { FallbackWithinSelection(videos[1..], files); }
  }

  /** With every selected video downloaded and no recorded duration negative,
      the fallback equals what the selector charged. */
  lemma {:induction false} FallbackExact(videos: seq<Video>, files: Dict<string>)
    requires forall v :: v in videos ==> v.id in files.entries
    requires forall v :: v in videos ==> v.duration.None? || v.duration.value >= 0
    ensures FallbackTotal(videos, files) == TotalDuration(videos)
    decreases |videos|
  {
    if videos != [] {
      assert videos[0] in videos;
      forall v | v in videos[1..] ensures v.id in files.entries && (v.duration.None? || v.duration.value >= 0) {
        assert v in videos;
      }
      FallbackExact(videos[1..], files);
    }
  }

  /** The duration `run_auto` reports: the probed one unless the probe gave 0. */
  function ReportedSeconds(probed: int, videos: seq<Video>, files: Dict<string>): (s: int)
    ensures probed != 0 ==> s == probed
    ensures probed == 0 ==> s <= TotalDuration(videos)
  {
    FallbackWithinSelection(videos, files);
    if probed != 0 then probed else FallbackTotal(videos, files)
  }

  // ---------------------------------------------------------------------------
  // The run

  /** The exceptions `run_auto` raises. */
  /** The exceptions `run_auto` raises or lets through. `DownloadAborted` is
      the download loop's own exception, which `run_auto` does not catch. */
  datatype RunError = NoVideosFound | DownloadAborted(cause: DownloadError) | NothingDownloaded
                    | CompilationFailed | ConcatListUnwritable

  datatype RunResult = RunResult(outputFile: string, totalSeconds: int, selectedYoutubeIds: seq<string>)

  function YoutubeIds(videos: seq<Video>): (r: seq<string>)
    ensures |r| == |videos|
    ensures forall i :: 0 <= i < |videos| ==> r[i] == videos[i].youtubeId
  {
    seq(|videos|, i requires 0 <= i < |videos| => videos[i].youtubeId)
  }

  /** `run_auto` with its collaborators as inputs: the topic's videos as the
      query returns them, the downloader, the transcoder, the probed duration
      of the output and whether the ledger transaction commits. `maxHours` is
      a whole number of hours. `candidates` is the order the selector
      scanned. Each exception is raised exactly when its stage comes up
      empty, and a selected video with a NULL title aborts the downloads; a success reports the compiled file, the duration and the
      selected videos, and a committed success records the compilation of
      the downloaded videos. `now` is the clock read before the selection;
      `recordedAt` is the later instant the session flush stamps on the new
      compilation. */
  method RunAuto(store: Store, topicVideos: seq<Video>, topic: string, maxHours: int, cooldownDays: int,
                 now: int, download: Video -> Fetch, transcode: Tier -> Outcome, probed: int,
                 committed: bool, outputDir: string, timestamp: string, recordedAt: int)
    returns (r: Result<RunResult, RunError>, ghost candidates: seq<Video>)
    requires now <= recordedAt
    modifies store
    ensures FreshFirst(candidates, topicVideos, old(UsesOf(store.compilations, store.rows)), CooldownStart(now, cooldownDays))
    ensures var selected := FirstFit(candidates, maxHours * 3600);
      var files := Downloads(selected, download);
      var listable := IsAscii(ConcatListing(Values(files)));
      var final := Procedure(true, transcode, "").final;
      (r == Failure(NoVideosFound) <==> selected == [])
      && ((r.Failure? && r.error.DownloadAborted?) <==> selected != [] && !TitlesPresent(selected))
      && (r == Failure(NothingDownloaded) <==> selected != [] && TitlesPresent(selected) && files.keys == [])
      && (r == Failure(ConcatListUnwritable) <==>
            selected != [] && TitlesPresent(selected) && files.keys != [] && !listable)
      && (r == Failure(CompilationFailed) <==>
            selected != [] && TitlesPresent(selected) && files.keys != [] && listable && final == Failed)
      && (r.Success? ==>
            TitlesPresent(selected) &&
            r.value == RunResult(OutputPath(outputDir, topic, timestamp), ReportedSeconds(probed, selected, files),
                                 YoutubeIds(selected)))
      && (r.Success? && committed ==>
            (store.compilations, store.rows)
            == Recorded(old(store.compilations), old(store.rows), topic, OutputName(topic, timestamp), files.keys, recordedAt))
    ensures r == Failure(NoVideosFound) <==> forall v :: v in topicVideos ==> EffectiveDuration(v) > maxHours * 3600
    ensures topicVideos == [] ==> r == Failure(NoVideosFound)
    ensures r.Failure? || !committed ==> store.compilations == old(store.compilations) && store.rows == old(store.rows)
    ensures r.Success? ==> 1 <= |r.value.selectedYoutubeIds|
    ensures r.Success? && probed == 0 && 0 <= maxHours ==> r.value.totalSeconds <= maxHours * 3600
    ensures r.Success? && committed ==>
      |store.compilations| == |old(store.compilations)| + 1
      && var c := store.compilations[|old(store.compilations)|];
         c.topic == topic && c.filename == OutputName(topic, timestamp) && c.createdAt == recordedAt
         && 1 <= c.videoCount <= |r.value.selectedYoutubeIds|
    ensures r.Success? && committed && Consistent(old(store.compilations), old(store.rows))
            ==> Consistent(store.compilations, store.rows)
  {
    var maxDuration := maxHours * 3600;
    var selected;
    selected, candidates := SelectWithinDuration(topicVideos, store.Uses(), now, maxDuration, cooldownDays);
    FreshFirstMeans(candidates, topicVideos, store.Uses(), CooldownStart(now, cooldownDays));
    FirstFitEmpty(candidates, maxDuration);
    assert forall v :: v in candidates <==> v in topicVideos by {
      forall v ensures v in candidates <==> v in topicVideos {
        assert v in candidates <==> v in multiset(candidates);
        assert v in topicVideos <==> v in multiset(topicVideos);
      }
    }
    if selected == [] {
      return Failure(NoVideosFound), candidates;
    }
    var fetched := DownloadVideosSequential(selected, download);
    if fetched.Failure? {
      return Failure(DownloadAborted(fetched.error)), candidates;
    }
    var files := fetched.value;
    if files.keys == [] {
      return Failure(NothingDownloaded), candidates;
    }
    var compiled, _ := CompileVideos(files, topic, outputDir, timestamp, true, transcode, "");
    if compiled.Failure? {
      return Failure(ConcatListUnwritable), candidates;
    }
    ProcedureCases(true, transcode, "");
    if compiled.value.None? {
      return Failure(CompilationFailed), candidates;
    }
    var totalSeconds := ReportedSeconds(probed, selected, files);
    var ids := YoutubeIds(selected);
    RecordedConsistentIf(store.compilations, store.rows, topic, OutputName(topic, timestamp), files.keys, recordedAt);
    var _ := store.RecordCompilation(topic, OutputName(topic, timestamp), files, recordedAt, committed);
    r := Success(RunResult(compiled.value.value, totalSeconds, ids));
  }

  lemma RecordedConsistentIf(comps: seq<Compilation>, rows: seq<JoinRow>, topic: string, filename: string,
                             keys: seq<int>, now: int)
    ensures Consistent(comps, rows) ==>
      var after := Recorded(comps, rows, topic, filename, keys, now);
      Consistent(after.0, after.1)
  {
    if Consistent(comps, rows) { RecordedConsistent(comps, rows, topic, filename, keys, now); }
  }
}
