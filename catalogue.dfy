/** The catalogue records (the `videos`, `compilations` and `compilation_videos`
    tables of src/database.py) and the two per-video notions the selector
    derives from them: the effective duration and the cooldown status.
    Instants are whole seconds on the UTC clock. */
module Catalogue {
  import opened Wrappers

  /** Seconds assumed for a video whose recorded duration is missing or not positive. */
  const DefaultDuration: int := 3600

  const SecondsPerDay: int := 86400

  /** A `videos` row. `title` and `duration` are `None` for SQL NULL;
      `duration` is in seconds; `uploadDate` is the `YYYY-MM-DD` text column. */
  datatype Video = Video(
    id: int,
    youtubeId: string,
    title: Option<string>,
    url: string,
    duration: Option<int>,
    uploadDate: string,
    topic: string)

  /** A `compilations` row. */
  datatype Compilation = Compilation(
    id: int,
    topic: string,
    filename: string,
    videoCount: int,
    createdAt: int)

  /** A `compilation_videos` row joined to its compilation: which video was
      used, by which compilation, and when that compilation was created. */
  datatype Use = Use(videoId: int, compilationId: int, createdAt: int)

  /** The duration the selector charges for a video: the recorded one when it
      is present and positive, otherwise one hour. */
  function EffectiveDuration(v: Video): (d: int)
    ensures d > 0
    ensures d == DefaultDuration || v.duration == Some(d)
    ensures (v.duration.Some? && v.duration.value > 0) ==> d == v.duration.value
  {
    match v.duration
    case Some(s) => if s > 0 then s else DefaultDuration
    case None => DefaultDuration
  }

  /** Sum of effective durations. */
  function TotalDuration(s: seq<Video>): int
    decreases |s|
  {
    if s == [] then 0 else EffectiveDuration(s[0]) + TotalDuration(s[1..])
  }

  lemma {:induction false} TotalDurationAppend(a: seq<Video>, b: seq<Video>)
    ensures TotalDuration(a + b) == TotalDuration(a) + TotalDuration(b)
    decreases |a|
  {
    if a == [] {
      assert a + b == b;
    } else {
      assert (a + b)[0] == a[0];
      assert (a + b)[1..] == a[1..] + b;
      TotalDurationAppend(a[1..], b);
    }
  }

  lemma {:induction false} TotalDurationNonNegative(s: seq<Video>)
    ensures TotalDuration(s) >= 0
    ensures s != [] ==> TotalDuration(s) > 0
    decreases |s|
  {
    if s != [] { TotalDurationNonNegative(s[1..]); }
  }

  /** `now - timedelta(days=cooldownDays)`: the start of the cooldown window. */
  function CooldownStart(now: int, cooldownDays: int): int {
    now - cooldownDays * SecondsPerDay
  }

  /** The query of combine.py: some `compilation_videos` row of this video
      belongs to a compilation created at or after `since`. */
  predicate IsCooling(v: Video, uses: seq<Use>, since: int) {
    exists u :: u in uses && u.videoId == v.id && u.createdAt >= since
  }

  /** The cooldown window is closed at its start: a use at exactly
      `now - cooldownDays` still cools the video, one a second earlier does not. */
  lemma CooldownBoundary(v: Video, compilationId: int, now: int, cooldownDays: int)
    ensures IsCooling(v, [Use(v.id, compilationId, CooldownStart(now, cooldownDays))], CooldownStart(now, cooldownDays))
    ensures !IsCooling(v, [Use(v.id, compilationId, CooldownStart(now, cooldownDays) - 1)], CooldownStart(now, cooldownDays))
  {
    var u := Use(v.id, compilationId, CooldownStart(now, cooldownDays));
    assert u in [u];
  }
}
