/** The run guard and topic choice of automation.py. The two state files are
    JSON objects; loading one that is missing or unreadable gives `{}`, so
    the model receives the loaded object. Today's date, the current instant
    and the parser of stored timestamps are inputs. */
module Automation {
  import opened Wrappers
  import opened Catalogue

  /** A JSON value as `json.load` returns it (floats are not modelled). */
  datatype Json =
    | JNull
    | JBool(b: bool)
    | JInt(i: int)
    | JStr(s: string)
    | JArray(items: seq<Json>)
    | JObject(fields: map<string, Json>)

  /** A loaded state file. */
  type State = map<string, Json>

  /** `data.get(key)` */
  function Get(data: State, key: string): (r: Option<Json>)
    ensures r.Some? <==> key in data
    ensures r.Some? ==> r.value == data[key]
  {
    if key in data then Some(data[key]) else None
  }

  /** Python truthiness of `data.get(key)`: a missing key and JSON null are
      false, and so are false, 0, "", [] and {}. */
  predicate Truthy(j: Option<Json>) {
    match j
    case None => false
    case Some(JNull) => false
    case Some(JBool(b)) => b
    case Some(JInt(i)) => i != 0
    case Some(JStr(s)) => s != ""
    case Some(JArray(items)) => items != []
    case Some(JObject(fields)) => fields != map[]
  }

  // ---------------------------------------------------------------------------
  // The once-a-day guard

  /** `already_ran_today`: the stored date is today and a video id is stored. */
  predicate AlreadyRanToday(data: State, today: string) {
    if Get(data, "date") != Some(JStr(today)) then false
    else Get(data, "video_id") != None && Get(data, "video_id") != Some(JNull)
  }

  /** The marker written before the compilation starts. */
  function InProgressMarker(today: string): (data: State)
    ensures "video_id" !in data
    ensures Get(data, "date") == Some(JStr(today))
  {
    map["date" := JStr(today), "status" := JStr("in_progress")]
  }

  const WatchUrlPrefix: string := "https://www.youtube.com/watch?v="

  /** `record_run`. `durationSeconds` is the already rounded duration. */
  function RecordRun(today: string, topic: string, title: string, videoId: Option<string>,
                     durationSeconds: int): (data: State)
    ensures Get(data, "date") == Some(JStr(today))
    ensures Get(data, "video_id") == Some(if videoId.Some? then JStr(videoId.value) else JNull)
  {
    map[
      "date" := JStr(today),
      "topic" := JStr(topic),
      "title" := JStr(title),
      "video_id" := (if videoId.Some? then JStr(videoId.value) else JNull),
      "duration_seconds" := JInt(durationSeconds),
      "youtube_url" := (if videoId.Some? && videoId.value != "" then JStr(WatchUrlPrefix + videoId.value) else JNull)
    ]
  }

  /** The guard never holds on another day, and on the stored day it holds
      exactly when a video id other than null is stored. */
  lemma AlreadyRanTodayMeans(data: State, today: string)
    ensures Get(data, "date") != Some(JStr(today)) ==> !AlreadyRanToday(data, today)
    ensures Get(data, "date") == Some(JStr(today))
            ==> (AlreadyRanToday(data, today) <==> "video_id" in data && data["video_id"] != JNull)
  {
  }

  /** The marker does not count as a run: a restart on the same day runs again. */
  lemma MarkerAllowsRerun(today: string)
    ensures !AlreadyRanToday(InProgressMarker(today), today)
  {
  }

  /** After a run that recorded an id, the guard holds for the rest of the
      day and for no other day; a run without an id leaves the day open. */
  lemma RecordRunGuard(today: string, other: string, topic: string, title: string,
                       videoId: Option<string>, seconds: int)
    requires other != today
    ensures AlreadyRanToday(RecordRun(today, topic, title, videoId, seconds), today) <==> videoId.Some?
    ensures !AlreadyRanToday(RecordRun(today, topic, title, videoId, seconds), other)
  {
    assert Get(RecordRun(today, topic, title, videoId, seconds), "date") == Some(JStr(today));
  }

  /** The stored link is present exactly for a non-empty id, and then points
      to that video. An empty id is stored, counts for the guard, and has no
      link. */
  lemma RecordRunUrl(today: string, topic: string, title: string, videoId: Option<string>, seconds: int)
    ensures var data := RecordRun(today, topic, title, videoId, seconds);
      "youtube_url" in data
      && (data["youtube_url"] != JNull <==> videoId.Some? && videoId.value != "")
      && (videoId.Some? && videoId.value != "" ==> data["youtube_url"] == JStr(WatchUrlPrefix + videoId.value))
  {
  }

  /** Whether `main` goes ahead past the guard. */
  predicate ShouldRun(force: bool, data: State, today: string) {
    force || !AlreadyRanToday(data, today)
  }

  /** A day goes: the marker lets a failed start be retried; a recorded upload
      stops further runs that day unless forced; the next day runs again. */
  lemma DailyCycle(today: string, tomorrow: string, topic: string, title: string, videoId: string, seconds: int)
    requires tomorrow != today
    ensures ShouldRun(false, InProgressMarker(today), today)
    ensures !ShouldRun(false, RecordRun(today, topic, title, Some(videoId), seconds), today)
    ensures ShouldRun(true, RecordRun(today, topic, title, Some(videoId), seconds), today)
    ensures ShouldRun(false, RecordRun(today, topic, title, Some(videoId), seconds), tomorrow)
  {
    RecordRunGuard(today, tomorrow, topic, title, Some(videoId), seconds);
  }

  // ---------------------------------------------------------------------------
  // Database staleness

  const MicrosPerDay: int := 86_400_000_000

  const UpdateIntervalDays: int := 7

  /** `timedelta.days` of a span in microseconds: whole days, rounded down. */
  function Days(micros: int): int {
    micros / MicrosPerDay
  }

  /** `db_needs_update`. `parse` is `datetime.fromisoformat` giving the
      instant in microseconds, or `None` when it raises; a stored date that
      is not a string raises as well. */
  predicate DbNeedsUpdate(data: State, nowMicros: int, parse: string -> Option<int>) {
    if !Truthy(Get(data, "date")) then true
    else match data["date"]
      case JStr(s) => (match parse(s)
        case None => true
        case Some(last) => Days(nowMicros - last) >= UpdateIntervalDays)
      case _ => true
  }

  /** A refresh is due when no usable date is stored, and otherwise exactly
      when seven whole days have passed: the span reaches seven times a day. */
  lemma DbNeedsUpdateMeans(data: State, nowMicros: int, parse: string -> Option<int>)
    ensures (forall s :: Get(data, "date") == Some(JStr(s)) ==> s == "" || parse(s).None?)
            ==> DbNeedsUpdate(data, nowMicros, parse)
    ensures forall s, last ::
      (Get(data, "date") == Some(JStr(s)) && s != "" && parse(s) == Some(last)
       ==> (DbNeedsUpdate(data, nowMicros, parse) <==> nowMicros - last >= UpdateIntervalDays * MicrosPerDay))
  {
    forall s, last | Get(data, "date") == Some(JStr(s)) && s != "" && parse(s) == Some(last)
      ensures DbNeedsUpdate(data, nowMicros, parse) <==> nowMicros - last >= UpdateIntervalDays * MicrosPerDay
    {
      DaysThreshold(nowMicros - last);
    }
  }

  lemma DaysThreshold(span: int)
    ensures Days(span) >= UpdateIntervalDays <==> span >= UpdateIntervalDays * MicrosPerDay
  {
    var q, r := span / MicrosPerDay, span % MicrosPerDay;
    assert span == q * MicrosPerDay + r && 0 <= r < MicrosPerDay;
    if q >= UpdateIntervalDays {
      assert q * MicrosPerDay >= UpdateIntervalDays * MicrosPerDay;
    } else {
      assert q * MicrosPerDay <= (UpdateIntervalDays - 1) * MicrosPerDay;
    }
  }

  /** Six days and a bit are not enough; seven days are. */
  lemma DaysExamples(last: int)
    ensures !(Days(last + 6 * MicrosPerDay + MicrosPerDay - 1 - last) >= UpdateIntervalDays)
    ensures Days(last + 7 * MicrosPerDay - last) >= UpdateIntervalDays
  {
    DaysThreshold(6 * MicrosPerDay + MicrosPerDay - 1);
    DaysThreshold(7 * MicrosPerDay);
  }

  // ---------------------------------------------------------------------------
  // Topic choice

  /** `session.query(Video).filter(Video.topic == topic).count()` */
  function CountTopic(videos: seq<Video>, topic: string): nat
    decreases |videos|
  {
    if videos == [] then 0
    else (if videos[0].topic == topic then 1 else 0) + CountTopic(videos[1..], topic)
  }

  /** A topic has a video exactly when some video carries it. */
  lemma {:induction false} CountTopicPositive(videos: seq<Video>, topic: string)
    ensures CountTopic(videos, topic) > 0 <==> exists i :: 0 <= i < |videos| && videos[i].topic == topic
    decreases |videos|
  {
    if videos != [] {
      CountTopicPositive(videos[1..], topic);
      if CountTopic(videos[1..], topic) > 0 {
        var i :| 0 <= i < |videos[1..]| && videos[1..][i].topic == topic;
        assert videos[i + 1].topic == topic;
      }
      forall i | 1 <= i < |videos| && videos[i].topic == topic ensures CountTopic(videos[1..], topic) > 0 {
        assert videos[1..][i - 1] == videos[i];
      }
    }
  }

  /** A topic the automatic choice may pick. */
  predicate Eligible(topic: string, videos: seq<Video>) {
    topic != "general" && CountTopic(videos, topic) > 0
  }

  /** `select_random_topic`: any configured topic other than `general` that
      has videos; `None` when there is none. The configured topics are given
      in the order of the config file. */
  method SelectRandomTopic(topics: seq<string>, videos: seq<Video>) returns (r: Option<string>)
    ensures r.Some? ==> r.value in topics && Eligible(r.value, videos)
    ensures r.None? <==> forall t :: t in topics ==> !Eligible(t, videos)
  {
    var candidates: seq<string> := [];
    for i := 0 to |topics|
      invariant forall t :: t in candidates <==> t in topics[..i] && Eligible(t, videos)
    {
      assert topics[..i + 1] == topics[..i] + [topics[i]];
      if topics[i] == "general" {
        continue;
      }
      var count := CountTopic(videos, topics[i]);
      if count > 0 {
        candidates := candidates + [topics[i]];
      }
    }
    assert topics[..|topics|] == topics;
    if candidates == [] {
      return None;
    }
    assert candidates[0] in candidates;
    var chosen :| chosen in candidates;
    r := Some(chosen);
  }

  /** Why no topic is used. */
  datatype TopicError = UnknownTopic | TopicHasNoVideos | NoTopicWithVideos

  /** The topic step of `main`: a non-empty `--topic` must be configured and
      have videos (and may be `general`); otherwise a topic is picked at
      random, and an empty pick (a topic named "" in the config) stops the
      run like no pick at all. */
  method ChooseTopic(requested: Option<string>, topics: seq<string>, videos: seq<Video>)
    returns (r: Result<string, TopicError>)
    ensures requested.Some? && requested.value != "" ==>
      (requested.value !in topics ==> r == Failure(UnknownTopic))
      && (requested.value in topics && CountTopic(videos, requested.value) == 0 ==> r == Failure(TopicHasNoVideos))
      && (requested.value in topics && CountTopic(videos, requested.value) > 0 ==> r == Success(requested.value))
    ensures (requested.None? || requested.value == "") ==>
      (r.Success? ==> r.value in topics && Eligible(r.value, videos) && r.value != "")
      && ((forall t :: t in topics ==> !Eligible(t, videos)) ==> r == Failure(NoTopicWithVideos))
      && (r.Failure? ==> r.error == NoTopicWithVideos)
      && (r.Failure? ==> (forall t :: t in topics ==> !Eligible(t, videos)) || ("" in topics && Eligible("", videos)))
  {
    if requested.Some? && requested.value != "" {
      var topic := requested.value;
      if topic !in topics {
        return Failure(UnknownTopic);
      }
      var count := CountTopic(videos, topic);
      if count == 0 {
        return Failure(TopicHasNoVideos);
      }
      return Success(topic);
    }
    var picked := SelectRandomTopic(topics, videos);
    if picked.None? || picked.value == "" {
      return Failure(NoTopicWithVideos);
    }
    r := Success(picked.value);
  }
}
