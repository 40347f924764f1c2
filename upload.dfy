/** The retry policy of `upload_video` (src/youtube_upload.py:262-292): the
    resumable upload asks for one chunk after another until the service
    answers with the new video's id. A server error (HTTP 500, 502, 503 or
    504) is retried after an exponential wait; any other error ends the
    upload. The chunk answers are the input of the model, in the order they
    arrive. */
module Upload {
  import opened Wrappers

  /** What one `next_chunk()` call did. */
  datatype ChunkResult =
    | InProgress                      // a chunk went through, no response yet
    | Completed(videoId: string)      // the response carrying the id
    | HttpFailure(status: int)        // an `HttpError` with this status
    | OtherFailure                    // any other exception

  /** How the upload ended. `NoResponse` is the model's end of input: the
      answers ran out with neither a response nor an exception. */
  datatype UploadOutcome =
    | Uploaded(videoId: string)
    | RetriesExhausted(retries: nat)
    | HttpRaised(status: int)
    | OtherRaised
    | NoResponse

  /** The outcome and the waits, in seconds, slept before retries. */
  datatype Upload = Upload(outcome: UploadOutcome, waits: seq<int>)

  predicate Retryable(status: int) {
    status == 500 || status == 502 || status == 503 || status == 504
  }

  const MaxRetries: nat := 10

  const MaxWait: int := 64

  function Pow2(n: nat): (p: nat)
    ensures p >= 1
  {
    if n == 0 then 1 else 2 * Pow2(n - 1)
  }

  /** `min(2 ** retry_count, 64)` */
  function Backoff(retryCount: nat): (w: int)
    ensures 1 <= w <= MaxWait
  {
    Min(Pow2(retryCount), MaxWait)
  }

  /** The loop from answer `i` on, with `retries` server errors counted so far. */
  function UploadFrom(chunks: seq<ChunkResult>, i: nat, retries: nat): Upload
    decreases |chunks| - i
  {
    if i >= |chunks| then Upload(NoResponse, [])
    else match chunks[i]
      case InProgress => UploadFrom(chunks, i + 1, retries)
      case Completed(id) => Upload(Uploaded(id), [])
      case HttpFailure(status) =>
        if !Retryable(status) then Upload(HttpRaised(status), [])
        else if retries + 1 > MaxRetries then Upload(RetriesExhausted(retries + 1), [])
        else
          var rest := UploadFrom(chunks, i + 1, retries + 1);
          Upload(rest.outcome, [Backoff(retries + 1)] + rest.waits)
      case OtherFailure => Upload(OtherRaised, [])
  }

  /** The `while response is None` loop. The retry counter only grows: a
      chunk that goes through does not reset it. */
  method UploadVideo(chunks: seq<ChunkResult>) returns (outcome: UploadOutcome, waits: seq<int>)
    ensures Upload(outcome, waits) == UploadFrom(chunks, 0, 0)
  {
    var i := 0;
    var retryCount: nat := 0;
    waits := [];
    while i < |chunks|
      invariant i <= |chunks|
      invariant retryCount <= MaxRetries
      invariant UploadFrom(chunks, 0, 0).outcome == UploadFrom(chunks, i, retryCount).outcome
      invariant UploadFrom(chunks, 0, 0).waits == waits + UploadFrom(chunks, i, retryCount).waits
      decreases |chunks| - i
    {
      match chunks[i] {
        case InProgress =>
        case Completed(id) =>
          return Uploaded(id), waits;
        case HttpFailure(status) =>
          if !Retryable(status) {
            return HttpRaised(status), waits;
          }
          retryCount := retryCount + 1;
          if retryCount > MaxRetries {
            return RetriesExhausted(retryCount), waits;
          }
          waits := waits + [Backoff(retryCount)];
        case OtherFailure =>
          return OtherRaised, waits;
      }
      i := i + 1;
    }
    outcome := NoResponse;
  }

  /** The number of retryable server errors among the answers `i` to `j - 1`. */
  function ServerErrors(chunks: seq<ChunkResult>, i: nat, j: nat): nat
    requires i <= j <= |chunks|
    decreases j - i
  {
    if i == j then 0
    else (if chunks[i].HttpFailure? && Retryable(chunks[i].status) then 1 else 0) + ServerErrors(chunks, i + 1, j)
  }

  /** The k-th wait is `min(2^k, 64)` counting from the first server error of
      the whole upload, so at most ten waits happen. */
  lemma {:induction false} WaitSchedule(chunks: seq<ChunkResult>, i: nat, retries: nat)
    requires retries <= MaxRetries
    ensures var u := UploadFrom(chunks, i, retries);
      retries + |u.waits| <= MaxRetries
      && forall k :: 0 <= k < |u.waits| ==> u.waits[k] == Backoff(retries + k + 1)
    decreases |chunks| - i
  {
    if i < |chunks| {
      match chunks[i]
      case InProgress => WaitSchedule(chunks, i + 1, retries);
      case Completed(_) =>
      case OtherFailure =>
      case HttpFailure(status) =>
        if Retryable(status) && retries + 1 <= MaxRetries {
          WaitSchedule(chunks, i + 1, retries + 1);
          var rest := UploadFrom(chunks, i + 1, retries + 1);
          var ws := [Backoff(retries + 1)] + rest.waits;
          forall k | 1 <= k < |ws| ensures ws[k] == Backoff(retries + k + 1) {
            assert ws[k] == rest.waits[k - 1];
          }
        }
    }
  }

  /** At most ten waits, the k-th (from 1) of `min(2^k, 64)` seconds. */
  lemma UploadWaits(chunks: seq<ChunkResult>)
    ensures var u := UploadFrom(chunks, 0, 0);
      |u.waits| <= MaxRetries
      && forall k :: 0 <= k < |u.waits| ==> u.waits[k] == Backoff(k + 1)
  {
    WaitSchedule(chunks, 0, 0);
  }

  /** The waits are 2, 4, 8, 16, 32 and then 64 seconds; together at most
      382 seconds. */
  lemma BackoffValues()
    ensures Backoff(1) == 2 && Backoff(2) == 4 && Backoff(3) == 8 && Backoff(4) == 16 && Backoff(5) == 32
    ensures forall n :: 6 <= n ==> Backoff(n) == MaxWait
  {
    forall n | 6 <= n ensures Backoff(n) == MaxWait { Pow2AtLeast(n); }
  }

  lemma {:induction false} Pow2AtLeast(n: nat)
    requires n >= 6
    ensures Pow2(n) >= 64
    decreases n
  {
    if n > 6 { Pow2AtLeast(n - 1); }
  }

  function Sum(s: seq<int>): int
    decreases |s|
  {
    if s == [] then 0 else s[0] + Sum(s[1..])
  }

  lemma TotalWait(chunks: seq<ChunkResult>)
    ensures Sum(UploadFrom(chunks, 0, 0).waits) <= 382
  {
    UploadWaits(chunks);
    BackoffValues();
    var w := UploadFrom(chunks, 0, 0).waits;
    var schedule := [2, 4, 8, 16, 32, 64, 64, 64, 64, 64];
    SumPrefixBound(w, schedule);
    assert Sum(schedule) == 382;
  }

  lemma {:induction false} SumPrefixBound(w: seq<int>, schedule: seq<int>)
    requires |w| <= |schedule|
    requires forall k :: 0 <= k < |w| ==> w[k] == schedule[k]
    requires forall k :: 0 <= k < |schedule| ==> schedule[k] >= 0
    ensures Sum(w) <= Sum(schedule)
    decreases |schedule|
  {
    if schedule != [] {
      if w == [] {
        SumNonNegative(schedule);
      } else {
        SumPrefixBound(w[1..], schedule[1..]);
      }
    }
  }

  lemma {:induction false} SumNonNegative(s: seq<int>)
    requires forall k :: 0 <= k < |s| ==> s[k] >= 0
    ensures Sum(s) >= 0
    decreases |s|
  {
    if s != [] { SumNonNegative(s[1..]); }
  }

  /** How each outcome comes about: a raised HTTP error is never a server
      error, the upload gives up only at the eleventh server error, and an id
      is only returned when the service sent it. */
  lemma {:induction false} UploadOutcomes(chunks: seq<ChunkResult>, i: nat, retries: nat)
    requires i <= |chunks| && retries <= MaxRetries
    ensures var u := UploadFrom(chunks, i, retries);
      (u.outcome.HttpRaised? ==>
         (!Retryable(u.outcome.status) && exists j :: i <= j < |chunks| && chunks[j] == HttpFailure(u.outcome.status)))
      && (u.outcome.Uploaded? ==> exists j :: i <= j < |chunks| && chunks[j] == Completed(u.outcome.videoId))
      && (u.outcome.RetriesExhausted? ==>
         (u.outcome.retries == MaxRetries + 1 && retries + ServerErrors(chunks, i, |chunks|) >= MaxRetries + 1))
      && (u.outcome.RetriesExhausted? ==>
         exists j :: i <= j < |chunks| && ServerError(chunks[j]) && retries + ServerErrors(chunks, i, j) == MaxRetries
                     && forall k :: i <= k < j ==> PassesOn(chunks[k]))
    decreases |chunks| - i
  {
    if i < |chunks| {
      match chunks[i]
      case InProgress =>
        UploadOutcomes(chunks, i + 1, retries);
        if UploadFrom(chunks, i, retries).outcome.RetriesExhausted? {
          var j :| i + 1 <= j < |chunks| && ServerError(chunks[j]) && retries + ServerErrors(chunks, i + 1, j) == MaxRetries
                   && forall k :: i + 1 <= k < j ==> PassesOn(chunks[k]);
          assert ServerErrors(chunks, i, j) == ServerErrors(chunks, i + 1, j);
        }
      case Completed(_) =>
      case OtherFailure =>
      case HttpFailure(status) =>
        if Retryable(status) && retries + 1 <= MaxRetries {
          UploadOutcomes(chunks, i + 1, retries + 1);
          if UploadFrom(chunks, i, retries).outcome.RetriesExhausted? {
            var j :| i + 1 <= j < |chunks| && ServerError(chunks[j]) && retries + 1 + ServerErrors(chunks, i + 1, j) == MaxRetries
                     && forall k :: i + 1 <= k < j ==> PassesOn(chunks[k]);
            assert ServerErrors(chunks, i, j) == 1 + ServerErrors(chunks, i + 1, j);
          }
        } else if Retryable(status) {
          assert ServerErrors(chunks, i, i) == 0;
        }
    }
  }

  /** A retryable server error. */
  predicate ServerError(c: ChunkResult) {
    c.HttpFailure? && Retryable(c.status)
  }

  /** An answer after which the loop asks for the next chunk (unless the
      retries are used up): a chunk that went through, or a server error. */
  predicate PassesOn(c: ChunkResult) {
    c.InProgress? || ServerError(c)
  }

  /** While the answers only pass on and the retries last, the loop reaches
      answer `j` with every server error in between counted and waited for. */
  lemma {:induction false} PassThrough(chunks: seq<ChunkResult>, i: nat, j: nat, retries: nat)
    requires i <= j < |chunks|
    requires forall k :: i <= k < j ==> PassesOn(chunks[k])
    requires retries + ServerErrors(chunks, i, j) <= MaxRetries
    ensures UploadFrom(chunks, i, retries).outcome == UploadFrom(chunks, j, retries + ServerErrors(chunks, i, j)).outcome
    decreases j - i
  {
    if i < j {
      if chunks[i].InProgress? {
        PassThrough(chunks, i + 1, j, retries);
      } else {
        assert ServerError(chunks[i]);
        PassThrough(chunks, i + 1, j, retries + 1);
      }
    }
  }

  /** Any HTTP error that is not a server error propagates as soon as the
      loop reaches it, whatever went before. */
  lemma ClientErrorPropagatesAt(chunks: seq<ChunkResult>, j: nat, status: int)
    requires j < |chunks| && chunks[j] == HttpFailure(status) && !Retryable(status)
    requires forall k :: 0 <= k < j ==> PassesOn(chunks[k])
    requires ServerErrors(chunks, 0, j) <= MaxRetries
    ensures UploadFrom(chunks, 0, 0).outcome == HttpRaised(status)
  {
    PassThrough(chunks, 0, j, 0);
  }

  /** Reached at any point, a non-retried HTTP error ends the upload there,
      with no further wait. */
  lemma ClientErrorStops(chunks: seq<ChunkResult>, i: nat, retries: nat, status: int)
    requires i < |chunks| && chunks[i] == HttpFailure(status) && !Retryable(status)
    ensures UploadFrom(chunks, i, retries) == Upload(HttpRaised(status), [])
  {
  }

  /** The upload gives up at the eleventh server error, whatever follows. */
  lemma GivesUpAtEleventh(chunks: seq<ChunkResult>, j: nat)
    requires j < |chunks| && ServerError(chunks[j])
    requires forall k :: 0 <= k < j ==> PassesOn(chunks[k])
    requires ServerErrors(chunks, 0, j) == MaxRetries
    ensures UploadFrom(chunks, 0, 0).outcome == RetriesExhausted(MaxRetries + 1)
  {
    PassThrough(chunks, 0, j, 0);
  }

  /** The counter is never reset: a chunk that goes through between two
      server errors leaves the second wait at four seconds. */
  lemma CounterNotReset()
    ensures UploadFrom([HttpFailure(503), InProgress, HttpFailure(502), Completed("abc")], 0, 0)
         == Upload(Uploaded("abc"), [2, 4])
  {
    var c := [HttpFailure(503), InProgress, HttpFailure(502), Completed("abc")];
    assert UploadFrom(c, 3, 2) == Upload(Uploaded("abc"), []);
    assert UploadFrom(c, 2, 1) == Upload(Uploaded("abc"), [Backoff(2)]);
    assert Backoff(1) == 2 && Backoff(2) == 4;
  }

  /** A client error ends the upload at once, without a wait. */
  lemma ClientErrorPropagates(rest: seq<ChunkResult>)
    ensures UploadFrom([HttpFailure(403)] + rest, 0, 0) == Upload(HttpRaised(403), [])
  {
  }
}
