# SDMNH render automation: a Dafny model of the compilation pipeline

SDMNH-RENDER-AUTOMATION builds long "N HOUR SPECIAL" compilations of Sidemen
videos for one topic and uploads them to YouTube once a day. This project models
the decisions the pipeline makes and proves properties about them. It covers:

- picking videos under a duration budget, with fresh videos before ones still
  in cooldown (`select_videos_within_duration`), and the count-based picker
  (`select_videos`);
- the best-effort download loop, as an oracle that gives a path or nothing, and its abort on a video with a NULL title;
- the three-tier transcoding fallback with its operator gate;
- the ledger of compilations and `compilation_videos` rows, and the duration
  reported when the output cannot be probed;
- file-name sanitising, the YouTube title, the description's topic fields and
  the tag list;
- the resumable-upload retry policy;
- the daily guard, the database-staleness check and the topic choice of
  `automation.py`.

Modules, in file order of the pipeline:

| file | module | models |
|---|---|---|
| `wrappers.dfy` | `Wrappers` | `Option`, `Result`, `Min`, `Max` |
| `seqs.dfy` | `Seqs` | Python prefix slicing, subsequences, distinctness |
| `text.dfy` | `Text` | the `str` methods used: `lower`, `upper`, `title`, `strip`, `replace`, `str(int)` |
| `catalogue.dfy` | `Catalogue` | the `Video`, `Compilation` and usage-row shapes of `src/database.py`, effective duration, cooldown |
| `selection.dfy` | `Selection` | `select_videos_within_duration`, `select_videos` |
| `sanitize.dfy` | `Sanitize` | `sanitize_filename` |
| `dicts.dfy` | `Dicts` | an insertion-ordered `dict` keyed by video id |
| `acquisition.dfy` | `Acquisition` | `download_videos_sequential` |
| `compile.dfy` | `Compile` | `compile_videos` as a state machine over tier outcomes |
| `ledger.dfy` | `Ledger` | the database writes and duration fallback of `run_auto`, and `run_auto` as a whole |
| `metadata.dfy` | `Metadata` | `format_title`, the `topic_tag` and display-name fields of `format_description`, `build_tags` |
| `upload.dfy` | `Upload` | the retry loop of `upload_video` |
| `automation.dfy` | `Automation` | `already_ran_today`, `record_run`, `db_needs_update`, `select_random_topic`, the `--topic` check of `main` |

The code works in place, so the model does too:

- The selectors, `sanitize_filename`'s loop, the download loop, `build_tags`'
  loop, the upload loop and `select_random_topic`'s candidate loop are methods
  with loops. Each is proved equal to a specification function, or states its
  result outright.
- The database tables are the fields of the class `Ledger.Store`, and the
  ledger write is a method that changes them.
- `random.shuffle` is any permutation: `Selection.Shuffle` returns an arbitrary
  sequence with the same multiset. `random.choice` is an arbitrary member of
  the candidates. Every property holds whichever is chosen.

External effects are inputs:

- the clock: `now` read before the selection, the later instant `recordedAt` when the session flush stamps the new compilation (`created_at` defaults to `datetime.utcnow`, src/database.py:43), `today`, a timestamp string;
- the downloader: `Video -> Fetch`;
- each ffmpeg run: `Tier -> Outcome`, its return code, whether the file
  exists and its size;
- the operator's answer: a string;
- the probed output duration: an integer;
- whether the ledger transaction commits: a boolean;
- the outcome of each upload chunk: a sequence of `ChunkResult`;
- `datetime.fromisoformat`: a partial parsing function.

## Model

| member | source | states |
|---|---|---|
| Catalogue.EffectiveDuration | combine.py:121 | a duration is always positive; it is the stored duration when that is present and positive, and 3600 otherwise |
| Catalogue.IsCooling | combine.py:100-104 | a video is cooling when some usage row for it is dated at or after the cooldown start; `Catalogue.CooldownBoundary` and `Ledger.RecordedVideosCool` state its properties |
| Catalogue.CooldownBoundary | combine.py:95-104 | the cooldown boundary is inclusive: a use exactly at `now - cooldown_days` makes a video cooling, a use one second earlier does not |
| Selection.BucketFacts | combine.py:100-108 | each bucket is an order-preserving subsequence of the topic's videos; it holds exactly those videos whose cooling status matches it |
| Selection.BucketPartition | combine.py:100-108 | the fresh and cooling buckets are together a permutation of all videos; each video lands in exactly one bucket |
| Selection.Partition | combine.py:97-108 | the classification loop builds exactly the fresh and cooling buckets, and together they are a permutation of the input |
| Selection.Shuffle | combine.py:110-112 | a shuffle returns some permutation of its input |
| Selection.FreshFirstMeans | combine.py:110-115 | the candidate list is a permutation of all topic videos; no fresh video comes after a cooling one |
| Selection.ShuffledFreshFirst | combine.py:110-115 | any shuffle of the fresh bucket followed by any shuffle of the cooling bucket is a fresh-first permutation of all videos |
| Selection.FirstFitFrom | combine.py:117-125 | the first-fit scan from a running total: a candidate is taken when the total plus its effective duration fits, and skipped otherwise; the lemmas below state its properties |
| Selection.FirstFit | combine.py:117-125 | the scan from a total of 0; `Selection.FirstFitEmpty` and `Selection.FirstFitWithinBudget` state its properties |
| Selection.FirstFitWithinBudget | combine.py:117-125 | the running total plus the selected effective durations never exceeds the budget |
| Selection.FirstFitNegativeBudget | combine.py:117-125 | when the running total already exceeds the budget, nothing more is selected |
| Selection.FirstFitSubseq | combine.py:120-125 | the selection is an order-preserving subsequence of the candidates |
| Selection.FirstFitSplit | combine.py:120-125 | scanning `a + b` selects from `a`, then continues on `b` from the total reached after `a`; this is the scan-order property |
| Selection.FirstFitScan | combine.py:120-125 | candidate `k` is admitted exactly when the total of those selected before it plus its duration fits; a skip does not end the scan, and later candidates only extend the selection |
| Selection.FirstFitEmpty | combine.py:117-125 | the selection is empty exactly when every candidate alone is longer than the budget |
| Selection.FirstFitExample | combine.py:120-125 | with durations 5000, 4000, 3000 and a budget of 8000, the first and third videos are selected |
| Selection.FirstFitUniform | combine.py:120-125 | with equal durations, either every candidate is selected or one more would overflow the budget |
| Selection.QuizScenario | combine.py:117-125 | five 3000-second videos under a 7200-second budget give two videos and 6000 seconds |
| Selection.SelectWithinDuration | combine.py:76-132 | the scan runs over a fresh-first permutation of the topic's videos, and the result is the first-fit selection from it; no videos means no selection; the budget holds; the result is a subsequence of the candidates and a sub-multiset of the videos |
| Selection.NotIn | combine.py:70 | the videos of the list that are not in `available`, in list order; `Selection.NotInFreshIsCooling` states what it gives |
| Selection.NotInFreshIsCooling | combine.py:70 | the videos not in `available` are exactly the cooling bucket, in query order |
| Selection.FreshThenCooling | combine.py:58-71 | the fresh bucket followed by the cooling bucket is a permutation of all videos, of the same length |
| Selection.PaddedPrefix | combine.py:68-73 | padding fresh videos with `used[:count - len(available)]` gives a prefix of fresh-then-cooling of length `min(count, total)` |
| Selection.FreshPrefix | combine.py:69-73 | with at least `count` fresh videos, the result is the first `count` fresh videos |
| Selection.SelectVideos | combine.py:47-73 | no videos gives `[]`; a non-negative count gives the first `min(count, len)` of fresh-then-cooling order; a negative count gives a Python slice of the fresh bucket |
| Selection.BucketsNewestFirst | combine.py:49-51 | both buckets keep the newest-first upload-date order of the query |
| Selection.FreshThenCoolingDistinct | combine.py:58-73 | the count-based selection from distinct videos holds no video twice |
| Sanitize.Sanitized | combine.py:135-140 | the name has at most 200 characters and none of `<>:"/\|?*`; it is the first `min(200, n)` characters of the input with those characters removed |
| Sanitize.SanitizeFilename | combine.py:135-140 | the loop of one `replace(char, '')` per invalid character computes the sanitised name |
| Sanitize.SanitizedIdempotent | combine.py:135-140 | sanitising twice is the same as sanitising once |
| Sanitize.SanitizedSubseq | combine.py:135-140 | the characters kept stay in their original order |
| Sanitize.SanitizedValidName | combine.py:135-140 | a name already valid and at most 200 long is unchanged |
| Sanitize.SanitizedKeepsAllowed | combine.py:135-140 | when nothing is truncated, exactly the allowed characters of the input remain |
| Dicts.Empty | combine.py:250 | the empty dict is well formed and has no keys |
| Dicts.Put | combine.py:265 | assignment sets the entry; a new key is appended to the key order and an existing key keeps its place |
| Dicts.Size | combine.py:474 | `len()` is the number of keys |
| Acquisition.Downloads | combine.py:261-272 | the downloaded dict is well formed and has at most one key per requested video |
| Acquisition.DownloadVideosSequential | combine.py:249-272 | when every title is present, the loop computes the download dict, continuing past every failed or raising download; otherwise it raises at the first video with a NULL title: `download_video` slices the title first (combine.py:148, :151), and the handler's own `video.title[:40]` raises again; it succeeds exactly when every title is present |
| Acquisition.DownloadsKeys | combine.py:261-265 | an id is a key exactly when some requested video with that id was fetched, whatever failed before or after it |
| Acquisition.DownloadsValues | combine.py:263-265 | every stored path is the one the downloader gave for a video with that id |
| Acquisition.DownloadsInOrder | combine.py:261-265 | for distinct ids, the keys are the ids of the fetched videos in request order |
| Acquisition.DownloadsPaths | combine.py:263-265 | every fetched video has its id as a key, mapped to its own path |
| Compile.Accepted | combine.py:318 | a tier is accepted when ffmpeg returns 0 and the output exists and is larger than 1 000 000 bytes; `Compile.ProcedureCases` uses it |
| Compile.Confirmed | combine.py:349-352 | the operator's answer, stripped and lower-cased, is `y`; `Compile.ConfirmedMeans` states what it accepts |
| Compile.ConfirmedMeans | combine.py:351-352 | the gate is open exactly when the stripped answer is `y` or `Y` |
| Compile.Step | combine.py:303-388 | one step of the tier machine leaves a final state alone and moves any other state strictly closer to the end |
| Compile.Run | combine.py:303-388 | the machine always stops in success or failure, and attempts at most the tiers left after its starting state: three from the first tier |
| Compile.RunOrder | combine.py:303-388 | the attempted tiers are the next ones of the stream-copy, frame-drop, re-encode order, starting with the current tier; every tier before the last was rejected; a success is won by the last tier attempted, which was accepted |
| Compile.Procedure | combine.py:303-388 | the procedure is the machine run from the first tier; `Compile.ProcedureCases` gives its outcome in closed form |
| Compile.ProcedureCases | combine.py:318-388 | tier 1 wins iff accepted; tier 2 wins iff tier 1 fails and tier 2 is accepted; tier 3 wins iff both fail, the gate is open and it is accepted; otherwise the result is a failure; the tiers attempted are named in each case |
| Compile.ProcedureOrder | combine.py:318-346 | tiers are attempted strictly in order, each only after all earlier ones were rejected; a winner is the last tier attempted and was accepted |
| Compile.ProcedureGate | combine.py:349-358 | outside auto mode tier 3 runs only after a `y`; in auto mode the answer plays no part |
| Compile.LastTierFailure | combine.py:381-388 | when tier 3 is rejected it never wins, and a run that reached it fails |
| Compile.ConcatListingAscii | combine.py:289-295 | the concat listing can be written as ASCII exactly when every path can |
| Compile.ConcatListing | combine.py:289-295 | one `file '<path>'` line per path with `\` turned into `/`, joined by newlines; `Compile.ConcatListingAscii` states when it can be written |
| Compile.OutputName | combine.py:297-299 | the output file name is the topic, `_compilation_`, the timestamp and `.mp4`; `Compile.CompileVideos` and `Ledger.RunAuto` use it |
| Compile.CompileVideos | combine.py:275-388 | an empty dict gives `None` with no tier run; an unwritable listing raises before any tier; otherwise the tiers run as the machine says and a success gives the output path |
| Ledger.NextId | combine.py:476-477 | a new compilation id is larger than every existing one |
| Ledger.RowsFor | combine.py:479-484 | one join row is inserted per key, in key order, all for the new compilation |
| Ledger.RowsForCount | combine.py:471-484 | the new compilation gets exactly one row per key and no other compilation gets any |
| Ledger.RowsForOnePerKey | combine.py:479-484 | each downloaded video is joined to the new compilation exactly once, and no other video is |
| Ledger.UsesOfMember | combine.py:101-104 | every join row whose compilation exists is a use the cooldown query sees, dated with that compilation's creation time |
| Ledger.Recorded | combine.py:471-486 | the write appends one compilation and one row per key, leaving the earlier rows in place |
| Ledger.RecordedConsistent | combine.py:471-486 | the write keeps ids unique, rows pointing at existing compilations and `video_count` equal to the number of rows |
| Ledger.RecordedCounts | combine.py:474-484 | after the write, the new compilation's `video_count` equals its number of join rows, and the counts of other compilations are unchanged |
| Ledger.RecordedVideosCool | combine.py:471-486 | after the write, every recorded video is cooling for any cooldown start at or before now, and cooling videos stay cooling |
| Ledger.Store.RecordCompilation | combine.py:470-490 | a committed write stores the recorded state and returns the new id; a failed one changes nothing |
| Ledger.RecordedDuration | combine.py:460-462 | `duration or 3600`: null and 0 mean an hour, other values are kept, and the result never exceeds the effective duration |
| Ledger.FallbackTotal | combine.py:460-462 | the sum of `duration or 3600` over the selected videos that were downloaded; `Ledger.FallbackWithinSelection` and `Ledger.FallbackExact` bound it |
| Ledger.FallbackWithinSelection | combine.py:457-462 | the fallback total is at most the total the selector charged |
| Ledger.FallbackExact | combine.py:457-462 | with every video downloaded and no negative duration, the fallback equals the selector's total |
| Ledger.ReportedSeconds | combine.py:457-462 | a non-zero probe is reported as given; otherwise the fallback stays within the selector's total |
| Ledger.RunAuto | combine.py:407-495 | the selection is the first-fit scan of a fresh-first permutation of the topic's videos; "No videos found" comes exactly when nothing is selected, which is exactly when no topic video fits the budget (so also for no videos); the download loop's exception exactly when a selected video has a NULL title; "nothing downloaded" exactly when every title is present and no selected video is fetched; the concat-listing error exactly when a downloaded path is not ASCII; "compilation failed" exactly when the tiers all fail; a success returns the output path, the reported duration and the ids of the selected videos; each failure leaves the ledger unchanged; a committed success records the compilation of the downloaded videos, dated with the flush time `recordedAt` rather than the selection clock, with a count between 1 and the number selected, and keeps the ledger consistent |
| Metadata.RoundedHours | src/youtube_upload.py:139 | the rounded hour count is within half an hour of the duration, and on a tie it is even |
| Metadata.RoundedHoursUnique | src/youtube_upload.py:139 | only one integer rounds the duration that way |
| Metadata.Hours | src/youtube_upload.py:139 | the hour figure is `max(1, round(seconds / 3600))`, so at least 1 |
| Metadata.HoursExamples | src/youtube_upload.py:139 | 1800 s gives 1, 5400 s gives 2, 9000 s gives 2, 43200 s gives 12, and 0 or negative durations give 1 |
| Metadata.TitleDisplayName | src/youtube_upload.py:138 | the configured display name, or the topic with `_` as space in upper case; `Metadata.DisplayNamesAgree` relates it to the description's name |
| Metadata.FormatTitle | src/youtube_upload.py:131-140 | the title starts with `SIDEMEN ` and ends with ` HOUR SPECIAL` |
| Metadata.FormatTitleHours | src/youtube_upload.py:138-140 | after the prefix and the display name come decimal digits that read back as the hour figure |
| Metadata.FormatTitleQuiz | src/youtube_upload.py:138-140 | quiz at 5400 s is titled `SIDEMEN QUIZ - 2 HOUR SPECIAL` |
| Metadata.FormatTitleTwelveHours | src/youtube_upload.py:138-140 | quiz at 43200 s is titled `SIDEMEN QUIZ - 12 HOUR SPECIAL` |
| Metadata.TopicTag | src/youtube_upload.py:146 | the topic tag contains no `_` and no space |
| Metadata.TopicTagIsRemoval | src/youtube_upload.py:146 | the two `replace` calls remove exactly the underscores and spaces |
| Metadata.TopicTagProperties | src/youtube_upload.py:146 | the tag keeps the other characters in order, is idempotent, and has exactly the characters of the topic other than `_` and space |
| Metadata.DescriptionDisplayName | src/youtube_upload.py:145 | the configured display name, or the topic with `_` as space in title case; `Metadata.DisplayNamesAgree` relates it to the title's name |
| Metadata.DisplayNamesAgree | src/youtube_upload.py:138-145 | for an unknown topic, the title's name is the upper-case version of the description's name |
| Metadata.ExtraTags | src/youtube_upload.py:152-153 | the configured tag list of the topic, or the topic word alone; `Metadata.UnknownTopicTags` states what an unknown topic adds |
| Metadata.Merge | src/youtube_upload.py:155-158 | the merged list starts with the base tags, unchanged |
| Metadata.MergeFacts | src/youtube_upload.py:155-158 | base tags come first with duplicates kept; the appended tags are distinct, absent from the base, a subsequence of the extra tags, and cover every extra tag |
| Metadata.MergeDistinctExtra | src/youtube_upload.py:155-158 | when the extra tags have no repeats, the merged list is the base tags followed by exactly the extra tags not among them, in the order of the extra tags |
| Metadata.Resolve | src/youtube_upload.py:161 | placeholder resolution keeps the number of tags |
| Metadata.BuildTags | src/youtube_upload.py:150-162 | the loop and the comprehension compute merge, resolution and the 500 cap, and at most 500 tags come out |
| Metadata.BaseTagsFirst | src/youtube_upload.py:155-162 | the first `min(len(base), 500)` tags are the base tags with the placeholder resolved |
| Metadata.UnknownTopicTags | src/youtube_upload.py:152-153 | an unknown topic contributes exactly its topic word, unless the base already has it |
| Metadata.PlaceholderResolution | src/youtube_upload.py:161 | a tag without the placeholder is unchanged, and the placeholder alone becomes the topic word |
| Metadata.TagsDuplicateAfterResolution | src/youtube_upload.py:155-161 | base tags `sidemen`, `{topic_tag}` for quiz give `sidemen, quiz, quiz, trivia, knowledge`: the merge runs before resolution |
| Upload.Backoff | src/youtube_upload.py:285 | a wait lasts between 1 and 64 seconds |
| Upload.UploadFrom | src/youtube_upload.py:271-289 | the retry policy from chunk `i` with `retries` server errors so far; `Upload.UploadOutcomes` and the lemmas below state its properties |
| Upload.UploadVideo | src/youtube_upload.py:271-292 | the chunk loop computes the outcome and the waits of the retry policy |
| Upload.WaitSchedule | src/youtube_upload.py:280-287 | starting from `retries` server errors, at most `10 - retries` more waits follow, and the k-th lasts `min(2^(retries+k+1), 64)` |
| Upload.UploadWaits | src/youtube_upload.py:282-287 | an upload waits at most 10 times, and the n-th wait is `min(2^n, 64)` seconds |
| Upload.BackoffValues | src/youtube_upload.py:285 | the waits go 2, 4, 8, 16, 32 seconds, then 64 from the sixth on |
| Upload.TotalWait | src/youtube_upload.py:282-287 | an upload waits at most 382 seconds in total |
| Upload.UploadOutcomes | src/youtube_upload.py:274-289 | a propagated HTTP error has a non-retried status and came from a chunk; a success carries a chunk's id; giving up happens at a server error that brings the count to 11, with only pending chunks and server errors before it |
| Upload.PassThrough | src/youtube_upload.py:274-287 | pending chunks and server errors within the retry budget only move the loop on: the outcome is the one from the next other answer, with the counter raised by those server errors |
| Upload.ClientErrorStops | src/youtube_upload.py:288-289 | a status that is not retried ends the upload at once with that status and no wait, whatever chunk and counter it comes at |
| Upload.ClientErrorPropagatesAt | src/youtube_upload.py:274-289 | a non-retried status after only pending chunks and at most 10 server errors is the outcome of the upload |
| Upload.GivesUpAtEleventh | src/youtube_upload.py:282-284 | a server error after only pending chunks and exactly 10 earlier server errors makes the upload give up with a count of 11 |
| Upload.CounterNotReset | src/youtube_upload.py:272-287 | a successful chunk between two server errors does not reset the counter: the second wait is 4 s |
| Upload.ClientErrorPropagates | src/youtube_upload.py:288-289 | a 403 propagates at once, without a wait |
| Automation.AlreadyRanToday | automation.py:100-105 | the guard: the stored date is today and a non-null `video_id` is stored; `Automation.AlreadyRanTodayMeans` states it by cases |
| Automation.InProgressMarker | automation.py:325 | the marker stores today's date and no `video_id` |
| Automation.RecordRun | automation.py:108-116 | the record stores today's date and the id as given, null when absent |
| Automation.AlreadyRanTodayMeans | automation.py:100-105 | the guard is false on any other date; on today's date it holds iff a non-null `video_id` is stored |
| Automation.MarkerAllowsRerun | automation.py:104-105 | the in-progress marker does not stop a same-day rerun |
| Automation.RecordRunGuard | automation.py:100-116 | after a record with an id the guard holds for that day and no other; a record without an id leaves the day open |
| Automation.RecordRunUrl | automation.py:115 | the stored link is non-null exactly for a non-empty id, and then is the watch URL of that id |
| Automation.ShouldRun | automation.py:277-281 | a run goes ahead when forced or when the guard does not hold; `Automation.DailyCycle` states its effect over a day |
| Automation.DailyCycle | automation.py:277-281 | the marker lets a same-day run go ahead; a recorded upload stops unforced reruns that day but not forced ones or the next day's |
| Automation.DbNeedsUpdate | automation.py:119-127 | a refresh is due when the stored date is falsy, unparsable, or at least 7 whole days old; `Automation.DbNeedsUpdateMeans` states it by cases |
| Automation.DbNeedsUpdateMeans | automation.py:119-127 | a refresh is due when no usable date is stored; otherwise exactly when at least seven days' worth of time has elapsed |
| Automation.DaysThreshold | automation.py:125 | whole elapsed days reach 7 exactly when the span reaches seven days |
| Automation.DaysExamples | automation.py:125 | six days and a bit do not call for a refresh; seven days do |
| Automation.CountTopicPositive | automation.py:181 | a topic's count is positive exactly when some video has that topic |
| Automation.SelectRandomTopic | automation.py:171-195 | a pick is a configured topic other than `general` with at least one video; `None` comes exactly when no such topic exists |
| Automation.ChooseTopic | automation.py:300-318 | an explicit topic is rejected when unconfigured or without videos, and accepted otherwise (`general` included); without one, a random pick is used: a success is an eligible non-empty topic, no eligible topic stops the run, and a stop means either no topic is eligible or the empty topic is |

## Left out

- ffmpeg and ffprobe are not run: each tier's result is an input, and so is the probed duration of the output. The deletion of a partial output between tiers and the stderr messages are not modelled.
- Compile.CompileVideos: an ffmpeg run that exceeds its timeout raises `subprocess.TimeoutExpired`, which `compile_videos` does not catch (tier 1 always has a 600 s timeout, combine.py:316; tiers 2 and 3 have one outside auto mode, combine.py:342 and :379). The run then aborts without trying the next tier. The model has no timeout outcome, so it does not capture this abort.
- Downloading (`download_video`, pytubefix, its error-message checks and sleeps) is an oracle from a video to a path, no path or an exception. It is a function of the video, so downloading the same video twice gives the same answer. A NULL title is not passed to it: the model raises for it before the download, as the title slice at combine.py:148 and :151 does.
- SQLAlchemy, the sessions and the ORM are not modelled. The tables are sequences of rows, new ids are `max + 1` (SQLite's rowid rule without deleted rows), and every row written in one run carries the same creation time, the flush time `recordedAt`, which is no earlier than the selection clock `now`.
- OAuth, the byte transfer of the resumable upload, thumbnails, `wait_for_network` and `update_database` are I/O against foreign services and are left out.
- Floating point is not modelled: `int(max_hours * 3600)` takes whole hours, `round(duration_seconds)` in `record_run` is given as an integer, and the probed duration is an integer.
- The `format_description` template filling (`str.format`) is left out; only its display-name and `topic_tag` fields are modelled.
- `cleanup_downloads` (a filesystem glob and unlink) and the console, logging and progress output are left out.
- `Path.absolute()` in the concat listing is not modelled: the paths in the dict are taken as already absolute. The backslash replacement is modelled in `Compile.ConcatLine`.
- String case mapping, `strip()` and `title()` cover ASCII only; Unicode whitespace and case rules are not modelled.
- The interactive `main` of `combine.py` and its prompts are left out, apart from the tier-3 confirmation.
- Upload.UploadVideo: the chunks are a finite sequence. When it runs out before the request finishes, the outcome is `NoResponse`, which the source cannot reach.
- Automation.DbNeedsUpdate: `datetime.fromisoformat` and the date arithmetic are a parsing function to microseconds. Naive and aware datetimes (which raise on subtraction) are folded into that function returning `None`.
- Automation.ChooseTopic: when the random pick is possible but turns out to be `""`, the run stops as in the source. So the contract does not promise success whenever an eligible topic exists.

## Notes on the source

Behaviour of the code that a reader may not expect:

- First-fit on durations 5000, 4000, 3000 with a budget of 8000 selects the first and third videos. The first two total 9000, which does not fit, and the scan goes on past the skipped video (combine.py:120-125).
- `record_run` tests the id's truthiness for the link (automation.py:115). An empty id is stored, counts as "already ran", and has a null link.
- The fallback total uses `duration or 3600` (combine.py:460-462), while the selector uses "positive, else 3600" (combine.py:121). A negative stored duration is summed as it is, so the fallback can fall below the selector's estimate.
- `format_title` falls back to `upper()` and `format_description` to `title()` for a topic without a display name (src/youtube_upload.py:138, 145).
- `select_videos` with a negative count follows Python slicing and drops videos from the end.
- `build_tags` checks for duplicates before it resolves the placeholder. A base tag `{topic_tag}` can therefore end up equal to an appended topic tag.
- `run_auto` raises "No videos found" also when the topic has videos but none fits the budget: the selector returns `[]` in both cases.
