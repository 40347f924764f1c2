/** The two video selectors of combine.py: the duration-budgeted selector used
    by the automatic run (`select_videos_within_duration`) and the count-based
    one of interactive mode (`select_videos`). Both receive the topic's videos
    in the order the catalogue query returns them (newest upload first) and the
    usage rows, and classify every video as fresh or cooling. */
module Selection {
  import opened Wrappers
  import opened Seqs
  import opened Text
  import opened Catalogue

  // ---------------------------------------------------------------------------
  // Cooldown partition

  /** The videos of `vs` whose cooldown status is `cooling`, in the order of `vs`. */
  function Bucket(vs: seq<Video>, uses: seq<Use>, since: int, cooling: bool): seq<Video>
    decreases |vs|
  {
    if vs == [] then []
    else
      var last := vs[|vs| - 1];
      Bucket(vs[..|vs| - 1], uses, since, cooling)
      + (if IsCooling(last, uses, since) == cooling then [last] else [])
  }

  /** The fresh videos (`available` in the source). */
  function FreshVideos(vs: seq<Video>, uses: seq<Use>, since: int): seq<Video> {
    Bucket(vs, uses, since, false)
  }

  /** The cooling videos (`cooldown_overflow` in the source). */
  function CoolingVideos(vs: seq<Video>, uses: seq<Use>, since: int): seq<Video> {
    Bucket(vs, uses, since, true)
  }

  /** A bucket keeps the order of `vs`, holds only videos of its status and
      holds every video of `vs` that has it. */
  lemma {:induction false} BucketFacts(vs: seq<Video>, uses: seq<Use>, since: int, cooling: bool)
    ensures IsSubseq(Bucket(vs, uses, since, cooling), vs)
    ensures forall v :: v in Bucket(vs, uses, since, cooling) ==> IsCooling(v, uses, since) == cooling
    ensures forall v :: v in vs && IsCooling(v, uses, since) == cooling ==> v in Bucket(vs, uses, since, cooling)
    decreases |vs|
  {
    if vs != [] {
      var init, last := vs[..|vs| - 1], vs[|vs| - 1];
      assert vs == init + [last];
      BucketFacts(init, uses, since, cooling);
      var b := Bucket(init, uses, since, cooling);
      var tail := if IsCooling(last, uses, since) == cooling then [last] else [];
      assert Bucket(vs, uses, since, cooling) == b + tail;
      SubseqSnoc(b, init, last);
      if tail == [] {
        assert b + tail == b;
      } else {
        assert tail == [last];
      }
      forall v | v in vs && IsCooling(v, uses, since) == cooling
        ensures v in Bucket(vs, uses, since, cooling)
      {
        if v != last {
          assert v in init;
        }
      }
    }
  }

  /** Every video lands in exactly one of the two buckets, as often as it occurs. */
  lemma {:induction false} BucketPartition(vs: seq<Video>, uses: seq<Use>, since: int)
    ensures multiset(FreshVideos(vs, uses, since)) + multiset(CoolingVideos(vs, uses, since)) == multiset(vs)
    ensures |FreshVideos(vs, uses, since)| + |CoolingVideos(vs, uses, since)| == |vs|
    decreases |vs|
  {
    if vs != [] {
      var init, last := vs[..|vs| - 1], vs[|vs| - 1];
      assert vs == init + [last];
      BucketPartition(init, uses, since);
    }
  }

  /** The partition loop of both selectors: `available` and
      `cooldown_overflow`, filled by one pass over `all`. */
  method Partition(all: seq<Video>, uses: seq<Use>, since: int)
    returns (available: seq<Video>, cooldownOverflow: seq<Video>)
    ensures available == FreshVideos(all, uses, since)
    ensures cooldownOverflow == CoolingVideos(all, uses, since)
    ensures multiset(available) + multiset(cooldownOverflow) == multiset(all)
  {
    available, cooldownOverflow := [], [];
    for i := 0 to |all|
      invariant available == Bucket(all[..i], uses, since, false)
      invariant cooldownOverflow == Bucket(all[..i], uses, since, true)
    {
      assert all[..i + 1][..i] == all[..i];
      if !IsCooling(all[i], uses, since) {
        available := available + [all[i]];
      } else {
        cooldownOverflow := cooldownOverflow + [all[i]];
      }
    }
    assert all[..|all|] == all;
    BucketPartition(all, uses, since);
  }

  /** `random.shuffle`: the result may be any permutation of `s`. */
  method Shuffle(s: seq<Video>) returns (r: seq<Video>)
    ensures multiset(r) == multiset(s)
    ensures |r| == |s|
  {
    r :| multiset(r) == multiset(s);
    assert |multiset(r)| == |multiset(s)|;
  }

  // ---------------------------------------------------------------------------
  // Candidate order: every fresh video before every cooling one

  /** `c` is `shuffle(available) + shuffle(cooldown_overflow)` for some pair of shuffles. */
  ghost predicate FreshFirst(c: seq<Video>, all: seq<Video>, uses: seq<Use>, since: int) {
    var freshOnes := FreshVideos(all, uses, since);
    |freshOnes| <= |c|
    && multiset(c[..|freshOnes|]) == multiset(freshOnes)
    && multiset(c[|freshOnes|..]) == multiset(CoolingVideos(all, uses, since))
  }

  /** A shuffle of a bucket holds only videos of that bucket's status. */
  lemma ShuffledBucket(s: seq<Video>, vs: seq<Video>, uses: seq<Use>, since: int, cooling: bool)
    requires multiset(s) == multiset(Bucket(vs, uses, since, cooling))
    ensures forall i :: 0 <= i < |s| ==> IsCooling(s[i], uses, since) == cooling
  {
    BucketFacts(vs, uses, since, cooling);
    forall i | 0 <= i < |s| ensures IsCooling(s[i], uses, since) == cooling {
      assert s[i] in multiset(s);
    }
  }

  /** A candidate order is a permutation of the topic's videos in which no
      cooling video precedes a fresh one. */
  lemma FreshFirstMeans(c: seq<Video>, all: seq<Video>, uses: seq<Use>, since: int)
    requires FreshFirst(c, all, uses, since)
    ensures multiset(c) == multiset(all)
    ensures |c| == |all|
    ensures forall i, j :: 0 <= i < j < |c| && IsCooling(c[i], uses, since) ==> IsCooling(c[j], uses, since)
  {
    var n := |FreshVideos(all, uses, since)|;
    assert c == c[..n] + c[n..];
    BucketPartition(all, uses, since);
    assert multiset(c) == multiset(c[..n]) + multiset(c[n..]);
    assert |multiset(c)| == |multiset(all)|;
    ShuffledBucket(c[..n], all, uses, since, false);
    ShuffledBucket(c[n..], all, uses, since, true);
    forall i | 0 <= i < n ensures !IsCooling(c[i], uses, since) {
      assert c[i] == c[..n][i];
    }
    forall j | n <= j < |c| ensures IsCooling(c[j], uses, since) {
      assert c[j] == c[n..][j - n];
    }
  }

  // ---------------------------------------------------------------------------
  // First-fit scan under a duration budget

  /** The scan of combine.py:120-125 from a running total: a candidate is
      admitted when it still fits, and the scan goes on either way. */
  function FirstFitFrom(c: seq<Video>, total: int, maxDuration: int): seq<Video>
    decreases |c|
  {
    if c == [] then []
    else
      var d := EffectiveDuration(c[0]);
      if total + d <= maxDuration then [c[0]] + FirstFitFrom(c[1..], total + d, maxDuration)
      else FirstFitFrom(c[1..], total, maxDuration)
  }

  function FirstFit(c: seq<Video>, maxDuration: int): seq<Video> {
    FirstFitFrom(c, 0, maxDuration)
  }

  /** The running total never exceeds the budget. */
  lemma {:induction false} FirstFitWithinBudget(c: seq<Video>, total: int, maxDuration: int)
    requires total <= maxDuration
    ensures total + TotalDuration(FirstFitFrom(c, total, maxDuration)) <= maxDuration
    decreases |c|
  {
    if c != [] {
      var d := EffectiveDuration(c[0]);
      if total + d <= maxDuration {
        FirstFitWithinBudget(c[1..], total + d, maxDuration);
        var rest := FirstFitFrom(c[1..], total + d, maxDuration);
        assert ([c[0]] + rest)[0] == c[0] && ([c[0]] + rest)[1..] == rest;
      } else {
        FirstFitWithinBudget(c[1..], total, maxDuration);
      }
    }
  }

  /** The scan selects nothing exactly when no single candidate fits the
      budget on its own. */
  lemma {:induction false} FirstFitEmpty(c: seq<Video>, maxDuration: int)
    ensures FirstFit(c, maxDuration) == [] <==> forall v :: v in c ==> EffectiveDuration(v) > maxDuration
    decreases |c|
  {
    if c != [] {
      FirstFitEmpty(c[1..], maxDuration);
      if EffectiveDuration(c[0]) > maxDuration {
        forall v | v in c ensures EffectiveDuration(v) > maxDuration || v in c[1..] {
          if v != c[0] { assert v in c[1..]; }
        }
      } else {
        assert c[0] in c;
      }
    }
  }

  /** With a negative budget nothing fits. */
  lemma {:induction false} FirstFitNegativeBudget(c: seq<Video>, total: int, maxDuration: int)
    requires maxDuration < total
    ensures FirstFitFrom(c, total, maxDuration) == []
    decreases |c|
  {
    if c != [] { FirstFitNegativeBudget(c[1..], total, maxDuration); }
  }

  /** The selection is an order-preserving subsequence of the candidates. */
  lemma {:induction false} FirstFitSubseq(c: seq<Video>, total: int, maxDuration: int)
    ensures IsSubseq(FirstFitFrom(c, total, maxDuration), c)
    decreases |c|
  {
    if c != [] {
      var d := EffectiveDuration(c[0]);
      if total + d <= maxDuration {
        var rest := FirstFitFrom(c[1..], total + d, maxDuration);
        FirstFitSubseq(c[1..], total + d, maxDuration);
        assert ([c[0]] + rest)[0] == c[0] && ([c[0]] + rest)[1..] == rest;
      } else {
        var rest := FirstFitFrom(c[1..], total, maxDuration);
        FirstFitSubseq(c[1..], total, maxDuration);
        SubseqSkip(c[0], rest, c[1..]);
        assert [c[0]] + c[1..] == c;
      }
    }
  }

  /** Scanning `a + b` is scanning `a`, then scanning `b` from the total `a` reached. */
  lemma {:induction false} FirstFitSplit(a: seq<Video>, b: seq<Video>, total: int, maxDuration: int)
    ensures FirstFitFrom(a + b, total, maxDuration)
         == FirstFitFrom(a, total, maxDuration)
            + FirstFitFrom(b, total + TotalDuration(FirstFitFrom(a, total, maxDuration)), maxDuration)
    decreases |a|
  {
    if a == [] {
      assert a + b == b;
    } else {
      assert (a + b)[0] == a[0];
      assert (a + b)[1..] == a[1..] + b;
      var d := EffectiveDuration(a[0]);
      if total + d <= maxDuration {
        FirstFitSplit(a[1..], b, total + d, maxDuration);
        var rest := FirstFitFrom(a[1..], total + d, maxDuration);
        assert ([a[0]] + rest)[0] == a[0] && ([a[0]] + rest)[1..] == rest;
      } else {
        FirstFitSplit(a[1..], b, total, maxDuration);
      }
    }
  }

  /** First fit in scan order: after the first `k` candidates, candidate `k` is
      admitted exactly when the total of those admitted so far plus its
      effective duration is within the budget, and a candidate that does not
      fit is skipped without ending the scan. What the first `k` candidates
      yield is a prefix of the final selection. */
  lemma FirstFitScan(c: seq<Video>, maxDuration: int, k: nat)
    requires k < |c|
    ensures var before := FirstFit(c[..k], maxDuration);
      FirstFit(c[..k + 1], maxDuration)
      == before + (if TotalDuration(before) + EffectiveDuration(c[k]) <= maxDuration then [c[k]] else [])
    ensures var before := FirstFit(c[..k], maxDuration);
      |before| <= |FirstFit(c, maxDuration)| && FirstFit(c, maxDuration)[..|before|] == before
  {
    assert c[..k + 1] == c[..k] + [c[k]];
    FirstFitSplit(c[..k], [c[k]], 0, maxDuration);
    assert c == c[..k] + c[k..];
    FirstFitSplit(c[..k], c[k..], 0, maxDuration);
  }

  /** combine.py's example in the other direction: durations 5000, 4000, 3000
      with a budget of 8000 admit the first and the third. */
  lemma FirstFitExample(a: Video, b: Video, c: Video)
    requires a.duration == Some(5000) && b.duration == Some(4000) && c.duration == Some(3000)
    ensures FirstFit([a, b, c], 8000) == [a, c]
  {
    assert [a, b, c][1..] == [b, c];
    assert [b, c][1..] == [c];
    assert FirstFitFrom([c], 5000, 8000) == [c] + FirstFitFrom([], 8000, 8000) == [c];
    assert FirstFitFrom([b, c], 5000, 8000) == FirstFitFrom([c], 5000, 8000);
    assert FirstFitFrom([a, b, c], 0, 8000) == [a] + FirstFitFrom([b, c], 5000, 8000);
  }

  /** With equal effective durations `d`, the scan admits as many candidates
      as fit: either all of them, or one more would break the budget. */
  lemma {:induction false} FirstFitUniform(c: seq<Video>, d: int, total: int, maxDuration: int)
    requires d > 0 && total <= maxDuration
    requires forall v :: v in c ==> EffectiveDuration(v) == d
    ensures var r := FirstFitFrom(c, total, maxDuration);
      |r| == |c| || total + TotalDuration(r) + d > maxDuration
    decreases |c|
  {
    if c != [] {
      assert c[0] in c;
      forall v | v in c[1..] ensures EffectiveDuration(v) == d { assert v in c; }
      if total + d <= maxDuration {
        FirstFitUniform(c[1..], d, total + d, maxDuration);
        var rest := FirstFitFrom(c[1..], total + d, maxDuration);
        assert ([c[0]] + rest)[0] == c[0] && ([c[0]] + rest)[1..] == rest;
      } else {
        TotalDurationNonNegative(FirstFitFrom(c[1..], total, maxDuration));
      }
    }
  }

  lemma {:induction false} TotalDurationUniform(s: seq<Video>, d: int)
    requires forall v :: v in s ==> EffectiveDuration(v) == d
    ensures TotalDuration(s) == |s| * d
    decreases |s|
  {
    if s != [] {
      assert s[0] in s;
      forall v | v in s[1..] ensures EffectiveDuration(v) == d { assert v in s; }
      TotalDurationUniform(s[1..], d);
    }
  }

  /** Five videos of 3000 s each under a two-hour budget: in every candidate
      order exactly two are selected, totalling 6000 s. */
  lemma QuizScenario(c: seq<Video>)
    requires |c| == 5
    requires forall v :: v in c ==> v.duration == Some(3000)
    ensures |FirstFit(c, 7200)| == 2
    ensures TotalDuration(FirstFit(c, 7200)) == 6000
  {
    FirstFitUniform(c, 3000, 0, 7200);
    FirstFitWithinBudget(c, 0, 7200);
    FirstFitSubseq(c, 0, 7200);
    SubseqMembers(FirstFit(c, 7200), c);
    TotalDurationUniform(FirstFit(c, 7200), 3000);
  }

  /** `select_videos_within_duration`: fresh videos shuffled, then cooling
      videos shuffled, scanned first-fit against the budget. `candidates` is
      the order that was scanned. */
  method SelectWithinDuration(all: seq<Video>, uses: seq<Use>, now: int, maxDurationSeconds: int, cooldownDays: int)
    returns (selected: seq<Video>, ghost candidates: seq<Video>)
    ensures FreshFirst(candidates, all, uses, CooldownStart(now, cooldownDays))
    ensures selected == FirstFit(candidates, maxDurationSeconds)
    ensures all == [] ==> selected == []
    ensures 0 <= maxDurationSeconds ==> TotalDuration(selected) <= maxDurationSeconds
    ensures maxDurationSeconds < 0 ==> selected == []
    ensures IsSubseq(selected, candidates)
    ensures multiset(selected) <= multiset(all)
  {
    var since := CooldownStart(now, cooldownDays);
    if |all| == 0 {
      BucketPartition(all, uses, since);
      return [], [];
    }
    var available, cooldownOverflow := Partition(all, uses, since);
    available := Shuffle(available);
    cooldownOverflow := Shuffle(cooldownOverflow);
    var cands := available + cooldownOverflow;
    candidates := cands;
    ShuffledFreshFirst(available, cooldownOverflow, all, uses, since);

    selected := [];
    var total := 0;
    for i := 0 to |cands|
      invariant total == TotalDuration(selected)
      invariant selected + FirstFitFrom(cands[i..], total, maxDurationSeconds) == FirstFit(cands, maxDurationSeconds)
    {
      assert cands[i..][0] == cands[i] && cands[i..][1..] == cands[i + 1..];
      var duration := EffectiveDuration(cands[i]);
      if total + duration <= maxDurationSeconds {
        TotalDurationAppend(selected, [cands[i]]);
        selected := selected + [cands[i]];
        total := total + duration;
      }
    }
    assert cands[|cands|..] == [];
    assert selected == FirstFit(cands, maxDurationSeconds);

    if 0 <= maxDurationSeconds { FirstFitWithinBudget(cands, 0, maxDurationSeconds); }
    if maxDurationSeconds < 0 { FirstFitNegativeBudget(cands, 0, maxDurationSeconds); }
    FirstFitSubseq(cands, 0, maxDurationSeconds);
    SubseqMultiset(selected, cands);
  }

  /** Concatenating a permutation of the fresh videos and one of the cooling
      videos gives a candidate order with the fresh ones first. */
  lemma ShuffledFreshFirst(a: seq<Video>, b: seq<Video>, all: seq<Video>, uses: seq<Use>, since: int)
    requires multiset(a) == multiset(FreshVideos(all, uses, since))
    requires multiset(b) == multiset(CoolingVideos(all, uses, since))
    ensures FreshFirst(a + b, all, uses, since)
    ensures multiset(a + b) == multiset(all)
  {
    assert |multiset(a)| == |FreshVideos(all, uses, since)|;
    assert (a + b)[..|a|] == a && (a + b)[|a|..] == b;
    BucketPartition(all, uses, since);
  }

  /** A subsequence takes no element more often than the sequence has it. */
  lemma {:induction false} SubseqMultiset<T>(a: seq<T>, b: seq<T>)
    requires IsSubseq(a, b)
    ensures multiset(a) <= multiset(b)
    decreases |b|
  {
    if a != [] {
      assert b == [b[0]] + b[1..];
      if a[0] == b[0] {
        SubseqMultiset(a[1..], b[1..]);
        assert a == [a[0]] + a[1..];
      } else {
        SubseqMultiset(a, b[1..]);
      }
    }
  }

  // ---------------------------------------------------------------------------
  // Count-based selection (interactive mode)

  /** `[v for v in vs if v not in available]` */
  function NotIn(vs: seq<Video>, available: seq<Video>): seq<Video>
    decreases |vs|
  {
    if vs == [] then []
    else
      var last := vs[|vs| - 1];
      NotIn(vs[..|vs| - 1], available) + (if last !in available then [last] else [])
  }

  /** Against the fresh bucket of the same list, "not in available" picks
      exactly the cooling videos, in order. */
  lemma {:induction false} NotInFreshIsCooling(vs: seq<Video>, available: seq<Video>, uses: seq<Use>, since: int)
    requires forall v :: v in vs ==> (v in available <==> !IsCooling(v, uses, since))
    ensures NotIn(vs, available) == CoolingVideos(vs, uses, since)
    decreases |vs|
  {
    if vs != [] {
      var init, last := vs[..|vs| - 1], vs[|vs| - 1];
      assert last in vs;
      forall v | v in init ensures (v in available <==> !IsCooling(v, uses, since)) {
        assert v in vs;
      }
      NotInFreshIsCooling(init, available, uses, since);
    }
  }

  /** The fresh videos followed by the cooling ones, each in the query's order. */
  function FreshThenCooling(all: seq<Video>, uses: seq<Use>, since: int): (r: seq<Video>)
    ensures |r| == |all|
    ensures multiset(r) == multiset(all)
  {
    BucketPartition(all, uses, since);
    FreshVideos(all, uses, since) + CoolingVideos(all, uses, since)
  }

  /** Padding the fresh videos with a prefix of the cooling ones is a prefix
      of the two concatenated. */
  lemma PaddedPrefix(freshOnes: seq<Video>, coolingOnes: seq<Video>, count: int)
    requires |freshOnes| < count
    ensures var padded := freshOnes + PyPrefix(coolingOnes, count - |freshOnes|);
      |padded| == Min(count, |freshOnes| + |coolingOnes|)
      && padded == (freshOnes + coolingOnes)[..|padded|]
  {
    var padding := PyPrefix(coolingOnes, count - |freshOnes|);
    assert (freshOnes + coolingOnes)[..|freshOnes| + |padding|] == freshOnes + coolingOnes[..|padding|];
  }

  /** A prefix no longer than the fresh videos takes fresh videos only. */
  lemma FreshPrefix(freshOnes: seq<Video>, coolingOnes: seq<Video>, count: nat)
    requires count <= |freshOnes|
    ensures (freshOnes + coolingOnes)[..count] == freshOnes[..count]
  {
  }

  /** `select_videos`: up to `count` videos, fresh ones first, padded with
      used ones; Python slicing semantics for every `count`. */
  method SelectVideos(all: seq<Video>, uses: seq<Use>, now: int, count: int, cooldownDays: int)
    returns (r: seq<Video>)
    ensures all == [] ==> r == []
    ensures 0 <= count ==> r == FreshThenCooling(all, uses, CooldownStart(now, cooldownDays))[..Min(count, |all|)]
    ensures count < 0 ==> r == PyPrefix(FreshVideos(all, uses, CooldownStart(now, cooldownDays)), count)
    ensures 0 <= count ==> |r| == Min(count, |all|)
  {
    var since := CooldownStart(now, cooldownDays);
    if |all| == 0 {
      return [];
    }
    var available, _ := Partition(all, uses, since);
    ghost var coolingOnes := CoolingVideos(all, uses, since);
    assert FreshThenCooling(all, uses, since) == available + coolingOnes;
    if |available| < count {
      BucketFacts(all, uses, since, false);
      NotInFreshIsCooling(all, available, uses, since);
      PaddedPrefix(available, coolingOnes, count);
      available := available + PyPrefix(NotIn(all, available), count - |available|);
    } else if 0 <= count {
      FreshPrefix(available, coolingOnes, count);
    }
    r := PyPrefix(available, count);
  }

  // ---------------------------------------------------------------------------
  // Properties of the count-based selection

  /** Newest upload first, as the catalogue query orders them. */
  ghost predicate NewestFirst(s: seq<Video>) {
    Pairwise(s, (x: Video, y: Video) => LexLe(y.uploadDate, x.uploadDate))
  }

  /** Fresh videos keep the query's newest-first order, and so do the used
      videos that pad them. */
  lemma BucketsNewestFirst(all: seq<Video>, uses: seq<Use>, since: int)
    requires NewestFirst(all)
    ensures NewestFirst(FreshVideos(all, uses, since))
    ensures NewestFirst(CoolingVideos(all, uses, since))
  {
    BucketFacts(all, uses, since, false);
    BucketFacts(all, uses, since, true);
    SubseqPairwise(FreshVideos(all, uses, since), all, (x: Video, y: Video) => LexLe(y.uploadDate, x.uploadDate));
    SubseqPairwise(CoolingVideos(all, uses, since), all, (x: Video, y: Video) => LexLe(y.uploadDate, x.uploadDate));
  }

  /** Distinct catalogue rows give distinct selected videos. */
  lemma FreshThenCoolingDistinct(all: seq<Video>, uses: seq<Use>, since: int, n: nat)
    requires Distinct(all)
    requires n <= |all|
    ensures Distinct(FreshThenCooling(all, uses, since)[..n])
  {
    var freshOnes, coolingOnes := FreshVideos(all, uses, since), CoolingVideos(all, uses, since);
    BucketFacts(all, uses, since, false);
    BucketFacts(all, uses, since, true);
    SubseqDistinct(freshOnes, all);
    SubseqDistinct(coolingOnes, all);
    DistinctConcat(freshOnes, coolingOnes);
    DistinctPrefix(FreshThenCooling(all, uses, since), n);
  }
}
