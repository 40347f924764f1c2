/** The metadata helpers of src/youtube_upload.py: the title with its hour
    figure, the two fields `format_description` fills in, and the tag list. */
module Metadata {
  import opened Wrappers
  import opened Seqs
  import opened Text

  /** `TOPIC_DISPLAY_NAMES` */
  const TopicDisplayNames: map<string, string> := map[
    "among_us" := "AMONG US",
    "try_not_to_laugh" := "TRY NOT TO LAUGH",
    "the_price_is_right" := "THE PRICE IS RIGHT",
    "mukbang" := "MUKBANG",
    "five_second_challenge" := "5 SECOND CHALLENGE",
    "hide_and_seek" := "HIDE AND SEEK",
    "mafia" := "MAFIA",
    "guess_the_link" := "GUESS THE LINK",
    "guess_the_lyric" := "GUESS THE LYRIC",
    "guessmoji" := "GUESSMOJI",
    "sidemen_sunday" := "SIDEMEN SUNDAY",
    "holiday" := "HOLIDAY",
    "road_trip" := "ROAD TRIP",
    "cooking" := "COOKING CHALLENGE",
    "dating" := "DATING",
    "football" := "FOOTBALL",
    "quiz" := "QUIZ",
    "charity" := "CHARITY",
    "would_you_rather" := "WOULD YOU RATHER",
    "fashion" := "FASHION",
    "ultimate" := "ULTIMATE",
    "tasting" := "TASTING",
    "general" := "COMPILATION"
  ]

  /** `TOPIC_TAGS` */
  const TopicTags: map<string, seq<string>> := map[
    "among_us" := ["among us", "among us sidemen"],
    "try_not_to_laugh" := ["try not to laugh", "tntl", "comedy"],
    "the_price_is_right" := ["price is right", "game show", "sidemen game"],
    "mukbang" := ["mukbang", "eating", "food"],
    "five_second_challenge" := ["5 second challenge", "challenge"],
    "hide_and_seek" := ["hide and seek", "challenge"],
    "mafia" := ["mafia", "social deduction"],
    "guess_the_link" := ["guess the link", "sidemen game"],
    "guess_the_lyric" := ["guess the lyric", "music challenge"],
    "guessmoji" := ["guessmoji", "emoji challenge"],
    "sidemen_sunday" := ["sidemen sunday", "weekly"],
    "holiday" := ["holiday", "vacation", "travel", "vlog"],
    "road_trip" := ["road trip", "travel", "vlog"],
    "cooking" := ["cooking", "food challenge", "masterchef"],
    "dating" := ["dating", "tinder", "love", "romance"],
    "football" := ["football", "soccer", "sidemen fc"],
    "quiz" := ["quiz", "trivia", "knowledge"],
    "charity" := ["charity", "fundraiser", "good cause"],
    "would_you_rather" := ["would you rather", "wyr"],
    "fashion" := ["fashion", "clothing", "outfit"],
    "ultimate" := ["ultimate", "extreme"],
    "tasting" := ["tasting", "taste test", "food"]
  ]

  // ---------------------------------------------------------------------------
  // Title

  const SecondsPerHour: int := 3600

  /** `round(seconds / 3600)`: the nearest whole number of hours, a tie going
      to the even neighbour. */
  function RoundedHours(seconds: int): (h: int)
    ensures -1800 <= seconds - h * SecondsPerHour <= 1800
    ensures (seconds - h * SecondsPerHour == 1800 || seconds - h * SecondsPerHour == -1800) ==> h % 2 == 0
  {
    var q, r := seconds / SecondsPerHour, seconds % SecondsPerHour;
    if 2 * r < SecondsPerHour then q
    else if 2 * r > SecondsPerHour then q + 1
    else if q % 2 == 0 then q
    else q + 1
  }

  /** The two conditions pin the rounded figure down: no other integer meets them. */
  lemma RoundedHoursUnique(seconds: int, h: int)
    requires -1800 <= seconds - h * SecondsPerHour <= 1800
    requires (seconds - h * SecondsPerHour == 1800 || seconds - h * SecondsPerHour == -1800) ==> h % 2 == 0
    ensures h == RoundedHours(seconds)
  {
    var g := RoundedHours(seconds);
    assert -3600 <= (g - h) * SecondsPerHour <= 3600;
  }

  /** `max(1, round(seconds / 3600))` */
  function Hours(seconds: int): (h: int)
    ensures h >= 1
    ensures h == Max(1, RoundedHours(seconds))
  {
    Max(1, RoundedHours(seconds))
  }

  /** Two hours and a half round to two, an hour and a half to two, half an
      hour to zero and so to the minimum of one; twelve hours stay twelve. */
  lemma HoursExamples()
    ensures Hours(1800) == 1 && Hours(5400) == 2 && Hours(9000) == 2
    ensures Hours(43200) == 12 && Hours(0) == 1 && Hours(-7200) == 1
  {
    RoundedHoursUnique(1800, 0);
    RoundedHoursUnique(5400, 2);
    RoundedHoursUnique(9000, 2);
    RoundedHoursUnique(43200, 12);
    RoundedHoursUnique(0, 0);
    RoundedHoursUnique(-7200, -2);
  }

  /** `topic.replace('_', ' ')` */
  function TopicWord(topic: string): string {
    ReplaceChar(topic, '_', ' ')
  }

  /** The display name in the title: the table's entry, or the topic with
      spaces for underscores, upper-cased. */
  function TitleDisplayName(topic: string): string {
    if topic in TopicDisplayNames then TopicDisplayNames[topic] else Upper(TopicWord(topic))
  }

  /** `format_title` */
  function FormatTitle(topic: string, seconds: int): (t: string)
    ensures |t| >= 8 + 3 + 13 + 1
    ensures t[..8] == "SIDEMEN "
    ensures t[|t| - 13..] == " HOUR SPECIAL"
  {
    "SIDEMEN " + TitleDisplayName(topic) + " - " + NatToString(Hours(seconds)) + " HOUR SPECIAL"
  }

  /** The figure between the display name and " HOUR SPECIAL" reads back as
      the rounded hours, which are at least one. */
  lemma FormatTitleHours(topic: string, seconds: int)
    ensures var t := FormatTitle(topic, seconds);
      var start := |"SIDEMEN " + TitleDisplayName(topic) + " - "|;
      start <= |t| - 13
      && (forall i :: start <= i < |t| - 13 ==> IsDigit(t[i]))
      && DecimalValue(t[start..|t| - 13]) == Hours(seconds) >= 1
  {
    var prefix := "SIDEMEN " + TitleDisplayName(topic) + " - ";
    var digits := NatToString(Hours(seconds));
    var t := FormatTitle(topic, seconds);
    assert t == prefix + digits + " HOUR SPECIAL";
    assert t[|prefix|..|t| - 13] == digits;
    NatToStringRoundTrip(Hours(seconds));
  }

  lemma FormatTitleQuiz()
    ensures FormatTitle("quiz", 5400) == "SIDEMEN QUIZ - 2 HOUR SPECIAL"
  {
    HoursExamples();
    assert TitleDisplayName("quiz") == "QUIZ";
    assert NatToString(2) == "2";
  }

  lemma FormatTitleTwelveHours()
    ensures FormatTitle("quiz", 43200) == "SIDEMEN QUIZ - 12 HOUR SPECIAL"
  {
    RoundedHoursUnique(43200, 12);
    assert Hours(43200) == 12;
    assert TitleDisplayName("quiz") == "QUIZ";
    assert NatToString(1) == "1";
    assert NatToString(12) == NatToString(1) + [DigitChar(2)];
    assert NatToString(12) == "12";
  }

  // ---------------------------------------------------------------------------
  // Description fields

  /** The display name in the description: the table's entry, or the topic
      with spaces for underscores in title case. */
  function DescriptionDisplayName(topic: string): string {
    if topic in TopicDisplayNames then TopicDisplayNames[topic] else Title(TopicWord(topic))
  }

  /** `topic.replace('_', '').replace(' ', '')` */
  function TopicTag(topic: string): (tag: string)
    ensures '_' !in tag && ' ' !in tag
  {
    TopicTagIsRemoval(topic);
    KeepFacts(topic, "_ ");
    ReplaceAll(ReplaceAll(topic, "_", ""), " ", "")
  }

  /** The tag is the topic with every underscore and space removed and the
      other characters kept in order. */
  lemma TopicTagIsRemoval(topic: string)
    ensures ReplaceAll(ReplaceAll(topic, "_", ""), " ", "") == Keep(topic, "_ ")
  {
    ReplaceCharByNothing(topic, '_');
    ReplaceCharByNothing(Keep(topic, "_"), ' ');
    KeepCompose(topic, "_", " ");
    assert "_" + " " == "_ ";
  }

  lemma TopicTagProperties(topic: string)
    ensures IsSubseq(TopicTag(topic), topic)
    ensures TopicTag(TopicTag(topic)) == TopicTag(topic)
    ensures forall c :: c in TopicTag(topic) <==> c in topic && c != '_' && c != ' '
  {
    TopicTagIsRemoval(topic);
    TopicTagIsRemoval(TopicTag(topic));
    KeepSubseq(topic, "_ ");
    KeepIdempotent(topic, "_ ");
    KeepFacts(topic, "_ ");
  }

  /** For a topic outside the table, the title's display name is the
      description's one upper-cased. */
  lemma DisplayNamesAgree(topic: string)
    requires topic !in TopicDisplayNames
    ensures TitleDisplayName(topic) == Upper(DescriptionDisplayName(topic))
  {
    UpperOfTitle(TopicWord(topic), false);
  }

  lemma {:induction false} UpperOfTitle(s: string, previousCased: bool)
    ensures Upper(TitleFrom(s, previousCased)) == Upper(s)
    decreases |s|
  {
    if s != [] {
      UpperOfTitle(s[1..], IsCased(s[0]));
      var t := TitleFrom(s, previousCased);
      assert t == [t[0]] + TitleFrom(s[1..], IsCased(s[0]));
      assert Upper(t)[0] == UpperChar(t[0]) == UpperChar(s[0]);
      forall i | 1 <= i < |s| ensures Upper(t)[i] == Upper(s)[i] {
        assert Upper(t)[i] == UpperChar(t[i]) == UpperChar(TitleFrom(s[1..], IsCased(s[0]))[i - 1]);
        assert Upper(TitleFrom(s[1..], IsCased(s[0])))[i - 1] == Upper(s[1..])[i - 1];
      }
    }
  }

  // ---------------------------------------------------------------------------
  // Tags

  const MaxTags: nat := 500

  const Placeholder: string := "{topic_tag}"

  /** The topic's extra tags, or the topic word alone for a topic outside the table. */
  function ExtraTags(topic: string): seq<string> {
    if topic in TopicTags then TopicTags[topic] else [TopicWord(topic)]
  }

  /** The base tags, then each extra tag not already present at that point. */
  function Merge(base: seq<string>, extra: seq<string>): (m: seq<string>)
    ensures |base| <= |m| && m[..|base|] == base
    decreases |extra|
  {
    if extra == [] then base
    else
      var m := Merge(base, extra[..|extra| - 1]);
      var tag := extra[|extra| - 1];
      if tag in m then m else m + [tag]
  }

  /** The placeholder replaced in every tag. */
  function Resolve(tags: seq<string>, word: string): (r: seq<string>)
    ensures |r| == |tags|
  {
    seq(|tags|, i requires 0 <= i < |tags| => ReplaceAll(tags[i], Placeholder, word))
  }

  /** `build_tags` */
  method BuildTags(topic: string, baseTags: seq<string>) returns (tags: seq<string>)
    ensures tags == PyPrefix(Resolve(Merge(baseTags, ExtraTags(topic)), TopicWord(topic)), MaxTags)
    ensures |tags| <= MaxTags
  {
    var topicWord := ReplaceChar(topic, '_', ' ');
    var extra := if topic in TopicTags then TopicTags[topic] else [topicWord];
    var allTags := baseTags;
    for i := 0 to |extra|
      invariant allTags == Merge(baseTags, extra[..i])
    {
      assert extra[..i + 1][..i] == extra[..i];
      if extra[i] !in allTags {
        allTags := allTags + [extra[i]];
      }
    }
    assert extra[..|extra|] == extra;
    allTags := seq(|allTags|, j requires 0 <= j < |allTags| => ReplaceAll(allTags[j], "{topic_tag}", topicWord));
    tags := PyPrefix(allTags, MaxTags);
  }

  /** The merge keeps the base tags first, duplicates included; after them
      come extra tags only, each once and none already among the base tags,
      in the order of `extra`; and every extra tag ends up somewhere. */
  lemma {:induction false} MergeFacts(base: seq<string>, extra: seq<string>)
    ensures var m := Merge(base, extra);
      |base| <= |m| && m[..|base|] == base
      && Distinct(m[|base|..])
      && (forall t :: t in m[|base|..] ==> t !in base && t in extra)
      && IsSubseq(m[|base|..], extra)
      && (forall t :: t in extra ==> t in m)
    decreases |extra|
  {
    if extra != [] {
      var init, tag := extra[..|extra| - 1], extra[|extra| - 1];
      MergeFacts(base, init);
      var m0 := Merge(base, init);
      var tail0 := m0[|base|..];
      assert m0 == base + tail0;
      assert extra == init + [tag];
      forall t | t in init ensures t in extra { }
      if tag in m0 {
        SubseqSnoc(tail0, init, tag);
      } else {
        var m := m0 + [tag];
        assert m[|base|..] == tail0 + [tag];
        assert tag !in tail0;
        assert Distinct(tail0 + [tag]) by {
          forall i, j | 0 <= i < j < |tail0| + 1 ensures (tail0 + [tag])[i] != (tail0 + [tag])[j] {
            if j == |tail0| { assert (tail0 + [tag])[i] == tail0[i] && tail0[i] in tail0; }
            else { assert (tail0 + [tag])[i] == tail0[i] && (tail0 + [tag])[j] == tail0[j]; }
          }
        }
        SubseqSnoc(tail0, init, tag);
        assert m[..|base|] == base;
        assert tag !in base by { assert base == m0[..|base|]; }
      }
    }
  }

  /** The extra tags that are not among `base`, in the order of `extra`. */
  function NewTags(base: seq<string>, extra: seq<string>): seq<string>
    decreases |extra|
  {
    if extra == [] then []
    else
      var tag := extra[|extra| - 1];
      NewTags(base, extra[..|extra| - 1]) + (if tag in base then [] else [tag])
  }

  lemma {:induction false} NewTagsMembers(base: seq<string>, extra: seq<string>)
    ensures forall t :: t in NewTags(base, extra) ==> t in extra
    decreases |extra|
  {
    if extra != [] {
      var init := extra[..|extra| - 1];
      NewTagsMembers(base, init);
      assert extra == init + [extra[|extra| - 1]];
    }
  }

  /** When no extra tag repeats, as in every configured tag list, the merge
      appends exactly the extra tags missing from the base, in their order. */
  lemma {:induction false} MergeDistinctExtra(base: seq<string>, extra: seq<string>)
    requires Distinct(extra)
    ensures Merge(base, extra) == base + NewTags(base, extra)
    decreases |extra|
  {
    if extra != [] {
      var init, tag := extra[..|extra| - 1], extra[|extra| - 1];
      assert Distinct(init) by {
        forall i, j | 0 <= i < j < |init| ensures init[i] != init[j] {
          assert init[i] == extra[i] && init[j] == extra[j];
        }
      }
      MergeDistinctExtra(base, init);
      NewTagsMembers(base, init);
      assert tag !in init by {
        forall i | 0 <= i < |init| ensures init[i] != tag { assert init[i] == extra[i]; }
      }
      assert tag in base + NewTags(base, init) <==> tag in base;
    }
  }

  /** The result of `build_tags` in terms of the base tags: they come first,
      each with the placeholder replaced, as many of them as the cap allows. */
  lemma BaseTagsFirst(base: seq<string>, extra: seq<string>, word: string)
    ensures var tags := PyPrefix(Resolve(Merge(base, extra), word), MaxTags);
      Min(|base|, MaxTags) <= |tags|
      && forall i :: 0 <= i < Min(|base|, MaxTags) ==> tags[i] == ReplaceAll(base[i], Placeholder, word)
  {
    var m := Merge(base, extra);
    forall i | 0 <= i < |base| ensures m[i] == base[i] { assert m[..|base|][i] == m[i]; }
  }

  /** A topic outside the table contributes its topic word, unless a base
      tag already equals it. */
  lemma UnknownTopicTags(topic: string, base: seq<string>)
    requires topic !in TopicTags
    ensures Merge(base, ExtraTags(topic)) == base + (if TopicWord(topic) in base then [] else [TopicWord(topic)])
  {
    assert ExtraTags(topic)[..0] == [];
  }

  /** A tag without the placeholder is kept as it is, and the bare
      placeholder becomes the topic word. */
  lemma PlaceholderResolution(tag: string, word: string)
    ensures !Occurs(Placeholder, tag) ==> ReplaceAll(tag, Placeholder, word) == tag
    ensures ReplaceAll(Placeholder, Placeholder, word) == word
  {
    if !Occurs(Placeholder, tag) { ReplaceAllAbsent(tag, Placeholder, word); }
    ReplaceAllWhole(Placeholder, word);
  }

  /** Removing duplicates happens before the placeholder is replaced, so a
      base placeholder and an extra tag can resolve to the same tag. */
  lemma TagsDuplicateAfterResolution()
    ensures PyPrefix(Resolve(Merge(["sidemen", "{topic_tag}"], ExtraTags("quiz")), TopicWord("quiz")), MaxTags)
            == ["sidemen", "quiz", "quiz", "trivia", "knowledge"]
  {
    var base: seq<string> := ["sidemen", "{topic_tag}"];
    var extra := ExtraTags("quiz");
    assert extra == ["quiz", "trivia", "knowledge"];
    assert TopicWord("quiz") == "quiz";
    assert extra[..1] == ["quiz"] && extra[..2] == ["quiz", "trivia"] && extra[..0] == [];
    assert Merge(base, extra[..1]) == base + ["quiz"];
    assert Merge(base, extra[..2]) == base + ["quiz", "trivia"];
    var m := Merge(base, extra);
    assert m == ["sidemen", "{topic_tag}", "quiz", "trivia", "knowledge"];
    ReplaceAllWhole(Placeholder, "quiz");
    var r := Resolve(m, "quiz");
    assert r[0] == "sidemen" && r[2] == "quiz" && r[3] == "trivia" && r[4] == "knowledge";
  }
}
