/**
 * The `Dataset` object: the timeline of raw tweets, the six stylistic averages that
 * `generate_features` stores, and `process`, which hands the normalised document and the
 * feature vector to the trait models.
 */
module Timeline {
  import opened Common
  import opened Chars
  import opened Normalizer
  import opened StyleCounts

  /** One element of the request's `posts` list: a JSON object, here with string values. */
  type Entry = map<string, string>

  /** `[entry["text"] for entry in entries]`, raising `KeyError` on the first entry without a `text`. */
  function TweetTexts(entries: seq<Entry>): (r: Result<seq<string>>)
    ensures r.Ok? <==> forall i :: 0 <= i < |entries| ==> "text" in entries[i]
    ensures r.Err? ==> r.error == KeyError("text")
    ensures r.Ok? ==> |r.value| == |entries|
    ensures r.Ok? ==> forall i :: 0 <= i < |entries| ==> r.value[i] == entries[i]["text"]
    decreases |entries|
  {
    if entries == [] then Ok([])
    else if "text" !in entries[0] then Err(KeyError("text"))
    else
      match TweetTexts(entries[1..])
      case Ok(rest) => Ok([entries[0]["text"]] + rest)
      case Err(e) => Err(e)
  }

  /** The timeline `Dataset.__init__` builds: empty when no list is given. */
  function TimelineOf(timelineList: Option<seq<Entry>>): (r: Result<seq<string>>)
    ensures timelineList.None? ==> r == Ok([])
    ensures timelineList.Some? ==> (r.Ok? <==> forall i :: 0 <= i < |timelineList.value| ==> "text" in timelineList.value[i])
    ensures r.Err? ==> r.error == KeyError("text")
    ensures r.Ok? && timelineList.Some? ==> |r.value| == |timelineList.value|
    ensures r.Ok? && timelineList.Some? ==>
      forall i :: 0 <= i < |r.value| ==> r.value[i] == timelineList.value[i]["text"]
  {
    match timelineList
    case None => Ok([])
    case Some(entries) => TweetTexts(entries)
  }

  /* ---------- sums and averages ---------- */

  /** The accumulator of a `count_avg_*` loop: the per-tweet counts added up in timeline order. */
  function Total(tweets: seq<string>, count: string -> nat): (r: nat)
    ensures forall i :: 0 <= i < |tweets| ==> count(tweets[i]) <= r
    decreases |tweets|
  {
    if tweets == [] then 0 else Total(tweets[..|tweets| - 1], count) + count(tweets[|tweets| - 1])
  }

  /** The total over a timeline is the total over its first part plus the total over the rest. */
  lemma {:induction false} TotalConcat(a: seq<string>, b: seq<string>, count: string -> nat)
    ensures Total(a + b, count) == Total(a, count) + Total(b, count)
    decreases |b|
  {
    if b == [] {
      assert a + b == a;
    } else {
      var front := b[..|b| - 1];
      assert (a + b)[..|a + b| - 1] == a + front;
      assert (a + b)[|a + b| - 1] == b[|b| - 1];
      TotalConcat(a, front, count);
    }
  }

  /**
   * An average as a `count_avg_*` method computes it, `total / count` with Python 3's true
   * division, kept as the exact quotient (the float rounding is not modelled).
   */
  datatype Mean = Mean(total: nat, count: nat) {
    /** The quotient itself. */
    function Value(): (v: real)
      requires count > 0
      ensures v >= 0.0 && v * count as real == total as real
    {
      total as real / count as real
    }
  }

  /**
   * What a `count_avg_*` method returns for the counter `count`: the mean of the per-tweet
   * counts, or `ZeroDivisionError` on an empty timeline (the `is None` guard never fires,
   * since the timeline is always a list).
   */
  function AverageCount(tweets: seq<string>, count: string -> nat): (r: Result<Mean>)
    ensures r.Ok? <==> |tweets| > 0
    ensures r.Err? ==> r.error == ZeroDivisionError
  {
    if |tweets| == 0 then Err(ZeroDivisionError) else Ok(Mean(Total(tweets, count), |tweets|))
  }

  /** The loop shared by the six `count_avg_*` methods: sum the per-tweet counts, then divide by the tweet count. */
  method AverageOf(tweets: seq<string>, count: string -> nat) returns (r: Result<Mean>)
    ensures r == AverageCount(tweets, count)
  {
    var total: nat := 0;
    for i := 0 to |tweets|
      invariant total == Total(tweets[..i], count)
    {
      assert tweets[..i + 1][..i] == tweets[..i];
      total := total + count(tweets[i]);
    }
    assert tweets[..|tweets|] == tweets;
    if |tweets| == 0 {
      r := Err(ZeroDivisionError);
    } else {
      r := Ok(Mean(total, |tweets|));
    }
  }

  /** The six stylistic features. */
  datatype Feature = Emoticons | Hashtags | Exclamations | Replies | Repetitions | Length

  /** The fixed order of the feature vector, shared with the trained trait models. */
  const FEATURE_ORDER: seq<Feature> := [Emoticons, Hashtags, Exclamations, Replies, Repetitions, Length]

  /** The per-tweet counter each feature averages. */
  function Counter(f: Feature): string -> nat {
    match f
    case Emoticons => EmoticonCount
    case Hashtags => HashtagCount
    case Exclamations => ExclamationCount
    case Replies => ReplyCount
    case Repetitions => RepetitionCount
    case Length => TweetLength
  }

  /**
   * The feature vector: slot `i` averages the counter of `FEATURE_ORDER[i]` over the timeline,
   * whatever order the averages are computed in.
   */
  function StyleFeatures(tweets: seq<string>): (r: Result<seq<Mean>>)
    ensures r.Ok? <==> |tweets| > 0
    ensures r.Err? ==> r.error == ZeroDivisionError
    ensures r.Ok? ==> |r.value| == |FEATURE_ORDER|
    ensures r.Ok? ==> forall i :: 0 <= i < |FEATURE_ORDER| ==>
      r.value[i] == Mean(Total(tweets, Counter(FEATURE_ORDER[i])), |tweets|)
  {
    if |tweets| == 0 then Err(ZeroDivisionError)
    else
      Ok(seq(|FEATURE_ORDER|, i requires 0 <= i < |FEATURE_ORDER| =>
        AverageCount(tweets, Counter(FEATURE_ORDER[i])).value))
  }

  /** Each value present, as the Python list holds it. */
  function Known(v: seq<Mean>): seq<Option<Mean>> {
    seq(|v|, i requires 0 <= i < |v| => Some(v[i]))
  }

  /** The feature vector slot by slot, in the fixed order. */
  lemma FeatureSlots(tweets: seq<string>)
    requires |tweets| > 0
    ensures StyleFeatures(tweets).value == [
      AverageCount(tweets, EmoticonCount).value, AverageCount(tweets, HashtagCount).value,
      AverageCount(tweets, ExclamationCount).value, AverageCount(tweets, ReplyCount).value,
      AverageCount(tweets, RepetitionCount).value, AverageCount(tweets, TweetLength).value]
  {
  }

  lemma KnownSix(a: Mean, b: Mean, c: Mean, d: Mean, e: Mean, f: Mean)
    ensures Known([a, b, c, d, e, f]) == [Some(a), Some(b), Some(c), Some(d), Some(e), Some(f)]
  {
  }

  /* ---------- the combined document ---------- */

  /** `map(process_tweet, tweets)`: one normalised tweet per tweet, in timeline order. */
  function ProcessedTweets(tweets: seq<string>, stops: set<string>): (r: seq<string>)
    ensures |r| == |tweets|
    ensures forall i :: 0 <= i < |r| ==> r[i] == ProcessTweet(tweets[i], stops)
    decreases |tweets|
  {
    if tweets == [] then [] else [ProcessTweet(tweets[0], stops)] + ProcessedTweets(tweets[1..], stops)
  }

  /**
   * `" ".join(map(process_tweet, tweets))`: the single document handed to the vectorisers.
   * It holds only lower-case ASCII letters and spaces.
   */
  function Document(tweets: seq<string>, stops: set<string>): (r: string)
    ensures LowerAndSpaces(r)
  {
    var ps := ProcessedTweets(tweets, stops);
    JoinLowerAndSpaces(ps);
    Join(ps)
  }

  /** The surviving words of every tweet, tweet after tweet. */
  function TimelineTokens(tweets: seq<string>, stops: set<string>): seq<string>
    decreases |tweets|
  {
    if tweets == [] then []
    else RemoveStopwords(Words(Cleaned(tweets[0])), stops) + TimelineTokens(tweets[1..], stops)
  }

  /** The document's words are the non-stopword words of each tweet, in timeline order. */
  lemma {:induction false} DocumentTokens(tweets: seq<string>, stops: set<string>)
    ensures Words(Document(tweets, stops)) == TimelineTokens(tweets, stops)
    decreases |tweets|
  {
    if tweets != [] {
      var head := RemoveStopwords(Words(Cleaned(tweets[0])), stops);
      if |tweets| > 1 {
        DocumentTokens(tweets[1..], stops);
        WordsAcrossSpace(ProcessTweet(tweets[0], stops), Document(tweets[1..], stops));
      } else {
        assert ProcessedTweets(tweets, stops) == [ProcessTweet(tweets[0], stops)];
        assert TimelineTokens(tweets, stops) == head + [];
      }
    }
  }

  /** Texts of lower-case letters and spaces, joined with single spaces, are again such a text. */
  lemma {:induction false} JoinLowerAndSpaces(ps: seq<string>)
    requires forall i :: 0 <= i < |ps| ==> LowerAndSpaces(ps[i])
    ensures LowerAndSpaces(Join(ps))
    decreases |ps|
  {
    if |ps| > 1 {
      JoinLowerAndSpaces(ps[1..]);
      LowerAndSpacesJoin(ps[0], Join(ps[1..]));
    }
  }

  /**
   * Unlike a single normalised tweet, the document is not always tidy: a tweet that
   * normalises to nothing (`""`, see EmptyTweetVanishes) still contributes its joining space,
   * so followed by a tweet that keeps a word (`"ok"`, see PlainWordKept) the document starts
   * with a space.
   */
  lemma DocumentCanStartWithSpace(a: string, b: string, stops: set<string>)
    requires ProcessTweet(a, stops) == [] && ProcessTweet(b, stops) != []
    ensures Document([a, b], stops) == " " + ProcessTweet(b, stops)
    ensures !Tidy(Document([a, b], stops))
  {
    DocumentOfTwo(a, b, stops);
    assert [] + " " + ProcessTweet(b, stops) == " " + ProcessTweet(b, stops);
  }

  /** The document of a two-tweet timeline: both normalised tweets around one space. */
  lemma DocumentOfTwo(a: string, b: string, stops: set<string>)
    ensures Document([a, b], stops) == ProcessTweet(a, stops) + " " + ProcessTweet(b, stops)
  {
    var t := [a, b];
    var rest := t[1..];
    assert rest == [b] && rest[1..] == [];
    var pa, pb := ProcessTweet(a, stops), ProcessTweet(b, stops);
    assert ProcessedTweets(rest, stops) == [pb] + ProcessedTweets([], stops);
    assert ProcessedTweets(t, stops) == [pa] + ProcessedTweets(rest, stops);
    var ps := [pa, pb];
    assert ProcessedTweets(t, stops) == ps;
    assert ps[1..] == [pb];
    assert Join(ps) == pa + " " + Join([pb]);
    assert Join([pb]) == pb;
  }

  /** An empty tweet normalises to the empty string. */
  lemma EmptyTweetVanishes()
    ensures ProcessTweet("", {}) == ""
  {
    assert Cleaned("") == "";
  }

  /** A plain word that is not a stopword is kept as it is. */
  lemma PlainWordKept()
    ensures ProcessTweet("ok", {}) == "ok"
  {
    var s := "ok";
    assert NoLongRuns(s);
    LowerWordKept(s, {});
  }

  /** Adding up per-tweet bounds: pointwise `2 * f <= g` carries over to the totals. */
  lemma {:induction false} TotalDoubledBound(tweets: seq<string>, f: string -> nat, g: string -> nat)
    requires forall t :: 2 * f(t) <= g(t)
    ensures 2 * Total(tweets, f) <= Total(tweets, g)
    decreases |tweets|
  {
    if tweets != [] {
      TotalDoubledBound(tweets[..|tweets| - 1], f, g);
    }
  }

  /** Every emoticon spans at least two characters, so the average emoticon count is at most half the average length. */
  lemma EmoticonAverageBound(tweets: seq<string>)
    requires |tweets| > 0
    ensures 2.0 * StyleFeatures(tweets).value[0].Value() <= StyleFeatures(tweets).value[5].Value()
  {
    var v := StyleFeatures(tweets).value;
    assert FEATURE_ORDER[0] == Emoticons && FEATURE_ORDER[5] == Length;
    assert v[0] == Mean(Total(tweets, EmoticonCount), |tweets|);
    assert v[5] == Mean(Total(tweets, TweetLength), |tweets|);
    EmoticonTotalBound(tweets);
    HalfMean(v[0], v[5]);
  }

  lemma EmoticonTotalBound(tweets: seq<string>)
    ensures 2 * Total(tweets, EmoticonCount) <= Total(tweets, TweetLength)
  {
    forall t ensures 2 * EmoticonCount(t) <= TweetLength(t) {
    }
    TotalDoubledBound(tweets, EmoticonCount, TweetLength);
  }

  /** Halving carries over from totals to averages over the same count. */
  lemma HalfMean(a: Mean, b: Mean)
    requires a.count == b.count > 0 && 2 * a.total <= b.total
    ensures 2.0 * a.Value() <= b.Value()
  {
    var n := a.count as real;
    var ta, tb := a.total as real, b.total as real;
    assert 2.0 * ta <= tb by {
      assert (2 * a.total) as real == 2.0 * ta;
    }
    CancelHalf(a.Value(), b.Value(), n, ta, tb);
  }

  /** Dividing `2 * tx <= ty` by the positive `n`, where `x * n == tx` and `y * n == ty`. */
  lemma CancelHalf(x: real, y: real, n: real, tx: real, ty: real)
    requires n > 0.0 && x * n == tx && y * n == ty && 2.0 * tx <= ty
    ensures 2.0 * x <= y
  {
    assert (y - 2.0 * x) * n == ty - 2.0 * tx;
  }

  /* ---------- the Dataset object ---------- */

  class Dataset {
    /** The raw tweets, in input order. */
    var timeline: seq<string>
    var avgEmoticonCounts: Option<Mean>
    var avgHashtagCounts: Option<Mean>
    var avgExclamationCounts: Option<Mean>
    var avgReplyCounts: Option<Mean>
    var avgRepetitionCounts: Option<Mean>
    var avgTweetLen: Option<Mean>
    var processedTimeline: Option<string>

    /** The feature fields in the order `process` returns them. */
    function Features(): seq<Option<Mean>>
      reads this
    {
      [avgEmoticonCounts, avgHashtagCounts, avgExclamationCounts,
       avgReplyCounts, avgRepetitionCounts, avgTweetLen]
    }

    /** Nothing computed yet: every derived field is `None`. */
    predicate Unset()
      reads this
    {
      Features() == [None, None, None, None, None, None] && processedTimeline == None
    }

    /** The field initialisation of `__init__`, before any entry is read. */
    constructor ()
      ensures timeline == [] && Unset()
    {
      timeline := [];
      avgEmoticonCounts, avgHashtagCounts, avgExclamationCounts := None, None, None;
      avgReplyCounts, avgRepetitionCounts, avgTweetLen := None, None, None;
      processedTimeline := None;
    }

    method CountAvgEmoticons() returns (r: Result<Mean>)
      ensures r == AverageCount(timeline, EmoticonCount)
    {
      r := AverageOf(timeline, EmoticonCount);
    }

    method CountAvgRepetitions() returns (r: Result<Mean>)
      ensures r == AverageCount(timeline, RepetitionCount)
    {
      r := AverageOf(timeline, RepetitionCount);
    }

    method CountAvgReplies() returns (r: Result<Mean>)
      ensures r == AverageCount(timeline, ReplyCount)
    {
      r := AverageOf(timeline, ReplyCount);
    }

    method CountAvgHashtags() returns (r: Result<Mean>)
      ensures r == AverageCount(timeline, HashtagCount)
    {
      r := AverageOf(timeline, HashtagCount);
    }

    method CountAvgExclamations() returns (r: Result<Mean>)
      ensures r == AverageCount(timeline, ExclamationCount)
    {
      r := AverageOf(timeline, ExclamationCount);
    }

    method CountAvgTweetLen() returns (r: Result<Mean>)
      ensures r == AverageCount(timeline, TweetLength)
    {
      r := AverageOf(timeline, TweetLength);
    }

    /**
     * `generate_features`: compute the six averages (emoticons first) and store them.
     * On an empty timeline the first division raises and no field is written.
     */
    method GenerateFeatures() returns (outcome: Result<()>)
      modifies this`avgEmoticonCounts, this`avgHashtagCounts, this`avgExclamationCounts
      modifies this`avgReplyCounts, this`avgRepetitionCounts, this`avgTweetLen
      ensures outcome.Ok? <==> StyleFeatures(timeline).Ok?
      ensures outcome.Err? ==> outcome.error == ZeroDivisionError && Features() == old(Features())
      ensures outcome.Ok? ==> Features() == Known(StyleFeatures(timeline).value)
    {
      var e := CountAvgEmoticons();
      if e.Err? { return Err(e.error); }
      avgEmoticonCounts := Some(e.value);
      // The other five divide by the same non-zero count, so they cannot raise.
      var h := CountAvgHashtags();
      avgHashtagCounts := Some(h.value);
      var x := CountAvgExclamations();
      avgExclamationCounts := Some(x.value);
      var rp := CountAvgReplies();
      avgReplyCounts := Some(rp.value);
      var rr := CountAvgRepetitions();
      avgRepetitionCounts := Some(rr.value);
      var l := CountAvgTweetLen();
      avgTweetLen := Some(l.value);
      FeatureSlots(timeline);
      KnownSix(e.value, h.value, x.value, rp.value, rr.value, l.value);
      outcome := Ok(());
    }

    /**
     * `process`: store and return the combined document as a one-element list, together
     * with the feature fields in their fixed order (still `None` if features were never generated).
     */
    method Process(stops: set<string>) returns (documents: seq<string>, features: seq<Option<Mean>>)
      modifies this`processedTimeline
      ensures processedTimeline == Some(Document(timeline, stops))
      ensures documents == [Document(timeline, stops)]
      ensures features == Features() && |features| == 6
    {
      processedTimeline := Some(Document(timeline, stops));
      documents := [processedTimeline.value];
      features := Features();
    }
  }

  /**
   * `Dataset(timeline_list)`: start from the empty state and append the `text` of each entry
   * in order; an entry without `text` raises `KeyError`.
   */
  method NewDataset(timelineList: Option<seq<Entry>>) returns (r: Result<Dataset>)
    ensures r.Ok? <==> TimelineOf(timelineList).Ok?
    ensures r.Err? ==> r.error == KeyError("text")
    ensures r.Ok? ==> fresh(r.value) && r.value.Unset()
    ensures r.Ok? ==> r.value.timeline == TimelineOf(timelineList).value
  {
    var d := new Dataset();
    if timelineList.Some? {
      var entries := timelineList.value;
      for i := 0 to |entries|
        invariant d.Unset()
        invariant |d.timeline| == i
        invariant forall j :: 0 <= j < i ==> "text" in entries[j] && d.timeline[j] == entries[j]["text"]
      {
        if "text" !in entries[i] {
          return Err(KeyError("text"));
        }
        d.timeline := d.timeline + [entries[i]["text"]];
      }
    }
    r := Ok(d);
  }

  /** What the endpoint hands to the trait predictor: the documents list and the feature list. */
  datatype Corpus = Corpus(documents: seq<string>, features: seq<Option<Mean>>)

  /**
   * The endpoint's use of `Dataset`: construct it from the posts, generate the features, then
   * process. Fails with `KeyError` on a post without text and with `ZeroDivisionError` on no posts.
   */
  method BuildCorpus(posts: seq<Entry>, stops: set<string>) returns (r: Result<Corpus>)
    ensures r.Ok? <==> TweetTexts(posts).Ok? && |posts| > 0
    ensures r.Err? ==> r.error == if TweetTexts(posts).Err? then KeyError("text") else ZeroDivisionError
    ensures r.Ok? ==> r.value.documents == [Document(TweetTexts(posts).value, stops)]
    ensures r.Ok? ==> r.value.features == Known(StyleFeatures(TweetTexts(posts).value).value)
  {
    var made := NewDataset(Some(posts));
    if made.Err? {
      return Err(made.error);
    }
    var data := made.value;
    var generated := data.GenerateFeatures();
    if generated.Err? {
      return Err(generated.error);
    }
    var documents, features := data.Process(stops);
    r := Ok(Corpus(documents, features));
  }
}
