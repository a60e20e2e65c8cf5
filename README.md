# Tweet feature pipeline of the personality-prediction service

This project models the part of the service that turns raw tweets into model input. That part is the `Dataset` class of `app.py`:

- `Dataset.__init__` keeps the `text` field of every posted entry, in order, as the timeline.
- `process_tweet` normalises one tweet. It replaces URLs with `URL` and the literal `@username` with `REP`. It trims runs of four or more identical characters to three. It turns every non-letter into a space, lower-cases the text, splits it into words, drops stopwords and re-joins the words with single spaces.
- Six `count_avg_*` methods each count one stylistic signal per tweet and average it over the timeline. The signals are emoticons, hashtags, runs of `!`, `@username` replies, runs of four or more identical word characters, and raw length.
- `generate_features` stores the six averages. `process` returns the combined normalised document and the six features, in a fixed order.

Modules:

- `Common` holds `Option`, `Result` and the Python exceptions that can be raised (`KeyError`, `ZeroDivisionError`).
- `Chars` holds the character classes (`str.isspace`, `[a-zA-Z]`, ASCII `\w`), ASCII lower-casing, and spans and runs.
- `Normalizer` models `process_tweet` as one function per rewrite step, with lemmas about each step and about the whole chain.
- `StyleCounts` holds the per-tweet `re.findall` counts. Each is a scanner that mirrors the regular expression's leftmost, non-overlapping matching. Most are proved equal to an independent counting definition.
- `Timeline` holds the `Dataset` class, with the fields the source assigns in place. It also holds the accumulator loop shared by the averages, the fixed feature order, the combined document, and the sequence the endpoint runs (construct, `generate_features`, `process`).

Three consequences of the code are worth stating up front:

- **Empty timeline.** An empty timeline raises `ZeroDivisionError` from the first average. The `is None` guard of each `count_avg_*` method never fires, because the timeline is always a list.
- **Normalisation is not idempotent** (`NormaliserNotIdempotent`). Runs are trimmed before lower-casing, so `"aaaA"` normalises to `"aaaa"`, and normalising again gives `"aaa"`.
- **Spacing of the combined document.** A single normalised tweet is single-spaced (`ProcessTweet`). The joined document is not always: a tweet that normalises to nothing still adds its joining space (`DocumentCanStartWithSpace`). `["", "ok"]` gives `" ok"`.

## Model

| member | source | states |
|---|---|---|
| `Chars.ToLower` | app.py:49 | a capital becomes its own lower-case letter (the same distance from `a` as it is from `A`); every other character is unchanged; the result is never a capital |
| `Normalizer.SchemeLen` | app.py:40 | non-zero exactly when the text starts with `http://`, `https://` or `ftp://` |
| `Normalizer.UrlMatchLen` | app.py:40 | a URL match covers the scheme and every character after it up to the next whitespace character or the end; no whitespace lies inside the match |
| `Normalizer.ReplaceUrls` | app.py:45 | a character where no URL starts is copied to the output unchanged |
| `Normalizer.ReplaceUrlsKeepsPrefix` | app.py:45 | text in which no URL starts is copied unchanged ahead of the rewrite of whatever follows it |
| `Normalizer.ReplaceUrlsFirstMatch` | app.py:40-45 | at the first position where a URL starts, everything before it is copied, the whole match becomes `URL`, and the rewrite continues right after the match |
| `Normalizer.ReplaceUrlsNoMatch` | app.py:45 | text in which no URL starts is left unchanged |
| `Normalizer.ReplaceUrlsLeavesNoUrl` | app.py:40-45 | after the rewrite no URL starts anywhere, so `URL` tags never combine with their neighbours into a new URL |
| `Normalizer.ReplaceRepliesNoMatch` | app.py:46 | text without `@username` is left unchanged |
| `Normalizer.ReplaceReplies` | app.py:46 | never lengthens the text; a first character where `@username` does not start is copied unchanged |
| `Normalizer.ReplaceRepliesKeepsPrefix` | app.py:46 | text in which `@username` does not start is copied unchanged ahead of the rewrite of whatever follows it |
| `Normalizer.ReplaceRepliesFirstMatch` | app.py:41-46 | at the first `@username`, everything before it is copied, the match becomes `REP`, and the rewrite continues right after it |
| `Normalizer.ReplaceRepliesLeavesNone` | app.py:41-46 | after the rewrite `@username` occurs nowhere |
| `Normalizer.TrimRuns` | app.py:47 | never lengthens the text and keeps its first character |
| `Normalizer.TrimRunsOfRun` | app.py:47 | a run of `n` copies of one character becomes exactly three copies when `n >= 4` and the character is not a newline (`.` does not match a newline); otherwise it is kept whole |
| `Normalizer.TrimRunsSplit` | app.py:47 | text cut between two different characters is trimmed piece by piece, so each maximal run is trimmed on its own and nothing else changes |
| `Normalizer.TrimRunsBoundsRuns` | app.py:47 | after trimming, no non-newline character occurs four or more times in a row |
| `Normalizer.TrimRunsKeepsShortRuns` | app.py:47 | text whose runs are at most three long (newline runs aside) is left unchanged |
| `Normalizer.TrimRunsIdempotent` | app.py:47 | trimming twice is the same as trimming once |
| `Normalizer.LettersOnly` | app.py:48 | same length; letters stay in place, every other character becomes a space |
| `Normalizer.Lower` | app.py:49 | same length; each character is mapped by `ToLower`, so capitals become their own lower-case letter, everything else is unchanged and no capital remains |
| `Normalizer.Words` | app.py:49 | every word `str.split()` returns is non-empty and contains no whitespace |
| `Normalizer.Join` | app.py:52 | no words give `""`; otherwise the result starts with the first word and is as long as all the words plus one separator between each pair of neighbours |
| `Normalizer.WordsOfLowerText` | app.py:48-49 | text of lower-case letters and spaces splits into non-empty lower-case words |
| `Normalizer.WordsAcrossSpace` | app.py:52 | splitting `a + " " + b` gives the words of `a` followed by the words of `b` |
| `Normalizer.WordsOfJoin` | app.py:49-52 | joining tokens with single spaces and splitting again gives back the same tokens |
| `Normalizer.JoinTidy` | app.py:52 | joining non-empty lower-case words gives lower-case letters and single spaces, with no space at either end |
| `Normalizer.RemoveStopwords` | app.py:50-51 | no stopword survives; a word survives exactly when it is not a stopword; the survivors are a subsequence of the input, in order |
| `Normalizer.RemoveStopwordsCounts` | app.py:50-51 | every word that is not a stopword keeps all its occurrences; a stopword keeps none |
| `Normalizer.Cleaned` | app.py:45-49 | the text reaching the split holds only lower-case ASCII letters and spaces |
| `Normalizer.ProcessTweet` | app.py:35-52 | the normalised tweet holds only lower-case letters and single spaces, with no space at either end; its words are exactly the non-stopword words of the cleaned text, every occurrence, in their original order |
| `Normalizer.LowerWordKept` | app.py:35-52 | a non-empty lower-case word, of any length, with no run of four and not a stopword, normalises to itself |
| `Normalizer.KeptWordsTidy` | app.py:49-52 | joining the non-stopword words of lower-case text gives lower-case words separated by single spaces, with no space at either end |
| `Normalizer.KeptWordsTokens` | app.py:49-52 | splitting the joined non-stopword words gives back exactly those words |
| `Normalizer.LettersUntagged` | app.py:45-46 | text made only of ASCII letters passes the URL and `@username` rewrites unchanged |
| `Normalizer.CleanedMixedCaseRun` | app.py:47-49 | three copies of a lower-case letter followed by its capital pass the trimming step and come out as four lower-case copies |
| `Normalizer.CleanedUniformRun` | app.py:47-49 | four copies of a lower-case letter come out as three |
| `Normalizer.NormaliserNotIdempotent` | app.py:35-52 | for any such mixed-case run that is not a stopword, one pass gives four copies and a second pass gives three, so normalising twice differs from normalising once |
| `Normalizer.NormaliserNotIdempotentExample` | app.py:35-52 | normalising `"aaaA"` twice differs from normalising it once |
| `StyleCounts.NoseMouthLen` | app.py:59 | the optional nose and the mouth take at most two characters |
| `StyleCounts.NoseMouthShape` | app.py:59 | the nose-and-mouth strings are exactly one of the seven mouths `)`, `(`, `D`, `P`, `d`, `p`, `3`, optionally preceded by `-` |
| `StyleCounts.NoseMouthLenIsGlyph` | app.py:59 | a non-empty nose-and-mouth match is one of those strings; an empty one means none of them starts the text |
| `StyleCounts.EmoticonShape` | app.py:59 | the 61 emoticons are exactly the faces (an eye `:`, `;`, `=` or `:'` followed by a nose-and-mouth string) and `<3`, `</3`, `xd`, `xD`, `XD` |
| `StyleCounts.EmoticonLen` | app.py:59 | an emoticon match is empty or spans at least two characters |
| `StyleCounts.EmoticonLenIsGlyph` | app.py:59 | a non-empty emoticon match is one of the 61 emoticons; an empty match means none of the 61 starts the text |
| `StyleCounts.EmoticonLenUnique` | app.py:59 | when one of the 61 emoticons starts the text, the match is exactly that emoticon (none is a prefix of another) |
| `StyleCounts.EmoticonCount` | app.py:59 | a tweet holds at most `len(tweet) / 2` emoticon matches |
| `StyleCounts.EmoticonCountAtGlyph` | app.py:59 | where an emoticon starts the text, it is counted once and the count continues right after it |
| `StyleCounts.EmoticonCountNoGlyph` | app.py:59 | where no emoticon starts the text, the first character adds nothing to the count |
| `StyleCounts.HashtagCountIsTagStarts` | app.py:83 | the `#(\w+)` count equals the number of `#` characters immediately followed by a word character |
| `StyleCounts.HashtagCount` | app.py:83 | each match takes at least two characters, so twice the count is at most the length |
| `StyleCounts.ExclamationCountIsRuns` | app.py:91 | the `!+` count equals the number of maximal runs of `!` |
| `StyleCounts.ExclamationCount` | app.py:91 | runs of `!` are separated by other characters, so twice the count is at most the length, plus one when the text starts with `!` |
| `StyleCounts.ReplyCountIsOccurrences` | app.py:75 | the non-overlapping `@username` count equals the number of all occurrences |
| `StyleCounts.ReplyCount` | app.py:75 | each match takes nine characters, so nine times the count is at most the length |
| `StyleCounts.ReplaceRepliesLength` | app.py:75 | each counted reply makes the text after the `@username` rewrite six characters shorter than the input (9 for `@username`, 3 for `REP`) |
| `StyleCounts.NoReplyAfterRewrite` | app.py:46 | no reply is left to count after the `@username` rewrite |
| `StyleCounts.RepetitionCountIsLongRuns` | app.py:67 | the `(\w)\1{3,}` count equals the number of maximal runs of four or more identical word characters |
| `StyleCounts.RepetitionCount` | app.py:67 | each match takes at least four characters, so four times the count is at most the length |
| `StyleCounts.NoRepetitionWithoutLongRuns` | app.py:67 | text with no run of four identical non-newline characters has a repetition count of 0 |
| `StyleCounts.NoRepetitionAfterTrim` | app.py:47 | no repetition is left to count after the trimming step |
| `StyleCounts.TweetLength` | app.py:99 | the raw length bounds every other count: twice the emoticon count, twice the hashtag count, twice the exclamation count minus one, nine times the reply count and four times the repetition count are each at most the length |
| `Timeline.TweetTexts` | app.py:23-25 | succeeds exactly when every entry has a `text` field, otherwise `KeyError("text")`; the timeline has one tweet per entry and keeps the `text` of each, in input order |
| `Timeline.TimelineOf` | app.py:23-25 | no list gives the empty timeline; otherwise it succeeds exactly when every entry has `text`, with one tweet per entry holding that entry's `text`, in order, and `KeyError("text")` otherwise |
| `Timeline.NewDataset` | app.py:13-25 | the new object's timeline is the `text` fields in input order (`[]` when no list is given); all derived fields are `None`; a missing `text` raises `KeyError` |
| `Timeline.Dataset.constructor` | app.py:13-21 | empty timeline; every feature field and the processed timeline are `None` |
| `Timeline.Total` | app.py:57-59 | the accumulated count is at least the count of every single tweet |
| `Timeline.TotalConcat` | app.py:57-59 | the accumulated count over a timeline is the sum of the accumulated counts over any split of it |
| `Timeline.AverageCount` | app.py:56-60 | an average exists exactly when the timeline is non-empty; otherwise `ZeroDivisionError` |
| `Timeline.Mean.Value` | app.py:60 | an average is non-negative, and multiplied by the tweet count it gives the total |
| `Timeline.AverageOf` | app.py:57-60 | the accumulator loop returns the total of the per-tweet counts divided by the number of tweets, or `ZeroDivisionError` |
| `Timeline.FeatureSlots` | app.py:112-117 | the feature vector lists the emoticon, hashtag, exclamation, reply, repetition and length averages, in that order |
| `Timeline.StyleFeatures` | app.py:112-117 | six slots; slot `i` is the average of the counter for feature `i` in the order emoticon, hashtag, exclamation, reply, repetition, length; `ZeroDivisionError` exactly on an empty timeline |
| `Timeline.Dataset.CountAvgEmoticons` | app.py:55-60 | returns the average emoticon count of the timeline |
| `Timeline.Dataset.CountAvgRepetitions` | app.py:63-68 | returns the average repetition count |
| `Timeline.Dataset.CountAvgReplies` | app.py:71-76 | returns the average reply count |
| `Timeline.Dataset.CountAvgHashtags` | app.py:79-84 | returns the average hashtag count |
| `Timeline.Dataset.CountAvgExclamations` | app.py:87-92 | returns the average number of `!` runs |
| `Timeline.Dataset.CountAvgTweetLen` | app.py:95-100 | returns total characters divided by the number of tweets |
| `Timeline.Dataset.GenerateFeatures` | app.py:102-117 | on a non-empty timeline the six fields hold the feature vector in its fixed order, whatever order they were computed in; on an empty one it raises `ZeroDivisionError` and no field changes; the timeline is untouched |
| `Timeline.Dataset.Process` | app.py:27-33 | stores the combined document and returns it as a one-element list, with the six feature fields in the fixed order (still `None` before `generate_features`) |
| `Timeline.ProcessedTweets` | app.py:31 | one normalised tweet per tweet, the `i`-th being `process_tweet` of the `i`-th tweet |
| `Timeline.Document` | app.py:31 | the document holds only lower-case ASCII letters and spaces |
| `Timeline.JoinLowerAndSpaces` | app.py:31 | joining texts of lower-case letters and spaces with single spaces gives such a text |
| `Timeline.DocumentTokens` | app.py:31 | the document's words are each tweet's non-stopword words, tweet after tweet, in timeline order |
| `Timeline.DocumentOfTwo` | app.py:31 | a two-tweet document is the two normalised tweets around one space |
| `Timeline.DocumentCanStartWithSpace` | app.py:31 | when the first tweet normalises to nothing and the second does not, the document is a space followed by the second tweet: unlike a single normalised tweet, it starts with a space |
| `Timeline.EmptyTweetVanishes` | app.py:35-52 | the empty tweet normalises to the empty string |
| `Timeline.PlainWordKept` | app.py:35-52 | the tweet `"ok"` normalises to itself |
| `Timeline.EmoticonTotalBound` | app.py:59 | over any timeline, twice the emoticon total is at most the total length |
| `Timeline.EmoticonAverageBound` | app.py:55-100 | the average emoticon count is at most half the average tweet length |
| `Timeline.BuildCorpus` | app.py:159-161 | constructing, then `generate_features`, then `process` gives the combined document and the full feature vector; it fails with `KeyError` on a post without text and with `ZeroDivisionError` on no posts |

## Left out

- `Predictor` (app.py:120-152) is not part of this model. It loads pickled vectorisers and models from disk and calls their `transform` and `predict`, and `numpy.column_stack`. Their behaviour is not visible in this code.
- The `round(..., 2)` of the trait scores is not modelled. It is floating-point rounding in `Predictor`.
- The Flask layer is not modelled: `Respond`, `request.get_json`, `jsonify`, `api.add_resource` and `app.run`. `BuildCorpus` models only the three `Dataset` calls of `Respond.post`.
- The NLTK stopword corpus and its lookup by language are not modelled. The stopword set is a parameter (`stops`), so an unknown language cannot be expressed.
- Timeline entries are modelled as string-to-string maps. An entry that is not an object, or whose `text` is not a string, cannot be expressed.
- Regex classes and `str.lower()` use ASCII only. `\w` is ASCII letters, digits and underscore. `str.lower()` only ever sees `[a-zA-Z]` and spaces, so ASCII folding is exact there. Whitespace (`\s`, `str.split()`) uses the full `str.isspace()` set.
- Timeline.Mean.Value: an average is the exact quotient of two integers, not the IEEE double that Python's `/` returns.
- Timeline.Dataset.GenerateFeatures: the other five averages are not re-checked after the first succeeds. All six divide by the same count, so they cannot raise once the first has not.
- Normalizer.ProcessTweet: `process_tweet` is a method of `Dataset`, but it never reads `self`. It is modelled as a function of the tweet and the stopword set.
