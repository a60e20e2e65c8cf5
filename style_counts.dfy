/**
 * The per-tweet counts behind the six stylistic features: the `re.findall` scans of the
 * `count_avg_*` methods, each written as a scanner over the tweet that mirrors the
 * regular expression's leftmost, non-overlapping matching, next to an independent
 * reference definition where one exists.
 */
module StyleCounts {
  import opened Chars
  import opened Normalizer

  /* ---------- emoticons ---------- */

  /** The mouth alternatives `\)|\(|D|P|d|p|3`. */
  predicate IsMouth(c: char) {
    c == ')' || c == '(' || c == 'D' || c == 'P' || c == 'd' || c == 'p' || c == '3'
  }

  /** The strings `(?:-)?(?:\)|\(|D|P|d|p|3)` matches: a mouth, with or without a nose. */
  const NOSE_MOUTHS: set<string> := {
    ")", "(", "D", "P", "d", "p", "3",
    "-)", "-(", "-D", "-P", "-d", "-p", "-3"
  }

  /** The faces with the eye `:`. */
  const COLON_FACES: set<string> := {
    ":)", ":(", ":D", ":P", ":d", ":p", ":3",
    ":-)", ":-(", ":-D", ":-P", ":-d", ":-p", ":-3"
  }

  /** The faces with the eye `;`. */
  const SEMICOLON_FACES: set<string> := {
    ";)", ";(", ";D", ";P", ";d", ";p", ";3",
    ";-)", ";-(", ";-D", ";-P", ";-d", ";-p", ";-3"
  }

  /** The faces with the eye `=`. */
  const EQUALS_FACES: set<string> := {
    "=)", "=(", "=D", "=P", "=d", "=p", "=3",
    "=-)", "=-(", "=-D", "=-P", "=-d", "=-p", "=-3"
  }

  /** The faces with the two-character eye `:'`. */
  const TEAR_FACES: set<string> := {
    ":')", ":'(", ":'D", ":'P", ":'d", ":'p", ":'3",
    ":'-)", ":'-(", ":'-D", ":'-P", ":'-d", ":'-p", ":'-3"
  }

  /** The emoticons that are not faces. */
  const OTHER_EMOTICONS: set<string> := {"<3", "</3", "xd", "xD", "XD"}

  /**
   * The 61 strings the emoticon pattern matches: the 56 faces (an eye `:`, `;`, `:'` or `=`,
   * an optional nose `-` and one of seven mouths) and the five others. None of them is a
   * prefix of another, so at any position at most one of them can match.
   */
  const EMOTICONS: set<string> := COLON_FACES + SEMICOLON_FACES + EQUALS_FACES + TEAR_FACES + OTHER_EMOTICONS

  /** The one-character eyes `:`, `;` and `=` (the two-character eye `:'` is handled apart). */
  predicate IsEye(c: char) {
    c == ':' || c == ';' || c == '='
  }

  /** A nose-and-mouth is a mouth, or a `-` followed by a mouth. */
  lemma NoseMouthShape(t: string)
    ensures t in NOSE_MOUTHS <==> (|t| == 1 && IsMouth(t[0])) || (|t| == 2 && t[0] == '-' && IsMouth(t[1]))
  {
    if |t| == 1 {
      assert t == [t[0]];
    } else if |t| == 2 {
      assert t == [t[0], t[1]];
    }
  }

  /** A face with a one-character eye is that eye followed by a nose-and-mouth. */
  lemma EyeFaceShape(g: string)
    ensures g in COLON_FACES <==> g != [] && g[0] == ':' && g[1..] in NOSE_MOUTHS
    ensures g in SEMICOLON_FACES <==> g != [] && g[0] == ';' && g[1..] in NOSE_MOUTHS
    ensures g in EQUALS_FACES <==> g != [] && g[0] == '=' && g[1..] in NOSE_MOUTHS
  {
    if g != [] {
      NoseMouthShape(g[1..]);
      if |g| == 2 {
        assert g == [g[0], g[1]];
      } else if |g| == 3 {
        assert g == [g[0], g[1], g[2]];
      }
    }
  }

  /** A face with the eye `:'` is that eye followed by a nose-and-mouth. */
  lemma TearFaceShape(g: string)
    ensures g in TEAR_FACES <==> |g| >= 2 && g[0] == ':' && g[1] == '\'' && g[2..] in NOSE_MOUTHS
  {
    if |g| >= 2 {
      NoseMouthShape(g[2..]);
      if |g| == 3 {
        assert g == [g[0], g[1], g[2]];
      } else if |g| == 4 {
        assert g == [g[0], g[1], g[2], g[3]];
      }
    }
  }

  /** An emoticon is one of the five others, or an eye followed by a nose-and-mouth. */
  lemma EmoticonShape(g: string)
    ensures g in EMOTICONS <==>
      || g in OTHER_EMOTICONS
      || (g != [] && IsEye(g[0]) && g[1..] in NOSE_MOUTHS)
      || (|g| >= 2 && g[0] == ':' && g[1] == '\'' && g[2..] in NOSE_MOUTHS)
  {
    EyeFaceShape(g);
    TearFaceShape(g);
  }

  /** Length of `(?:-)?(?:mouth)` at the start of `s`, trying the nose first; 0 if it does not match. */
  function NoseMouthLen(s: string): (n: nat)
    ensures n <= |s| && n <= 2
  {
    if |s| >= 2 && s[0] == '-' && IsMouth(s[1]) then 2
    else if |s| >= 1 && IsMouth(s[0]) then 1
    else 0
  }

  /**
   * Length of the match of
   * `(?::|;|:'|=)(?:-)?(?:\)|\(|D|P|d|p|3)|<3|</3|xd|xD|XD` at the start of `s`, with the
   * alternatives tried in the pattern's order; 0 if none matches.
   */
  function EmoticonLen(s: string): (n: nat)
    ensures n == 0 || 2 <= n <= |s|
  {
    if |s| >= 1 && (s[0] == ':' || s[0] == ';' || s[0] == '=') && NoseMouthLen(s[1..]) > 0 then
      1 + NoseMouthLen(s[1..])
    else if |s| >= 2 && s[0] == ':' && s[1] == '\'' && NoseMouthLen(s[2..]) > 0 then
      2 + NoseMouthLen(s[2..])
    else if "<3" <= s || "xd" <= s || "xD" <= s || "XD" <= s then 2
    else if "</3" <= s then 3
    else 0
  }

  /** The nose-and-mouth match at the start of `s` is one of the fourteen, and there is none exactly when none starts `s`. */
  lemma NoseMouthLenIsGlyph(s: string)
    ensures NoseMouthLen(s) > 0 ==> s[..NoseMouthLen(s)] in NOSE_MOUTHS
    ensures NoseMouthLen(s) == 0 ==> forall t :: t in NOSE_MOUTHS ==> !(t <= s)
  {
    var n := NoseMouthLen(s);
    if n > 0 {
      NoseMouthShape(s[..n]);
    } else {
      forall t | t in NOSE_MOUTHS ensures !(t <= s) {
        NoseMouthShape(t);
      }
    }
  }

  /** The emoticon match at the start of `s` is one of the 61 emoticons, and there is none exactly when no emoticon starts `s`. */
  lemma EmoticonLenIsGlyph(s: string)
    ensures EmoticonLen(s) > 0 ==> s[..EmoticonLen(s)] in EMOTICONS
    ensures EmoticonLen(s) == 0 ==> forall g :: g in EMOTICONS ==> !(g <= s)
  {
    if EmoticonLen(s) > 0 {
      EmoticonMatchIsGlyph(s);
    } else {
      forall g | g in EMOTICONS ensures !(g <= s) {
        NoEmoticonAt(s, g);
      }
    }
  }

  /** What the scan matches is an emoticon. */
  lemma EmoticonMatchIsGlyph(s: string)
    requires EmoticonLen(s) > 0
    ensures s[..EmoticonLen(s)] in EMOTICONS
  {
    if |s| >= 1 && IsEye(s[0]) && NoseMouthLen(s[1..]) > 0 {
      EyeMatchIsGlyph(s);
    } else if |s| >= 2 && s[0] == ':' && s[1] == '\'' && NoseMouthLen(s[2..]) > 0 {
      TearMatchIsGlyph(s);
    } else {
      OtherMatchIsGlyph(s);
    }
  }

  lemma EyeMatchIsGlyph(s: string)
    requires |s| >= 1 && IsEye(s[0]) && NoseMouthLen(s[1..]) > 0
    ensures s[..1 + NoseMouthLen(s[1..])] in EMOTICONS
  {
    FaceMatch(s, 1);
    EmoticonShape(s[..1 + NoseMouthLen(s[1..])]);
  }

  lemma TearMatchIsGlyph(s: string)
    requires |s| >= 2 && s[0] == ':' && s[1] == '\'' && NoseMouthLen(s[2..]) > 0
    ensures s[..2 + NoseMouthLen(s[2..])] in EMOTICONS
  {
    FaceMatch(s, 2);
    EmoticonShape(s[..2 + NoseMouthLen(s[2..])]);
  }

  lemma OtherMatchIsGlyph(s: string)
    requires "<3" <= s || "xd" <= s || "xD" <= s || "XD" <= s || "</3" <= s
    ensures "<3" <= s || "xd" <= s || "xD" <= s || "XD" <= s ==> s[..2] in OTHER_EMOTICONS
    ensures "</3" <= s ==> s[..3] in OTHER_EMOTICONS
  {
    if "</3" <= s {
      assert s[..3] == "</3";
      assert s[0] == '<' && s[1] == '/';
    } else if "<3" <= s {
      assert s[..2] == "<3";
    } else if "xd" <= s {
      assert s[..2] == "xd";
    } else if "xD" <= s {
      assert s[..2] == "xD";
    } else {
      assert s[..2] == "XD";
    }
  }

  /** An eye of length `e` followed by a nose-and-mouth match. */
  lemma FaceMatch(s: string, e: nat)
    requires e <= |s| && NoseMouthLen(s[e..]) > 0
    ensures s[..e + NoseMouthLen(s[e..])][e..] in NOSE_MOUTHS
    ensures forall j :: 0 <= j < e ==> s[..e + NoseMouthLen(s[e..])][j] == s[j]
  {
    var m := NoseMouthLen(s[e..]);
    NoseMouthLenIsGlyph(s[e..]);
    assert s[..e + m][e..] == s[e..][..m];
  }

  /** Where the scan finds no emoticon, none of the 61 starts the text. */
  lemma NoEmoticonAt(s: string, g: string)
    requires EmoticonLen(s) == 0 && g in EMOTICONS
    ensures !(g <= s)
  {
    EmoticonShape(g);
    if g <= s && g != [] && |s| >= 1 {
      PrefixByHead(g, s);
      if |s| >= 2 && |g| >= 2 {
        PrefixByHead(g[1..], s[1..]);
        assert g[1..][1..] == g[2..] && s[1..][1..] == s[2..];
      }
      NoseMouthLenIsGlyph(s[1..]);
      if |s| >= 2 {
        NoseMouthLenIsGlyph(s[2..]);
      }
    }
  }

  /** `len(re.findall(<emoticon pattern>, s))`; each match spans at least two characters. */
  function EmoticonCount(s: string): (r: nat)
    ensures 2 * r <= |s|
    decreases |s|
  {
    if s == [] then 0
    else
      var n := EmoticonLen(s);
      if n > 0 then 1 + EmoticonCount(s[n..]) else EmoticonCount(s[1..])
  }

  /** A nose-and-mouth that starts `s` is the one the scan takes. */
  lemma NoseMouthLenUnique(s: string, t: string)
    requires t in NOSE_MOUTHS && t <= s
    ensures NoseMouthLen(s) == |t|
  {
    NoseMouthShape(t);
    assert t[0] == s[0];
    if |t| == 2 {
      assert t[1] == s[1];
    }
  }

  /** Whichever of the 61 emoticons starts `s`, the scan takes exactly that one. */
  lemma EmoticonLenUnique(s: string, g: string)
    requires g in EMOTICONS && g <= s
    ensures EmoticonLen(s) == |g| > 0
  {
    EmoticonShape(g);
    if g in OTHER_EMOTICONS {
      OtherEmoticonAt(s, g);
    } else if g != [] && IsEye(g[0]) && g[1..] in NOSE_MOUTHS {
      PrefixByHead(g, s);
      NoseMouthLenUnique(s[1..], g[1..]);
    } else {
      PrefixByHead(g, s);
      PrefixByHead(g[1..], s[1..]);
      assert g[1..][1..] == g[2..] && s[1..][1..] == s[2..];
      NoseMouthLenUnique(s[2..], g[2..]);
      assert s[1] == '\'';
    }
  }

  lemma OtherEmoticonAt(s: string, g: string)
    requires g in OTHER_EMOTICONS && g <= s
    ensures EmoticonLen(s) == |g|
  {
    assert s[0] == g[0] && s[1] == g[1];
  }

  /** Where one of the 61 emoticons starts the text, it is counted and skipped whole. */
  lemma EmoticonCountAtGlyph(s: string, g: string)
    requires g in EMOTICONS && g <= s
    ensures EmoticonCount(s) == 1 + EmoticonCount(s[|g|..])
  {
    EmoticonLenUnique(s, g);
  }

  /** Where none of the 61 emoticons starts the text, the scan moves on by one character. */
  lemma EmoticonCountNoGlyph(s: string)
    requires s != [] && forall h :: h in EMOTICONS ==> !(h <= s)
    ensures EmoticonCount(s) == EmoticonCount(s[1..])
  {
    if EmoticonLen(s) > 0 {
      EmoticonMatchIsGlyph(s);
    }
  }

  /* ---------- two-character patterns, counted position by position ---------- */

  /** The number of adjacent pairs `(s[i], s[i+1])` that satisfy `p`. */
  function PairCount(s: string, p: (char, char) -> bool): nat
    decreases |s|
  {
    if |s| < 2 then 0 else (if p(s[0], s[1]) then 1 else 0) + PairCount(s[1..], p)
  }

  /** Pairs whose first character rules them out contribute nothing. */
  lemma {:induction false} PairCountSkip(s: string, p: (char, char) -> bool, k: nat)
    requires k <= |s|
    requires forall j :: 0 <= j < k && j + 1 < |s| ==> !p(s[j], s[j + 1])
    ensures PairCount(s, p) == PairCount(s[k..], p)
    decreases k
  {
    if k > 0 {
      PairCountSkip(s[1..], p, k - 1);
      assert s[1..][k - 1..] == s[k..];
    }
  }

  /* ---------- hashtags ---------- */

  /** A `#` immediately followed by a word character. */
  predicate IsTagStart(a: char, b: char) {
    a == '#' && IsWordChar(b)
  }

  /** `len(re.findall(r'#(\w+)', s))`: each match takes the `#` and the whole run of word characters after it. */
  function HashtagCount(s: string): (r: nat)
    ensures 2 * r <= |s|
    decreases |s|
  {
    if s == [] then 0
    else if |s| >= 2 && IsTagStart(s[0], s[1]) then
      1 + HashtagCount(s[1 + SpanLen(s[1..], IsWordChar)..])
    else HashtagCount(s[1..])
  }

  /** The hashtag count is the number of `#` characters immediately followed by a word character. */
  lemma {:induction false} HashtagCountIsTagStarts(s: string)
    ensures HashtagCount(s) == PairCount(s, IsTagStart)
    decreases |s|
  {
    if s != [] {
      if |s| >= 2 && IsTagStart(s[0], s[1]) {
        var k := SpanLen(s[1..], IsWordChar);
        PairCountSkip(s[1..], IsTagStart, k);
        assert s[1..][k..] == s[1 + k..];
        HashtagCountIsTagStarts(s[1 + k..]);
      } else {
        HashtagCountIsTagStarts(s[1..]);
      }
    }
  }

  /* ---------- exclamation marks ---------- */

  /** A `!` preceded by something else: the start of a run of `!` that is not at position 0. */
  predicate IsBangStart(a: char, b: char) {
    a != '!' && b == '!'
  }

  /** `len(re.findall(r'!+', s))`: each match is a maximal run of `!`. */
  function ExclamationCount(s: string): (r: nat)
    ensures 2 * r <= |s| + (if s != [] && s[0] == '!' then 1 else 0)
    decreases |s|
  {
    if s == [] then 0
    else if s[0] == '!' then 1 + ExclamationCount(s[RunLen(s)..])
    else ExclamationCount(s[1..])
  }

  /** The number of maximal runs of `!`, counted by where they begin. */
  function BangRuns(s: string): nat {
    (if s != [] && s[0] == '!' then 1 else 0) + PairCount(s, IsBangStart)
  }

  /** The exclamation count is the number of maximal runs of `!`. */
  lemma {:induction false} ExclamationCountIsRuns(s: string)
    ensures ExclamationCount(s) == BangRuns(s)
    decreases |s|
  {
    if s != [] {
      if s[0] == '!' {
        var k := RunLen(s);
        PairCountSkip(s, IsBangStart, k);
        ExclamationCountIsRuns(s[k..]);
      } else {
        ExclamationCountIsRuns(s[1..]);
      }
    }
  }

  /* ---------- replies ---------- */

  /** `len(re.findall(r'@username', s))`: non-overlapping leftmost occurrences. */
  function ReplyCount(s: string): (r: nat)
    ensures 9 * r <= |s|
    decreases |s|
  {
    if s == [] then 0
    else if REPLY_LITERAL <= s then 1 + ReplyCount(s[|REPLY_LITERAL|..])
    else ReplyCount(s[1..])
  }

  /** Every position at which `@username` occurs, overlapping or not. */
  function Occurrences(s: string): nat
    decreases |s|
  {
    if s == [] then 0 else (if REPLY_LITERAL <= s then 1 else 0) + Occurrences(s[1..])
  }

  /** Positions that do not hold `@` start no occurrence. */
  lemma {:induction false} OccurrencesSkip(s: string, k: nat)
    requires k <= |s|
    requires forall j :: 0 <= j < k ==> s[j] != '@'
    ensures Occurrences(s) == Occurrences(s[k..])
    decreases k
  {
    if k > 0 {
      assert !(REPLY_LITERAL <= s) by { assert REPLY_LITERAL[0] == '@'; }
      OccurrencesSkip(s[1..], k - 1);
      assert s[1..][k - 1..] == s[k..];
    }
  }

  /** `@username` cannot overlap itself, so the scan finds every occurrence. */
  lemma {:induction false} ReplyCountIsOccurrences(s: string)
    ensures ReplyCount(s) == Occurrences(s)
    decreases |s|
  {
    if s != [] {
      if REPLY_LITERAL <= s {
        var m := |REPLY_LITERAL|;
        assert forall j :: 1 <= j < m ==> s[j] == REPLY_LITERAL[j] && s[j] != '@';
        OccurrencesSkip(s[1..], m - 1);
        assert s[1..][m - 1..] == s[m..];
        ReplyCountIsOccurrences(s[m..]);
      } else {
        ReplyCountIsOccurrences(s[1..]);
      }
    }
  }

  /** The reply count is what step 2 of the normaliser rewrites: each `@username` (9 characters) becomes `REP` (3). */
  lemma {:induction false} ReplaceRepliesLength(s: string)
    ensures |ReplaceReplies(s)| + 6 * ReplyCount(s) == |s|
    decreases |s|
  {
    if s != [] {
      if REPLY_LITERAL <= s {
        ReplaceRepliesLength(s[|REPLY_LITERAL|..]);
      } else {
        ReplaceRepliesLength(s[1..]);
      }
    }
  }

  /** No reply is left to count once step 2 of the normaliser has run. */
  lemma NoReplyAfterRewrite(s: string)
    ensures ReplyCount(ReplaceReplies(s)) == 0
  {
    var r := ReplaceReplies(s);
    ReplaceRepliesLeavesNone(s);
    ReplyCountIsOccurrences(r);
    NoOccurrences(r);
  }

  lemma {:induction false} NoOccurrences(s: string)
    requires forall i :: 0 <= i < |s| ==> !(REPLY_LITERAL <= s[i..])
    ensures Occurrences(s) == 0
    decreases |s|
  {
    if s != [] {
      assert s[0..] == s;
      forall i | 0 <= i < |s[1..]| ensures !(REPLY_LITERAL <= s[1..][i..]) {
        assert s[1..][i..] == s[i + 1..];
      }
      NoOccurrences(s[1..]);
    }
  }

  /* ---------- character repetitions ---------- */

  /** `len(re.findall(r'(\w)\1{3,}', s))`: a match begins at a word character repeated at least four times and takes its whole run. */
  function RepetitionCount(s: string): (r: nat)
    ensures 4 * r <= |s|
    decreases |s|
  {
    if s == [] then 0
    else if IsWordChar(s[0]) && RunLen(s) >= 4 then 1 + RepetitionCount(s[RunLen(s)..])
    else RepetitionCount(s[1..])
  }

  /** The number of maximal runs of four or more copies of one word character, taken run by run. */
  function LongWordRuns(s: string): nat
    decreases |s|
  {
    if s == [] then 0
    else (if IsWordChar(s[0]) && RunLen(s) >= 4 then 1 else 0) + LongWordRuns(s[RunLen(s)..])
  }

  /** Inside a run that does not match, the scan finds nothing before the next run. */
  lemma {:induction false} RepetitionSkipsShortRun(s: string, j: nat)
    requires s != [] && j <= RunLen(s)
    requires !(IsWordChar(s[0]) && RunLen(s) >= 4)
    ensures RepetitionCount(s[j..]) == RepetitionCount(s[RunLen(s)..])
    decreases RunLen(s) - j
  {
    if j < RunLen(s) {
      RunLenSuffix(s, j);
      RepetitionSkipsShortRun(s, j + 1);
      assert s[j..][1..] == s[j + 1..];
    }
  }

  /** The repetition count is the number of maximal runs of four or more identical word characters. */
  lemma {:induction false} RepetitionCountIsLongRuns(s: string)
    ensures RepetitionCount(s) == LongWordRuns(s)
    decreases |s|
  {
    if s != [] {
      var k := RunLen(s);
      if !(IsWordChar(s[0]) && k >= 4) {
        RepetitionSkipsShortRun(s, 1);
      }
      RepetitionCountIsLongRuns(s[k..]);
    }
  }

  /** After step 3 of the normaliser there is no repetition left to count. */
  lemma {:induction false} NoRepetitionAfterTrim(s: string)
    ensures RepetitionCount(TrimRuns(s)) == 0
  {
    TrimRunsBoundsRuns(s);
    NoRepetitionWithoutLongRuns(TrimRuns(s));
  }

  lemma {:induction false} NoRepetitionWithoutLongRuns(t: string)
    requires NoLongRuns(t)
    ensures RepetitionCount(t) == 0
    decreases |t|
  {
    if t != [] {
      if |t| > 3 {
        assert !LongRunAt(t, 0);
      }
      assert !(IsWordChar(t[0]) && RunLen(t) >= 4);
      NoLongRunsSuffix(t, 1);
      NoRepetitionWithoutLongRuns(t[1..]);
    }
  }

  /* ---------- length ---------- */

  /**
   * `len(tweet)`: the number of characters of the raw tweet. Since every match spans at least
   * two characters (an emoticon, a hashtag), four (a repetition) or nine (a reply), and runs of
   * `!` are separated by other characters, the length bounds every other count.
   */
  function TweetLength(s: string): (r: nat)
    ensures 2 * EmoticonCount(s) <= r && 2 * HashtagCount(s) <= r && 2 * ExclamationCount(s) <= r + 1
    ensures 9 * ReplyCount(s) <= r && 4 * RepetitionCount(s) <= r
  {
    |s|
  }
}
