/**
 * The tweet normaliser `Dataset.process_tweet`: a fixed chain of whole-string rewrites
 * (URLs, reply tags, repeated characters, non-letters), then lower-casing, splitting
 * on whitespace, stopword removal and re-joining with single spaces.
 */
module Normalizer {
  import opened Chars

  const URL_TAG: string := "URL"
  const REPLY_TAG: string := "REP"
  const REPLY_LITERAL: string := "@username"

  /* ---------- step 1: `(https?|ftp)://[^\s]*` replaced by `URL` ---------- */

  /** The scheme alternatives of the URL pattern, each with its `://`. */
  predicate StartsUrl(s: string) {
    "http://" <= s || "https://" <= s || "ftp://" <= s
  }

  /** Every scheme begins with `h` or `f`. */
  lemma UrlStartsWithScheme(t: string)
    ensures StartsUrl(t) ==> t != [] && (t[0] == 'h' || t[0] == 'f')
  {
  }

  /** Length of `(https?|ftp)://` at the start of `s` (0 when the pattern cannot start there). */
  function SchemeLen(s: string): (n: nat)
    ensures n > 0 <==> StartsUrl(s)
    ensures n <= |s|
  {
    if "http://" <= s then 7 else if "https://" <= s then 8 else if "ftp://" <= s then 6 else 0
  }

  /** Length of the leftmost URL match at the start of `s`: the scheme and every following non-space. */
  function UrlMatchLen(s: string): (n: nat)
    requires StartsUrl(s)
    ensures 6 <= n <= |s|
    ensures forall j :: 0 <= j < n ==> !IsSpace(s[j])
    ensures n == |s| || IsSpace(s[n])
  {
    var m := SchemeLen(s);
    assert forall j :: 0 <= j < m ==> !IsSpace(s[j]) by {
      SchemeHasNoSpace(s);
    }
    m + SpanLen(s[m..], IsNonSpace)
  }

  /** The scheme and its `://` hold no whitespace. */
  lemma SchemeHasNoSpace(s: string)
    ensures forall j :: 0 <= j < SchemeLen(s) ==> !IsSpace(s[j])
  {
    var m := SchemeLen(s);
    if m > 0 {
      var lit := if m == 7 then "http://" else if m == 8 then "https://" else "ftp://";
      assert s[..m] == lit;
      forall j | 0 <= j < m ensures !IsSpace(s[j]) {
        assert s[j] == lit[j];
      }
    }
  }

  /** `re.sub(r'(https?|ftp)://[^\s]*', 'URL', s)`: non-overlapping leftmost matches. */
  function ReplaceUrls(s: string): (r: string)
    ensures s != [] && !StartsUrl(s) ==> r != [] && r[0] == s[0]
    decreases |s|
  {
    if s == [] then []
    else if StartsUrl(s) then URL_TAG + ReplaceUrls(s[UrlMatchLen(s)..])
    else [s[0]] + ReplaceUrls(s[1..])
  }

  /**
   * The leftmost URL is replaced by `URL`: the text `p` before it is kept, the match (the
   * scheme and every non-space after it) is dropped, and the scan resumes after it.
   */
  lemma ReplaceUrlsFirstMatch(p: string, u: string)
    requires forall j :: 0 <= j < |p| ==> !StartsUrl((p + u)[j..])
    requires StartsUrl(u)
    ensures ReplaceUrls(p + u) == p + URL_TAG + ReplaceUrls(u[UrlMatchLen(u)..])
  {
    ReplaceUrlsKeepsPrefix(p, u);
    ReplaceUrlsAtMatch(u);
    ConcatAssocChars(p, URL_TAG, ReplaceUrls(u[UrlMatchLen(u)..]));
  }

  /** A prefix in which no URL starts is copied, and the scan carries on after it. */
  lemma {:induction false} ReplaceUrlsKeepsPrefix(p: string, u: string)
    requires forall j :: 0 <= j < |p| ==> !StartsUrl((p + u)[j..])
    ensures ReplaceUrls(p + u) == p + ReplaceUrls(u)
    decreases |p|
  {
    if p != [] {
      var q := p[1..];
      forall j | 0 <= j < |q| ensures !StartsUrl((q + u)[j..]) {
        assert (q + u)[j..] == (p + u)[j + 1..];
      }
      calc {
        ReplaceUrls(p + u);
        { ReplaceUrlsAtKept(p + u); assert (p + u)[1..] == q + u; }
        [p[0]] + ReplaceUrls(q + u);
        { ReplaceUrlsKeepsPrefix(q, u); }
        [p[0]] + (q + ReplaceUrls(u));
        { ConsAssoc(p, ReplaceUrls(u)); }
        p + ReplaceUrls(u);
      }
    } else {
      assert p + u == u;
      assert p + ReplaceUrls(u) == ReplaceUrls(u);
    }
  }

  lemma ConsAssoc(p: string, r: string)
    requires p != []
    ensures [p[0]] + (p[1..] + r) == p + r
  {
    assert p == [p[0]] + p[1..];
  }

  /** A URL at the start becomes `URL`, and the scan resumes after the match. */
  lemma ReplaceUrlsAtMatch(s: string)
    requires StartsUrl(s)
    ensures ReplaceUrls(s) == URL_TAG + ReplaceUrls(s[UrlMatchLen(s)..])
  {
  }

  /** Where no URL starts, the first character is kept and the scan moves on by one. */
  lemma ReplaceUrlsAtKept(s: string)
    requires s != [] && !StartsUrl(s[0..])
    ensures ReplaceUrls(s) == [s[0]] + ReplaceUrls(s[1..])
  {
    assert s[0..] == s;
  }

  /** Text without a URL start is left as it is. */
  lemma {:induction false} ReplaceUrlsNoMatch(s: string)
    requires forall i :: 0 <= i < |s| ==> !StartsUrl(s[i..])
    ensures ReplaceUrls(s) == s
    decreases |s|
  {
    if s != [] {
      assert !StartsUrl(s[0..]) by { assert s[0..] == s; }
      forall i | 0 <= i < |s[1..]| ensures !StartsUrl(s[1..][i..]) {
        assert s[1..][i..] == s[i + 1..];
      }
      ReplaceUrlsNoMatch(s[1..]);
    }
  }

  /** A literal without a `U` that starts the rewritten text already started the original. */
  lemma {:induction false} UrlPrefixSurvives(t: string, p: string)
    ensures 'U' !in p && p <= ReplaceUrls(t) ==> p <= t
    decreases |t|, 1
  {
    if p != [] && t != [] {
      if StartsUrl(t) {
        assert ReplaceUrls(t)[0] == 'U';
      } else {
        NotUrlAtHead(t, p);
      }
    }
  }

  /** No URL starts anywhere in `r`. */
  predicate NoUrlIn(r: string) {
    forall i :: 0 <= i < |r| ==> !StartsUrl(r[i..])
  }

  /** After step 1 no URL start is left anywhere: `URL` tags never combine with neighbours into a new one. */
  lemma {:induction false} ReplaceUrlsLeavesNoUrl(s: string)
    ensures NoUrlIn(ReplaceUrls(s))
    decreases |s|
  {
    if s != [] {
      if StartsUrl(s) {
        var rest := s[UrlMatchLen(s)..];
        ReplaceUrlsLeavesNoUrl(rest);
        assert ReplaceUrls(s) == URL_TAG + ReplaceUrls(rest);
        NoUrlAfterTag(ReplaceUrls(rest));
      } else {
        ReplaceUrlsLeavesNoUrl(s[1..]);
        NoUrlAfterKeptChar(s);
      }
    }
  }

  /** A `URL` tag in front of URL-free text starts no URL. */
  lemma NoUrlAfterTag(t: string)
    requires NoUrlIn(t)
    ensures NoUrlIn(URL_TAG + t)
  {
    var r := URL_TAG + t;
    forall i | 0 <= i < |r| ensures !StartsUrl(r[i..]) {
      if i >= 3 {
        assert r[i..] == t[i - 3..];
      } else {
        UrlStartsWithScheme(r[i..]);
        assert r[i..][0] == URL_TAG[i];
      }
    }
  }

  /** Keeping a character where no URL starts in front of URL-free output starts no URL. */
  lemma NoUrlAfterKeptChar(s: string)
    requires s != [] && !StartsUrl(s) && NoUrlIn(ReplaceUrls(s[1..]))
    ensures NoUrlIn(ReplaceUrls(s))
  {
    var t := ReplaceUrls(s[1..]);
    var r := [s[0]] + t;
    assert ReplaceUrls(s) == r;
    forall i | 0 <= i < |r| ensures !StartsUrl(r[i..]) {
      if i >= 1 {
        assert r[i..] == t[i - 1..];
      } else {
        assert r[0..] == r;
        NotUrlAtHead(s, "http://");
        NotUrlAtHead(s, "https://");
        NotUrlAtHead(s, "ftp://");
      }
    }
  }

  /** Where no URL starts, a literal without a `U` that starts the output started the input. */
  lemma {:induction false} NotUrlAtHead(s: string, p: string)
    requires s != [] && !StartsUrl(s) && p != []
    ensures 'U' !in p && p <= ReplaceUrls(s) ==> p <= s
    decreases |s|, 0
  {
    var r := ReplaceUrls(s[1..]);
    var out := [s[0]] + r;
    assert ReplaceUrls(s) == out;
    assert out[0] == s[0] && out[1..] == r;
    PrefixByHead(p, out);
    PrefixByHead(p, s);
    assert 'U' !in p ==> 'U' !in p[1..] by {
      assert forall j :: 0 <= j < |p| - 1 ==> p[1..][j] == p[j + 1];
    }
    UrlPrefixSurvives(s[1..], p[1..]);
  }

  /* ---------- step 2: the literal `@username` replaced by `REP` ---------- */

  /** `re.sub(r'@username', 'REP', s)`: non-overlapping leftmost occurrences. */
  function ReplaceReplies(s: string): (r: string)
    ensures |r| <= |s|
    ensures s != [] && !(REPLY_LITERAL <= s) ==> r != [] && r[0] == s[0]
    decreases |s|
  {
    if s == [] then []
    else if REPLY_LITERAL <= s then REPLY_TAG + ReplaceReplies(s[|REPLY_LITERAL|..])
    else [s[0]] + ReplaceReplies(s[1..])
  }

  /** The leftmost `@username` becomes `REP`: the text `p` before it is kept and the scan resumes after it. */
  lemma ReplaceRepliesFirstMatch(p: string, u: string)
    requires forall j :: 0 <= j < |p| ==> !(REPLY_LITERAL <= (p + u)[j..])
    requires REPLY_LITERAL <= u
    ensures ReplaceReplies(p + u) == p + REPLY_TAG + ReplaceReplies(u[|REPLY_LITERAL|..])
  {
    ReplaceRepliesKeepsPrefix(p, u);
    assert u != [];
    ConcatAssocChars(p, REPLY_TAG, ReplaceReplies(u[|REPLY_LITERAL|..]));
  }

  /** A prefix in which no `@username` starts is copied, and the scan carries on after it. */
  lemma {:induction false} ReplaceRepliesKeepsPrefix(p: string, u: string)
    requires forall j :: 0 <= j < |p| ==> !(REPLY_LITERAL <= (p + u)[j..])
    ensures ReplaceReplies(p + u) == p + ReplaceReplies(u)
    decreases |p|
  {
    if p != [] {
      var q := p[1..];
      forall j | 0 <= j < |q| ensures !(REPLY_LITERAL <= (q + u)[j..]) {
        assert (q + u)[j..] == (p + u)[j + 1..];
      }
      calc {
        ReplaceReplies(p + u);
        { assert (p + u)[0..] == p + u; assert (p + u)[1..] == q + u; }
        [p[0]] + ReplaceReplies(q + u);
        { ReplaceRepliesKeepsPrefix(q, u); }
        [p[0]] + (q + ReplaceReplies(u));
        { ConsAssoc(p, ReplaceReplies(u)); }
        p + ReplaceReplies(u);
      }
    } else {
      assert p + u == u;
      assert p + ReplaceReplies(u) == ReplaceReplies(u);
    }
  }

  /** Text without `@username` is left as it is. */
  lemma {:induction false} ReplaceRepliesNoMatch(s: string)
    requires forall i :: 0 <= i < |s| ==> !(REPLY_LITERAL <= s[i..])
    ensures ReplaceReplies(s) == s
    decreases |s|
  {
    if s != [] {
      assert !(REPLY_LITERAL <= s[0..]) by { assert s[0..] == s; }
      forall i | 0 <= i < |s[1..]| ensures !(REPLY_LITERAL <= s[1..][i..]) {
        assert s[1..][i..] == s[i + 1..];
      }
      ReplaceRepliesNoMatch(s[1..]);
    }
  }

  /** A literal without an `R` that starts the rewritten text already started the original. */
  lemma {:induction false} ReplyPrefixSurvives(t: string, p: string)
    ensures 'R' !in p && p <= ReplaceReplies(t) ==> p <= t
    decreases |t|
  {
    if p != [] && t != [] {
      if REPLY_LITERAL <= t {
        assert ReplaceReplies(t)[0] == 'R';
      } else {
        var r := ReplaceReplies(t[1..]);
        var out := [t[0]] + r;
        assert ReplaceReplies(t) == out;
        assert out[0] == t[0] && out[1..] == r;
        PrefixByHead(p, out);
        PrefixByHead(p, t);
        assert 'R' !in p ==> 'R' !in p[1..] by {
          assert forall j :: 0 <= j < |p| - 1 ==> p[1..][j] == p[j + 1];
        }
        ReplyPrefixSurvives(t[1..], p[1..]);
      }
    }
  }

  /** `@username` occurs nowhere in `r`. */
  predicate NoReplyIn(r: string) {
    forall i :: 0 <= i < |r| ==> !(REPLY_LITERAL <= r[i..])
  }

  /** After step 2 no `@username` is left anywhere. */
  lemma {:induction false} ReplaceRepliesLeavesNone(s: string)
    ensures NoReplyIn(ReplaceReplies(s))
    decreases |s|
  {
    if s != [] {
      if REPLY_LITERAL <= s {
        var rest := s[|REPLY_LITERAL|..];
        ReplaceRepliesLeavesNone(rest);
        assert ReplaceReplies(s) == REPLY_TAG + ReplaceReplies(rest);
        NoReplyAfterTag(ReplaceReplies(rest));
      } else {
        ReplaceRepliesLeavesNone(s[1..]);
        NoReplyAfterKeptChar(s);
      }
    }
  }

  /** A `REP` tag in front of reply-free text contains no `@username`. */
  lemma NoReplyAfterTag(t: string)
    requires NoReplyIn(t)
    ensures NoReplyIn(REPLY_TAG + t)
  {
    var r := REPLY_TAG + t;
    forall i | 0 <= i < |r| ensures !(REPLY_LITERAL <= r[i..]) {
      if i >= 3 {
        assert r[i..] == t[i - 3..];
      } else {
        assert r[i..][0] == REPLY_TAG[i];
      }
    }
  }

  /** Keeping a character where no `@username` starts in front of reply-free output adds none. */
  lemma NoReplyAfterKeptChar(s: string)
    requires s != [] && !(REPLY_LITERAL <= s) && NoReplyIn(ReplaceReplies(s[1..]))
    ensures NoReplyIn(ReplaceReplies(s))
  {
    var t := ReplaceReplies(s[1..]);
    var r := [s[0]] + t;
    assert ReplaceReplies(s) == r;
    forall i | 0 <= i < |r| ensures !(REPLY_LITERAL <= r[i..]) {
      if i >= 1 {
        assert r[i..] == t[i - 1..];
      } else {
        var p := REPLY_LITERAL;
        assert r[0..] == r;
        assert 'R' !in p;
        ReplyPrefixSurvives(s, p);
      }
    }
  }

  /* ---------- step 3: `(.)\1{3,}` replaced by `\1\1\1` ---------- */

  /** Four copies of the non-newline character `t[i]` start at index `i`. */
  predicate LongRunAt(t: string, i: int)
    requires 0 <= i && i + 3 < |t|
  {
    t[i] != '\n' && t[i + 1] == t[i] && t[i + 2] == t[i] && t[i + 3] == t[i]
  }

  /** No character other than a newline occurs four or more times in a row. */
  predicate NoLongRuns(t: string) {
    forall i :: 0 <= i && i + 3 < |t| ==> !LongRunAt(t, i)
  }

  /**
   * `re.sub(r'(.)\1{3,}', r'\1\1\1', s)`: every maximal run of four or more copies of a
   * non-newline character becomes exactly three copies; every other run is kept.
   * (A match can only begin at the start of a maximal run of length four or more, and it
   * consumes the whole run, so scanning run by run is the regex's leftmost scan.)
   */
  function TrimRuns(s: string): (r: string)
    ensures |r| <= |s|
    ensures s != [] ==> r != [] && r[0] == s[0]
    decreases |s|
  {
    if s == [] then []
    else
      var k := RunLen(s);
      (if s[0] != '\n' && k >= 4 then Repeat(s[0], 3) else s[..k]) + TrimRuns(s[k..])
  }

  /** After step 3 no non-newline character is repeated four or more times in a row. */
  lemma {:induction false} TrimRunsBoundsRuns(s: string)
    ensures NoLongRuns(TrimRuns(s))
    decreases |s|
  {
    if s != [] {
      var k := RunLen(s);
      var b := if s[0] != '\n' && k >= 4 then Repeat(s[0], 3) else s[..k];
      TrimRunsBoundsRuns(s[k..]);
      assert forall j :: 0 <= j < |b| ==> b[j] == s[0];
      NoLongRunsSplice(s[0], b, TrimRuns(s[k..]));
    }
  }

  /** A short run of `c` followed by a run-bounded text that does not start with `c`. */
  lemma NoLongRunsSplice(c: char, b: string, t: string)
    requires forall j :: 0 <= j < |b| ==> b[j] == c
    requires c != '\n' ==> |b| <= 3
    requires t != [] ==> t[0] != c
    requires NoLongRuns(t)
    ensures NoLongRuns(b + t)
  {
    var r := b + t;
    forall i | 0 <= i && i + 3 < |r| ensures !LongRunAt(r, i) {
      if i >= |b| {
        var m := i - |b|;
        assert r[i] == t[m] && r[i + 1] == t[m + 1];
        assert r[i + 2] == t[m + 2] && r[i + 3] == t[m + 3];
        assert !LongRunAt(t, m);
      } else if c != '\n' {
        var j := |b|;
        assert i < j <= i + 3;
        assert r[i] == c && r[j] == t[0];
      } else {
        assert r[i] == '\n';
      }
    }
  }

  /** Runs of length three or less (and newline runs) pass through step 3 unchanged. */
  lemma {:induction false} TrimRunsKeepsShortRuns(s: string)
    requires NoLongRuns(s)
    ensures TrimRuns(s) == s
    decreases |s|
  {
    if s != [] {
      var k := RunLen(s);
      var tail := s[k..];
      NoLongRunsHead(s);
      TrimRunsShortHead(s);
      NoLongRunsSuffix(s, k);
      TrimRunsKeepsShortRuns(tail);
      SplitAt(s, k);
    }
  }

  lemma SplitAt(s: string, k: nat)
    requires k <= |s|
    ensures s[..k] + s[k..] == s
  {
  }

  /** In a run-bounded text the leading run is a newline run or at most three long. */
  lemma NoLongRunsHead(s: string)
    requires s != [] && NoLongRuns(s)
    ensures s[0] == '\n' || RunLen(s) < 4
  {
    if |s| > 3 && s[0] != '\n' {
      assert !LongRunAt(s, 0);
    }
  }

  /** A leading run that step 3 does not shorten is copied as it is. */
  lemma TrimRunsShortHead(s: string)
    requires s != [] && (s[0] == '\n' || RunLen(s) < 4)
    ensures TrimRuns(s) == s[..RunLen(s)] + TrimRuns(s[RunLen(s)..])
  {
  }

  lemma NoLongRunsSuffix(s: string, k: nat)
    requires NoLongRuns(s) && k <= |s|
    ensures NoLongRuns(s[k..])
  {
    var rest := s[k..];
    forall i | 0 <= i && i + 3 < |rest| ensures !LongRunAt(rest, i) {
      assert rest[i] == s[k + i] && rest[i + 1] == s[k + i + 1];
      assert rest[i + 2] == s[k + i + 2] && rest[i + 3] == s[k + i + 3];
      assert !LongRunAt(s, k + i);
    }
  }

  /** Step 3 alone is idempotent (the whole normaliser is not: see NormaliserNotIdempotent). */
  lemma TrimRunsIdempotent(s: string)
    ensures TrimRuns(TrimRuns(s)) == TrimRuns(s)
  {
    TrimRunsBoundsRuns(s);
    TrimRunsKeepsShortRuns(TrimRuns(s));
  }

  /** A single run of `n` copies of `c`: trimmed to three when it is a long non-newline run, kept otherwise. */
  lemma TrimRunsOfRun(c: char, n: nat)
    requires n >= 1
    ensures TrimRuns(Repeat(c, n)) == Repeat(c, if c != '\n' && n >= 4 then 3 else n)
  {
    var s := Repeat(c, n);
    RunLenRepeat(c, n);
    assert s[0] == c;
    assert s[n..] == [];
    assert s[..n] == s;
  }

  /** Text cut between two different characters is trimmed piece by piece. */
  lemma {:induction false} TrimRunsSplit(a: string, b: string)
    requires a != [] && b != [] && a[|a| - 1] != b[0]
    ensures TrimRuns(a + b) == TrimRuns(a) + TrimRuns(b)
    decreases |a|
  {
    var k := RunLen(a);
    var rest := a[k..];
    var head := TrimRunsLeadingRun(a, b);
    if rest == [] {
      assert rest + b == b;
      assert TrimRuns(rest) == [];
      assert TrimRuns(a) == head by {
        assert head + [] == head;
      }
    } else {
      assert rest[|rest| - 1] == a[|a| - 1];
      TrimRunsSplit(rest, b);
      calc {
        TrimRuns(a + b);
        head + TrimRuns(rest + b);
        head + (TrimRuns(rest) + TrimRuns(b));
        { ConcatAssocChars(head, TrimRuns(rest), TrimRuns(b)); }
        (head + TrimRuns(rest)) + TrimRuns(b);
        TrimRuns(a) + TrimRuns(b);
      }
    }
  }

  /** The leading run of `a` is the leading run of `a + b`, and step 3 treats it alike in both. */
  lemma TrimRunsLeadingRun(a: string, b: string) returns (head: string)
    requires a != [] && b != [] && a[|a| - 1] != b[0]
    ensures TrimRuns(a + b) == head + TrimRuns(a[RunLen(a)..] + b)
    ensures TrimRuns(a) == head + TrimRuns(a[RunLen(a)..])
  {
    var s := a + b;
    var k := RunLen(a);
    RunLenConcat(a, b);
    assert s[0] == a[0];
    head := if a[0] != '\n' && k >= 4 then Repeat(a[0], 3) else a[..k];
    assert s[..k] == a[..k];
    assert s[k..] == a[k..] + b;
  }

  lemma ConcatAssocChars(x: string, y: string, z: string)
    ensures x + (y + z) == (x + y) + z
  {
  }

  /* ---------- step 4: `re.sub("[^a-zA-Z]", " ", s)` ---------- */

  /** Every character outside `[a-zA-Z]` becomes a space; letters stay where they are. */
  function LettersOnly(s: string): (r: string)
    ensures |r| == |s|
    ensures forall i :: 0 <= i < |s| ==> (IsAsciiLetter(s[i]) ==> r[i] == s[i])
    ensures forall i :: 0 <= i < |s| ==> (!IsAsciiLetter(s[i]) ==> r[i] == ' ')
  {
    seq(|s|, i requires 0 <= i < |s| => if IsAsciiLetter(s[i]) then s[i] else ' ')
  }

  /** `str.lower()` on text that is already restricted to ASCII. */
  function Lower(s: string): (r: string)
    ensures |r| == |s|
    ensures forall i :: 0 <= i < |s| ==> r[i] == ToLower(s[i])
    ensures forall i :: 0 <= i < |s| ==> !IsAsciiUpper(r[i])
    ensures forall i :: 0 <= i < |s| ==> (IsAsciiUpper(s[i]) ==> IsAsciiLower(r[i]))
    ensures forall i :: 0 <= i < |s| ==> (!IsAsciiUpper(s[i]) ==> r[i] == s[i])
  {
    seq(|s|, i requires 0 <= i < |s| => ToLower(s[i]))
  }

  /* ---------- step 5: `str.split()`, the stopword filter and `" ".join` ---------- */

  /** A token of `str.split()`: non-empty and free of whitespace. */
  predicate IsToken(w: string) {
    w != [] && forall j :: 0 <= j < |w| ==> !IsSpace(w[j])
  }

  /** `s.split()`: the maximal runs of non-whitespace characters, in order; every word is non-empty and free of whitespace. */
  function Words(s: string): (ws: seq<string>)
    ensures forall i :: 0 <= i < |ws| ==> IsToken(ws[i])
    decreases |s|
  {
    if s == [] then []
    else if IsSpace(s[0]) then Words(s[1..])
    else
      var k := SpanLen(s, IsNonSpace);
      assert IsToken(s[..k]) by {
        assert forall j :: 0 <= j < k ==> s[..k][j] == s[j];
      }
      [s[..k]] + Words(s[k..])
  }

  /** The number of characters in all of `ws` together. */
  function TotalLen(ws: seq<string>): nat
    decreases |ws|
  {
    if ws == [] then 0 else |ws[0]| + TotalLen(ws[1..])
  }

  /** `" ".join(ws)`: the words in order, starting with the first, with one separator between neighbours. */
  function Join(ws: seq<string>): (r: string)
    ensures ws == [] ==> r == []
    ensures ws != [] ==> |r| == TotalLen(ws) + |ws| - 1 && ws[0] <= r
    decreases |ws|
  {
    if ws == [] then [] else if |ws| == 1 then ws[0] else ws[0] + " " + Join(ws[1..])
  }

  /** A single token splits into itself. */
  lemma WordsOfToken(w: string)
    requires IsToken(w)
    ensures Words(w) == [w]
  {
    assert SpanLen(w, IsNonSpace) == |w|;
    assert w[..|w|] == w;
    assert w[|w|..] == [];
  }

  /** Splitting distributes over a join at a space. */
  lemma {:induction false} WordsAcrossSpace(a: string, b: string)
    ensures Words(a + " " + b) == Words(a) + Words(b)
    decreases |a|
  {
    var s := a + " " + b;
    if a == [] {
      assert s[1..] == b;
    } else if IsSpace(a[0]) {
      assert s[0] == a[0] && s[1..] == a[1..] + " " + b;
      WordsAcrossSpace(a[1..], b);
    } else {
      var k := SpanLen(a, IsNonSpace);
      WordsAcrossSpace(a[k..], b);
      WordsAcrossSpaceStep(a, b, k);
    }
  }

  /** The step of WordsAcrossSpace for a text that starts with a word. */
  lemma WordsAcrossSpaceStep(a: string, b: string, k: nat)
    requires a != [] && !IsSpace(a[0]) && k == SpanLen(a, IsNonSpace)
    requires Words(a[k..] + " " + b) == Words(a[k..]) + Words(b)
    ensures Words(a + " " + b) == Words(a) + Words(b)
  {
    var s := a + " " + b;
    SpanStopsAtSpace(a, b);
    SlicesOfJoin(a, b, k);
    WordsOfWordStart(s, k);
    WordsOfWordStart(a, k);
    ConcatAssoc([a[..k]], Words(a[k..]), Words(b));
  }

  /** A text that starts with a non-space splits into its first word and the words after it. */
  lemma WordsOfWordStart(s: string, k: nat)
    requires s != [] && !IsSpace(s[0]) && k == SpanLen(s, IsNonSpace)
    ensures Words(s) == [s[..k]] + Words(s[k..])
  {
  }

  lemma ConcatAssoc(x: seq<string>, y: seq<string>, z: seq<string>)
    ensures x + (y + z) == (x + y) + z
  {
  }

  /** Cutting `a + " " + b` inside `a`. */
  lemma SlicesOfJoin(a: string, b: string, k: nat)
    requires k <= |a|
    ensures (a + " " + b)[..k] == a[..k]
    ensures (a + " " + b)[k..] == a[k..] + " " + b
    ensures a != [] ==> (a + " " + b)[0] == a[0]
  {
  }

  /** A span of non-spaces never crosses the joining space. */
  lemma {:induction false} SpanStopsAtSpace(a: string, b: string)
    ensures SpanLen(a + " " + b, IsNonSpace) == SpanLen(a, IsNonSpace)
    decreases |a|
  {
    if a != [] && IsNonSpace(a[0]) {
      assert (a + " " + b)[1..] == a[1..] + " " + b;
      SpanStopsAtSpace(a[1..], b);
    }
  }

  /** A non-empty word of lower-case ASCII letters. */
  predicate IsLowerWord(w: string) {
    w != [] && forall j :: 0 <= j < |w| ==> IsAsciiLower(w[j])
  }

  /** Text of lower-case letters and spaces splits into lower-case words. */
  lemma {:induction false} WordsOfLowerText(s: string)
    requires LowerAndSpaces(s)
    ensures forall i :: 0 <= i < |Words(s)| ==> IsLowerWord(Words(s)[i])
    decreases |s|
  {
    if s != [] {
      var n := if IsSpace(s[0]) then 1 else SpanLen(s, IsNonSpace);
      var rest := s[n..];
      assert LowerAndSpaces(rest) by {
        assert forall i :: 0 <= i < |rest| ==> rest[i] == s[n + i];
      }
      WordsOfLowerText(rest);
      if !IsSpace(s[0]) {
        var w := s[..n];
        assert IsLowerWord(w) by {
          assert forall j :: 0 <= j < |w| ==> w[j] == s[j] && !IsSpace(s[j]);
        }
        assert Words(s) == [w] + Words(rest);
      }
    }
  }

  /** Joining tokens with single spaces and splitting again gives the tokens back. */
  lemma {:induction false} WordsOfJoin(ws: seq<string>)
    requires forall i :: 0 <= i < |ws| ==> IsToken(ws[i])
    ensures Words(Join(ws)) == ws
    decreases |ws|
  {
    if |ws| == 1 {
      WordsOfToken(ws[0]);
    } else if |ws| > 1 {
      WordsOfToken(ws[0]);
      WordsOfJoin(ws[1..]);
      WordsAcrossSpace(ws[0], Join(ws[1..]));
    }
  }

  /** Only lower-case ASCII letters and spaces. */
  predicate LowerAndSpaces(r: string) {
    forall i :: 0 <= i < |r| ==> IsAsciiLower(r[i]) || r[i] == ' '
  }

  /** Two such texts joined by a space are again such a text. */
  lemma LowerAndSpacesJoin(a: string, b: string)
    requires LowerAndSpaces(a) && LowerAndSpaces(b)
    ensures LowerAndSpaces(a + " " + b)
  {
    var d := a + " " + b;
    forall i | 0 <= i < |d| ensures IsAsciiLower(d[i]) || d[i] == ' ' {
      if i < |a| {
        assert d[i] == a[i];
      } else if i > |a| {
        assert d[i] == b[i - |a| - 1];
      }
    }
  }

  /** Lower-case ASCII letters and spaces only; no leading, trailing or doubled space. */
  predicate Tidy(r: string) {
    && LowerAndSpaces(r)
    && (r != [] ==> r[0] != ' ' && r[|r| - 1] != ' ')
    && (forall i :: 0 <= i < |r| - 1 && r[i] == ' ' ==> r[i + 1] != ' ')
  }

  /** Joining non-empty lower-case words gives tidy text. */
  lemma {:induction false} JoinTidy(ws: seq<string>)
    requires forall i :: 0 <= i < |ws| ==> IsLowerWord(ws[i])
    ensures Tidy(Join(ws))
    ensures ws != [] ==> Join(ws) != []
    decreases |ws|
  {
    if |ws| == 1 {
      assert IsLowerWord(ws[0]);
    } else if |ws| > 1 {
      var w := ws[0];
      var rest := Join(ws[1..]);
      assert IsLowerWord(w);
      JoinTidy(ws[1..]);
      var r := w + " " + rest;
      assert r == Join(ws);
      assert forall j :: 0 <= j < |w| ==> IsAsciiLower(w[j]);
      forall i | 0 <= i < |r| ensures IsAsciiLower(r[i]) || r[i] == ' ' {
        if i > |w| { assert r[i] == rest[i - |w| - 1]; }
      }
      forall i | 0 <= i < |r| - 1 && r[i] == ' ' ensures r[i + 1] != ' ' {
        if i > |w| {
          assert r[i] == rest[i - |w| - 1] && r[i + 1] == rest[i - |w|];
        } else if i == |w| {
          assert r[i + 1] == rest[0];
        }
      }
      assert r[|r| - 1] == rest[|rest| - 1];
    }
  }

  /** `[w for w in ws if not w in stops]`. */
  function RemoveStopwords(ws: seq<string>, stops: set<string>): (r: seq<string>)
    ensures forall i :: 0 <= i < |r| ==> r[i] !in stops
    ensures forall w :: w in r <==> w in ws && w !in stops
    ensures IsSubsequence(r, ws)
    decreases |ws|
  {
    if ws == [] then []
    else if ws[0] in stops then RemoveStopwords(ws[1..], stops)
    else [ws[0]] + RemoveStopwords(ws[1..], stops)
  }

  /** Every word keeps all its occurrences unless it is a stopword, in which case none is left. */
  lemma {:induction false} RemoveStopwordsCounts(ws: seq<string>, stops: set<string>)
    ensures forall w :: multiset(RemoveStopwords(ws, stops))[w] == if w in stops then 0 else multiset(ws)[w]
    decreases |ws|
  {
    if ws != [] {
      var rest := RemoveStopwords(ws[1..], stops);
      RemoveStopwordsCounts(ws[1..], stops);
      assert ws == [ws[0]] + ws[1..];
      assert multiset(ws) == multiset{ws[0]} + multiset(ws[1..]);
      if ws[0] !in stops {
        assert multiset([ws[0]] + rest) == multiset{ws[0]} + multiset(rest);
      }
    }
  }

  /** `a` is `b` with some elements deleted and the rest in their original order. */
  predicate IsSubsequence(a: seq<string>, b: seq<string>)
    decreases |b|
  {
    if a == [] then true
    else if b == [] then false
    else if a[0] == b[0] then IsSubsequence(a[1..], b[1..])
    else IsSubsequence(a, b[1..])
  }

  /* ---------- the whole of `process_tweet` ---------- */

  /** Steps 1 to 4 and the lower-casing: the text that is then split into words. */
  function Cleaned(text: string): (r: string)
    ensures LowerAndSpaces(r)
  {
    Lower(LettersOnly(TrimRuns(ReplaceReplies(ReplaceUrls(text)))))
  }

  /**
   * `Dataset.process_tweet(text)`, with the stopword list of the chosen language passed in as `stops`.
   * The result is lower-case letters separated by single spaces, with no space at either end, and
   * its words are exactly the words of the cleaned text that are not stopwords, in their original order.
   */
  function ProcessTweet(text: string, stops: set<string>): (r: string)
    ensures Tidy(r)
    ensures Words(r) == RemoveStopwords(Words(Cleaned(text)), stops)
    ensures forall w :: w in Words(r) ==> w !in stops
    ensures IsSubsequence(Words(r), Words(Cleaned(text)))
  {
    KeptWordsTidy(Cleaned(text), stops);
    KeptWordsTokens(Cleaned(text), stops);
    Join(RemoveStopwords(Words(Cleaned(text)), stops))
  }

  /** Joining the non-stopword words of lower-case text gives tidy text. */
  lemma KeptWordsTidy(c: string, stops: set<string>)
    requires LowerAndSpaces(c)
    ensures Tidy(Join(RemoveStopwords(Words(c), stops)))
  {
    var ws := RemoveStopwords(Words(c), stops);
    WordsOfLowerText(c);
    forall i | 0 <= i < |ws| ensures IsLowerWord(ws[i]) {
      assert ws[i] in Words(c);
    }
    JoinTidy(ws);
  }

  /** Joining the non-stopword words and splitting again gives back those words. */
  lemma KeptWordsTokens(c: string, stops: set<string>)
    ensures Words(Join(RemoveStopwords(Words(c), stops))) == RemoveStopwords(Words(c), stops)
  {
    var ws := RemoveStopwords(Words(c), stops);
    forall i | 0 <= i < |ws| ensures IsToken(ws[i]) {
      assert ws[i] in Words(c);
    }
    WordsOfJoin(ws);
  }

  /** A tweet that cleans to one non-stopword normalises to that word. */
  lemma ProcessSingleWord(text: string, w: string, stops: set<string>)
    requires Cleaned(text) == w && IsToken(w) && w !in stops
    ensures ProcessTweet(text, stops) == w
  {
    WordsOfToken(w);
    assert RemoveStopwords([w], stops) == [w];
  }

  /** A URL start has the `:` of its `://` at index 3, 4 or 5. */
  lemma UrlStartHasColon(t: string)
    requires StartsUrl(t)
    ensures (|t| > 3 && t[3] == ':') || (|t| > 4 && t[4] == ':') || (|t| > 5 && t[5] == ':')
  {
    if "http://" <= t {
      assert t[4] == "http://"[4];
    } else if "https://" <= t {
      assert t[5] == "https://"[5];
    } else {
      assert t[3] == "ftp://"[3];
    }
  }

  /** Text made of ASCII letters holds neither a URL nor `@username`, so steps 1 and 2 keep it. */
  lemma LettersUntagged(s: string)
    requires forall i :: 0 <= i < |s| ==> IsAsciiLetter(s[i])
    ensures ReplaceReplies(ReplaceUrls(s)) == s
  {
    assert ReplaceUrls(s) == s by {
      LettersNoTag(s);
      ReplaceUrlsNoMatch(s);
    }
    assert ReplaceReplies(s) == s by {
      LettersNoTag(s);
      ReplaceRepliesNoMatch(s);
    }
  }

  /** No URL and no `@username` starts anywhere in text made of ASCII letters. */
  lemma LettersNoTag(s: string)
    requires forall i :: 0 <= i < |s| ==> IsAsciiLetter(s[i])
    ensures forall i :: 0 <= i < |s| ==> !StartsUrl(s[i..]) && !(REPLY_LITERAL <= s[i..])
  {
    forall i | 0 <= i < |s| ensures !StartsUrl(s[i..]) && !(REPLY_LITERAL <= s[i..]) {
      LetterStartsNoTag(s[i..]);
    }
  }

  /** Neither a URL nor `@username` starts text made of ASCII letters. */
  lemma LetterStartsNoTag(t: string)
    requires forall k :: 0 <= k < |t| ==> IsAsciiLetter(t[k])
    ensures !StartsUrl(t) && !(REPLY_LITERAL <= t)
  {
    assert REPLY_LITERAL[0] == '@';
    assert t != [] ==> IsAsciiLetter(t[0]);
    if StartsUrl(t) {
      UrlStartHasColon(t);
    }
  }

  /** A letters-only word without long runs is only lower-cased by steps 1 to 4. */
  lemma CleanedLettersWord(s: string)
    requires NoLongRuns(s)
    requires forall i :: 0 <= i < |s| ==> IsAsciiLetter(s[i])
    ensures Cleaned(s) == Lower(s)
  {
    LettersUntagged(s);
    TrimRunsKeepsShortRuns(s);
    var l := LettersOnly(s);
    assert l == s by {
      assert forall i :: 0 <= i < |s| ==> l[i] == s[i];
    }
  }

  /** A lower-case word without long runs comes through steps 1 to 4 unchanged. */
  lemma CleanedLowerWord(s: string)
    requires NoLongRuns(s)
    requires forall i :: 0 <= i < |s| ==> IsAsciiLower(s[i])
    ensures Cleaned(s) == s
  {
    CleanedLettersWord(s);
    var r := Lower(s);
    assert r == s by {
      assert forall i :: 0 <= i < |s| ==> r[i] == s[i];
    }
  }

  /** A lower-case word without long runs that is not a stopword normalises to itself. */
  lemma LowerWordKept(w: string, stops: set<string>)
    requires w != [] && NoLongRuns(w) && w !in stops
    requires forall i :: 0 <= i < |w| ==> IsAsciiLower(w[i])
    ensures ProcessTweet(w, stops) == w
  {
    CleanedLowerWord(w);
    assert IsToken(w);
    ProcessSingleWord(w, w, stops);
  }

  /** Three copies of a lower-case letter followed by its capital: step 3 sees no run, so only lower-casing applies. */
  lemma CleanedMixedCaseRun(s: string)
    requires |s| == 4 && IsAsciiUpper(s[3])
    requires s[0] == ToLower(s[3]) && s[1] == s[0] && s[2] == s[0]
    ensures Cleaned(s) == Repeat(s[0], 4)
  {
    assert NoLongRuns(s) by {
      assert !LongRunAt(s, 0) by { assert s[3] != s[0]; }
    }
    assert forall i :: 0 <= i < |s| ==> IsAsciiLetter(s[i]);
    CleanedLettersWord(s);
    var r := Lower(s);
    assert r == Repeat(s[0], 4) by {
      assert forall i :: 0 <= i < 4 ==> r[i] == s[0];
    }
  }

  /** Four copies of a lower-case letter are trimmed to three. */
  lemma CleanedUniformRun(t: string)
    requires |t| == 4 && IsAsciiLower(t[0]) && t[1] == t[0] && t[2] == t[0] && t[3] == t[0]
    ensures Cleaned(t) == Repeat(t[0], 3)
  {
    LettersUntagged(t);
    assert RunLen(t) == 4;
    assert t[4..] == [];
    var c := Repeat(t[0], 3);
    assert TrimRuns(t) == c + TrimRuns([]);
    var l := LettersOnly(c);
    assert l == c by {
      assert forall i :: 0 <= i < 3 ==> l[i] == c[i];
    }
    var r := Lower(c);
    assert r == c by {
      assert forall i :: 0 <= i < 3 ==> r[i] == c[i];
    }
  }

  /**
   * Normalising is not idempotent: step 3 trims runs before lower-casing, so a run that only
   * becomes uniform after lower-casing survives the first pass and is trimmed on the second.
   */
  lemma NormaliserNotIdempotent(s: string, stops: set<string>)
    requires |s| == 4 && IsAsciiUpper(s[3])
    requires s[0] == ToLower(s[3]) && s[1] == s[0] && s[2] == s[0]
    requires Repeat(s[0], 4) !in stops && Repeat(s[0], 3) !in stops
    ensures ProcessTweet(s, stops) == Repeat(s[0], 4)
    ensures ProcessTweet(ProcessTweet(s, stops), stops) == Repeat(s[0], 3)
    ensures ProcessTweet(ProcessTweet(s, stops), stops) != ProcessTweet(s, stops)
  {
    var once, twice := Repeat(s[0], 4), Repeat(s[0], 3);
    assert !IsSpace(s[0]);
    CleanedMixedCaseRun(s);
    assert IsToken(once);
    ProcessSingleWord(s, once, stops);
    CleanedUniformRun(once);
    assert IsToken(twice);
    ProcessSingleWord(once, twice, stops);
  }

  /** The smallest instance: `"aaaA"` normalises to `"aaaa"`, which normalises to `"aaa"`. */
  lemma NormaliserNotIdempotentExample()
    ensures ProcessTweet(ProcessTweet("aaaA", {}), {}) != ProcessTweet("aaaA", {})
  {
    NormaliserNotIdempotent("aaaA", {});
  }
}
