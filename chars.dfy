/** Character classes used by the tweet pipeline's regular expressions and string methods. */
module Chars {

  /** Python's `str.isspace()`: the characters `str.split()` splits on and `\s` matches. */
  predicate IsSpace(c: char) {
    var n := c as int;
    (9 <= n <= 13) || (28 <= n <= 32) || n == 0x85 || n == 0xA0 || n == 0x1680
    || (0x2000 <= n <= 0x200A) || n == 0x2028 || n == 0x2029 || n == 0x202F
    || n == 0x205F || n == 0x3000
  }

  predicate IsNonSpace(c: char) {
    !IsSpace(c)
  }

  predicate IsAsciiUpper(c: char) {
    'A' <= c <= 'Z'
  }

  predicate IsAsciiLower(c: char) {
    'a' <= c <= 'z'
  }

  /** The class `[a-zA-Z]`. */
  predicate IsAsciiLetter(c: char) {
    IsAsciiUpper(c) || IsAsciiLower(c)
  }

  /** The class `\w`, restricted to ASCII: letters, digits and underscore. */
  predicate IsWordChar(c: char) {
    IsAsciiLetter(c) || ('0' <= c <= '9') || c == '_'
  }

  /** ASCII case folding, as `str.lower()` does on ASCII letters. */
  function ToLower(c: char): (d: char)
    ensures !IsAsciiUpper(d)
    ensures IsAsciiUpper(c) ==> IsAsciiLower(d) && d as int - 'a' as int == c as int - 'A' as int
    ensures !IsAsciiUpper(c) ==> d == c
  {
    if IsAsciiUpper(c) then (c as int + 32) as char else c
  }

  /** Length of the longest prefix of `s` whose characters all satisfy `p` (a greedy `[p]*`). */
  function SpanLen(s: string, p: char -> bool): (k: nat)
    ensures k <= |s|
    ensures forall j :: 0 <= j < k ==> p(s[j])
    ensures k < |s| ==> !p(s[k])
    decreases |s|
  {
    if s == [] || !p(s[0]) then 0 else 1 + SpanLen(s[1..], p)
  }

  /** Length of the maximal run of copies of `s[0]` that starts `s`. */
  function RunLen(s: string): (k: nat)
    requires s != []
    ensures 1 <= k <= |s|
    ensures forall j :: 0 <= j < k ==> s[j] == s[0]
    ensures k < |s| ==> s[k] != s[0]
    decreases |s|
  {
    if |s| == 1 || s[1] != s[0] then 1 else 1 + RunLen(s[1..])
  }

  /** Inside a run, the rest of the run is the maximal run of the suffix. */
  lemma {:induction false} RunLenSuffix(s: string, j: nat)
    requires s != [] && j < RunLen(s)
    ensures s[j..] != [] && s[j] == s[0] && RunLen(s[j..]) == RunLen(s) - j
    decreases j
  {
    if j > 0 {
      RunLenSuffix(s[1..], j - 1);
      assert s[1..][j - 1..] == s[j..];
    }
  }

  /** A run that ends where `a` does, before a different character, is the same run in `a + b`. */
  lemma RunLenConcat(a: string, b: string)
    requires a != [] && b != [] && a[|a| - 1] != b[0]
    ensures RunLen(a + b) == RunLen(a)
  {
    var s := a + b;
    var k, m := RunLen(a), RunLen(s);
    assert forall j :: 0 <= j < |a| ==> s[j] == a[j];
    assert k < |s| && s[k] != s[0] by {
      if k < |a| {
        assert s[k] == a[k];
      } else {
        assert a[|a| - 1] == a[0];
        assert s[k] == b[0];
      }
    }
  }

  /** A run of `n` copies of `c` is one maximal run. */
  lemma RunLenRepeat(c: char, n: nat)
    requires n > 0
    ensures RunLen(Repeat(c, n)) == n
  {
    var r := Repeat(c, n);
    assert r[0] == c;
  }

  /** `n` copies of `c`. */
  function Repeat(c: char, n: nat): (r: string)
    ensures |r| == n && forall j :: 0 <= j < n ==> r[j] == c
  {
    if n == 0 then [] else [c] + Repeat(c, n - 1)
  }

  /** A non-empty prefix is its first character followed by a prefix of the rest. */
  lemma PrefixByHead(p: string, s: string)
    requires p != [] && s != []
    ensures p <= s <==> p[0] == s[0] && p[1..] <= s[1..]
  {
    if p <= s {
      assert p[1..] == s[1..][..|p| - 1];
    }
    if p[0] == s[0] && p[1..] <= s[1..] {
      assert p == [s[0]] + p[1..];
      assert s[..|p|] == [s[0]] + s[1..][..|p| - 1];
    }
  }
}
