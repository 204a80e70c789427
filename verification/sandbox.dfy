/** The reply built from a finished code sandbox run (`format_output` in
    src/models/sandboxes/mod.rs): standard output with trailing whitespace
    removed, or standard error when that leaves nothing. */
module Sandbox {

  /** Rust's `char::is_whitespace`: the Unicode White_Space property. */
  predicate IsWhitespace(c: char) {
    || ('\U{0009}' <= c <= '\U{000D}')
    || c == '\U{0020}'
    || c == '\U{0085}'
    || c == '\U{00A0}'
    || c == '\U{1680}'
    || ('\U{2000}' <= c <= '\U{200A}')
    || c == '\U{2028}'
    || c == '\U{2029}'
    || c == '\U{202F}'
    || c == '\U{205F}'
    || c == '\U{3000}'
  }

  /** Every character of `s` from index `from` on is whitespace. */
  predicate WhitespaceFrom(s: string, from: nat) {
    forall i :: from <= i < |s| ==> IsWhitespace(s[i])
  }

  /** `str::trim_end`: `s` without its trailing whitespace, as the prefix
      that ends in a non-whitespace character (or is empty) and leaves only
      whitespace behind. */
  function TrimEnd(s: string): (r: string)
    ensures r <= s
    ensures |r| == 0 || !IsWhitespace(r[|r| - 1])
    ensures WhitespaceFrom(s, |r|)
    decreases |s|
  {
    if |s| == 0 || !IsWhitespace(s[|s| - 1]) then s
    else
      var r := TrimEnd(s[..|s| - 1]);
      assert s[..|s| - 1][..|r|] == s[..|r|];
      r
  }

  /** The two properties pin the trimmed text down: any prefix that has
      them is `TrimEnd(s)`. */
  lemma TrimEndUnique(s: string, p: string)
    requires p <= s
    requires |p| == 0 || !IsWhitespace(p[|p| - 1])
    requires WhitespaceFrom(s, |p|)
    ensures p == TrimEnd(s)
  {
    var r := TrimEnd(s);
    assert forall k :: 0 <= k < |r| ==> r[k] == s[k];
    assert forall k :: 0 <= k < |p| ==> p[k] == s[k];
    assert |p| == |r|;
  }

  /** Trimming twice trims nothing more. */
  lemma TrimEndIdempotent(s: string)
    ensures TrimEnd(TrimEnd(s)) == TrimEnd(s)
  {
    var r := TrimEnd(s);
    TrimEndUnique(r, r);
  }

  /** Trimming leaves nothing exactly when the text is all whitespace. */
  lemma TrimEndEmpty(s: string)
    ensures TrimEnd(s) == [] <==> WhitespaceFrom(s, 0)
  {
    if WhitespaceFrom(s, 0) {
      TrimEndUnique(s, []);
    }
  }

  /** `format_output`: trimmed standard output, or trimmed standard error
      when the former is empty. */
  function FormatOutput(stdout: string, stderr: string): (r: string)
    ensures TrimEnd(stdout) != [] ==> r == TrimEnd(stdout)
    ensures TrimEnd(stdout) == [] ==> r == TrimEnd(stderr)
    ensures |r| == 0 || !IsWhitespace(r[|r| - 1])
    ensures r == [] <==> WhitespaceFrom(stdout, 0) && WhitespaceFrom(stderr, 0)
  {
    TrimEndEmpty(stdout);
    TrimEndEmpty(stderr);
    var out := TrimEnd(stdout);
    if out == [] then TrimEnd(stderr) else out
  }
}
