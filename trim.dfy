/**
 * JavaScript's `String.prototype.trim`, which the header stripper applies to
 * the text that follows a tag header.
 */
module StringTrim {

  /**
   * The characters `trim` removes: ECMAScript's WhiteSpace (tab, vertical tab,
   * form feed, space, no-break space, byte order mark and the other Unicode
   * space separators) and LineTerminator (line feed, carriage return, line
   * separator, paragraph separator).
   */
  predicate IsWhitespace(c: char)
  {
    || c == ' ' || c == '\t' || c == '\n' || c == '\r'
    || c == '\U{000B}' || c == '\U{000C}' || c == '\U{00A0}' || c == '\U{FEFF}'
    || c == '\U{1680}' || ('\U{2000}' <= c <= '\U{200A}')
    || c == '\U{2028}' || c == '\U{2029}' || c == '\U{202F}' || c == '\U{205F}'
    || c == '\U{3000}'
  }

  /** Every character of `s` from `lo` up to `hi` is whitespace. */
  predicate WhitespaceBetween(s: string, lo: nat, hi: nat)
  {
    forall m :: lo <= m < hi && m < |s| ==> IsWhitespace(s[m])
  }

  /** Neither end of `s` is whitespace. */
  predicate Trimmed(s: string)
  {
    s == [] || (!IsWhitespace(s[0]) && !IsWhitespace(s[|s| - 1]))
  }

  /** The first position at or after `k` that is not whitespace, or `|s|`. */
  function SkipForward(s: string, k: nat): (a: nat)
    requires k <= |s|
    ensures k <= a <= |s|
    ensures WhitespaceBetween(s, k, a)
    ensures a < |s| ==> !IsWhitespace(s[a])
    decreases |s| - k
  {
    if k == |s| || !IsWhitespace(s[k]) then k else SkipForward(s, k + 1)
  }

  /** The smallest `e` down to `lo` such that everything from `e` up to `b` is whitespace. */
  function SkipBackward(s: string, lo: nat, b: nat): (e: nat)
    requires lo <= b <= |s|
    ensures lo <= e <= b
    ensures WhitespaceBetween(s, e, b)
    ensures lo < e ==> !IsWhitespace(s[e - 1])
    decreases b - lo
  {
    if b == lo || !IsWhitespace(s[b - 1]) then b else SkipBackward(s, lo, b - 1)
  }

  /** Where the trimmed text starts. */
  function TrimFrom(s: string): nat
  {
    SkipForward(s, 0)
  }

  /** Where the trimmed text ends. */
  function TrimTo(s: string): nat
  {
    SkipBackward(s, SkipForward(s, 0), |s|)
  }

  /** `s.trim()`. */
  function Trim(s: string): (r: string)
    ensures |r| <= |s|
    ensures Trimmed(r)
  {
    s[TrimFrom(s)..TrimTo(s)]
  }

  /** `trim` removes exactly the whitespace at both ends and keeps what lies between. */
  lemma {:induction false} TrimSplits(s: string)
    ensures TrimFrom(s) <= TrimTo(s) <= |s|
    ensures Trim(s) == s[TrimFrom(s)..TrimTo(s)]
    ensures WhitespaceBetween(s, 0, TrimFrom(s))
    ensures WhitespaceBetween(s, TrimTo(s), |s|)
  {
  }

  lemma {:induction false} SkipForwardAt(s: string, k: nat, a: nat)
    requires k <= a <= |s|
    requires WhitespaceBetween(s, k, a)
    requires a < |s| ==> !IsWhitespace(s[a])
    ensures SkipForward(s, k) == a
    decreases a - k
  {
    if k < a {
      SkipForwardAt(s, k + 1, a);
    }
  }

  lemma {:induction false} SkipBackwardAt(s: string, lo: nat, e: nat, b: nat)
    requires lo <= e <= b <= |s|
    requires WhitespaceBetween(s, e, b)
    requires lo < e ==> !IsWhitespace(s[e - 1])
    ensures SkipBackward(s, lo, b) == e
    decreases b - e
  {
    if e < b {
      SkipBackwardAt(s, lo, e, b - 1);
    }
  }

  /**
   * Reference characterisation: whenever `s` is whitespace, then a core with
   * no whitespace at either end, then whitespace, `trim` gives that core.
   */
  lemma {:induction false} TrimUnique(pre: string, core: string, post: string)
    requires WhitespaceBetween(pre, 0, |pre|) && WhitespaceBetween(post, 0, |post|)
    requires Trimmed(core)
    ensures Trim(pre + core + post) == core
  {
    var s := pre + core + post;
    var a, e := |pre|, |pre| + |core|;
    assert s[a..e] == core;
    if core == [] {
      assert WhitespaceBetween(s, 0, |s|);
      SkipForwardAt(s, 0, |s|);
      SkipBackwardAt(s, |s|, |s|, |s|);
    } else {
      assert s[a] == core[0] && s[e - 1] == core[|core| - 1];
      assert WhitespaceBetween(s, 0, a);
      assert WhitespaceBetween(s, e, |s|);
      SkipForwardAt(s, 0, a);
      SkipBackwardAt(s, a, e, |s|);
    }
  }

  /** Trimming twice is trimming once. */
  lemma {:induction false} TrimIdempotent(s: string)
    ensures Trim(Trim(s)) == Trim(s)
  {
    var r := Trim(s);
    assert [] + r + [] == r;
    TrimUnique([], r, []);
  }
}
