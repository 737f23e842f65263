/** String helpers shared by the backend (`str.strip`, `str.lower`) and the client
    (`String.prototype.trim`, `toUpperCase`, `startsWith`). */
module Text {

  /** Whose whitespace: Python's `str.strip()` (the backend) or JavaScript's `trim()`
      (the client). */
  datatype Flavor = Python | JavaScript

  /** The ASCII whitespace `strip()` or `trim()` removes: both remove space, tab, line
      feed, carriage return, vertical tab and form feed; Python also removes the
      separators U+001C to U+001F. */
  predicate IsSpace(w: Flavor, c: char) {
    || c == ' ' || c == '\t' || c == '\n' || c == '\r' || c == '\U{B}' || c == '\U{C}'
    || (w == Python && '\U{1C}' <= c <= '\U{1F}')
  }

  /** True when `s` neither starts nor ends with whitespace. */
  predicate Trimmed(w: Flavor, s: string) {
    s == [] || (!IsSpace(w, s[0]) && !IsSpace(w, s[|s| - 1]))
  }

  predicate AllSpace(w: Flavor, s: string) {
    forall i | 0 <= i < |s| :: IsSpace(w, s[i])
  }

  /** `s` without its leading whitespace. */
  function StripLeft(w: Flavor, s: string): (r: string)
    ensures |r| <= |s| && r == s[|s| - |r|..]
    ensures r == [] || !IsSpace(w, r[0])
    ensures forall i | 0 <= i < |s| - |r| :: IsSpace(w, s[i])
  {
    if s != [] && IsSpace(w, s[0]) then StripLeft(w, s[1..]) else s
  }

  /** `s` without its trailing whitespace. */
  function StripRight(w: Flavor, s: string): (r: string)
    ensures |r| <= |s| && r == s[..|r|]
    ensures r == [] || !IsSpace(w, r[|r| - 1])
    ensures forall i | |r| <= i < |s| :: IsSpace(w, s[i])
  {
    if s != [] && IsSpace(w, s[|s| - 1]) then StripRight(w, s[..|s| - 1]) else s
  }

  /** `r` sits at offset `i` of `s` with only whitespace before and after it. */
  predicate Padded(w: Flavor, s: string, r: string, i: nat) {
    && i + |r| <= |s| && s[i..i + |r|] == r
    && AllSpace(w, s[..i]) && AllSpace(w, s[i + |r|..])
  }

  /** Python's `str.strip()` or JavaScript's `trim()`, by `w`: the infix of `s` left once all
      leading and trailing whitespace is removed. */
  function Strip(w: Flavor, s: string): (r: string)
    ensures Trimmed(w, r)
    ensures r == [] <==> AllSpace(w, s)
  {
    StripParts(w, s, StripLeft(w, s), StripRight(w, StripLeft(w, s)));
    StripRight(w, StripLeft(w, s))
  }

  /** What `strip()` removes is exactly the whitespace before and after its result. */
  lemma StripIsInfix(w: Flavor, s: string)
    ensures Padded(w, s, Strip(w, s), |s| - |StripLeft(w, s)|)
  {
    StripParts(w, s, StripLeft(w, s), StripRight(w, StripLeft(w, s)));
  }

  /** `r` is `s` less a leading run `s[..|s| - |l|]` and a trailing run `l[|r|..]` of
      whitespace, and starts and ends with a non-space. */
  lemma StripParts(w: Flavor, s: string, l: string, r: string)
    requires |l| <= |s| && l == s[|s| - |l|..] && (l == [] || !IsSpace(w, l[0]))
    requires forall i | 0 <= i < |s| - |l| :: IsSpace(w, s[i])
    requires |r| <= |l| && r == l[..|r|] && (r == [] || !IsSpace(w, r[|r| - 1]))
    requires forall i | |r| <= i < |l| :: IsSpace(w, l[i])
    ensures Trimmed(w, r)
    ensures r == [] <==> AllSpace(w, s)
    ensures Padded(w, s, r, |s| - |l|)
  {
    var i := |s| - |l|;
    if r != [] {
      assert r[0] == l[0];
    }
    if l != [] {
      assert s[i] == l[0];
    }
    forall k | i + |r| <= k < |s| ensures IsSpace(w, s[k]) {
      assert s[k] == l[k - i];
    }
    assert s[i..i + |r|] == r;
  }

  /** A string that is already trimmed is its own strip. */
  lemma StripTrimmed(w: Flavor, s: string)
    requires Trimmed(w, s)
    ensures Strip(w, s) == s
  {
  }

  /** Stripping twice is stripping once. */
  lemma StripIdempotent(w: Flavor, s: string)
    ensures Strip(w, Strip(w, s)) == Strip(w, s)
  {
    StripTrimmed(w, Strip(w, s));
  }

  /** Whitespace around a trimmed, non-empty string is exactly what `strip()` removes. */
  lemma StripPadded(w: Flavor, pre: string, s: string, post: string)
    requires AllSpace(w, pre) && AllSpace(w, post) && s != [] && Trimmed(w, s)
    ensures Strip(w, pre + s + post) == s
  {
    var x := pre + s + post;
    assert x == pre + (s + post) && (s + post)[0] == s[0];
    StripLeftPadded(w, pre, s + post);
    StripRightPadded(w, s, post);
    assert StripRight(w, StripLeft(w, x)) == s;
  }

  lemma {:induction false} StripLeftPadded(w: Flavor, pre: string, s: string)
    requires AllSpace(w, pre) && s != [] && !IsSpace(w, s[0])
    ensures StripLeft(w, pre + s) == s
  {
    if pre != [] {
      assert (pre + s)[0] == pre[0] && (pre + s)[1..] == pre[1..] + s;
      StripLeftPadded(w, pre[1..], s);
    } else {
      assert pre + s == s;
    }
  }

  lemma {:induction false} StripRightPadded(w: Flavor, s: string, post: string)
    requires AllSpace(w, post) && s != [] && !IsSpace(w, s[|s| - 1])
    ensures StripRight(w, s + post) == s
  {
    if post != [] {
      var n := |post|;
      assert (s + post)[..|s + post| - 1] == s + post[..n - 1];
      StripRightPadded(w, s, post[..n - 1]);
    }
  }

  predicate StartsWith(s: string, prefix: string) {
    |prefix| <= |s| && s[..|prefix|] == prefix
  }

  function LowerChar(c: char): char {
    if 'A' <= c <= 'Z' then (c as int + 32) as char else c
  }

  function UpperChar(c: char): char {
    if 'a' <= c <= 'z' then (c as int - 32) as char else c
  }

  /** `str.lower()` restricted to ASCII letters. */
  function Lower(s: string): (r: string)
    ensures |r| == |s| && forall i | 0 <= i < |s| :: r[i] == LowerChar(s[i])
  {
    if s == [] then [] else [LowerChar(s[0])] + Lower(s[1..])
  }

  /** `toUpperCase()` restricted to ASCII letters. */
  function Upper(s: string): (r: string)
    ensures |r| == |s| && forall i | 0 <= i < |s| :: r[i] == UpperChar(s[i])
  {
    if s == [] then [] else [UpperChar(s[0])] + Upper(s[1..])
  }

  /** Upper-casing neither creates nor removes whitespace, so it keeps a string trimmed. */
  lemma UpperKeepsTrimmed(w: Flavor, s: string)
    requires Trimmed(w, s)
    ensures Trimmed(w, Upper(s))
  {
  }

  lemma UpperIdempotent(s: string)
    ensures Upper(Upper(s)) == Upper(s)
  {
  }
}
