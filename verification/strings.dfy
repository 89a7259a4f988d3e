/** String helpers with the semantics of Rust's `str`: `trim`, `starts_with`,
    `ends_with`, `contains`, ASCII lower-casing, character search, and the
    lexicographic order `Ord for str` (which on Unicode scalar values agrees with
    the byte order of their UTF-8 encodings). */
module Strings {
  import opened Wrappers

  /** `char::is_whitespace`: the Unicode White_Space property. */
  predicate IsWhitespace(c: char) {
    ('\U{0009}' <= c <= '\U{000D}') || c == ' ' || c == '\U{0085}' || c == '\U{00A0}'
    || c == '\U{1680}' || ('\U{2000}' <= c <= '\U{200A}') || c == '\U{2028}' || c == '\U{2029}'
    || c == '\U{202F}' || c == '\U{205F}' || c == '\U{3000}'
  }

  /** Neither end of `s` is whitespace. */
  predicate IsTrimmed(s: string) {
    s == [] || (!IsWhitespace(s[0]) && !IsWhitespace(s[|s| - 1]))
  }

  function TrimStart(s: string): (r: string)
    ensures |r| <= |s| && r == s[|s| - |r|..]
    ensures r == [] || !IsWhitespace(r[0])
    ensures forall i :: 0 <= i < |s| - |r| ==> IsWhitespace(s[i])
  {
    if s == [] || !IsWhitespace(s[0]) then s else TrimStart(s[1..])
  }

  function TrimEnd(s: string): (r: string)
    ensures |r| <= |s| && r == s[..|r|]
    ensures r == [] || !IsWhitespace(r[|r| - 1])
    ensures forall i :: |r| <= i < |s| ==> IsWhitespace(s[i])
  {
    if s == [] || !IsWhitespace(s[|s| - 1]) then s else TrimEnd(s[..|s| - 1])
  }

  /** `r` is `s[a..b]`, and everything of `s` outside that slice is
      whitespace. */
  predicate StripsWhitespace(s: string, r: string, a: int, b: int) {
    && 0 <= a <= b <= |s| && r == s[a..b]
    && (forall i :: 0 <= i < a ==> IsWhitespace(s[i]))
    && (forall i :: b <= i < |s| ==> IsWhitespace(s[i]))
  }

  /** `str::trim`: `s` with its leading and trailing whitespace removed. */
  function Trim(s: string): (r: string)
    ensures IsTrimmed(r) && |r| <= |s|
    ensures IsTrimmed(s) ==> r == s
    ensures exists a, b :: StripsWhitespace(s, r, a, b)
  {
    var t := TrimStart(s);
    TrimBothEnds(s, t, TrimEnd(t));
    TrimEnd(t)
  }

  /** A suffix after leading whitespace, cut before trailing whitespace, is a
      slice with only whitespace outside it. */
  lemma TrimBothEnds(s: string, t: string, r: string)
    requires |t| <= |s| && t == s[|s| - |t|..] && forall i :: 0 <= i < |s| - |t| ==> IsWhitespace(s[i])
    requires |r| <= |t| && r == t[..|r|] && forall i :: |r| <= i < |t| ==> IsWhitespace(t[i])
    ensures StripsWhitespace(s, r, |s| - |t|, |s| - |t| + |r|)
  {
    var a := |s| - |t|;
    assert r == s[a..a + |r|] by {
      assert s[a..][..|r|] == s[a..a + |r|];
    }
    forall i | a + |r| <= i < |s| ensures IsWhitespace(s[i]) {
      assert s[i] == t[i - a];
    }
  }


  /** `trim` is idempotent. */
  lemma TrimIdempotent(s: string)
    ensures Trim(Trim(s)) == Trim(s)
  {
  }

  /** One trailing space after a string that is otherwise trimmed is removed. */
  lemma TrimTrailingSpace(s: string)
    requires IsTrimmed(s) && s != []
    ensures Trim(s + " ") == s
  {
    assert (s + " ")[..|s|] == s;
  }

  /** Joining a trimmed head and a trimmed tail with one space, trimming, and
      cutting the head off again gives back the tail. */
  lemma StripHeadAfterSpace(head: string, tail: string)
    requires IsTrimmed(head) && head != [] && IsTrimmed(tail)
    ensures StartsWith(Trim(head + " " + tail), head)
    ensures Trim(Trim(head + " " + tail)[|head|..]) == tail
  {
    var s := head + " " + tail;
    if tail == [] {
      assert s == head + " ";
      TrimTrailingSpace(head);
    } else {
      assert IsTrimmed(s);
      assert s[..|head|] == head;
      assert s[|head|..] == " " + tail;
      assert (" " + tail)[1..] == tail;
    }
  }

  predicate StartsWith(s: string, prefix: string) {
    |prefix| <= |s| && s[..|prefix|] == prefix
  }

  predicate EndsWith(s: string, suffix: string) {
    |suffix| <= |s| && s[|s| - |suffix|..] == suffix
  }

  /** `str::contains` for a string pattern: `t` occurs in `s` at some offset. */
  predicate Contains(s: string, t: string)
    decreases |s|
  {
    StartsWith(s, t) || (s != [] && Contains(s[1..], t))
  }

  /** Every character of an occurrence is a character of the haystack. */
  lemma {:induction false} ContainsChars(s: string, t: string, k: nat)
    requires Contains(s, t) && k < |t|
    ensures t[k] in s
    decreases |s|
  {
    if StartsWith(s, t) {
      assert s[k] == t[k];
    } else {
      ContainsChars(s[1..], t, k);
    }
  }

  predicate IsAsciiUpper(c: char) {
    'A' <= c <= 'Z'
  }

  /** ASCII lower-casing of one character. */
  function LowerChar(c: char): (r: char)
    ensures !IsAsciiUpper(r)
    ensures !IsAsciiUpper(c) ==> r == c
  {
    if IsAsciiUpper(c) then (c as int + 32) as char else c
  }

  function ToLower(s: string): (r: string)
    ensures |r| == |s|
    ensures forall i :: 0 <= i < |s| ==> r[i] == LowerChar(s[i])
    ensures forall c :: c in r ==> !IsAsciiUpper(c)
  {
    seq(|s|, i requires 0 <= i < |s| => LowerChar(s[i]))
  }

  /** A pattern holding an ASCII upper-case letter never occurs in a
      lower-cased string. */
  lemma LowerNeverContainsUpper(s: string, t: string, k: nat)
    requires k < |t| && IsAsciiUpper(t[k])
    ensures !Contains(ToLower(s), t)
  {
    if Contains(ToLower(s), t) {
      ContainsChars(ToLower(s), t, k);
    }
  }

  /** The first index `i >= from` with `s[i] == c`. */
  function IndexOf(s: string, c: char, from: nat): (r: Option<nat>)
    ensures r.Some? ==> from <= r.value < |s| && s[r.value] == c
    ensures r.Some? ==> forall i :: from <= i < r.value ==> s[i] != c
    ensures r.None? ==> forall i :: from <= i < |s| ==> s[i] != c
    decreases |s| - from
  {
    if from >= |s| then None
    else if s[from] == c then Some(from)
    else IndexOf(s, c, from + 1)
  }

  /** `IndexOf` finds `k` when `s[k]` is the first `c` from `from` on. */
  lemma IndexOfAt(s: string, c: char, from: nat, k: nat)
    requires from <= k < |s| && s[k] == c
    requires forall i :: from <= i < k ==> s[i] != c
    ensures IndexOf(s, c, from) == Some(k)
  {
  }

  /** `IndexOf` finds `hi` when `s[hi]` is `c` and the stretch from `from` up
      to `hi` holds no `c`. */
  lemma IndexOfAfterStretch(s: string, c: char, from: nat, hi: nat)
    requires from <= hi < |s| && s[hi] == c && c !in s[from..hi]
    ensures IndexOf(s, c, from) == Some(hi)
  {
    forall i | from <= i < hi ensures s[i] != c {
      assert s[i] == s[from..hi][i - from];
    }
    IndexOfAt(s, c, from, hi);
  }

  /** In `p + sep + q + u`, with `sep` a single character, the first
      occurrence of that character from `from` on is the separator when `p`
      holds none from `from` on. */
  lemma IndexOfBeforeSeparator(p: string, sep: string, q: string, u: string, from: nat)
    requires |sep| == 1 && from <= |p| && sep[0] !in p[from..]
    ensures IndexOf(p + sep + q + u, sep[0], from) == Some(|p|)
  {
    var s := p + sep + q + u;
    assert s[from..|p|] == p[from..];
    IndexOfAfterStretch(s, sep[0], from, |p|);
  }

  /** The last index `i < end` with `s[i] == c`. */
  function LastIndexBefore(s: string, c: char, end: nat): (r: Option<nat>)
    requires end <= |s|
    ensures r.Some? ==> r.value < end && s[r.value] == c
    ensures r.Some? ==> forall i :: r.value < i < end ==> s[i] != c
    ensures r.None? ==> forall i :: 0 <= i < end ==> s[i] != c
  {
    if end == 0 then None
    else if s[end - 1] == c then Some(end - 1)
    else LastIndexBefore(s, c, end - 1)
  }

  /** `a < b` in the lexicographic order of `Ord for str`. */
  predicate Less(a: string, b: string) {
    if a == [] then b != []
    else if b == [] then false
    else if a[0] != b[0] then a[0] < b[0]
    else Less(a[1..], b[1..])
  }

  lemma {:induction false} LessIrreflexive(a: string)
    ensures !Less(a, a)
  {
    if a != [] {
      LessIrreflexive(a[1..]);
    }
  }

  lemma {:induction false} LessTransitive(a: string, b: string, c: string)
    requires Less(a, b) && Less(b, c)
    ensures Less(a, c)
  {
    if a != [] && b != [] && c != [] && a[0] == b[0] == c[0] {
      LessTransitive(a[1..], b[1..], c[1..]);
    }
  }

  lemma {:induction false} LessTotal(a: string, b: string)
    requires a != b
    ensures Less(a, b) || Less(b, a)
  {
    if a != [] && b != [] && a[0] == b[0] {
      assert a == [a[0]] + a[1..] && b == [b[0]] + b[1..];
      LessTotal(a[1..], b[1..]);
    }
  }

  lemma {:induction false} LessAsymmetric(a: string, b: string)
    requires Less(a, b)
    ensures !Less(b, a)
  {
    if a != [] && b != [] && a[0] == b[0] {
      LessAsymmetric(a[1..], b[1..]);
    }
  }
}
