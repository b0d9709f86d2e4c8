/**
 * The string primitives the extension relies on: `String.prototype.trim`,
 * `String.prototype.toLowerCase`, `String.prototype.startsWith` and
 * `String.prototype.split` with a non-empty string separator.
 */
module Text {

  /** The characters `trim` removes: ECMAScript's WhiteSpace and LineTerminator code points. */
  predicate IsWhitespace(c: char) {
    || ('\t' <= c <= '\r')
    || c == ' ' || c == '\U{00A0}' || c == '\U{1680}'
    || ('\U{2000}' <= c <= '\U{200A}')
    || c == '\U{2028}' || c == '\U{2029}' || c == '\U{202F}' || c == '\U{205F}'
    || c == '\U{3000}' || c == '\U{FEFF}'
  }

  predicate AllWhitespace(s: string) {
    forall k :: 0 <= k < |s| ==> IsWhitespace(s[k])
  }

  /** No whitespace at either end: what `trim` leaves behind. */
  predicate Trimmed(s: string) {
    s != [] ==> !IsWhitespace(s[0]) && !IsWhitespace(s[|s| - 1])
  }

  /** The index of the first character at or after `i` that is not whitespace (|s| if there is none). */
  function SkipWhitespace(s: string, i: nat): (j: nat)
    requires i <= |s|
    ensures i <= j <= |s|
    decreases |s| - i
  {
    if i < |s| && IsWhitespace(s[i]) then SkipWhitespace(s, i + 1) else i
  }

  /** The forward scan passes over whitespace only and stops at the first other character. */
  lemma {:induction false} SkipWhitespaceStops(s: string, i: nat)
    requires i <= |s|
    ensures forall k :: i <= k < SkipWhitespace(s, i) ==> IsWhitespace(s[k])
    ensures SkipWhitespace(s, i) < |s| ==> !IsWhitespace(s[SkipWhitespace(s, i)])
    decreases |s| - i
  {
    if i < |s| && IsWhitespace(s[i]) {
      SkipWhitespaceStops(s, i + 1);
    }
  }

  /** The index just past the last character in [lo, j) that is not whitespace (lo if there is none). */
  function SkipWhitespaceBack(s: string, lo: nat, j: nat): (e: nat)
    requires lo <= j <= |s|
    ensures lo <= e <= j
    decreases j
  {
    if j > lo && IsWhitespace(s[j - 1]) then SkipWhitespaceBack(s, lo, j - 1) else j
  }

  /** The backward scan passes over whitespace only and stops after the last other character. */
  lemma {:induction false} SkipWhitespaceBackStops(s: string, lo: nat, j: nat)
    requires lo <= j <= |s|
    ensures forall k :: SkipWhitespaceBack(s, lo, j) <= k < j ==> IsWhitespace(s[k])
    ensures SkipWhitespaceBack(s, lo, j) > lo ==> !IsWhitespace(s[SkipWhitespaceBack(s, lo, j) - 1])
    decreases j
  {
    if j > lo && IsWhitespace(s[j - 1]) {
      SkipWhitespaceBackStops(s, lo, j - 1);
    }
  }

  /** `s.trim()`: the part from the first to the last character that is not whitespace. */
  function Trim(s: string): (r: string) {
    var i := SkipWhitespace(s, 0);
    s[i..SkipWhitespaceBack(s, i, |s|)]
  }

  /** What `trim` returns has no whitespace at either end. */
  lemma TrimTrimmed(s: string)
    ensures Trimmed(Trim(s))
  {
    var i := SkipWhitespace(s, 0);
    SkipWhitespaceStops(s, 0);
    SkipWhitespaceBackStops(s, i, |s|);
  }

  /**
   * `trim` is characterised by the decomposition it undoes: whatever the
   * whitespace padding around a trimmed core, the result is that core.
   */
  lemma TrimOfPadded(pre: string, core: string, post: string)
    requires AllWhitespace(pre) && AllWhitespace(post) && Trimmed(core)
    ensures Trim(pre + core + post) == core
  {
    var s := pre + core + post;
    var m, n := |pre|, |pre| + |core|;
    assert forall k :: 0 <= k < m ==> IsWhitespace(s[k]) by {
      forall k | 0 <= k < m ensures IsWhitespace(s[k]) { assert s[k] == pre[k]; }
    }
    assert forall k :: n <= k < |s| ==> IsWhitespace(s[k]) by {
      forall k | n <= k < |s| ensures IsWhitespace(s[k]) { assert s[k] == post[k - n]; }
    }
    var i := SkipWhitespace(s, 0);
    SkipWhitespaceStops(s, 0);
    if core == [] {
      assert i == |s|;
      assert SkipWhitespaceBack(s, i, |s|) == |s|;
    } else {
      assert s[m] == core[0] && s[n - 1] == core[|core| - 1];
      assert i == m;
      var e := SkipWhitespaceBack(s, i, |s|);
      SkipWhitespaceBackStops(s, i, |s|);
      assert e == n;
      assert s[m..n] == core;
    }
  }

  /** Every string is its trimmed form padded with whitespace on both sides. */
  lemma TrimSplitsPadding(s: string) returns (pre: string, post: string)
    ensures AllWhitespace(pre) && AllWhitespace(post)
    ensures s == pre + Trim(s) + post
  {
    var i := SkipWhitespace(s, 0);
    var e := SkipWhitespaceBack(s, i, |s|);
    SkipWhitespaceStops(s, 0);
    SkipWhitespaceBackStops(s, i, |s|);
    pre, post := s[..i], s[e..];
    assert s == s[..i] + s[i..e] + s[e..];
  }

  /** A string without surrounding whitespace is its own trimmed form. */
  lemma TrimKeepsTrimmed(s: string)
    requires Trimmed(s)
    ensures Trim(s) == s
  {
    assert [] + s + [] == s;
    TrimOfPadded([], s, []);
  }

  /** Trimming twice is trimming once. */
  lemma TrimIdempotent(s: string)
    ensures Trim(Trim(s)) == Trim(s)
  {
    TrimTrimmed(s);
    assert [] + Trim(s) + [] == Trim(s);
    TrimOfPadded([], Trim(s), []);
  }

  /** Extra whitespace around a string does not change its trimmed form. */
  lemma TrimIgnoresPadding(pad1: string, s: string, pad2: string)
    requires AllWhitespace(pad1) && AllWhitespace(pad2)
    ensures Trim(pad1 + s + pad2) == Trim(s)
  {
    var pre, post := TrimSplitsPadding(s);
    var core := Trim(s);
    TrimTrimmed(s);
    Regroup(pad1, pre, core, post, pad2, s);
    AllWhitespaceAppend(pad1, pre);
    AllWhitespaceAppend(post, pad2);
    TrimOfPadded(pad1 + pre, core, post + pad2);
  }

  lemma Regroup(a: string, b: string, c: string, d: string, e: string, s: string)
    requires s == b + c + d
    ensures a + s + e == (a + b) + c + (d + e)
  {
  }

  lemma AllWhitespaceAppend(a: string, b: string)
    requires AllWhitespace(a) && AllWhitespace(b)
    ensures AllWhitespace(a + b)
  {
    forall k | 0 <= k < |a + b|
      ensures IsWhitespace((a + b)[k])
    {
      if k < |a| {
        assert (a + b)[k] == a[k];
      } else {
        assert (a + b)[k] == b[k - |a|];
      }
    }
  }

  predicate IsUpper(c: char) {
    'A' <= c <= 'Z'
  }

  /** `toLowerCase` on one character; only the ASCII letters are mapped. */
  function ToLowerChar(c: char): (r: char) {
    if IsUpper(c) then (c as int + 32) as char else c
  }

  /** `s.toLowerCase()`, character by character. */
  function ToLower(s: string): (r: string)
    ensures |r| == |s|
  {
    if s == [] then [] else [ToLowerChar(s[0])] + ToLower(s[1..])
  }

  /** Each character of the lower-cased string is its own character lower-cased. */
  lemma {:induction false} ToLowerAt(s: string)
    ensures forall k :: 0 <= k < |s| ==> ToLower(s)[k] == ToLowerChar(s[k])
  {
    if s != [] {
      ToLowerAt(s[1..]);
    }
  }

  /** ToLower is determined character by character. */
  lemma ToLowerIs(s: string, t: string)
    requires |s| == |t| && forall k :: 0 <= k < |s| ==> ToLowerChar(s[k]) == t[k]
    ensures ToLower(s) == t
  {
    ToLowerAt(s);
    var l := ToLower(s);
    assert forall k :: 0 <= k < |s| ==> l[k] == t[k];
  }

  /** A lower-cased string has no upper-case letter. */
  lemma ToLowerNoUpper(s: string)
    ensures forall k :: 0 <= k < |s| ==> !IsUpper(ToLower(s)[k])
  {
    ToLowerAt(s);
  }

  /** Lower-casing a lower-cased string changes nothing. */
  lemma ToLowerIdempotent(s: string)
    ensures ToLower(ToLower(s)) == ToLower(s)
  {
    ToLowerAt(s);
    ToLowerAt(ToLower(s));
    ToLowerIs(ToLower(s), ToLower(s));
  }

  lemma ToLowerAppend(a: string, b: string)
    ensures ToLower(a + b) == ToLower(a) + ToLower(b)
  {
    ToLowerAt(a + b);
    ToLowerAt(a);
    ToLowerAt(b);
    var l, r := ToLower(a + b), ToLower(a) + ToLower(b);
    assert |l| == |r|;
    forall k | 0 <= k < |l|
      ensures l[k] == r[k]
    {
      if k < |a| {
        assert (a + b)[k] == a[k];
      } else {
        assert (a + b)[k] == b[k - |a|];
      }
    }
  }

  /** Lower-casing keeps whitespace where it is, so it keeps padding padding and a trimmed string trimmed. */
  lemma ToLowerKeepsShape(s: string)
    ensures AllWhitespace(s) ==> AllWhitespace(ToLower(s))
    ensures Trimmed(s) ==> Trimmed(ToLower(s))
  {
    ToLowerAt(s);
  }

  /** Trimming and lower-casing commute, because lower-casing never creates or removes whitespace. */
  lemma TrimToLowerCommute(s: string)
    ensures Trim(ToLower(s)) == ToLower(Trim(s))
  {
    var pre, post := TrimSplitsPadding(s);
    var core := Trim(s);
    assert ToLower(s) == ToLower(pre) + ToLower(core) + ToLower(post) by {
      ToLowerAppend(pre + core, post);
      ToLowerAppend(pre, core);
    }
    TrimTrimmed(s);
    ToLowerKeepsShape(pre);
    ToLowerKeepsShape(core);
    ToLowerKeepsShape(post);
    TrimOfPadded(ToLower(pre), ToLower(core), ToLower(post));
  }

  /** `s.startsWith(prefix)` */
  predicate StartsWith(s: string, prefix: string) {
    prefix <= s
  }

  /**
   * `s.split(sep)` for a non-empty separator: the pieces between the
   * occurrences of `sep` found from left to right, never overlapping.
   */
  function Split(s: string, sep: string): (parts: seq<string>)
    requires sep != []
    ensures |parts| >= 1
    decreases |s|
  {
    if |s| < |sep| then [s]
    else if s[..|sep|] == sep then [[]] + Split(s[|sep|..], sep)
    else
      var rest := Split(s[1..], sep);
      [[s[0]] + rest[0]] + rest[1..]
  }

  predicate Excludes(s: string, c: char) {
    forall k :: 0 <= k < |s| ==> s[k] != c
  }

  /** A string that cannot contain the separator is one piece. */
  lemma {:induction false} SplitWhole(s: string, sep: string)
    requires sep != [] && Excludes(s, sep[0])
    ensures Split(s, sep) == [s]
    decreases |s|
  {
    if |s| >= |sep| {
      assert s[..|sep|][0] != sep[0];
      SplitWhole(s[1..], sep);
      assert [s[0]] + s[1..] == s;
    }
  }

  /** The first piece ends at the first separator. */
  lemma {:induction false} SplitAtFirst(r: string, sep: string, t: string)
    requires sep != [] && Excludes(r, sep[0])
    ensures Split(r + sep + t, sep) == [r] + Split(t, sep)
    decreases |r|
  {
    var s := r + sep + t;
    if r == [] {
      assert s == sep + t;
      assert s[..|sep|] == sep && s[|sep|..] == t;
    } else {
      assert s[..|sep|][0] == r[0] != sep[0];
      assert s[1..] == r[1..] + sep + t;
      SplitAtFirst(r[1..], sep, t);
      assert [r[0]] + r[1..] == r;
    }
  }

  /** A string holding the separator at some position splits into at least two pieces. */
  lemma {:induction false} SplitAtLeastTwo(s: string, sep: string, k: nat)
    requires sep != [] && k + |sep| <= |s| && s[k..k + |sep|] == sep
    ensures |Split(s, sep)| >= 2
    decreases k
  {
    if s[..|sep|] != sep {
      assert k > 0;
      assert s[1..][k - 1..k - 1 + |sep|] == s[k..k + |sep|];
      SplitAtLeastTwo(s[1..], sep, k - 1);
    }
  }
}
