/**
 * The Python `str` built-ins the backend relies on: `str.isspace` and
 * `str.strip()` with no argument, the `in` operator on strings, `str.find`,
 * `str.split(sep)` with an explicit separator, and `sep.join(parts)`.
 */
module PyStr {
  import opened Wrappers

  // ---------------------------------------------------------------------
  // Whitespace and strip()
  // ---------------------------------------------------------------------

  /** The characters for which Python's `str.isspace()` holds: the ASCII
      controls TAB..CR and FS..US, SPACE, and the Unicode space separators
      and line/paragraph separators. */
  predicate IsSpace(c: char) {
    || ('\U{9}' <= c <= '\U{D}')
    || ('\U{1C}' <= c <= '\U{20}')
    || c == '\U{85}' || c == '\U{A0}' || c == '\U{1680}'
    || ('\U{2000}' <= c <= '\U{200A}')
    || c == '\U{2028}' || c == '\U{2029}' || c == '\U{202F}'
    || c == '\U{205F}' || c == '\U{3000}'
  }

  /** Every character of `s` is whitespace (vacuously so for ""). */
  predicate AllSpace(s: string) {
    forall k :: 0 <= k < |s| ==> IsSpace(s[k])
  }

  /** `s` neither begins nor ends with whitespace. */
  predicate Trimmed(s: string) {
    s == [] || (!IsSpace(s[0]) && !IsSpace(s[|s| - 1]))
  }

  /** `str.lstrip()`: drops the longest all-whitespace prefix. */
  function LStrip(s: string): (r: string)
    ensures |r| <= |s| && r == s[|s| - |r|..]
    ensures AllSpace(s[..|s| - |r|])
    ensures r == [] || !IsSpace(r[0])
  {
    if s != [] && IsSpace(s[0]) then
      var r := LStrip(s[1..]);
      LeadingSpaceStep(s, r);
      r
    else
      s
  }

  /** `str.rstrip()`: drops the longest all-whitespace suffix. */
  function RStrip(s: string): (r: string)
    ensures |r| <= |s| && r == s[..|r|]
    ensures AllSpace(s[|r|..])
    ensures r == [] || !IsSpace(r[|r| - 1])
  {
    if s != [] && IsSpace(s[|s| - 1]) then
      var r := RStrip(s[..|s| - 1]);
      TrailingSpaceStep(s, r);
      r
    else
      s
  }

  /** One step of `lstrip`: a suffix of `s[1..]` after whitespace, behind a
      whitespace `s[0]`, is a suffix of `s` after whitespace. */
  lemma LeadingSpaceStep(s: string, r: string)
    requires s != [] && IsSpace(s[0]) && |r| <= |s| - 1
    requires r == s[1..][|s| - 1 - |r|..] && AllSpace(s[1..][..|s| - 1 - |r|])
    ensures r == s[|s| - |r|..] && AllSpace(s[..|s| - |r|])
  {
    assert s[..|s| - |r|] == [s[0]] + s[1..][..|s| - 1 - |r|];
  }

  /** One step of `rstrip`, the mirror image of `LeadingSpaceStep`. */
  lemma TrailingSpaceStep(s: string, r: string)
    requires s != [] && IsSpace(s[|s| - 1]) && |r| <= |s| - 1
    requires r == s[..|s| - 1][..|r|] && AllSpace(s[..|s| - 1][|r|..])
    ensures r == s[..|r|] && AllSpace(s[|r|..])
  {
    assert s[|r|..] == s[..|s| - 1][|r|..] + [s[|s| - 1]];
  }

  /** How many whitespace characters `strip()` removes from the front. */
  function LeadingSpace(s: string): nat {
    |s| - |LStrip(s)|
  }

  /** `str.strip()`: the result is a trimmed infix of `s`, starting after the
      leading whitespace, whose surroundings in `s` are all whitespace. */
  function Strip(s: string): (r: string)
    ensures Trimmed(r)
    ensures LeadingSpace(s) + |r| <= |s| && r == s[LeadingSpace(s)..LeadingSpace(s) + |r|]
    ensures AllSpace(s[..LeadingSpace(s)]) && AllSpace(s[LeadingSpace(s) + |r|..])
  {
    var l := LStrip(s);
    var r := RStrip(l);
    StripLayout(s, l, r, |s| - |l|);
    r
  }

  /** The facts about `lstrip` of `s` and `rstrip` of that, restated as
      facts about `s`: `r` is a trimmed infix of `s` at offset `i` with only
      whitespace around it. */
  lemma StripLayout(s: string, l: string, r: string, i: nat)
    requires i + |l| == |s| && l == s[i..] && AllSpace(s[..i])
    requires l == [] || !IsSpace(l[0])
    requires |r| <= |l| && r == l[..|r|] && AllSpace(l[|r|..])
    requires r == [] || !IsSpace(r[|r| - 1])
    ensures Trimmed(r) && i + |r| <= |s| && r == s[i..i + |r|]
    ensures AllSpace(s[i + |r|..])
  {
    PrefixOfSuffix(s, i, i + |r|);
    assert s[i + |r|..] == l[|r|..];
    assert r != [] ==> r[0] == l[0];
  }

  /** Stripping whitespace from the front of `w + t`, where `w` is all
      whitespace and `t` does not start with whitespace, leaves `t`. */
  lemma {:induction false} LStripSpacePrefix(w: string, t: string)
    requires AllSpace(w)
    requires t == [] || !IsSpace(t[0])
    ensures LStrip(w + t) == t
  {
    if w != [] {
      assert (w + t)[1..] == w[1..] + t;
      LStripSpacePrefix(w[1..], t);
    }
  }

  /** Stripping whitespace from the back of `t + w`, where `w` is all
      whitespace and `t` does not end with whitespace, leaves `t`. */
  lemma {:induction false} RStripSpaceSuffix(t: string, w: string)
    requires AllSpace(w)
    requires t == [] || !IsSpace(t[|t| - 1])
    ensures RStrip(t + w) == t
  {
    if w != [] {
      assert (t + w)[..|t + w| - 1] == t + w[..|w| - 1];
      RStripSpaceSuffix(t, w[..|w| - 1]);
    }
  }

  /** `strip()` is determined by its contract: whatever trimmed text sits
      between two runs of whitespace is what `strip()` returns. */
  lemma StripUnique(w1: string, t: string, w2: string)
    requires AllSpace(w1) && AllSpace(w2) && Trimmed(t)
    ensures Strip(w1 + t + w2) == t
  {
    if t == [] {
      assert w1 + t + w2 == w1 + w2;
      assert AllSpace(w1 + w2);
      LStripSpacePrefix(w1 + w2, []);
      assert w1 + w2 + [] == w1 + w2;
    } else {
      assert w1 + t + w2 == w1 + (t + w2);
      LStripSpacePrefix(w1, t + w2);
      RStripSpaceSuffix(t, w2);
    }
  }

  /** `strip()` is idempotent. */
  lemma StripIdempotent(s: string)
    ensures Strip(Strip(s)) == Strip(s)
  {
    var t := Strip(s);
    assert LStrip(t) == t;
    assert RStrip(t) == t;
  }

  // ---------------------------------------------------------------------
  // Substring search: `in` and find()
  // ---------------------------------------------------------------------

  /** `d` occurs in `s` starting at index `i`. */
  predicate OccursAt(s: string, d: string, i: nat) {
    i + |d| <= |s| && s[i..i + |d|] == d
  }

  /** `s.startswith(prefix)`. */
  predicate StartsWith(s: string, prefix: string) {
    |prefix| <= |s| && s[..|prefix|] == prefix
  }

  /** `s.endswith(suffix)`. */
  predicate EndsWith(s: string, suffix: string) {
    |suffix| <= |s| && s[|s| - |suffix|..] == suffix
  }

  /** A concatenation starts with its left operand and ends with its right
      one. */
  lemma ConcatEnds(a: string, b: string)
    ensures StartsWith(a + b, a) && EndsWith(a + b, b)
  {
    assert (a + b)[..|a|] == a;
    assert (a + b)[|a + b| - |b|..] == b;
  }

  /** Dropping the left operand of a concatenation leaves the right one. */
  lemma DropLeft(a: string, b: string)
    ensures (a + b)[|a|..] == b
  {
  }

  /** Concatenation regroups freely. */
  lemma Associate(a: string, b: string, c: string, d: string)
    ensures a + b + c + d == a + (b + (c + d)) == (a + b + c) + d == (a + b) + (c + d)
  {
  }

  /** Python's `d in s`. */
  predicate Contains(s: string, d: string) {
    exists i: nat :: i + |d| <= |s| && OccursAt(s, d, i)
  }

  /** `i` is the leftmost occurrence of `d` in `s` at or after `from`. */
  predicate FirstFrom(s: string, d: string, from: nat, i: nat) {
    from <= i && OccursAt(s, d, i)
    && forall k: nat :: from <= k < i ==> !OccursAt(s, d, k)
  }

  /** `s.find(d, from)`, with "not found" as `None` instead of -1: the
      leftmost occurrence at or after `from`. */
  function FindFrom(s: string, d: string, from: nat): (r: Option<nat>)
    ensures r.Some? ==> FirstFrom(s, d, from, r.value)
    ensures r.None? ==> forall k: nat :: from <= k ==> !OccursAt(s, d, k)
    decreases |s| - from
  {
    if from + |d| > |s| then None
    else if s[from..from + |d|] == d then Some(from)
    else FindFrom(s, d, from + 1)
  }

  /** `s.find(d)`. */
  function Find(s: string, d: string): (r: Option<nat>)
    ensures r.Some? <==> Contains(s, d)
    ensures r.Some? ==> FirstFrom(s, d, 0, r.value)
  {
    FindFrom(s, d, 0)
  }

  /** The leftmost occurrence is unique, so `FindFrom` is fully determined by
      `FirstFrom`. */
  lemma FirstFromIsFind(s: string, d: string, from: nat, i: nat)
    requires FirstFrom(s, d, from, i)
    ensures FindFrom(s, d, from) == Some(i)
  {
  }

  /** An occurrence in a suffix is an occurrence in the whole string, offset
      by where the suffix starts. */
  lemma OccursShift(s: string, d: string, m: nat, k: nat)
    requires m <= |s|
    ensures OccursAt(s[m..], d, k) <==> OccursAt(s, d, m + k)
  {
    if m + k + |d| <= |s| {
      assert s[m..][k..k + |d|] == s[m + k..m + k + |d|];
    }
  }

  /** An occurrence inside a prefix is an occurrence in the whole string. */
  lemma OccursInPrefix(s: string, d: string, n: nat, k: nat)
    requires n <= |s| && k + |d| <= n
    ensures OccursAt(s[..n], d, k) <==> OccursAt(s, d, k)
  {
    assert s[..n][k..k + |d|] == s[k..k + |d|];
  }

  /** The leftmost occurrence at or after `m` is, seen from the suffix that
      starts at `m`, the leftmost occurrence of all. */
  lemma FirstFromShift(s: string, d: string, m: nat, j: nat)
    requires m <= |s| && FirstFrom(s, d, m, j)
    ensures FirstFrom(s[m..], d, 0, j - m)
  {
    forall k: nat | k < j - m
      ensures !OccursAt(s[m..], d, k)
    {
      OccursShift(s, d, m, k);
    }
    OccursShift(s, d, m, j - m);
  }

  /** Two strings that agree on their first `n` characters share every
      leftmost occurrence that ends within those `n` characters. */
  lemma FirstFromAgreeingPrefix(s: string, t: string, d: string, from: nat, i: nat, n: nat)
    requires n <= |s| && n <= |t| && s[..n] == t[..n]
    requires FirstFrom(s, d, from, i) && i + |d| <= n
    ensures FirstFrom(t, d, from, i)
  {
    forall k: nat | k + |d| <= n
      ensures OccursAt(s, d, k) <==> OccursAt(t, d, k)
    {
      OccursInPrefix(s, d, n, k);
      OccursInPrefix(t, d, n, k);
    }
  }

  /** Two strings that agree on their first `n` characters agree on every
      slice within them. */
  lemma AgreeingPrefixSlice(s: string, t: string, n: nat, a: nat, b: nat)
    requires n <= |s| && n <= |t| && s[..n] == t[..n] && a <= b <= n
    ensures s[a..b] == t[a..b]
  {
    calc {
      s[a..b];
      { SliceOfPrefix(s, n, a, b); }
      s[..n][a..b];
      t[..n][a..b];
      { SliceOfPrefix(t, n, a, b); }
      t[a..b];
    }
  }

  /** A slice of a prefix is a slice of the whole. */
  lemma SliceOfPrefix(s: string, n: nat, a: nat, b: nat)
    requires a <= b <= n <= |s|
    ensures s[..n][a..b] == s[a..b]
  {
    assert forall k :: 0 <= k < b - a ==> s[..n][a..b][k] == s[a + k] == s[a..b][k];
  }

  /** A prefix of a suffix is a slice of the whole. */
  lemma PrefixOfSuffix(s: string, m: nat, n: nat)
    requires m <= n <= |s|
    ensures s[m..][..n - m] == s[m..n]
  {
    assert forall k :: 0 <= k < n - m ==> s[m..][..n - m][k] == s[m + k] == s[m..n][k];
  }

  /** An occurrence of `d` starts with `d`'s first character, so text in
      which that character never appears holds no occurrence starting in
      it. */
  lemma NoOccurrenceWithoutFirstChar(s: string, d: string, a: nat, b: nat)
    requires |d| > 0 && a <= b <= |s|
    requires forall k :: a <= k < b ==> s[k] != d[0]
    ensures forall k: nat :: a <= k < b ==> !OccursAt(s, d, k)
  {
    forall k: nat | a <= k < b
      ensures !OccursAt(s, d, k)
    {
      if k + |d| <= |s| {
        assert s[k..k + |d|][0] == s[k];
      }
    }
  }

  /** Text free of `d` stays free of `d` in every infix. */
  lemma NoOccurrenceInInfix(s: string, d: string, i: nat, j: nat)
    requires i <= j <= |s|
    requires forall k: nat :: i <= k && k + |d| <= j ==> !OccursAt(s, d, k)
    ensures !Contains(s[i..j], d)
  {
    forall k: nat
      ensures !OccursAt(s[i..j], d, k)
    {
      if k + |d| <= j - i {
        assert s[i..j] == s[..j][i..];
        OccursShift(s[..j], d, i, k);
        OccursInPrefix(s, d, j, i + k);
      }
    }
  }

  // ---------------------------------------------------------------------
  // split() and join()
  // ---------------------------------------------------------------------

  /** `s.split(sep)` for a non-empty separator (Python raises ValueError on
      an empty one): cut at every leftmost, non-overlapping occurrence. */
  function Split(s: string, sep: string): (parts: seq<string>)
    requires |sep| > 0
    ensures |parts| >= 1
    ensures |parts| >= 2 <==> Contains(s, sep)
    decreases |s|
  {
    match Find(s, sep)
    case None => [s]
    case Some(i) => [s[..i]] + Split(s[i + |sep|..], sep)
  }

  /** `sep.join(parts)`. */
  function Join(sep: string, parts: seq<string>): string
  {
    if |parts| == 0 then ""
    else if |parts| == 1 then parts[0]
    else parts[0] + sep + Join(sep, parts[1..])
  }

  /** Joining the parts of a split with the separator gives back the
      original text: `sep.join(s.split(sep)) == s`. */
  lemma {:induction false} SplitJoin(s: string, sep: string)
    requires |sep| > 0
    ensures Join(sep, Split(s, sep)) == s
    decreases |s|
  {
    match Find(s, sep)
    case None =>
    case Some(i) =>
      var rest := s[i + |sep|..];
      var tail := Split(rest, sep);
      assert Split(s, sep) == [s[..i]] + tail by {
        SplitAt(s, sep, i);
      }
      JoinCons(sep, s[..i], tail);
      SplitJoin(rest, sep);
      Around(s, i, sep);
  }

  /** Joining a head and a non-empty tail puts one separator between them. */
  lemma JoinCons(sep: string, head: string, tail: seq<string>)
    requires |tail| >= 1
    ensures Join(sep, [head] + tail) == head + sep + Join(sep, tail)
  {
    assert ([head] + tail)[1..] == tail;
  }

  /** A string is what comes before an occurrence, the occurrence, and what
      comes after it. */
  lemma Around(s: string, i: nat, d: string)
    requires OccursAt(s, d, i)
    ensures s == s[..i] + d + s[i + |d|..]
  {
    assert s == s[..i] + s[i..i + |d|] + s[i + |d|..];
  }

  /** No part of a split contains the separator. */
  lemma {:induction false} SplitPartsFree(s: string, sep: string)
    requires |sep| > 0
    ensures forall k :: 0 <= k < |Split(s, sep)| ==> !Contains(Split(s, sep)[k], sep)
    decreases |s|
  {
    match Find(s, sep)
    case None =>
    case Some(i) =>
      var rest := s[i + |sep|..];
      SplitPartsFree(rest, sep);
      NoOccurrenceInInfix(s, sep, 0, i);
      assert s[0..i] == s[..i];
      var parts := Split(s, sep);
      assert parts == [s[..i]] + Split(rest, sep);
  }

  /** The first part of a split on a present separator is the text before
      its leftmost occurrence `i`. */
  lemma SplitFirstPart(s: string, sep: string, i: nat)
    requires |sep| > 0 && FirstFrom(s, sep, 0, i)
    ensures |Split(s, sep)| >= 2 && Split(s, sep)[0] == s[..i]
  {
    SplitAt(s, sep, i);
  }

  /** A split on a present separator is the text before its leftmost
      occurrence followed by the split of what comes after it. */
  lemma SplitAt(s: string, sep: string, i: nat)
    requires |sep| > 0 && FirstFrom(s, sep, 0, i)
    ensures Split(s, sep) == [s[..i]] + Split(s[i + |sep|..], sep)
  {
    FirstFromIsFind(s, sep, 0, i);
    assert Find(s, sep) == Some(i);
  }

  /** The second part of a split runs from the end of the leftmost
      occurrence `i` to the next occurrence `j`. */
  lemma SplitSecondPart(s: string, sep: string, i: nat, j: nat)
    requires |sep| > 0 && FirstFrom(s, sep, 0, i)
    requires FirstFrom(s, sep, i + |sep|, j)
    ensures |Split(s, sep)| >= 2 && Split(s, sep)[1] == s[i + |sep|..j]
  {
    var m := i + |sep|;
    FirstFromShift(s, sep, m, j);
    SplitFirstPart(s[m..], sep, j - m);
    PrefixOfSuffix(s, m, j);
    SplitSecondIsFirstOfRest(s, sep, i);
  }

  /** The second part of a split is the first part of the split of what
      follows the leftmost occurrence. */
  lemma SplitSecondIsFirstOfRest(s: string, sep: string, i: nat)
    requires |sep| > 0 && FirstFrom(s, sep, 0, i)
    ensures |Split(s, sep)| >= 2 && Split(s, sep)[1] == Split(s[i + |sep|..], sep)[0]
  {
    SplitAt(s, sep, i);
  }

  /** When the separator occurs only once, the second part of the split is
      everything after that occurrence. */
  lemma SplitSecondPartToEnd(s: string, sep: string, i: nat)
    requires |sep| > 0 && FirstFrom(s, sep, 0, i)
    requires forall k: nat :: i + |sep| <= k ==> !OccursAt(s, sep, k)
    ensures |Split(s, sep)| == 2 && Split(s, sep)[1] == s[i + |sep|..]
  {
    var m := i + |sep|;
    var rest := s[m..];
    assert Split(rest, sep) == [rest] by {
      forall k: nat
        ensures !OccursAt(rest, sep, k)
      {
        OccursShift(s, sep, m, k);
      }
      assert Find(rest, sep) == None;
    }
    assert Split(s, sep) == [s[..i]] + Split(rest, sep) by {
      SplitAt(s, sep, i);
    }
  }
}
