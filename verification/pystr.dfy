/**
 * The Python `str` operations the bot relies on, over strings of code points
 * (Python indexes a `str` by code point, as Dafny indexes a `string`).
 */
module PyStr {

  // ---------------------------------------------------------------------------
  // Occurrence and str.find
  // ---------------------------------------------------------------------------

  /** `sub` occurs in `s` starting at index `i`. */
  predicate OccursAt(s: string, sub: string, i: int)
  {
    0 <= i && i + |sub| <= |s| && s[i..i + |sub|] == sub
  }

  /** The index where Python starts searching for `s.find(sub, start)`:
    * a negative start counts back from the end, clamped at 0. */
  function FindStart(s: string, start: int): nat
  {
    if start >= 0 then start else if |s| + start >= 0 then |s| + start else 0
  }

  /** The lowest index `k >= i` at which `sub` occurs in `s`, or -1. */
  function FindFrom(s: string, sub: string, i: nat): (r: int)
    requires i <= |s|
    decreases |s| - i
    ensures r == -1 || (i <= r && OccursAt(s, sub, r))
    ensures forall k :: i <= k && (r == -1 || k < r) ==> !OccursAt(s, sub, k)
  {
    if i + |sub| > |s| then -1
    else if s[i..i + |sub|] == sub then i
    else FindFrom(s, sub, i + 1)
  }

  /** Python's `s.find(sub, start)`: the lowest index at or after the
    * (normalised) start where `sub` occurs, or -1 when there is none. */
  function Find(s: string, sub: string, start: int): (r: int)
    ensures r == -1 || (FindStart(s, start) <= r && OccursAt(s, sub, r))
    ensures forall k :: FindStart(s, start) <= k && (r == -1 || k < r) ==> !OccursAt(s, sub, k)
  {
    var i := FindStart(s, start);
    if i > |s| then -1 else FindFrom(s, sub, i)
  }

  /** A found index is recognised by its occurrence and the absence of any earlier one. */
  lemma FindIs(s: string, sub: string, start: int, i: int)
    requires FindStart(s, start) <= i && OccursAt(s, sub, i)
    requires forall k :: FindStart(s, start) <= k < i ==> !OccursAt(s, sub, k)
    ensures Find(s, sub, start) == i
  {
  }

  /** A one-character string occurs exactly where that character stands. */
  lemma OccursAtChar(s: string, c: char, k: int)
    ensures OccursAt(s, [c], k) <==> 0 <= k < |s| && s[k] == c
  {
    if 0 <= k < |s| {
      assert s[k..k + 1] == [s[k]];
    }
  }

  /** Python's `sub in s`. */
  predicate Contains(s: string, sub: string)
  {
    Find(s, sub, 0) != -1
  }

  lemma ContainsIff(s: string, sub: string)
    ensures Contains(s, sub) <==> exists k :: OccursAt(s, sub, k)
  {
  }

  /** An occurrence inside a prefix is an occurrence in the whole string. */
  lemma OccursInPrefix(s: string, sub: string, n: nat, k: int)
    requires n <= |s| && OccursAt(s[..n], sub, k)
    ensures OccursAt(s, sub, k) && k + |sub| <= n
  {
    assert s[..n][k..k + |sub|] == s[k..k + |sub|];
  }

  /** An occurrence in `p + r` that ends within `p` is one in `p`. */
  lemma OccursWithinPrefix(p: string, r: string, sub: string, k: int)
    requires OccursAt(p + r, sub, k) && k + |sub| <= |p|
    ensures OccursAt(p, sub, k)
  {
    assert (p + r)[k..k + |sub|] == p[k..k + |sub|];
  }

  /** Occurrences in a suffix `s[d..]` are the occurrences in `s` shifted by `d`. */
  lemma OccursInSuffix(s: string, sub: string, d: nat, k: int)
    requires d <= |s|
    ensures OccursAt(s[d..], sub, k) <==> (k >= 0 && OccursAt(s, sub, d + k))
  {
    if 0 <= k && k + |sub| <= |s| - d {
      assert s[d..][k..k + |sub|] == s[d + k..d + k + |sub|];
    }
  }

  // ---------------------------------------------------------------------------
  // Slicing, joining and splitting
  // ---------------------------------------------------------------------------

  function Min(a: int, b: int): int
  {
    if a <= b then a else b
  }

  /** Python's `s[a:b]` for non-negative bounds: both are clamped to the
    * length, and the slice is empty when the end is not after the start. */
  function Slice(s: string, a: nat, b: nat): (r: string)
    ensures a <= b <= |s| ==> r == s[a..b]
    ensures a <= |s| < b ==> r == s[a..]
    ensures b <= a || |s| <= a ==> r == []
    ensures |r| <= |s|
  {
    var lo := Min(a, |s|);
    var hi := Min(b, |s|);
    if lo <= hi then s[lo..hi] else []
  }

  /** A slice of a suffix is a slice of the whole text, shifted. */
  lemma SliceOfSuffix(s: string, d: nat, a: nat, b: nat)
    requires d <= |s| && a <= b <= |s| - d
    ensures s[d..][a..b] == s[d + a..d + b]
  {
    forall k | 0 <= k < b - a
      ensures s[d..][a..b][k] == s[d + a..d + b][k]
    {
      assert s[d..][a..b][k] == s[d + a + k];
    }
  }

  /** A slice of a prefix is the same slice of the whole text. */
  lemma SliceOfPrefix(s: string, n: nat, a: nat, b: nat)
    requires a <= b <= n <= |s|
    ensures s[..n][a..b] == s[a..b]
  {
    forall k | 0 <= k < b - a
      ensures s[..n][a..b][k] == s[a..b][k]
    {
      assert s[..n][a..b][k] == s[a + k];
    }
  }

  /** A slice inside the middle part of a concatenation is a slice of that part. */
  lemma SliceOfMiddle(p: string, t: string, r: string, a: nat, b: nat)
    requires a <= b <= |t|
    ensures (p + t + r)[|p| + a..|p| + b] == t[a..b]
  {
    forall k | 0 <= k < b - a
      ensures (p + t + r)[|p| + a..|p| + b][k] == t[a..b][k]
    {
      assert (p + t + r)[|p| + a + k] == t[a + k];
    }
  }

  /** An occurrence inside the middle part of a concatenation is one in the whole. */
  lemma OccursInMiddle(p: string, t: string, r: string, sub: string, i: int)
    requires 0 <= i && i + |sub| <= |t|
    ensures OccursAt(p + t + r, sub, |p| + i) <==> OccursAt(t, sub, i)
  {
    SliceOfMiddle(p, t, r, i, i + |sub|);
  }

  /** The first occurrence in `t` is the first one in `p + t + r` from `|p|` on. */
  lemma FindInMiddle(p: string, t: string, r: string, sub: string)
    requires Find(t, sub, 0) >= 0
    ensures Find(p + t + r, sub, |p|) == |p| + Find(t, sub, 0)
  {
    var s := p + t + r;
    var j := Find(t, sub, 0);
    OccursInMiddle(p, t, r, sub, j);
    forall k | |p| <= k < |p| + j ensures !OccursAt(s, sub, k) {
      OccursInMiddle(p, t, r, sub, k - |p|);
    }
    FindIs(s, sub, |p|, |p| + j);
  }

  /** Python's `"".join(parts)`. */
  function Flatten(parts: seq<string>): string
  {
    if |parts| == 0 then [] else parts[0] + Flatten(parts[1..])
  }

  lemma FlattenOne(s: string)
    ensures Flatten([s]) == s
  {
    assert Flatten([s]) == s + Flatten([]);
  }

  lemma {:induction false} FlattenAppend(a: seq<string>, b: seq<string>)
    ensures Flatten(a + b) == Flatten(a) + Flatten(b)
  {
    if |a| == 0 {
      assert a + b == b;
    } else {
      assert (a + b)[1..] == a[1..] + b;
      FlattenAppend(a[1..], b);
    }
  }

  /** Python's `sep.join(parts)`. */
  function Join(sep: string, parts: seq<string>): string
  {
    if |parts| == 0 then []
    else if |parts| == 1 then parts[0]
    else parts[0] + sep + Join(sep, parts[1..])
  }

  /** Python's `s.split(sep)` for a non-empty separator (Python raises on an
    * empty one): the pieces between the non-overlapping occurrences of `sep`
    * found from left to right. */
  function Split(s: string, sep: string): seq<string>
    requires |sep| > 0
    decreases |s|
  {
    var i := Find(s, sep, 0);
    if i == -1 then [s] else [s[..i]] + Split(s[i + |sep|..], sep)
  }

  /** There is at least one piece, and no piece holds the separator. */
  lemma {:induction false} SplitSpec(s: string, sep: string)
    requires |sep| > 0
    ensures |Split(s, sep)| >= 1
    ensures forall p, k :: 0 <= p < |Split(s, sep)| ==> !OccursAt(Split(s, sep)[p], sep, k)
    decreases |s|
  {
    var i := Find(s, sep, 0);
    if i != -1 {
      NothingBeforeFirst(s, sep, i);
      var tail := Split(s[i + |sep|..], sep);
      SplitSpec(s[i + |sep|..], sep);
      assert Split(s, sep) == [s[..i]] + tail;
      forall p, k | 0 < p < |Split(s, sep)| ensures !OccursAt(Split(s, sep)[p], sep, k) {
        assert Split(s, sep)[p] == tail[p - 1];
      }
    }
  }

  /** Nothing occurs in the prefix before the first occurrence. */
  lemma NothingBeforeFirst(s: string, sub: string, i: int)
    requires |sub| > 0 && 0 <= i && i == Find(s, sub, 0)
    ensures i <= |s| && forall k :: !OccursAt(s[..i], sub, k)
  {
    forall k | OccursAt(s[..i], sub, k) ensures false {
      OccursInPrefix(s, sub, i, k);
    }
  }

  /** Joining the pieces of a split with the same separator gives back the string. */
  lemma {:induction false} SplitJoin(s: string, sep: string)
    requires |sep| > 0
    ensures Join(sep, Split(s, sep)) == s
    decreases |s|
  {
    var i := Find(s, sep, 0);
    if i != -1 {
      var rest := s[i + |sep|..];
      var tail := Split(rest, sep);
      assert Split(s, sep) == [s[..i]] + tail;
      SplitJoin(rest, sep);
      assert ([s[..i]] + tail)[1..] == tail;
      assert Join(sep, Split(s, sep)) == s[..i] + sep + Join(sep, tail);
      assert s[i..i + |sep|] == sep;
      assert s == s[..i] + sep + rest;
    }
  }

  /** A string with no separator in it is split into itself alone. */
  lemma SplitWithoutSeparator(s: string, sep: string)
    requires |sep| > 0 && !Contains(s, sep)
    ensures Split(s, sep) == [s]
  {
  }

  /** Joining with "" the pieces of a split deletes the separators only:
    * the result is a subsequence of the string. */
  lemma {:induction false} SplitFlattenSubseq(s: string, sep: string)
    requires |sep| > 0
    ensures Subseq(Flatten(Split(s, sep)), s)
    decreases |s|
  {
    var i := Find(s, sep, 0);
    if i == -1 {
      assert Split(s, sep) == [s];
      FlattenOne(s);
      SubseqRefl(s);
    } else {
      SplitFirst(s, sep);
      var head, rest := s[..i], s[i + |sep|..];
      var tail := Split(rest, sep);
      FlattenAppend([head], tail);
      FlattenOne(head);
      SplitFlattenSubseq(rest, sep);
      SubseqAroundGap(head, Flatten(tail), sep, rest);
    }
  }

  /** The first piece of a split that finds the separator, and the rest. */
  lemma SplitFirst(s: string, sep: string)
    requires |sep| > 0 && Find(s, sep, 0) != -1
    ensures var i := Find(s, sep, 0);
      && i + |sep| <= |s|
      && Split(s, sep) == [s[..i]] + Split(s[i + |sep|..], sep)
      && s == s[..i] + sep + s[i + |sep|..]
  {
    SplitAround(s, sep, Find(s, sep, 0));
  }

  /** A text is what stands before an occurrence, the occurrence, and what
    * stands after it. */
  lemma SplitAround(s: string, sep: string, i: int)
    requires OccursAt(s, sep, i)
    ensures s == s[..i] + sep + s[i + |sep|..]
  {
    assert s == s[..i] + s[i..i + |sep|] + s[i + |sep|..];
  }

  /** Deleting a gap between a kept prefix and a subsequence of the rest. */
  lemma SubseqAroundGap(head: string, x: string, gap: string, rest: string)
    requires Subseq(x, rest)
    ensures Subseq(head + x, head + gap + rest)
  {
    SubseqSkipPrefix(x, gap, rest);
    SubseqSamePrefix(head, x, gap + rest);
    assert head + (gap + rest) == head + gap + rest;
  }

  /** Python's `s.endswith(suffix)`. */
  predicate EndsWith(s: string, suffix: string)
  {
    |suffix| <= |s| && s[|s| - |suffix|..] == suffix
  }

  /** The characters a suffix match lines up. */
  lemma EndsWithAt(s: string, suffix: string, k: nat)
    requires EndsWith(s, suffix) && k < |suffix|
    ensures s[|s| - |suffix| + k] == suffix[k]
  {
    assert s[|s| - |suffix|..][k] == suffix[k];
  }

  // ---------------------------------------------------------------------------
  // Case mapping (ASCII letters only)
  // ---------------------------------------------------------------------------

  function LowerChar(c: char): char
  {
    if 'A' <= c <= 'Z' then (c as int + 32) as char else c
  }

  function UpperChar(c: char): char
  {
    if 'a' <= c <= 'z' then (c as int - 32) as char else c
  }

  predicate IsUpper(c: char) { 'A' <= c <= 'Z' }

  predicate IsLower(c: char) { 'a' <= c <= 'z' }

  /** Python's `s.lower()`, restricted to the ASCII letters: no upper-case
    * letter is left, each one becomes the letter 32 code points on, and every
    * other character stays where it was. */
  function Lower(s: string): (r: string)
    ensures |r| == |s|
    ensures forall k :: 0 <= k < |r| ==> !IsUpper(r[k])
    ensures forall k :: 0 <= k < |s| && IsUpper(s[k]) ==> r[k] as int == s[k] as int + 32
    ensures forall k :: 0 <= k < |s| && !IsUpper(s[k]) ==> r[k] == s[k]
  {
    seq(|s|, k requires 0 <= k < |s| => LowerChar(s[k]))
  }

  lemma LowerIdempotent(s: string)
    ensures Lower(Lower(s)) == Lower(s)
  {
  }

  /** Python's `s.capitalize()`, restricted to the ASCII letters: the first
    * character upper case, the rest lower case. A lower-case first letter
    * moves 32 code points back, an upper-case later letter 32 on, and every
    * other character stays where it was. */
  function Capitalize(s: string): (r: string)
    ensures |r| == |s|
    ensures |s| > 0 ==> !IsLower(r[0])
    ensures forall k :: 1 <= k < |r| ==> !IsUpper(r[k])
    ensures |s| > 0 && IsLower(s[0]) ==> r[0] as int == s[0] as int - 32
    ensures |s| > 0 && !IsLower(s[0]) ==> r[0] == s[0]
    ensures forall k :: 1 <= k < |s| && IsUpper(s[k]) ==> r[k] as int == s[k] as int + 32
    ensures forall k :: 1 <= k < |s| && !IsUpper(s[k]) ==> r[k] == s[k]
  {
    if |s| == 0 then [] else [UpperChar(s[0])] + Lower(s[1..])
  }

  // ---------------------------------------------------------------------------
  // Whitespace and str.strip()
  // ---------------------------------------------------------------------------

  /** Python's `str.isspace()` for one character: the characters `strip()`
    * removes when given no argument. */
  predicate IsSpace(c: char)
  {
    c == ' ' || c == '\t' || c == '\n' || c == '\r' || c == '\U{0B}' || c == '\U{0C}'
    || ('\U{1C}' <= c <= '\U{1F}') || c == '\U{85}' || c == '\U{A0}' || c == '\U{1680}'
    || ('\U{2000}' <= c <= '\U{200A}') || c == '\U{2028}' || c == '\U{2029}'
    || c == '\U{202F}' || c == '\U{205F}' || c == '\U{3000}'
  }

  /** The number of whitespace characters at the start of `s`. */
  function LeadingSpaces(s: string): (n: nat)
    decreases |s|
    ensures n <= |s|
  {
    if |s| > 0 && IsSpace(s[0]) then 1 + LeadingSpaces(s[1..]) else 0
  }

  /** The length of `s` without its trailing whitespace. */
  function TrimmedEnd(s: string): (n: nat)
    decreases |s|
    ensures n <= |s|
  {
    if |s| > 0 && IsSpace(s[|s| - 1]) then TrimmedEnd(s[..|s| - 1]) else |s|
  }

  function Max(a: int, b: int): int
  {
    if a <= b then b else a
  }

  /** Python's `s.strip()`: the window from the first character that is not
    * whitespace to the last one, or "" when there is none (then the leading
    * whitespace is the whole string). */
  function Strip(s: string): string
  {
    s[LeadingSpaces(s)..Max(LeadingSpaces(s), TrimmedEnd(s))]
  }

  /** `lstrip` removes exactly the leading whitespace. */
  lemma {:induction false} LeadingSpacesSpec(s: string)
    ensures forall k :: 0 <= k < LeadingSpaces(s) ==> IsSpace(s[k])
    ensures LeadingSpaces(s) < |s| ==> !IsSpace(s[LeadingSpaces(s)])
    decreases |s|
  {
    if |s| > 0 && IsSpace(s[0]) {
      LeadingSpacesSpec(s[1..]);
      forall k | 1 <= k < LeadingSpaces(s) ensures IsSpace(s[k]) {
        assert s[k] == s[1..][k - 1];
      }
    }
  }

  /** `rstrip` removes exactly the trailing whitespace. */
  lemma {:induction false} TrimmedEndSpec(s: string)
    ensures forall k :: TrimmedEnd(s) <= k < |s| ==> IsSpace(s[k])
    ensures TrimmedEnd(s) > 0 ==> !IsSpace(s[TrimmedEnd(s) - 1])
    decreases |s|
  {
    if |s| > 0 && IsSpace(s[|s| - 1]) {
      TrimmedEndSpec(s[..|s| - 1]);
    }
  }

  /** The first non-space character comes before the end of the trimmed
    * string, so the window of `strip` is `s[i..j]` with `i <= j` whenever
    * there is a non-space character. */
  lemma StripBounds(s: string)
    ensures var i, j := LeadingSpaces(s), TrimmedEnd(s);
      && (forall k :: 0 <= k < i ==> IsSpace(s[k]))
      && (forall k :: j <= k < |s| ==> IsSpace(s[k]))
      && (i < |s| ==> i < j && !IsSpace(s[i]) && !IsSpace(s[j - 1]))
      && (i == |s| ==> Strip(s) == [])
      && (i < |s| ==> Strip(s) == s[i..j])
  {
    LeadingSpacesSpec(s);
    TrimmedEndSpec(s);
    var i, j := LeadingSpaces(s), TrimmedEnd(s);
    if i < |s| {
      assert !IsSpace(s[i]);
    }
  }

  /** A string that starts with a non-space keeps its first character. */
  lemma StripKeepsFirst(s: string)
    requires |s| > 0 && !IsSpace(s[0])
    ensures |Strip(s)| > 0 && Strip(s)[0] == s[0]
  {
    StripBounds(s);
  }

  /** What stripping keeps and removes: the result is the piece of the input
    * between its leading and its trailing whitespace, neither starts nor ends
    * with a space, is empty exactly when the input is all spaces, and a
    * string that already has no space at either end is kept as it is. */
  lemma StripSpec(s: string)
    ensures var r := Strip(s);
      && (exists i, j :: 0 <= i <= j <= |s| && r == s[i..j]
            && (forall k :: 0 <= k < i ==> IsSpace(s[k]))
            && (forall k :: j <= k < |s| ==> IsSpace(s[k])))
      && (|r| > 0 ==> !IsSpace(r[0]) && !IsSpace(r[|r| - 1]))
      && Subseq(r, s)
      && (r == [] <==> forall k :: 0 <= k < |s| ==> IsSpace(s[k]))
      && ((|s| == 0 || (!IsSpace(s[0]) && !IsSpace(s[|s| - 1]))) ==> r == s)
  {
    var i, j := LeadingSpaces(s), TrimmedEnd(s);
    StripBounds(s);
    if i < |s| {
      SubseqInfix(s, i, j);
      if !IsSpace(s[0]) && !IsSpace(s[|s| - 1]) {
        assert i == 0 && j == |s|;
        assert s[0..|s|] == s;
      }
    } else {
      SubseqInfix(s, |s|, |s|);
      assert Strip(s) == s[|s|..|s|];
    }
  }

  // ---------------------------------------------------------------------------
  // Deleting characters
  // ---------------------------------------------------------------------------

  /** `re.sub('[...]', '', s)` for a character class: delete every character of `bad`. */
  function RemoveChars(s: string, bad: set<char>): (r: string)
    decreases |s|
    ensures forall c :: c in r ==> c in s && c !in bad
    ensures (forall c :: c in s ==> c !in bad) ==> r == s
    ensures |r| <= |s|
  {
    if |s| == 0 then []
    else if s[0] in bad then RemoveChars(s[1..], bad)
    else [s[0]] + RemoveChars(s[1..], bad)
  }

  /** Every character outside `bad` is kept as often as it occurs. */
  lemma {:induction false} RemoveCharsKeepsOthers(s: string, bad: set<char>)
    ensures forall c :: c !in bad ==> multiset(RemoveChars(s, bad))[c] == multiset(s)[c]
    decreases |s|
  {
    if |s| > 0 {
      RemoveCharsKeepsOthers(s[1..], bad);
      assert s == [s[0]] + s[1..];
      assert multiset(s) == multiset([s[0]]) + multiset(s[1..]);
      if s[0] !in bad {
        var r := RemoveChars(s[1..], bad);
        assert multiset([s[0]] + r) == multiset([s[0]]) + multiset(r);
      }
    }
  }

  lemma {:induction false} RemoveCharsSubseq(s: string, bad: set<char>)
    ensures Subseq(RemoveChars(s, bad), s)
    decreases |s|
  {
    if |s| > 0 {
      RemoveCharsSubseq(s[1..], bad);
      if s[0] in bad {
        SubseqSkipPrefix(RemoveChars(s[1..], bad), [s[0]], s[1..]);
      } else {
        SubseqSamePrefix([s[0]], RemoveChars(s[1..], bad), s[1..]);
      }
      assert [s[0]] + s[1..] == s;
    }
  }

  // ---------------------------------------------------------------------------
  // Subsequences: what is left after deleting characters
  // ---------------------------------------------------------------------------

  /** `a` is obtained from `b` by deleting characters. */
  predicate Subseq(a: string, b: string)
    decreases |b|
  {
    if |a| == 0 then true
    else if |b| == 0 then false
    else (a[0] == b[0] && Subseq(a[1..], b[1..])) || Subseq(a, b[1..])
  }

  lemma {:induction false} SubseqRefl(a: string)
    ensures Subseq(a, a)
    decreases |a|
  {
    if |a| > 0 {
      SubseqRefl(a[1..]);
    }
  }

  /** Deleting a whole prefix `p` of `b` keeps a subsequence. */
  lemma {:induction false} SubseqSkipPrefix(a: string, p: string, b: string)
    requires Subseq(a, b)
    ensures Subseq(a, p + b)
    decreases |p|
  {
    if |p| > 0 && |a| > 0 {
      SubseqSkipPrefix(a, p[1..], b);
      var c := p + b;
      assert c[1..] == p[1..] + b;
      assert Subseq(a, c[1..]);
    } else if |p| == 0 {
      assert p + b == b;
    }
  }

  /** A common prefix can be kept on both sides. */
  lemma {:induction false} SubseqSamePrefix(p: string, a: string, b: string)
    requires Subseq(a, b)
    ensures Subseq(p + a, p + b)
    decreases |p|
  {
    if |p| > 0 {
      SubseqSamePrefix(p[1..], a, b);
      var c, d := p + a, p + b;
      assert c[1..] == p[1..] + a && d[1..] == p[1..] + b;
      assert c[0] == d[0] && Subseq(c[1..], d[1..]);
    } else {
      assert p + a == a && p + b == b;
    }
  }

  lemma {:induction false} SubseqTrans(a: string, b: string, c: string)
    requires Subseq(a, b) && Subseq(b, c)
    ensures Subseq(a, c)
    decreases |c|
  {
    if |a| == 0 {
    } else if |b| == 0 {
    } else if Subseq(b, c[1..]) {
      SubseqTrans(a, b, c[1..]);
    } else {
      assert b[0] == c[0] && Subseq(b[1..], c[1..]);
      if a[0] == b[0] && Subseq(a[1..], b[1..]) {
        SubseqTrans(a[1..], b[1..], c[1..]);
      } else {
        SubseqTrans(a, b[1..], c[1..]);
      }
    }
  }

  /** Every slice is a subsequence. */
  lemma {:induction false} SubseqInfix(s: string, i: nat, j: nat)
    requires i <= j <= |s|
    ensures Subseq(s[i..j], s)
    decreases |s|
  {
    if i > 0 {
      SubseqInfix(s[1..], i - 1, j - 1);
      SliceOfSuffix(s, 1, i - 1, j - 1);
      SubseqSkipPrefix(s[i..j], [s[0]], s[1..]);
      assert [s[0]] + s[1..] == s;
    } else if j < |s| {
      SubseqInfix(s[..|s| - 1], 0, j);
      SliceOfPrefix(s, |s| - 1, 0, j);
      SubseqDropLast(s[0..j], s);
    } else {
      SubseqRefl(s);
      assert s[0..|s|] == s;
    }
  }

  /** A subsequence of all but the last character is a subsequence. */
  lemma {:induction false} SubseqDropLast(a: string, s: string)
    requires |s| > 0 && Subseq(a, s[..|s| - 1])
    ensures Subseq(a, s)
    decreases |s|
  {
    if |a| > 0 {
      var t := s[..|s| - 1];
      if |s| > 1 {
        assert t[1..] == s[1..][..|s[1..]| - 1];
        if a[0] == t[0] && Subseq(a[1..], t[1..]) {
          SubseqDropLast(a[1..], s[1..]);
        } else {
          SubseqDropLast(a, s[1..]);
        }
      }
    }
  }

  /** A subsequence has no character its source lacks, and is no longer. */
  lemma {:induction false} SubseqChars(a: string, b: string)
    requires Subseq(a, b)
    ensures |a| <= |b|
    ensures forall c :: c in a ==> c in b
    decreases |b|
  {
    if |a| > 0 {
      if a[0] == b[0] && Subseq(a[1..], b[1..]) {
        SubseqChars(a[1..], b[1..]);
        assert a == [a[0]] + a[1..];
      } else {
        SubseqChars(a, b[1..]);
      }
      assert b == [b[0]] + b[1..];
    }
  }
}
