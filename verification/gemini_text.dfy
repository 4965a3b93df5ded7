/**
 * The pure text helpers of the chat cog: the markup sanitizer, the message
 * chunker and the image-attachment filter.
 */
module GeminiText {
  import opened PyStr

  // ---------------------------------------------------------------------------
  // clean_discord_message: re.sub(r'<[^>]+>', '', s)
  // ---------------------------------------------------------------------------

  /** The index of the `>` that closes a token starting at index 0 of `s`, or
    * a value below 2 when no token starts there: `[^>]+` needs at least one
    * character before the first `>` that follows the `<`. */
  function TokenClose(s: string): int
  {
    if |s| > 0 && s[0] == '<' then Find(s, ">", 1) else -1
  }

  /** A token `<...>` starts at index 0 of `s`. */
  predicate TokenAtStart(s: string)
  {
    TokenClose(s) > 1
  }

  /** The regex substitution, scanning from the left: a token at the current
    * position is deleted through its closing `>`, any other character is kept. */
  function Clean(s: string): string
    decreases |s|
  {
    if |s| == 0 then []
    else if TokenAtStart(s) then Clean(s[TokenClose(s) + 1..])
    else [s[0]] + Clean(s[1..])
  }

  /** Cleaning never lengthens the text. */
  lemma {:induction false} CleanShortens(s: string)
    ensures |Clean(s)| <= |s|
    decreases |s|
  {
    if |s| > 0 {
      if TokenAtStart(s) {
        CleanShortens(s[TokenClose(s) + 1..]);
      } else {
        CleanShortens(s[1..]);
      }
    }
  }

  /** A text without `<` is returned unchanged. */
  lemma {:induction false} CleanWithoutOpen(s: string)
    requires '<' !in s
    ensures Clean(s) == s
    decreases |s|
  {
    if |s| > 0 {
      assert s[0] != '<' && '<' !in s[1..];
      CleanWithoutOpen(s[1..]);
      assert [s[0]] + s[1..] == s;
    }
  }

  /** `s` holds no token: every `<` that has some `>` after it is followed
    * immediately by a `>`, so `[^>]+` cannot match. */
  ghost predicate TokenFree(s: string)
  {
    forall i, j :: 0 <= i < j < |s| && s[i] == '<' && s[j] == '>' ==> s[i + 1] == '>'
  }

  /** Cleaning only deletes characters. */
  lemma {:induction false} CleanSubseq(s: string)
    ensures Subseq(Clean(s), s)
    decreases |s|
  {
    if |s| > 0 {
      if TokenAtStart(s) {
        var j := TokenClose(s);
        CleanSubseq(s[j + 1..]);
        SubseqSkipPrefix(Clean(s[j + 1..]), s[..j + 1], s[j + 1..]);
        assert s[..j + 1] + s[j + 1..] == s;
      } else {
        CleanSubseq(s[1..]);
        SubseqSamePrefix([s[0]], Clean(s[1..]), s[1..]);
        assert [s[0]] + s[1..] == s;
      }
    }
  }

  /** A string without tokens is left as it is. */
  lemma {:induction false} CleanKeepsTokenFree(s: string)
    requires TokenFree(s)
    ensures Clean(s) == s
    decreases |s|
  {
    if |s| > 0 {
      if s[0] == '<' {
        var j := Find(s, ">", 1);
        if j != -1 {
          assert OccursAt(s, ">", j);
          assert s[j] == '>' by { assert s[j..j + 1] == ">"; }
          assert s[1] == '>';
          assert OccursAt(s, ">", 1) by { assert s[1..2] == [s[1]]; }
          assert j == 1;
        }
      }
      assert !TokenAtStart(s);
      assert TokenFree(s[1..]) by {
        forall i, j | 0 <= i < j < |s| - 1 && s[1..][i] == '<' && s[1..][j] == '>'
          ensures s[1..][i + 1] == '>'
        {
          assert s[i + 1] == '<' && s[j + 1] == '>';
        }
      }
      CleanKeepsTokenFree(s[1..]);
      assert [s[0]] + s[1..] == s;
    }
  }

  /** Cleaning introduces no character: one absent from the input is absent
    * from the result. */
  lemma CleanKeepsOnlyInputChars(s: string, c: char)
    requires c !in s
    ensures c !in Clean(s)
  {
    CleanSubseq(s);
    SubseqChars(Clean(s), s);
  }

  /** A `<` that is kept has either no `>` anywhere after it or a `>` right after it. */
  lemma KeptOpen(s: string)
    requires |s| > 0 && s[0] == '<' && !TokenAtStart(s)
    ensures '>' !in s[1..] || (|s| > 1 && s[1] == '>')
  {
    var j := Find(s, ">", 1);
    if j == -1 {
      forall k | 1 <= k < |s| ensures s[k] != '>' {
        if s[k] == '>' {
          assert s[k..k + 1] == ">";
          assert OccursAt(s, ">", k);
        }
      }
    } else {
      assert j == 1 && s[1..2] == ">";
    }
  }

  /** Putting a character in front of a token-free string keeps it token-free
    * unless it is a `<` that starts a token. */
  lemma TokenFreeCons(c: char, r: string)
    requires TokenFree(r)
    requires c == '<' ==> '>' !in r || (|r| > 0 && r[0] == '>')
    ensures TokenFree([c] + r)
  {
    var out := [c] + r;
    forall i, j | 0 <= i < j < |out| && out[i] == '<' && out[j] == '>'
      ensures out[i + 1] == '>'
    {
      if i > 0 {
        assert r[i - 1] == '<' && r[j - 1] == '>';
      } else {
        assert r[j - 1] == '>';
      }
    }
  }

  /** Cleaning leaves no token behind. */
  lemma {:induction false} CleanIsTokenFree(s: string)
    ensures TokenFree(Clean(s))
    decreases |s|
  {
    if |s| > 0 {
      if TokenAtStart(s) {
        CleanIsTokenFree(s[TokenClose(s) + 1..]);
      } else {
        var t := s[1..];
        CleanIsTokenFree(t);
        if s[0] == '<' {
          KeptOpen(s);
          if '>' !in t {
            CleanKeepsOnlyInputChars(t, '>');
          } else {
            assert t[0] == '>';
            assert Clean(t) == [t[0]] + Clean(t[1..]);
          }
        }
        TokenFreeCons(s[0], Clean(t));
      }
    }
  }

  /** Cleaning twice is cleaning once, and a string is left unchanged exactly
    * when it holds no token. */
  lemma CleanIdempotent(s: string)
    ensures Clean(Clean(s)) == Clean(s)
    ensures Clean(s) == s <==> TokenFree(s)
  {
    CleanIsTokenFree(s);
    CleanKeepsTokenFree(Clean(s));
    if TokenFree(s) {
      CleanKeepsTokenFree(s);
    }
  }

  /** A first character other than `<` is always kept. */
  lemma CleanKeepsHead(c: char, t: string)
    requires c != '<'
    ensures Clean([c] + t) == [c] + Clean(t)
  {
    assert ([c] + t)[1..] == t;
  }

  /** Text without `<` in front of the rest is kept as it is. */
  lemma {:induction false} CleanPlainPrefix(a: string, rest: string)
    requires '<' !in a
    ensures Clean(a + rest) == a + Clean(rest)
    decreases |a|
  {
    if |a| > 0 {
      CleanPlainPrefix(a[1..], rest);
      assert a + rest == [a[0]] + (a[1..] + rest);
      CleanKeepsHead(a[0], a[1..] + rest);
    } else {
      assert a + rest == rest;
    }
  }

  /** A token `<m>` with at least one character and no `>` inside is deleted whole. */
  lemma CleanToken(m: string, rest: string)
    requires |m| > 0 && '>' !in m
    ensures Clean("<" + m + ">" + rest) == Clean(rest)
  {
    var s := "<" + m + ">" + rest;
    var j := |m| + 1;
    OccursAtChar(s, '>', j);
    forall k | 1 <= k < j ensures !OccursAt(s, ">", k) {
      OccursAtChar(s, '>', k);
      assert s[k] == m[k - 1];
    }
    FindIs(s, ">", 1, j);
    assert s[j + 1..] == rest;
  }

  /** `<>` is no token (`[^>]+` needs at least one character): both are kept. */
  lemma CleanEmptyBrackets(rest: string)
    ensures Clean("<>" + rest) == "<>" + Clean(rest)
  {
    var s := "<>" + rest;
    assert s[0] == '<' && s[1] == '>';
    OccursAtChar(s, '>', 1);
    FindIs(s, ">", 1, 1);
    assert !TokenAtStart(s);
    assert Clean(s) == [s[0]] + Clean(s[1..]);
    assert s[1..] == [s[1]] + rest;
    CleanKeepsHead('>', rest);
  }

  // ---------------------------------------------------------------------------
  // split_and_send_messages: [text[i:i + n] for i in range(0, len(text), n)]
  // ---------------------------------------------------------------------------

  /** The pieces of `text` of `n` characters each, the last one possibly
    * shorter, in order. */
  function Chunks(text: string, n: nat): seq<string>
    requires n > 0
    decreases |text|
  {
    if |text| == 0 then []
    else if |text| <= n then [text]
    else [text[..n]] + Chunks(text[n..], n)
  }

  /** The chunks concatenate back to the text; each is non-empty and at most
    * `n` long; all but the last are exactly `n` long; there are none exactly
    * when the text is empty. */
  lemma {:induction false} ChunksSpec(text: string, n: nat)
    requires n > 0
    ensures var r := Chunks(text, n);
      && Flatten(r) == text
      && (forall k :: 0 <= k < |r| ==> 0 < |r[k]| <= n)
      && (forall k :: 0 <= k < |r| - 1 ==> |r[k]| == n)
      && (|r| == 0 <==> |text| == 0)
    decreases |text|
  {
    if |text| == 0 {
    } else if |text| <= n {
      FlattenOne(text);
    } else {
      var rest := Chunks(text[n..], n);
      ChunksSpec(text[n..], n);
      var r := [text[..n]] + rest;
      assert r[1..] == rest;
      assert text[..n] + text[n..] == text;
    }
  }

  /** The first chunk starts with the first character of the text. */
  lemma ChunksFirst(text: string, n: nat)
    requires n > 0 && |text| > 0
    ensures |Chunks(text, n)| > 0 && Chunks(text, n)[0][0] == text[0]
  {
    ChunksSpec(text, n);
    var ms := Chunks(text, n);
    assert Flatten(ms) == ms[0] + Flatten(ms[1..]);
  }

  /** The chunk count `c` satisfies `(c - 1) * n < |text| <= c * n`. */
  lemma {:induction false} ChunkCountBounds(text: string, n: nat)
    requires n > 0 && |text| > 0
    ensures var c := |Chunks(text, n)|; (c - 1) * n < |text| <= c * n
    decreases |text|
  {
    if |text| > n {
      ChunksUnfold(text, n);
      ChunkCountBounds(text[n..], n);
      var c := |Chunks(text[n..], n)|;
      MulSucc(c - 1, n);
      MulSucc(c, n);
    }
  }

  /** The chunk count is the ceiling of |text| / n; an empty text has none. */
  lemma ChunkCount(text: string, n: nat)
    requires n > 0
    ensures |Chunks(text, n)| == (|text| + n - 1) / n
  {
    var c := |Chunks(text, n)|;
    if |text| > 0 {
      ChunkCountBounds(text, n);
      MulSucc(c - 1, n);
      MulSucc(c, n);
      DivBetween(|text| + n - 1, n, c);
    } else {
      assert (n - 1) / n == 0;
    }
  }

  /** `c * n <= x < (c + 1) * n` determines `x / n`. */
  lemma DivBetween(x: int, n: nat, c: int)
    requires n > 0 && c * n <= x < (c + 1) * n
    ensures x / n == c
  {
    var q, m := x / n, x % n;
    assert x == q * n + m && 0 <= m < n;
    assert (q + 1) * n == q * n + n;
    if q < c {
      MulMono(q + 1, c, n);
    } else if q > c {
      MulMono(c + 1, q, n);
    }
  }

  lemma MulMono(a: int, b: int, n: nat)
    requires a <= b
    ensures a * n <= b * n
  {
    assert b * n == a * n + (b - a) * n;
  }

  lemma ChunksUnfold(text: string, n: nat)
    requires 0 < n < |text|
    ensures Chunks(text, n) == [text[..n]] + Chunks(text[n..], n)
  {
  }

  lemma MulSucc(x: int, n: int)
    ensures (x + 1) * n == x * n + n
  {
  }

  /** `k * n` written as repeated addition, so that the induction below
    * stays linear. */
  function Offset(k: nat, n: nat): nat
  {
    if k == 0 then 0 else Offset(k - 1, n) + n
  }

  lemma {:induction false} OffsetIsProduct(k: nat, n: nat)
    ensures Offset(k, n) == k * n
  {
    if k > 0 {
      OffsetIsProduct(k - 1, n);
      MulSucc(k - 1, n);
    }
  }

  lemma {:induction false} ChunkAtOffset(text: string, n: nat, k: nat)
    requires n > 0 && k < |Chunks(text, n)|
    ensures Offset(k, n) < |text|
    ensures Chunks(text, n)[k] == text[Offset(k, n)..Min(Offset(k, n) + n, |text|)]
    decreases k
  {
    if |text| <= n {
      assert Chunks(text, n) == [text];
    } else if k == 0 {
      ChunksUnfold(text, n);
    } else {
      var rest := text[n..];
      ChunksUnfold(text, n);
      ChunkAtOffset(rest, n, k - 1);
      var a := Offset(k - 1, n);
      var b := Min(a + n, |rest|);
      assert Offset(k, n) == n + a;
      assert Min(Offset(k, n) + n, |text|) == n + b;
      assert Chunks(text, n)[k] == Chunks(rest, n)[k - 1];
      SliceOfSuffix(text, n, a, b);
    }
  }

  /** Chunk `k` is `text[k*n : k*n + n]`, the slice the list comprehension takes. */
  lemma ChunkAt(text: string, n: nat, k: nat)
    requires n > 0 && k < |Chunks(text, n)|
    ensures k * n < |text|
    ensures Chunks(text, n)[k] == text[k * n..Min(k * n + n, |text|)]
  {
    ChunkAtOffset(text, n, k);
    OffsetIsProduct(k, n);
  }


  // ---------------------------------------------------------------------------
  // The image-attachment filter
  // ---------------------------------------------------------------------------

  const ImageExtensions: seq<string> := [".png", ".jpg", ".jpeg", ".gif", ".webp"]

  /** `any(filename.lower().endswith(ext) for ext in [...])`. */
  predicate IsImage(filename: string)
  {
    exists ext :: ext in ImageExtensions && EndsWith(Lower(filename), ext)
  }

  /** The test ignores letter case: names that agree after lower-casing agree. */
  lemma IsImageIgnoresCase(filename: string)
    ensures IsImage(filename) == IsImage(Lower(filename))
  {
    LowerIdempotent(filename);
  }

  /** Any name ending in one of the listed extensions is an image. */
  lemma ImageByExtension(stem: string, ext: string)
    requires ext in ImageExtensions
    ensures IsImage(stem + ext)
  {
    var f := stem + ext;
    ExtensionsHaveNoUpper();
    assert Lower(f)[|f| - |ext|..] == ext by {
      forall k | 0 <= k < |ext| ensures Lower(f)[|f| - |ext| + k] == ext[k] {
        assert f[|stem| + k] == ext[k];
        assert !IsUpper(ext[k]);
      }
    }
  }

  lemma ExtensionsHaveNoUpper()
    ensures forall e, k :: e in ImageExtensions && 0 <= k < |e| ==> !IsUpper(e[k])
  {
  }

  /** An image name has at least four characters; lower-cased, its last
    * character is `g`, `f` or `p` and the one before it `n`, `p`, `e`, `i` or
    * `b`. So `a.bmp` (ending in `mp`) and `a.txt` are never sent to the image
    * model. */
  lemma ImageNameShape(filename: string)
    requires IsImage(filename)
    ensures |filename| >= 4
    ensures LowerChar(filename[|filename| - 1]) in {'g', 'f', 'p'}
    ensures LowerChar(filename[|filename| - 2]) in {'n', 'p', 'e', 'i', 'b'}
  {
    var low := Lower(filename);
    var ext :| ext in ImageExtensions && EndsWith(low, ext);
    ExtensionEnding(ext);
    EndsWithAt(low, ext, |ext| - 1);
    EndsWithAt(low, ext, |ext| - 2);
    assert low[|filename| - 1] == LowerChar(filename[|filename| - 1]);
    assert low[|filename| - 2] == LowerChar(filename[|filename| - 2]);
  }

  lemma ExtensionEnding(ext: string)
    requires ext in ImageExtensions
    ensures |ext| >= 4
    ensures ext[|ext| - 1] in {'g', 'f', 'p'}
    ensures ext[|ext| - 2] in {'n', 'p', 'e', 'i', 'b'}
  {
  }
}
