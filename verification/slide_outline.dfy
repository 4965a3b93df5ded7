/**
 * The slide-outline parser of the presentation cog: the tag scanner, the
 * removal of image spans, the slide-type test, the dispatch that turns each
 * `[SLIDEBREAK]` piece of the model's outline into a slide record, and the
 * file name made from the first slide's title. The generative model's reply
 * is a parameter; a slide is a record of its layout index and its fields.
 */
module SlideOutline {
  import opened Wrappers
  import opened PyStr

  // ---------------------------------------------------------------------------
  // find_text_in_between_tags
  // ---------------------------------------------------------------------------

  /** The between-texts the scanning loop collects from state `(sp, ep)`:
    * the slice after the start tag up to the end tag (empty when the end tag
    * comes first), then the next start tag after this end tag and the next
    * end tag after that start tag. An end tag that is non-empty moves `ep`
    * strictly forward, which is why the loop stops. */
  function Pieces(text: string, st: string, et: string, sp: int, ep: int): seq<string>
    requires |et| > 0 && ep <= |text|
    decreases if sp > -1 && ep > -1 then |text| + 1 - ep else 0
  {
    if sp > -1 && ep > -1 then
      var nsp := Find(text, st, ep + |et|);
      var nep := Find(text, et, nsp);
      [Slice(text, sp + |st|, ep)] + Pieces(text, st, et, nsp, nep)
    else []
  }

  /** The between-texts of the whole text, from the first start tag and the
    * first end tag. */
  function AllPieces(text: string, st: string, et: string): seq<string>
    requires |et| > 0
  {
    Pieces(text, st, et, Find(text, st, 0), Find(text, et, 0))
  }

  /** The concatenated between-texts with image spans removed, or "" when the
    * loop collected nothing. */
  function TextBetweenTags(text: string, st: string, et: string): string
    requires |et| > 0
  {
    var ps := AllPieces(text, st, et);
    if |ps| > 0 then StripImageSpans(Flatten(ps)) else ""
  }

  /** One round of the loop keeps its invariant: the texts collected so far
    * followed by those still to come from the next state are all the
    * between-texts, and a round that goes on moves the end position forward. */
  lemma PiecesStep(text: string, st: string, et: string, done: seq<string>, sp: int, ep: int)
    requires |et| > 0 && ep <= |text| && sp > -1 && ep > -1
    requires done + Pieces(text, st, et, sp, ep) == AllPieces(text, st, et)
    ensures var nsp := Find(text, st, ep + |et|);
      var nep := Find(text, et, nsp);
      && nep <= |text|
      && (nsp > -1 && nep > -1 ==> nep > ep)
      && (done + [Slice(text, sp + |st|, ep)]) + Pieces(text, st, et, nsp, nep) == AllPieces(text, st, et)
  {
    var nsp := Find(text, st, ep + |et|);
    var nep := Find(text, et, nsp);
    var between := Slice(text, sp + |st|, ep);
    assert Pieces(text, st, et, sp, ep) == [between] + Pieces(text, st, et, nsp, nep);
    assert (done + [between]) + Pieces(text, st, et, nsp, nep) == done + ([between] + Pieces(text, st, et, nsp, nep));
  }

  /** The scanning loop: collects the between-texts in order. */
  method CollectBetween(text: string, st: string, et: string) returns (result: seq<string>)
    requires |et| > 0
    ensures result == AllPieces(text, st, et)
  {
    var sp := Find(text, st, 0);
    var ep := Find(text, et, 0);
    result := [];
    assert result + Pieces(text, st, et, sp, ep) == AllPieces(text, st, et);
    while sp > -1 && ep > -1
      invariant ep <= |text|
      invariant result + Pieces(text, st, et, sp, ep) == AllPieces(text, st, et)
      decreases if sp > -1 && ep > -1 then |text| + 1 - ep else 0
    {
      var between := Slice(text, sp + |st|, ep);
      PiecesStep(text, st, et, result, sp, ep);
      result := result + [between];
      sp := Find(text, st, ep + |et|);
      ep := Find(text, et, sp);
    }
    assert Pieces(text, st, et, sp, ep) == [];
  }

  /** The whole scanner: the loop, then the join and the image-span removal. */
  method FindTextBetweenTags(text: string, st: string, et: string) returns (r: string)
    requires |et| > 0
    ensures r == TextBetweenTags(text, st, et)
  {
    var result := CollectBetween(text, st, et);
    var joined := Flatten(result);
    var cleaned := StripImageSpans(joined);
    if |result| > 0 {
      r := cleaned;
    } else {
      r := "";
    }
  }

  /** One step of the loop from a state inside it: the next end tag, when the
    * loop goes on, lies at least one end-tag length further on. */
  lemma StepAdvances(text: string, st: string, et: string, sp: int, ep: int)
    requires 0 <= sp && 0 <= ep
    ensures var nsp := Find(text, st, ep + |et|);
      var nep := Find(text, et, nsp);
      nsp > -1 && nep > -1 ==> nep >= nsp >= ep + |et|
  {
  }

  /** With an empty end tag the loop never stops once the start tag occurs:
    * after the first round the state `(p, p)` with `p` the first start tag is
    * mapped to itself. This is why the end tag must be non-empty. */
  lemma EmptyEndTagStalls(text: string, st: string)
    requires Contains(text, st)
    ensures var p := Find(text, st, 0);
      && p > -1 && Find(text, "", 0) == 0
      && Find(text, st, 0 + |""|) == p
      && Find(text, st, p + |""|) == p && Find(text, "", p) == p
  {
    var p := Find(text, st, 0);
    assert OccursAt(text, "", 0);
    assert OccursAt(text, "", p);
    FindIs(text, "", 0, 0);
    FindIs(text, "", p, p);
    FindIs(text, st, p, p);
  }

  /** The loop collects something exactly when both tags occur, so a missing
    * tag gives "". */
  lemma MissingTagGivesEmpty(text: string, st: string, et: string)
    requires |et| > 0
    ensures |AllPieces(text, st, et)| > 0 <==> Contains(text, st) && Contains(text, et)
    ensures !Contains(text, st) || !Contains(text, et) ==> TextBetweenTags(text, st, et) == ""
  {
  }

  /** When the first end tag ends before the first start tag's text begins,
    * the first between-text is empty. */
  lemma EndTagFirstGivesEmptyPiece(text: string, st: string, et: string)
    requires |et| > 0
    requires Find(text, st, 0) > -1 && Find(text, et, 0) > -1
    requires Find(text, et, 0) <= Find(text, st, 0) + |st|
    ensures |AllPieces(text, st, et)| > 0 && AllPieces(text, st, et)[0] == ""
  {
  }

  /** Tag positions for a text made of well-formed pairs: start tag `k`
    * at `starts[k]`, end tag `k` at `ends[k]` after it; no start tag between the
    * previous end tag (or the beginning) and `starts[k]`, no end tag before
    * `ends[k]` since `starts[k]` (for the first pair, since the beginning), and no
    * start tag after the last end tag. */
  ghost predicate TagLayout(text: string, st: string, et: string, starts: seq<nat>, ends: seq<nat>)
  {
    && |starts| == |ends| > 0
    && (forall k :: 0 < k < |starts| ==> ends[k - 1] + |et| <= starts[k])
    && (forall k :: 0 <= k < |starts| ==> OccursAt(text, st, starts[k]))
    && (forall k :: 0 <= k < |ends| ==> OccursAt(text, et, ends[k]))
    && (forall k :: 0 <= k < |starts| ==> starts[k] + |st| <= ends[k])
    && (forall m :: 0 <= m < starts[0] ==> !OccursAt(text, st, m))
    && (forall m :: 0 <= m < ends[0] ==> !OccursAt(text, et, m))
    && (forall k, m :: 0 < k < |starts| && ends[k - 1] + |et| <= m < starts[k] ==> !OccursAt(text, st, m))
    && (forall k, m :: 0 < k < |starts| && starts[k] <= m < ends[k] ==> !OccursAt(text, et, m))
    && (forall m :: ends[|ends| - 1] + |et| <= m ==> !OccursAt(text, st, m))
  }

  /** One round of the loop moves from pair `k` to pair `k + 1`, or stops
    * after the last pair. */
  lemma LayoutStep(text: string, st: string, et: string, starts: seq<nat>, ends: seq<nat>, k: nat)
    requires TagLayout(text, st, et, starts, ends) && k < |starts|
    ensures k + 1 < |starts| ==> Find(text, st, ends[k] + |et|) == starts[k + 1]
    ensures k + 1 < |starts| ==> Find(text, et, starts[k + 1]) == ends[k + 1]
    ensures k + 1 == |starts| ==> Find(text, st, ends[k] + |et|) == -1
  {
    assert OccursAt(text, et, ends[k]);
    if k + 1 < |starts| {
      assert OccursAt(text, st, starts[k + 1]);
      FindIs(text, st, ends[k] + |et|, starts[k + 1]);
      FindIs(text, et, starts[k + 1], ends[k + 1]);
    }
  }

  /** The texts between the tags of pairs `k`, `k + 1`, ... */
  function PairTexts(text: string, st: string, starts: seq<nat>, ends: seq<nat>, k: nat): seq<string>
    requires |starts| == |ends|
    decreases |starts| - k
  {
    if k >= |starts| then [] else [Slice(text, starts[k] + |st|, ends[k])] + PairTexts(text, st, starts, ends, k + 1)
  }

  lemma {:induction false} PiecesOfLayout(text: string, st: string, et: string,
                                          starts: seq<nat>, ends: seq<nat>, k: nat)
    requires |et| > 0 && TagLayout(text, st, et, starts, ends) && k < |starts|
    ensures ends[k] <= |text|
    ensures Pieces(text, st, et, starts[k], ends[k]) == PairTexts(text, st, starts, ends, k)
    decreases |starts| - k
  {
    assert OccursAt(text, st, starts[k]) && OccursAt(text, et, ends[k]);
    LayoutStep(text, st, et, starts, ends, k);
    var nsp := Find(text, st, ends[k] + |et|);
    var nep := Find(text, et, nsp);
    assert Pieces(text, st, et, starts[k], ends[k])
        == [Slice(text, starts[k] + |st|, ends[k])] + Pieces(text, st, et, nsp, nep);
    if k + 1 < |starts| {
      PiecesOfLayout(text, st, et, starts, ends, k + 1);
      assert nsp == starts[k + 1] && nep == ends[k + 1];
    } else {
      assert Pieces(text, st, et, nsp, nep) == [];
    }
  }

  /** For well-formed pairs the loop collects exactly the texts between the
    * tags, in document order; the result is their concatenation with image
    * spans removed. */
  lemma BetweenTagsOfLayout(text: string, st: string, et: string, starts: seq<nat>, ends: seq<nat>)
    requires |et| > 0 && TagLayout(text, st, et, starts, ends)
    ensures AllPieces(text, st, et) == PairTexts(text, st, starts, ends, 0)
    ensures TextBetweenTags(text, st, et) == StripImageSpans(Flatten(PairTexts(text, st, starts, ends, 0)))
  {
    assert OccursAt(text, st, starts[0]) && OccursAt(text, et, ends[0]);
    FindIs(text, st, 0, starts[0]);
    FindIs(text, et, 0, ends[0]);
    PiecesOfLayout(text, st, et, starts, ends, 0);
  }

  lemma {:induction false} PairTextsIndex(text: string, st: string, starts: seq<nat>, ends: seq<nat>, k: nat, i: nat)
    requires |starts| == |ends| && k <= i < |starts|
    ensures |PairTexts(text, st, starts, ends, k)| == |starts| - k
    ensures PairTexts(text, st, starts, ends, k)[i - k] == Slice(text, starts[i] + |st|, ends[i])
    decreases |starts| - k
  {
    if k < i {
      PairTextsIndex(text, st, starts, ends, k + 1, i);
    } else if k + 1 < |starts| {
      PairTextsIndex(text, st, starts, ends, k + 1, k + 1);
    }
  }

  /** The between-text of each pair is the slice strictly between its tags. */
  lemma PairTextsAt(text: string, st: string, et: string, starts: seq<nat>, ends: seq<nat>, i: nat)
    requires TagLayout(text, st, et, starts, ends) && i < |starts|
    ensures |PairTexts(text, st, starts, ends, 0)| == |starts|
    ensures starts[i] + |st| <= ends[i] <= |text|
    ensures PairTexts(text, st, starts, ends, 0)[i] == text[starts[i] + |st|..ends[i]]
  {
    assert OccursAt(text, et, ends[i]);
    PairTextsIndex(text, st, starts, ends, 0, i);
  }

  /** One pair with no image span inside: the result is exactly the text
    * between the tags. */
  lemma BetweenSinglePair(text: string, st: string, et: string, i: nat, j: nat)
    requires |et| > 0 && i + |st| <= j <= |text|
    requires TagLayout(text, st, et, [i], [j])
    requires !Contains(text[i + |st|..j], ImageOpen)
    ensures TextBetweenTags(text, st, et) == text[i + |st|..j]
  {
    BetweenTagsOfLayout(text, st, et, [i], [j]);
    var body := text[i + |st|..j];
    assert PairTexts(text, st, [i], [j], 0) == [body];
    FlattenOne(body);
    NoImageSpanKept(body);
  }

  // ---------------------------------------------------------------------------
  // re.sub(r"\[IMAGE\].*?\[/IMAGE\]", '', s)
  // ---------------------------------------------------------------------------

  const ImageOpen: string := "[IMAGE]"
  const ImageClose: string := "[/IMAGE]"

  /** For `s` that starts with `[IMAGE]`: the end of the shortest match at
    * index 0, which closes at the first `[/IMAGE]` after the opening tag
    * provided no newline comes before it (`.` does not match a newline);
    * -1 when there is no match at index 0. */
  function ImageSpanEnd(s: string): (r: int)
    ensures r == -1 || |ImageOpen| + |ImageClose| <= r <= |s|
  {
    if OccursAt(s, ImageOpen, 0) then
      var j := Find(s, ImageClose, |ImageOpen|);
      if j >= 0 && '\n' !in s[|ImageOpen|..j] then j + |ImageClose| else -1
    else -1
  }

  /** The substitution, scanning from the left: a match at the current
    * position is deleted whole, any other character is kept. */
  function StripImageSpans(s: string): (r: string)
    decreases |s|
    ensures |r| <= |s|
  {
    if |s| == 0 then []
    else if ImageSpanEnd(s) > 0 then StripImageSpans(s[ImageSpanEnd(s)..])
    else [s[0]] + StripImageSpans(s[1..])
  }

  /** Removing image spans only deletes characters. */
  lemma {:induction false} StripImageSpansSubseq(s: string)
    ensures Subseq(StripImageSpans(s), s)
    decreases |s|
  {
    if |s| > 0 {
      if ImageSpanEnd(s) > 0 {
        var j := ImageSpanEnd(s);
        StripImageSpansSubseq(s[j..]);
        SubseqSkipPrefix(StripImageSpans(s[j..]), s[..j], s[j..]);
        assert s[..j] + s[j..] == s;
      } else {
        StripImageSpansSubseq(s[1..]);
        SubseqSamePrefix([s[0]], StripImageSpans(s[1..]), s[1..]);
        assert [s[0]] + s[1..] == s;
      }
    }
  }

  /** A text without `[IMAGE]` is kept as it is. */
  lemma {:induction false} NoImageSpanKept(s: string)
    requires !Contains(s, ImageOpen)
    ensures StripImageSpans(s) == s
    decreases |s|
  {
    ContainsIff(s, ImageOpen);
    if |s| > 0 {
      assert !OccursAt(s, ImageOpen, 0);
      ContainsIff(s[1..], ImageOpen);
      forall k | OccursAt(s[1..], ImageOpen, k) ensures false {
        OccursInSuffix(s, ImageOpen, 1, k);
      }
      NoImageSpanKept(s[1..]);
      assert [s[0]] + s[1..] == s;
    }
  }

  /** The first `[/IMAGE]` after an opening `[IMAGE]` is the one that follows
    * `m` when no `[/IMAGE]` starts inside `m`; the match then ends after it
    * unless `m` holds a newline. */
  lemma ImageSpanCloses(m: string, rest: string)
    requires Find(m + ImageClose, ImageClose, 0) == |m|
    ensures ImageSpanEnd(ImageOpen + m + ImageClose + rest)
         == if '\n' in m then -1 else |ImageOpen| + |m| + |ImageClose|
  {
    ImageSpanParts(m, rest);
  }

  lemma ImageSpanParts(m: string, rest: string)
    requires Find(m + ImageClose, ImageClose, 0) == |m|
    ensures var s := ImageOpen + m + ImageClose + rest;
      && OccursAt(s, ImageOpen, 0)
      && Find(s, ImageClose, |ImageOpen|) == |ImageOpen| + |m|
      && s[|ImageOpen|..|ImageOpen| + |m|] == m
  {
    var t := m + ImageClose;
    var s := ImageOpen + m + ImageClose + rest;
    assert s == ImageOpen + t + rest;
    OccursInMiddle([], ImageOpen, t + rest, ImageOpen, 0);
    assert [] + ImageOpen + (t + rest) == s;
    FindInMiddle(ImageOpen, t, rest, ImageClose);
    SliceOfMiddle(ImageOpen, t, rest, 0, |m|);
    assert t[0..|m|] == m;
  }

  /** A span on one line in which no `[/IMAGE]` starts before its own closing
    * tag is deleted whole. */
  lemma ImageSpanRemoved(m: string, rest: string)
    requires Find(m + ImageClose, ImageClose, 0) == |m| && '\n' !in m
    ensures StripImageSpans(ImageOpen + m + ImageClose + rest) == StripImageSpans(rest)
  {
    var s := ImageOpen + m + ImageClose + rest;
    ImageSpanCloses(m, rest);
    assert s[|ImageOpen| + |m| + |ImageClose|..] == rest;
  }

  /** A span that crosses a newline is not matched: its opening bracket
    * stays. */
  lemma ImageSpanAcrossLineKept(m: string, rest: string)
    requires Find(m + ImageClose, ImageClose, 0) == |m| && '\n' in m
    ensures var r := StripImageSpans(ImageOpen + m + ImageClose + rest); |r| > 0 && r[0] == '['
  {
    ImageSpanCloses(m, rest);
  }

  /** Text in which no `[IMAGE]` starts passes through the substitution. */
  lemma {:induction false} ImageSpansPlainPrefix(a: string, rest: string)
    requires forall k :: 0 <= k < |a| ==> !OccursAt(a + rest, ImageOpen, k)
    ensures StripImageSpans(a + rest) == a + StripImageSpans(rest)
    decreases |a|
  {
    if |a| > 0 {
      NoSpanStartsInTail(a, rest);
      ImageSpansPlainPrefix(a[1..], rest);
      ImageSpansKeepFirst(a + rest);
      ConcatTail(a, rest);
      ConsOntoTail(a, StripImageSpans(a[1..] + rest), StripImageSpans(rest));
    } else {
      assert a + rest == rest;
    }
  }

  /** The head and tail of `a + rest` for non-empty `a`. */
  lemma ConcatTail(a: string, rest: string)
    requires |a| > 0
    ensures (a + rest)[0] == a[0] && (a + rest)[1..] == a[1..] + rest
  {
  }

  /** Putting back the first character of `a` in front of `a[1..] + t`. */
  lemma ConsOntoTail(a: string, x: string, t: string)
    requires |a| > 0 && x == a[1..] + t
    ensures [a[0]] + x == a + t
  {
    assert a == [a[0]] + a[1..];
  }

  /** A character where no span starts is kept. */
  lemma ImageSpansKeepFirst(s: string)
    requires |s| > 0 && !OccursAt(s, ImageOpen, 0)
    ensures StripImageSpans(s) == [s[0]] + StripImageSpans(s[1..])
  {
  }

  lemma NoSpanStartsInTail(a: string, rest: string)
    requires |a| > 0
    requires forall k :: 0 <= k < |a| ==> !OccursAt(a + rest, ImageOpen, k)
    ensures forall k :: 0 <= k < |a| - 1 ==> !OccursAt(a[1..] + rest, ImageOpen, k)
  {
    var s := a + rest;
    assert s[1..] == a[1..] + rest;
    forall k | 0 <= k < |a| - 1 ensures !OccursAt(a[1..] + rest, ImageOpen, k) {
      OccursInSuffix(s, ImageOpen, 1, k);
    }
  }

  /** So a one-line span is deleted wherever it stands after text in which
    * no span starts. */
  lemma ImageSpanRemovedAfter(a: string, m: string, rest: string)
    requires forall k :: 0 <= k < |a| ==> !OccursAt(a + ImageOpen, ImageOpen, k)
    requires Find(m + ImageClose, ImageClose, 0) == |m| && '\n' !in m
    ensures StripImageSpans(a + ImageOpen + m + ImageClose + rest) == a + StripImageSpans(rest)
  {
    var span := ImageOpen + m + ImageClose + rest;
    assert a + ImageOpen + m + ImageClose + rest == a + span;
    forall k | 0 <= k < |a| ensures !OccursAt(a + span, ImageOpen, k) {
      assert a + ImageOpen + (m + ImageClose + rest) == a + span;
      if OccursAt(a + span, ImageOpen, k) {
        OccursWithinPrefix(a + ImageOpen, m + ImageClose + rest, ImageOpen, k);
      }
    }
    ImageSpansPlainPrefix(a, span);
    ImageSpanRemoved(m, rest);
  }

  /** For instance, a span after a bracketed word goes and the word stays. */
  lemma ImageSpanAfterBracketedWord()
    ensures StripImageSpans("[x] " + ImageOpen + "cat" + ImageClose + "!") == "[x] !"
  {
    var a := "[x] ";
    forall k | 0 <= k < |a| ensures !OccursAt(a + ImageOpen, ImageOpen, k) {
      assert (a + ImageOpen)[k + 1] != ImageOpen[1];
    }
    var t := "cat" + ImageClose;
    assert OccursAt(t, ImageClose, 3);
    forall k | 0 <= k < 3 ensures !OccursAt(t, ImageClose, k) {
      assert t[k] != ImageClose[0];
    }
    FindIs("cat" + ImageClose, ImageClose, 0, 3);
    ImageSpanRemovedAfter(a, "cat", "!");
    NoImageSpanKept("!");
  }

  // ---------------------------------------------------------------------------
  // search_for_slide_type
  // ---------------------------------------------------------------------------

  const TitleTag: string := "[L_TS]"
  const ContentTag: string := "[L_CS]"
  const ImageTag: string := "[L_IS]"
  const ThanksTag: string := "[L_THS]"

  const SlideTags: seq<string> := [TitleTag, ContentTag, ImageTag, ThanksTag]

  /** The four tags differ (in their fourth or fifth character). */
  lemma SlideTagsDistinct()
    ensures TitleTag != ContentTag && TitleTag != ImageTag && TitleTag != ThanksTag
    ensures ContentTag != ImageTag && ContentTag != ThanksTag && ImageTag != ThanksTag
  {
    assert TitleTag[3] == 'T' && ContentTag[3] == 'C' && ImageTag[3] == 'I' && ThanksTag[3] == 'T';
    assert TitleTag[4] == 'S' && ThanksTag[4] == 'H';
  }

  /** The index of the first tag of `tags` that occurs in `text`. */
  function FirstContained(tags: seq<string>, text: string): (r: Option<nat>)
    ensures r.Some? ==> r.value < |tags| && Contains(text, tags[r.value])
    ensures r.Some? ==> forall j :: 0 <= j < r.value ==> !Contains(text, tags[j])
    ensures r.None? <==> forall j :: 0 <= j < |tags| ==> !Contains(text, tags[j])
  {
    if |tags| == 0 then None
    else if Contains(text, tags[0]) then Some(0)
    else
      match FirstContained(tags[1..], text)
      case None => None
      case Some(k) => Some(k + 1)
  }

  /** The slide type of a piece: the first of the four tags, in list order,
    * that occurs anywhere in it. */
  function SlideType(text: string): Option<string>
  {
    match FirstContained(SlideTags, text)
    case None => None
    case Some(i) => Some(SlideTags[i])
  }

  /** Priority follows the list: a piece holding both the title tag and the
    * thanks tag is a title slide wherever the tags stand. */
  lemma SlideTypePriority(text: string, i: nat)
    requires i < |SlideTags| && Contains(text, SlideTags[i])
    ensures SlideType(text).Some?
    ensures forall j :: 0 <= j < |SlideTags| && SlideType(text) == Some(SlideTags[j]) ==> j <= i
  {
    var k := FirstContained(SlideTags, text).value;
    forall j | 0 <= j < |SlideTags| && SlideType(text) == Some(SlideTags[j]) ensures j <= i {
      assert SlideTags[j] == SlideTags[k];
    }
  }

  // ---------------------------------------------------------------------------
  // Slide records and the deck
  // ---------------------------------------------------------------------------

  /** A slide: the index of its layout in the theme, its title, the text of
    * its other placeholders by index, and the image search query. */
  datatype Slide = Slide(layout: nat, title: string, placeholders: map<nat, string>, imageQuery: Option<string>)

  function TitleSlide(title: string, subtitle: string): Slide
  {
    Slide(0, title, map[1 := subtitle], None)
  }

  function ContentSlide(title: string, content: string): Slide
  {
    Slide(1, title, map[1 := content], None)
  }

  /** The image goes where placeholder 1 stands, the content into placeholder 2. */
  function ImageSlide(title: string, content: string, query: string): Slide
  {
    Slide(8, title, map[2 := content], Some(query))
  }

  function ThanksSlide(title: string): Slide
  {
    Slide(2, title, map[], None)
  }

  const SlideBreak: string := "[SLIDEBREAK]"

  /** The field tags the outline prompt asks the model to put around each field. */
  const TitleOpen: string := "[TITLE]"
  const TitleClose: string := "[/TITLE]"
  const SubtitleOpen: string := "[SUBTITLE]"
  const SubtitleClose: string := "[/SUBTITLE]"
  const ContentOpen: string := "[CONTENT]"
  const ContentClose: string := "[/CONTENT]"

  /** The slide one piece of the outline produces, if any. */
  function SlideFor(piece: string): Option<Slide>
  {
    match SlideType(piece)
    case None => None
    case Some(tag) =>
      var title := TextBetweenTags(piece, TitleOpen, TitleClose);
      if tag == TitleTag then Some(TitleSlide(title, TextBetweenTags(piece, SubtitleOpen, SubtitleClose)))
      else if tag == ContentTag then Some(ContentSlide(title, TextBetweenTags(piece, ContentOpen, ContentClose)))
      else if tag == ImageTag then
        Some(ImageSlide(title, TextBetweenTags(piece, ContentOpen, ContentClose),
                        TextBetweenTags(piece, ImageOpen, ImageClose)))
      else if tag == ThanksTag then Some(ThanksSlide(title))
      else None
  }

  /** The slides of the pieces, in order. */
  function SlidesFor(pieces: seq<string>): seq<Slide>
  {
    if |pieces| == 0 then []
    else
      var p := pieces[|pieces| - 1];
      SlidesFor(pieces[..|pieces| - 1]) + (if SlideFor(p).Some? then [SlideFor(p).value] else [])
  }

  const Layouts: seq<nat> := [0, 1, 8, 2]

  /** A piece produces a slide exactly when it carries one of the four tags,
    * and the slide uses the layout of the tag that wins: 0, 1, 8 or 2 for a
    * title, content, image or thanks slide. */
  lemma SlideForLayout(piece: string)
    ensures SlideFor(piece).Some? <==> SlideType(piece).Some?
    ensures forall i :: 0 <= i < |SlideTags| && SlideType(piece) == Some(SlideTags[i]) ==>
              SlideFor(piece).value.layout == Layouts[i]
  {
    SlideTagsDistinct();
    forall i | 0 <= i < |SlideTags| && SlideType(piece) == Some(SlideTags[i])
      ensures SlideFor(piece).value.layout == Layouts[i]
    {
      if i == 0 {
        assert SlideType(piece) == Some(TitleTag);
      } else if i == 1 {
        assert SlideType(piece) == Some(ContentTag);
      } else if i == 2 {
        assert SlideType(piece) == Some(ImageTag);
      } else {
        assert SlideType(piece) == Some(ThanksTag);
      }
    }
  }

  lemma SlidesForSnoc(pieces: seq<string>, p: string)
    ensures SlidesFor(pieces + [p]) == SlidesFor(pieces) + (if SlideFor(p).Some? then [SlideFor(p).value] else [])
  {
    assert (pieces + [p])[..|pieces|] == pieces;
  }

  /** The slides of consecutive pieces come in the order of the pieces. */
  lemma {:induction false} SlidesForAppend(a: seq<string>, b: seq<string>)
    ensures SlidesFor(a + b) == SlidesFor(a) + SlidesFor(b)
    decreases |b|
  {
    if |b| == 0 {
      assert a + b == a;
    } else {
      var init, last := b[..|b| - 1], b[|b| - 1];
      assert a + b == (a + init) + [last];
      assert b == init + [last];
      SlidesForSnoc(a + init, last);
      SlidesForSnoc(init, last);
      SlidesForAppend(a, init);
    }
  }

  /** Pieces carrying none of the four tags produce no slide; in any case
    * there are never more slides than pieces. */
  lemma {:induction false} SlidesForCount(pieces: seq<string>)
    ensures |SlidesFor(pieces)| <= |pieces|
    ensures (forall k :: 0 <= k < |pieces| ==> SlideType(pieces[k]).None?) ==> SlidesFor(pieces) == []
    decreases |pieces|
  {
    if |pieces| > 0 {
      var init := pieces[..|pieces| - 1];
      SlidesForCount(init);
      SlideForLayout(pieces[|pieces| - 1]);
      if forall k :: 0 <= k < |pieces| ==> SlideType(pieces[k]).None? {
        assert forall k :: 0 <= k < |init| ==> init[k] == pieces[k];
      }
    }
  }

  /** The presentation being built. */
  class Deck {
    var slides: seq<Slide>

    /** A presentation opened from the theme, which comes with `existing`. */
    constructor (existing: seq<Slide>)
      ensures slides == existing
    {
      slides := existing;
    }

    /** Removing the slides from the last to the first. */
    method RemoveAllSlides()
      modifies this
      ensures slides == []
    {
      var i := |slides| - 1;
      while i >= 0
        invariant -1 <= i < |slides|
        invariant |slides| == i + 1
      {
        slides := slides[..i] + slides[i + 1..];
        i := i - 1;
      }
    }

    method AddTitleSlide(title: string, subtitle: string)
      modifies this
      ensures slides == old(slides) + [TitleSlide(title, subtitle)]
    {
      slides := slides + [TitleSlide(title, subtitle)];
    }

    method AddSectionHeaderSlide(title: string)
      modifies this
      ensures slides == old(slides) + [ThanksSlide(title)]
    {
      slides := slides + [ThanksSlide(title)];
    }

    method AddTitleAndContentSlide(title: string, content: string)
      modifies this
      ensures slides == old(slides) + [ContentSlide(title, content)]
    {
      slides := slides + [ContentSlide(title, content)];
    }

    method AddTitleContentImageSlide(title: string, content: string, query: string)
      modifies this
      ensures slides == old(slides) + [ImageSlide(title, content, query)]
    {
      slides := slides + [ImageSlide(title, content, query)];
    }

    /** The dispatch on the slide type of one piece. */
    method AddSlideFor(piece: string)
      modifies this
      ensures slides == old(slides) + (if SlideFor(piece).Some? then [SlideFor(piece).value] else [])
    {
      var kind := SlideType(piece);
      SlideTagsDistinct();
      if kind == Some(TitleTag) {
        var title := FindTextBetweenTags(piece, TitleOpen, TitleClose);
        var subtitle := FindTextBetweenTags(piece, SubtitleOpen, SubtitleClose);
        assert SlideFor(piece) == Some(TitleSlide(title, subtitle));
        AddTitleSlide(title, subtitle);
      } else if kind == Some(ContentTag) {
        var title := FindTextBetweenTags(piece, TitleOpen, TitleClose);
        var content := FindTextBetweenTags(piece, ContentOpen, ContentClose);
        assert SlideFor(piece) == Some(ContentSlide(title, content));
        AddTitleAndContentSlide(title, content);
      } else if kind == Some(ImageTag) {
        assert SlideFor(piece) == Some(ImageSlide(TextBetweenTags(piece, TitleOpen, TitleClose),
          TextBetweenTags(piece, ContentOpen, ContentClose), TextBetweenTags(piece, ImageOpen, ImageClose)));
        var title := FindTextBetweenTags(piece, TitleOpen, TitleClose);
        var content := FindTextBetweenTags(piece, ContentOpen, ContentClose);
        var query := FindTextBetweenTags(piece, ImageOpen, ImageClose);
        assert SlideFor(piece) == Some(ImageSlide(title, content, query));
        AddTitleContentImageSlide(title, content, query);
      } else if kind == Some(ThanksTag) {
        var title := FindTextBetweenTags(piece, TitleOpen, TitleClose);
        assert SlideFor(piece) == Some(ThanksSlide(title));
        AddSectionHeaderSlide(title);
      } else {
        assert SlideFor(piece) == None;
      }
    }

    /** The dispatch loop over the pieces of the reply. */
    method AddOutline(reply: string)
      modifies this
      ensures slides == old(slides) + SlidesFor(Split(reply, SlideBreak))
    {
      var pieces := Split(reply, SlideBreak);
      for i := 0 to |pieces|
        invariant slides == old(slides) + SlidesFor(pieces[..i])
      {
        var piece := pieces[i];
        assert pieces[..i + 1] == pieces[..i] + [piece];
        SlidesForSnoc(pieces[..i], piece);
        AddSlideFor(piece);
      }
      assert pieces[..|pieces|] == pieces;
    }

    /** `generate_ppt` after the model call: empty the theme's slides, add the
      * outline's slides, and name the file after the first slide's title. */
    method GeneratePpt(reply: string) returns (r: Result<string, PptError>)
      modifies this
      ensures slides == SlidesFor(Split(reply, SlideBreak))
      ensures r == PptFileName(slides)
    {
      RemoveAllSlides();
      AddOutline(reply);
      var title := FindTitle(slides);
      if title.None? {
        return Failure(NoSlides);
      }
      r := Success(FileTitle(title.value) + ".pptx");
    }
  }

  // ---------------------------------------------------------------------------
  // The file name
  // ---------------------------------------------------------------------------

  /** Reading the first slide's title fails when there is no slide. */
  datatype PptError = NoSlides

  function FindTitle(slides: seq<Slide>): (r: Option<string>)
    ensures r.None? <==> |slides| == 0
    ensures r.Some? ==> r.value == slides[0].title
  {
    if |slides| == 0 then None else Some(slides[0].title)
  }

  /** Characters a file name may not hold. */
  const Forbidden: set<char> := {'<', '>', ':', '"', '/', '\\', '|', '?', '*'}

  const FallbackTitle: string := "Generated_Presentation"

  /** Colons removed (by splitting and joining), stripped, forbidden
    * characters removed, and the fallback for an empty result. */
  function FileTitle(title: string): string
  {
    var cleaned := RemoveChars(Strip(Flatten(Split(title, ":"))), Forbidden);
    if cleaned == [] then FallbackTitle else cleaned
  }

  lemma FallbackCharsSafe()
    ensures forall k :: 0 <= k < |FallbackTitle| ==> FallbackTitle[k] !in Forbidden
  {
  }

  lemma FallbackIsSafe()
    ensures FallbackTitle != [] && forall c :: c in FallbackTitle ==> c !in Forbidden
  {
    FallbackCharsSafe();
  }

  /** The file-name title is never empty, holds no forbidden character, and
    * is the fallback or what is left of the title after deleting characters. */
  lemma FileTitleSpec(title: string)
    ensures var r := FileTitle(title);
      && r != []
      && (forall c :: c in r ==> c !in Forbidden)
      && (r == FallbackTitle || Subseq(r, title))
  {
    var noColons := Flatten(Split(title, ":"));
    var stripped := Strip(noColons);
    var cleaned := RemoveChars(stripped, Forbidden);
    if cleaned == [] {
      FallbackIsSafe();
    } else {
      SplitFlattenSubseq(title, ":");
      StripSpec(noColons);
      RemoveCharsSubseq(stripped, Forbidden);
      SubseqTrans(stripped, noColons, title);
      SubseqTrans(cleaned, stripped, title);
    }
  }

  /** The file the command saves: the cleaned title with the `.pptx`
    * extension, or the error of an outline that produced no slide. */
  function PptFileName(slides: seq<Slide>): Result<string, PptError>
  {
    match FindTitle(slides)
    case None => Failure(NoSlides)
    case Some(t) => Success(FileTitle(t) + ".pptx")
  }

  /** A title that is already a safe name (non-empty, no forbidden character,
    * no space at either end) is used as it is. */
  lemma FileTitleKeepsSafeTitle(title: string)
    requires title != [] && (forall c :: c in title ==> c !in Forbidden)
    requires !IsSpace(title[0]) && !IsSpace(title[|title| - 1])
    ensures FileTitle(title) == title
  {
    assert !Contains(title, ":") by {
      ContainsIff(title, ":");
      forall k | OccursAt(title, ":", k) ensures false {
        OccursAtChar(title, ':', k);
      }
    }
    SplitWithoutSeparator(title, ":");
    FlattenOne(title);
    StripSpec(title);
  }
}
