/**
 * The bulk-text question parser of the manual-entry page
 * (`parseQuestions`). The text is cut into blocks in front of every
 * `Q<digits>.`; a block's first line holds the prompt with optional
 * `[image: key]` and `[latex: expr]` tags, the following lines hold
 * `A.`..`D.` options and an `Answer:` letter. A block becomes a question
 * only with exactly four options and an answer; other blocks are dropped
 * without a message.
 *
 * The regular expressions of the source are written out as recognisers
 * that say whether a pattern matches at a given index, searched leftmost
 * first with `FirstMatch`.
 */
module BulkParser {
  import opened Wrappers
  import opened Text
  import opened Questions
  import opened Seqs

  // ---------------------------------------------------------------------
  // Block boundaries: `text.split(/(?=Q\d+\.)/)`
  // ---------------------------------------------------------------------

  /** `Q<digits>.` starts at index `i` of `s`; the result is the index of
      its dot. */
  function MarkerAt(s: string, i: nat): (r: Option<nat>)
    ensures r.Some? ==> i + 1 < r.value < |s| && s[i] == 'Q' && s[r.value] == '.'
    ensures r.Some? ==> forall k :: i < k < r.value ==> IsDigit(s[k])
  {
    if i + 1 < |s| && s[i] == 'Q' then
      var d := RunEnd(s, i + 1, IsDigit);
      if i + 1 < d < |s| && s[d] == '.' then Some(d) else None
    else None
  }

  /** The blocks of a bulk text: a cut in front of every index after the
      first where `Q<digits>.` starts. A lookahead split never cuts at
      index 0, and the empty text is one empty block. */
  function SplitBlocks(s: string): seq<string>
  {
    if |s| == 0 then [s] else BlocksFrom(s, 0, 1)
  }

  /** The blocks of `s[p..]`, where the current block started at `p` and
      the scan has reached `q`. */
  function BlocksFrom(s: string, p: nat, q: nat): (r: seq<string>)
    requires p < q <= |s|
    ensures |r| >= 1
    decreases |s| - q
  {
    if q == |s| then [s[p..]]
    else if MarkerAt(s, q).Some? then [s[p..q]] + BlocksFrom(s, q, q + 1)
    else BlocksFrom(s, p, q + 1)
  }

  /** A marker found inside a slice is a marker of the whole string. */
  lemma MarkerOfSlice(s: string, lo: nat, hi: nat, j: nat)
    requires lo + j <= hi <= |s|
    requires MarkerAt(s[lo..hi], j).Some?
    ensures MarkerAt(s, lo + j).Some?
  {
    var t := s[lo..hi];
    var d := MarkerAt(t, j).value;
    RunEndSlice(s, lo, hi, j + 1, IsDigit);
    assert t[d] == s[lo + d];
  }

  /** A marker of the whole string that starts a slice ending in front of
      another `Q` (or at the end) is a marker of the slice: the digits and
      the dot of a marker are not `Q`. */
  lemma MarkerStartsSlice(s: string, lo: nat, hi: nat)
    requires lo < hi <= |s|
    requires hi == |s| || s[hi] == 'Q'
    requires MarkerAt(s, lo).Some?
    ensures MarkerAt(s[lo..hi], 0).Some?
  {
    var d := MarkerAt(s, lo).value;
    assert d < hi;
    RunEndSlice(s, lo, hi, 1, IsDigit);
    assert s[lo..hi][d - lo] == s[d];
  }

  /** The blocks from `p` on, put back together, are `s[p..]`. */
  lemma {:induction false} BlocksFromConcat(s: string, p: nat, q: nat)
    requires p < q <= |s|
    ensures |BlocksFrom(s, p, q)| >= 1 && Concat(BlocksFrom(s, p, q)) == s[p..]
    decreases |s| - q
  {
    var bs := BlocksFrom(s, p, q);
    if q == |s| {
      assert bs == [s[p..]];
    } else if MarkerAt(s, q).Some? {
      var rest := BlocksFrom(s, q, q + 1);
      BlocksFromConcat(s, q, q + 1);
      assert bs == [s[p..q]] + rest;
      assert bs[1..] == rest;
      assert Concat(bs) == s[p..q] + s[q..] == s[p..];
    } else {
      BlocksFromConcat(s, p, q + 1);
    }
  }

  /** Every block from `p` on begins with a marker, except a first block
      that starts the text. */
  lemma {:induction false} BlocksFromMarkers(s: string, p: nat, q: nat)
    requires p < q <= |s|
    requires p == 0 || MarkerAt(s, p).Some?
    ensures var bs := BlocksFrom(s, p, q);
      && (p > 0 ==> MarkerAt(bs[0], 0).Some?)
      && (forall k :: 0 < k < |bs| ==> MarkerAt(bs[k], 0).Some?)
    decreases |s| - q
  {
    var bs := BlocksFrom(s, p, q);
    if q == |s| {
      if p > 0 {
        assert s[p..] == s[p..|s|];
        MarkerStartsSlice(s, p, |s|);
      }
    } else if MarkerAt(s, q).Some? {
      var rest := BlocksFrom(s, q, q + 1);
      BlocksFromMarkers(s, q, q + 1);
      assert bs == [s[p..q]] + rest;
      if p > 0 {
        MarkerStartsSlice(s, p, q);
      }
    } else {
      BlocksFromMarkers(s, p, q + 1);
    }
  }

  /** `block` holds no `Q<digits>.` after its first character. */
  predicate NoInnerMarker(block: string) {
    forall j :: 0 < j < |block| ==> MarkerAt(block, j).None?
  }

  /** No block from `p` on holds a marker after its first character. */
  lemma {:induction false} BlocksFromNoInner(s: string, p: nat, q: nat)
    requires p < q <= |s|
    requires forall j :: p < j < q ==> MarkerAt(s, j).None?
    ensures forall k :: 0 <= k < |BlocksFrom(s, p, q)| ==> NoInnerMarker(BlocksFrom(s, p, q)[k])
    decreases |s| - q
  {
    var bs := BlocksFrom(s, p, q);
    if q == |s| {
      assert bs == [s[p..]];
      forall j | 0 < j < |s[p..]| ensures MarkerAt(s[p..], j).None? {
        if MarkerAt(s[p..], j).Some? {
          assert s[p..] == s[p..|s|];
          MarkerOfSlice(s, p, |s|, j);
        }
      }
    } else if MarkerAt(s, q).Some? {
      var rest := BlocksFrom(s, q, q + 1);
      BlocksFromNoInner(s, q, q + 1);
      assert bs == [s[p..q]] + rest;
      forall j | 0 < j < |s[p..q]| ensures MarkerAt(s[p..q], j).None? {
        if MarkerAt(s[p..q], j).Some? {
          MarkerOfSlice(s, p, q, j);
        }
      }
      assert forall k :: 0 < k < |bs| ==> bs[k] == rest[k - 1];
    } else {
      BlocksFromNoInner(s, p, q + 1);
      assert bs == BlocksFrom(s, p, q + 1);
    }
  }

  /** Cutting a text into blocks loses nothing: the blocks put back together
      are the text. */
  lemma SplitBlocksConcat(s: string)
    ensures Concat(SplitBlocks(s)) == s
  {
    if |s| > 0 {
      BlocksFromConcat(s, 0, 1);
      assert SplitBlocks(s) == BlocksFrom(s, 0, 1);
    }
  }

  /** Every block after the first begins with `Q<digits>.`, wherever that
      marker stood in its line. */
  lemma SplitBlocksStartAtMarkers(s: string)
    ensures var bs := SplitBlocks(s); forall k :: 0 < k < |bs| ==> MarkerAt(bs[k], 0).Some?
  {
    if |s| > 0 {
      BlocksFromMarkers(s, 0, 1);
      assert SplitBlocks(s) == BlocksFrom(s, 0, 1);
    }
  }

  /** No block holds a `Q<digits>.` after its first character: every marker
      opens a block of its own. */
  lemma SplitBlocksHaveNoInnerMarker(s: string)
    ensures forall k :: 0 <= k < |SplitBlocks(s)| ==> NoInnerMarker(SplitBlocks(s)[k])
  {
    if |s| > 0 {
      BlocksFromNoInner(s, 0, 1);
      assert SplitBlocks(s) == BlocksFrom(s, 0, 1);
    }
  }

  // ---------------------------------------------------------------------
  // Line patterns
  // ---------------------------------------------------------------------

  /** `/Q\d+\.\s+(.*)/` matched at index `i`: the prompt it captures, which
      runs to the end of the line or to the first line terminator. */
  function HeaderAt(line: string, i: nat): Option<string>
  {
    match MarkerAt(line, i)
    case None => None
    case Some(d) =>
      var w := RunEnd(line, d + 1, IsSpace);
      if w > d + 1 then Some(line[w..RunEnd(line, w, NotLineTerminator)]) else None
  }

  function MatchHeader(line: string): Option<string> {
    match FirstMatch(line, HeaderAt, 0)
    case None => None
    case Some(m) => Some(m.1)
  }

  /** A tag matched at index `at`: all of it, and the captured body. */
  datatype TagMatch = TagMatch(at: nat, whole: string, body: string)

  const ImageOpen: string := "[image:"
  const LatexOpen: string := "[latex:"

  /** `/\[image:\s*([^\]]+)\]/` (with `open` the text before `\s*`)
      matched at index `i`. The body runs to the first `]`; it must not be
      empty, so a tag whose body is white space only captures its last
      white-space character. */
  function TagAt(s: string, i: nat, open: string): (r: Option<TagMatch>)
    ensures r.Some? ==> r.value.at == i && OccursAt(s, r.value.whole, i)
  {
    if OccursAt(s, open, i) then
      var from := i + |open|;
      match FindChar(s, ']', from)
      case None => None
      case Some(c) =>
        if c == from then None
        else
          var w := RunEnd(s, from, IsSpace);
          var start := if w < c then w else c - 1;
          Some(TagMatch(i, s[i..c + 1], s[start..c]))
    else None
  }

  /** The leftmost tag opened by `open`. */
  function MatchTag(s: string, open: string): Option<TagMatch>
  {
    match FirstMatch(s, (t: string, j: nat) => TagAt(t, j, open), 0)
    case None => None
    case Some(m) => Some(m.1)
  }

  /** `MatchTag` finds the leftmost tag. */
  lemma MatchTagLeftmost(s: string, open: string)
    ensures var r := MatchTag(s, open);
      && (r.Some? ==> TagAt(s, r.value.at, open) == r)
      && (r.Some? ==> forall j :: 0 <= j < r.value.at ==> TagAt(s, j, open).None?)
      && (r.None? ==> forall j :: 0 <= j < |s| ==> TagAt(s, j, open).None?)
  {
    var at := (t: string, j: nat) => TagAt(t, j, open);
    assert forall j: nat :: at(s, j) == TagAt(s, j, open);
    var m := FirstMatch(s, at, 0);
    FirstMatchLeftmost(s, at, 0);
    assert MatchTag(s, open) == if m.None? then None else Some(m.value.1);
  }

  /** Two equal slices of one string agree index by index. */
  lemma SameSlice(s: string, i: nat, r: nat, n: nat)
    requires i + n <= |s| && r + n <= |s| && s[r..r + n] == s[i..i + n]
    ensures forall k :: r <= k < r + n ==> s[k] == s[k - r + i]
  {
    forall k | r <= k < r + n
      ensures s[k] == s[k - r + i]
    {
      assert s[r..r + n][k - r] == s[i..i + n][k - r];
    }
  }

  /** Wherever the whole of a tag occurs again, a tag matches there too:
      the text of a tag holds no `]` before its last character. */
  lemma TagAtRepeats(s: string, open: string, i: nat, r: nat)
    requires TagAt(s, i, open).Some?
    requires OccursAt(s, TagAt(s, i, open).value.whole, r)
    ensures TagAt(s, r, open).Some?
  {
    var c := FindChar(s, ']', i + |open|).value;
    assert TagAt(s, i, open).value.whole == s[i..c + 1];
    CopiedTagText(s, open, i, r, c);
  }

  /** The text from an opening to its first `]`, copied to index `r`. */
  lemma CopiedTagText(s: string, open: string, i: nat, r: nat, c: nat)
    requires OccursAt(s, open, i) && FindChar(s, ']', i + |open|) == Some(c)
    requires r + (c + 1 - i) <= |s| && s[r..r + (c + 1 - i)] == s[i..c + 1]
    ensures OccursAt(s, open, r) && FindChar(s, ']', r + |open|) == Some(r + (c - i))
  {
    var n := c + 1 - i;
    SameSlice(s, i, r, n);
    assert s[r..r + |open|] == s[i..i + |open|];
    forall k | r + |open| <= k < r + (c - i)
      ensures s[k] != ']'
    {
      assert s[k] == s[k - r + i];
    }
    assert s[r + (c - i)] == s[c];
    FindCharIs(s, ']', r + |open|, r + (c - i));
  }

  /** Removing the first occurrence of a matched tag's text cuts out the
      tag that was matched, and no other part of the string. */
  lemma TagRemoval(s: string, open: string, m: TagMatch)
    requires MatchTag(s, open) == Some(m)
    ensures m.at + |m.whole| <= |s| && RemoveFirst(s, m.whole) == s[..m.at] + s[m.at + |m.whole|..]
  {
    assert OccursAt(s, m.whole, m.at) && IndexOf(s, m.whole, 0) == Some(m.at) by {
      TagFirstOccurrence(s, open, m);
    }
  }

  /** The text of the leftmost tag occurs nowhere before that tag. */
  lemma TagFirstOccurrence(s: string, open: string, m: TagMatch)
    requires MatchTag(s, open) == Some(m)
    ensures OccursAt(s, m.whole, m.at) && IndexOf(s, m.whole, 0) == Some(m.at)
  {
    assert TagAt(s, m.at, open) == Some(m) && forall j :: 0 <= j < m.at ==> TagAt(s, j, open).None? by {
      MatchTagLeftmost(s, open);
    }
    assert OccursAt(s, m.whole, m.at);
    forall j | 0 <= j < m.at
      ensures !OccursAt(s, m.whole, j)
    {
      if OccursAt(s, m.whole, j) {
        TagAtRepeats(s, open, m.at, j);
        assert false;
      }
    }
    IndexOfFirst(s, m.whole, m.at);
  }

  /** `/([A-D])\.\s+(.*)/` matched at index `i`: the option text. */
  function OptionLineAt(line: string, i: nat): Option<string>
  {
    if i + 2 <= |line| && 'A' <= line[i] <= 'D' && line[i + 1] == '.' then
      var w := RunEnd(line, i + 2, IsSpace);
      if w > i + 2 then Some(line[w..RunEnd(line, w, NotLineTerminator)]) else None
    else None
  }

  function MatchOptionLine(line: string): Option<string> {
    match FirstMatch(line, OptionLineAt, 0)
    case None => None
    case Some(m) => Some(m.1)
  }

  /** `/Answer:\s+([A-D])/` matched at index `i`: the letter as a
      zero-based option index. */
  function AnswerAt(line: string, i: nat): (r: Option<int>)
    ensures r.Some? ==> 0 <= r.value < 4
  {
    if OccursAt(line, "Answer:", i) then
      var w := RunEnd(line, i + 7, IsSpace);
      if i + 7 < w < |line| && 'A' <= line[w] <= 'D' then Some(line[w] as int - 'A' as int) else None
    else None
  }

  function MatchAnswer(line: string): (r: Option<int>)
    ensures r.Some? ==> 0 <= r.value < 4
  {
    match FirstMatch(line, AnswerAt, 0)
    case None => None
    case Some(m) => Some(m.1)
  }

  // ---------------------------------------------------------------------
  // One block
  // ---------------------------------------------------------------------

  /** An option or a question as the parser determines it, before the
      identifiers are drawn. */
  datatype OptionDraft = OptionDraft(text: string, latex: Option<string>)

  datatype QuestionDraft = QuestionDraft(
    text: string,
    latex: Option<string>,
    imagePath: Option<string>,
    options: seq<OptionDraft>,
    correctOptionIndex: int)

  datatype Prompt = Prompt(text: string, latex: Option<string>, imagePath: Option<string>)

  /** `images[key]` is truthy: the key is present and its data is not the
      empty string. */
  predicate Resolves(images: map<string, string>, key: string) {
    key in images && images[key] != ""
  }

  /** The prompt line's text, LaTeX and image. Both tags are looked for in
      the prompt as captured; the image tag is removed only when its key
      resolves, and the LaTeX tag is then removed from what is left. An
      empty LaTeX body counts as none. */
  function ReadPrompt(prompt: string, images: map<string, string>): Prompt
  {
    var imageTag := MatchTag(prompt, ImageOpen);
    var latexTag := MatchTag(prompt, LatexOpen);
    var resolved := imageTag.Some? && Resolves(images, Trim(imageTag.value.body));
    var afterImage := if resolved then Trim(RemoveFirst(prompt, imageTag.value.whole)) else prompt;
    var text := if latexTag.Some? then Trim(RemoveFirst(afterImage, latexTag.value.whole)) else afterImage;
    var latex := if latexTag.Some? && Trim(latexTag.value.body) != "" then Some(Trim(latexTag.value.body)) else None;
    Prompt(text, latex, if resolved then Some(images[Trim(imageTag.value.body)]) else None)
  }

  /** An option's text and LaTeX: without a tag the text is kept as it is. */
  function ReadOption(optionText: string): OptionDraft
  {
    match MatchTag(optionText, LatexOpen)
    case None => OptionDraft(optionText, None)
    case Some(m) => OptionDraft(Trim(RemoveFirst(optionText, m.whole)), Some(Trim(m.body)))
  }

  /** `block.split('\n').map(line => line.trim())` */
  function Lines(block: string): (ls: seq<string>)
    ensures |ls| >= 1
  {
    var parts := Split(block, '\n');
    seq(|parts|, k requires 0 <= k < |parts| => Trim(parts[k]))
  }

  /** The option a line contributes, if it matches the option pattern. */
  function LineOption(line: string): Option<OptionDraft> {
    match MatchOptionLine(line)
    case None => None
    case Some(t) => Some(ReadOption(t))
  }

  /** The options of `lines[1..n]`: the lines after a block's first, up to
      `n`. */
  function OptionsUpTo(lines: seq<string>, n: nat): seq<OptionDraft>
    requires n <= |lines|
  {
    if n <= 1 then []
    else match LineOption(lines[n - 1])
      case None => OptionsUpTo(lines, n - 1)
      case Some(o) => OptionsUpTo(lines, n - 1) + [o]
  }

  /** The answer a line gives: none for an option line, even one that
      also holds `Answer:`. */
  function AnswerOf(line: string): (r: Option<int>)
    ensures r.Some? ==> 0 <= r.value < 4
  {
    if MatchOptionLine(line).Some? then None else MatchAnswer(line)
  }

  /** The answer index `lines[1..n]` leave behind, starting from -1: a later
      answer overrides an earlier one. */
  function AnswerUpTo(lines: seq<string>, n: nat): (r: int)
    requires n <= |lines|
    ensures -1 <= r < 4
  {
    LastOf(lines, AnswerOf, 1, n, -1)
  }

  /** An option without a LaTeX tag keeps its text as it is. */
  lemma ReadOptionUntagged(optionText: string)
    requires MatchTag(optionText, LatexOpen).None?
    ensures ReadOption(optionText) == OptionDraft(optionText, None)
  {
  }

  /** With a LaTeX tag, the option's LaTeX is the tag's trimmed body and
      its text is what is left once that tag is cut out, trimmed. */
  lemma ReadOptionTag(optionText: string, m: TagMatch)
    requires MatchTag(optionText, LatexOpen) == Some(m)
    ensures m.at + |m.whole| <= |optionText|
    ensures ReadOption(optionText) == OptionDraft(Trim(optionText[..m.at] + optionText[m.at + |m.whole|..]), Some(Trim(m.body)))
  {
    var cut := RemoveFirst(optionText, m.whole);
    assert m.at + |m.whole| <= |optionText| && cut == optionText[..m.at] + optionText[m.at + |m.whole|..] by {
      TagRemoval(optionText, LatexOpen, m);
    }
    assert ReadOption(optionText) == OptionDraft(Trim(cut), Some(Trim(m.body)));
  }

  /** The prompt has an image exactly when its first image tag names a key
      whose data is not empty, and then the image is that data. */
  lemma ReadPromptImage(prompt: string, images: map<string, string>)
    ensures var p := ReadPrompt(prompt, images);
      var tag := MatchTag(prompt, ImageOpen);
      && (p.imagePath.Some? <==> tag.Some? && Resolves(images, Trim(tag.value.body)))
      && (p.imagePath.Some? ==> p.imagePath.value == images[Trim(tag.value.body)])
  {
  }

  /** Without a LaTeX tag, a resolved image tag is cut out of the prompt's
      text. */
  lemma ReadPromptImageCut(prompt: string, images: map<string, string>)
    requires MatchTag(prompt, LatexOpen).None?
    requires MatchTag(prompt, ImageOpen).Some?
    requires Resolves(images, Trim(MatchTag(prompt, ImageOpen).value.body))
    ensures var tag := MatchTag(prompt, ImageOpen).value;
      && tag.at + |tag.whole| <= |prompt|
      && ReadPrompt(prompt, images).text == Trim(prompt[..tag.at] + prompt[tag.at + |tag.whole|..])
  {
    var tag := MatchTag(prompt, ImageOpen).value;
    var cut := RemoveFirst(prompt, tag.whole);
    assert tag.at + |tag.whole| <= |prompt| && cut == prompt[..tag.at] + prompt[tag.at + |tag.whole|..] by {
      TagRemoval(prompt, ImageOpen, tag);
    }
    assert ReadPrompt(prompt, images).text == Trim(cut);
  }

  /** An image tag whose key does not resolve, or no image tag at all,
      leaves the prompt's text as it is when there is no LaTeX tag. */
  lemma ReadPromptImageKept(prompt: string, images: map<string, string>)
    requires MatchTag(prompt, LatexOpen).None?
    requires MatchTag(prompt, ImageOpen).None? || !Resolves(images, Trim(MatchTag(prompt, ImageOpen).value.body))
    ensures ReadPrompt(prompt, images) == Prompt(prompt, None, None)
  {
  }

  /** The prompt's LaTeX is the trimmed body of its first LaTeX tag, and
      there is none without a tag or with a body of white space only. */
  lemma ReadPromptLatex(prompt: string, images: map<string, string>)
    ensures var p := ReadPrompt(prompt, images);
      var tag := MatchTag(prompt, LatexOpen);
      && (p.latex.Some? <==> tag.Some? && Trim(tag.value.body) != "")
      && (p.latex.Some? ==> p.latex.value == Trim(tag.value.body) && !AllSpace(p.latex.value))
  {
    var tag := MatchTag(prompt, LatexOpen);
    if tag.Some? {
      TrimShape(tag.value.body);
    }
  }

  /** Without a resolved image tag, the first LaTeX tag is cut out of the
      prompt's text, which is then trimmed. */
  lemma ReadPromptLatexCut(prompt: string, images: map<string, string>, m: TagMatch)
    requires MatchTag(prompt, LatexOpen) == Some(m)
    requires MatchTag(prompt, ImageOpen).None? || !Resolves(images, Trim(MatchTag(prompt, ImageOpen).value.body))
    ensures m.at + |m.whole| <= |prompt|
    ensures ReadPrompt(prompt, images).text == Trim(prompt[..m.at] + prompt[m.at + |m.whole|..])
  {
    var cut := RemoveFirst(prompt, m.whole);
    assert m.at + |m.whole| <= |prompt| && cut == prompt[..m.at] + prompt[m.at + |m.whole|..] by {
      TagRemoval(prompt, LatexOpen, m);
    }
    assert ReadPrompt(prompt, images).text == Trim(cut);
  }

  /** With a resolved image tag and a LaTeX tag, the text is what is left
      of the prompt once the image tag is cut out and trimmed, with the
      LaTeX tag's text then replaced and the result trimmed again. */
  lemma ReadPromptBothTagsText(prompt: string, images: map<string, string>, tag: TagMatch, m: TagMatch)
    requires MatchTag(prompt, ImageOpen) == Some(tag) && Resolves(images, Trim(tag.body))
    requires MatchTag(prompt, LatexOpen) == Some(m)
    ensures tag.at + |tag.whole| <= |prompt|
    ensures ReadPrompt(prompt, images).text
      == Trim(RemoveFirst(Trim(prompt[..tag.at] + prompt[tag.at + |tag.whole|..]), m.whole))
  {
    var cut := RemoveFirst(prompt, tag.whole);
    assert tag.at + |tag.whole| <= |prompt| && cut == prompt[..tag.at] + prompt[tag.at + |tag.whole|..] by {
      TagRemoval(prompt, ImageOpen, tag);
    }
    assert ReadPrompt(prompt, images).text == Trim(RemoveFirst(Trim(cut), m.whole));
  }

  /** With a resolved image tag and a LaTeX tag, the image tag is cut out
      first; the first occurrence of the LaTeX tag's text in what is left
      is then cut out, and the result trimmed. When cutting the image tag
      destroyed every occurrence of the LaTeX tag's text, the text is the
      prompt without its image tag. */
  lemma ReadPromptBothTags(prompt: string, images: map<string, string>, tag: TagMatch, m: TagMatch)
    requires MatchTag(prompt, ImageOpen) == Some(tag) && Resolves(images, Trim(tag.body))
    requires MatchTag(prompt, LatexOpen) == Some(m)
    ensures tag.at + |tag.whole| <= |prompt|
    ensures CutFirst(Trim(prompt[..tag.at] + prompt[tag.at + |tag.whole|..]), m.whole, ReadPrompt(prompt, images).text)
  {
    ReadPromptBothTagsText(prompt, images, tag, m);
    ReplaceInTrimmed(prompt[..tag.at] + prompt[tag.at + |tag.whole|..], m.whole);
  }

  /** A line that is not an option but holds `Answer:` and a letter. */
  predicate AnswerLine(line: string) {
    AnswerOf(line).Some?
  }

  /** When several lines give an answer, the last one wins. */
  lemma LastAnswerWins(lines: seq<string>, n: nat, k: nat)
    requires n <= |lines| && 1 <= k < n && AnswerLine(lines[k])
    requires forall j :: k < j < n ==> !AnswerLine(lines[j])
    ensures AnswerUpTo(lines, n) == MatchAnswer(lines[k]).value
  {
    LastOfAt(lines, AnswerOf, 1, n, -1, k);
  }

  /** A block without an answer line yields nothing, however many options
      it has. */
  lemma NoAnswerNoQuestion(block: string, images: map<string, string>)
    requires forall k :: 1 <= k < |Lines(block)| ==> !AnswerLine(Lines(block)[k])
    ensures ParseBlock(block, images) == None
  {
    LastOfNone(Lines(block), AnswerOf, 1, |Lines(block)|, -1);
  }

  /** What one block yields. */
  function ParseBlock(block: string, images: map<string, string>): (r: Option<QuestionDraft>)
    ensures r.Some? ==> |r.value.options| == 4 && 0 <= r.value.correctOptionIndex < 4
  {
    if Trim(block) == "" then None
    else
      var lines := Lines(block);
      match MatchHeader(lines[0])
      case None => None
      case Some(prompt) =>
        Assemble(ReadPrompt(prompt, images), OptionsUpTo(lines, |lines|), AnswerUpTo(lines, |lines|))
  }

  /** A block is kept only with exactly four options and an answer. */
  function Assemble(p: Prompt, options: seq<OptionDraft>, correct: int): Option<QuestionDraft> {
    if |options| == 4 && correct >= 0 then
      Some(QuestionDraft(p.text, p.latex, p.imagePath, options, correct))
    else None
  }

  lemma ParseBlockEmpty(block: string, images: map<string, string>)
    requires Trim(block) == ""
    ensures ParseBlock(block, images) == None
  {
  }

  lemma ParseBlockHeaderless(block: string, images: map<string, string>, lines: seq<string>)
    requires Trim(block) != "" && lines == Lines(block) && MatchHeader(lines[0]) == None
    ensures ParseBlock(block, images) == None
  {
  }

  lemma ParseBlockOfHeader(block: string, images: map<string, string>, lines: seq<string>, prompt: string)
    requires Trim(block) != "" && lines == Lines(block) && MatchHeader(lines[0]) == Some(prompt)
    ensures ParseBlock(block, images)
      == Assemble(ReadPrompt(prompt, images), OptionsUpTo(lines, |lines|), AnswerUpTo(lines, |lines|))
  {
  }

  // ---------------------------------------------------------------------
  // The whole text
  // ---------------------------------------------------------------------

  /** The questions the blocks yield, in the order of the blocks. */
  function ParseBlocks(blocks: seq<string>, images: map<string, string>): seq<QuestionDraft> {
    FilterMap(blocks, block => ParseBlock(block, images))
  }

  /** Every question parsed has exactly four options and a correct index
      among them. */
  lemma ParsedQuestionsAreWellFormed(blocks: seq<string>, images: map<string, string>)
    ensures forall k :: 0 <= k < |ParseBlocks(blocks, images)| ==>
      |ParseBlocks(blocks, images)[k].options| == 4 && 0 <= ParseBlocks(blocks, images)[k].correctOptionIndex < 4
  {
    var qs := ParseBlocks(blocks, images);
    forall k | 0 <= k < |qs|
      ensures |qs[k].options| == 4 && 0 <= qs[k].correctOptionIndex < 4
    {
      FilterMapFrom(blocks, block => ParseBlock(block, images), k);
      var j :| 0 <= j < |blocks| && ParseBlock(blocks[j], images) == Some(qs[k]);
    }
  }

  /** The questions of a bulk text, before identifiers are drawn. */
  function ParseText(text: string, images: map<string, string>): seq<QuestionDraft> {
    ParseBlocks(SplitBlocks(text), images)
  }

  /** Blocks are read one by one: the questions of two runs of blocks are
      those of the first run followed by those of the second. */
  lemma ParseBlocksAppend(a: seq<string>, b: seq<string>, images: map<string, string>)
    ensures ParseBlocks(a + b, images) == ParseBlocks(a, images) + ParseBlocks(b, images)
  {
    FilterMapAppend(a, b, block => ParseBlock(block, images));
  }

  /** A block that yields nothing leaves the questions of its neighbours
      as they are. */
  lemma DroppedBlock(a: seq<string>, block: string, b: seq<string>, images: map<string, string>)
    requires ParseBlock(block, images).None?
    ensures ParseBlocks(a + [block] + b, images) == ParseBlocks(a + b, images)
  {
    ParseBlocksAppend(a + [block], b, images);
    ParseBlocksAppend(a, [block], images);
    ParseBlocksAppend(a, b, images);
    assert [block][..0] == [];
  }

  // ---------------------------------------------------------------------
  // Identifiers
  // ---------------------------------------------------------------------

  function EraseOptions(os: seq<QuestionOption>): (r: seq<OptionDraft>)
    ensures |r| == |os|
  {
    if |os| == 0 then []
    else EraseOptions(os[..|os| - 1]) + [OptionDraft(os[|os| - 1].text, os[|os| - 1].latex)]
  }

  /** A question without its identifiers. */
  function Erase(q: Question): QuestionDraft {
    QuestionDraft(q.text, q.latex, q.imagePath, EraseOptions(q.options), q.correctOptionIndex)
  }

  function EraseAll(qs: seq<Question>): seq<QuestionDraft> {
    if |qs| == 0 then [] else EraseAll(qs[..|qs| - 1]) + [Erase(qs[|qs| - 1])]
  }

  function OptionIds(os: seq<QuestionOption>): seq<Id> {
    if |os| == 0 then [] else OptionIds(os[..|os| - 1]) + [os[|os| - 1].id]
  }

  /** The identifiers a parsed question holds, in the order they were
      drawn. */
  function QuestionIds(q: Question): seq<Id> {
    OptionIds(q.options) + [q.id]
  }

  /** Every identifier of the questions, in the order they were drawn:
      a question's options first, then the question. */
  function IdsOf(qs: seq<Question>): seq<Id> {
    if |qs| == 0 then []
    else IdsOf(qs[..|qs| - 1]) + QuestionIds(qs[|qs| - 1])
  }

  predicate Increasing(xs: seq<Id>) {
    forall i, j :: 0 <= i < j < |xs| ==> xs[i] < xs[j]
  }

  predicate Within(xs: seq<Id>, lo: Id, hi: Id) {
    forall i :: 0 <= i < |xs| ==> lo <= xs[i] < hi
  }

  /** The options are numbered one after another from `firstId`. */
  predicate Consecutive(options: seq<QuestionOption>, firstId: Id) {
    |options| == 0 ||
    (Consecutive(options[..|options| - 1], firstId) && options[|options| - 1].id == firstId + |options| - 1)
  }

  /** Options numbered one after another from `firstId` have increasing
      identifiers below `firstId + |options|`. */
  lemma {:induction false} ConsecutiveIds(options: seq<QuestionOption>, firstId: Id)
    requires Consecutive(options, firstId)
    ensures |OptionIds(options)| == |options|
    ensures Increasing(OptionIds(options)) && Within(OptionIds(options), firstId, firstId + |options|)
  {
    if |options| > 0 {
      var init := options[..|options| - 1];
      ConsecutiveIds(init, firstId);
      assert OptionIds(options) == OptionIds(init) + [firstId + |init|];
    }
  }

  lemma IncreasingAppend(a: seq<Id>, b: seq<Id>, lo: Id, mid: Id, hi: Id)
    requires lo <= mid <= hi
    requires Increasing(a) && Within(a, lo, mid)
    requires Increasing(b) && Within(b, mid, hi)
    ensures Increasing(a + b) && Within(a + b, lo, hi)
  {
  }

  /** One more identifier, drawn after the others. */
  lemma OneMoreId(ids: seq<Id>, lo: Id, id: Id)
    requires lo <= id && Increasing(ids) && Within(ids, lo, id)
    ensures Increasing(ids + [id]) && Within(ids + [id], lo, id + 1)
  {
    IncreasingAppend(ids, [id], lo, id, id + 1);
  }

  // ---------------------------------------------------------------------
  // The parser as the page runs it
  // ---------------------------------------------------------------------

  /** What the line at `i` adds to the options and the answer index. */
  lemma LineStep(lines: seq<string>, i: nat)
    requires 1 <= i < |lines|
    ensures MatchOptionLine(lines[i]).Some? ==>
      OptionsUpTo(lines, i + 1) == OptionsUpTo(lines, i) + [ReadOption(MatchOptionLine(lines[i]).value)]
    ensures MatchOptionLine(lines[i]).None? ==> OptionsUpTo(lines, i + 1) == OptionsUpTo(lines, i)
    ensures AnswerUpTo(lines, i + 1)
      == if MatchOptionLine(lines[i]).Some? || MatchAnswer(lines[i]).None? then AnswerUpTo(lines, i)
         else MatchAnswer(lines[i]).value
  {
  }

  /** Appending the next option keeps the options erased in step with the
      lines and numbered one after another. */
  lemma AppendOption(options: seq<QuestionOption>, option: QuestionOption, firstId: Id)
    requires Consecutive(options, firstId)
    requires option.id == firstId + |options|
    ensures EraseOptions(options + [option]) == EraseOptions(options) + [OptionDraft(option.text, option.latex)]
    ensures Consecutive(options + [option], firstId)
  {
    assert (options + [option])[..|options|] == options;
  }

  /** The options and the answer index read from the lines before
      index `i`, the options numbered one after another from `firstId`. */
  predicate LinesRead(lines: seq<string>, i: nat, options: seq<QuestionOption>, correctOptionIndex: int, firstId: Id)
    requires i <= |lines|
  {
    && EraseOptions(options) == OptionsUpTo(lines, i)
    && correctOptionIndex == AnswerUpTo(lines, i)
    && Consecutive(options, firstId)
  }

  /** An option line read: its option is appended. */
  lemma OptionLineRead(lines: seq<string>, i: nat, options: seq<QuestionOption>, correctOptionIndex: int,
                       firstId: Id, option: QuestionOption)
    requires 1 <= i < |lines|
    requires LinesRead(lines, i, options, correctOptionIndex, firstId)
    requires MatchOptionLine(lines[i]).Some?
    requires OptionDraft(option.text, option.latex) == ReadOption(MatchOptionLine(lines[i]).value)
    requires option.id == firstId + |options|
    ensures LinesRead(lines, i + 1, options + [option], correctOptionIndex, firstId)
  {
    LineStep(lines, i);
    AppendOption(options, option, firstId);
  }

  /** Any other line read: an answer line sets the index. */
  lemma OtherLineRead(lines: seq<string>, i: nat, options: seq<QuestionOption>, correctOptionIndex: int, firstId: Id)
    requires 1 <= i < |lines|
    requires LinesRead(lines, i, options, correctOptionIndex, firstId)
    requires MatchOptionLine(lines[i]).None?
    ensures LinesRead(lines, i + 1, options,
      if MatchAnswer(lines[i]).Some? then MatchAnswer(lines[i]).value else correctOptionIndex, firstId)
  {
    LineStep(lines, i);
  }

  /** The loop over a block's lines after the first: the options in
      order, each with a fresh identifier, and the answer index. */
  method ReadOptionLines(lines: seq<string>, firstId: Id)
    returns (options: seq<QuestionOption>, correctOptionIndex: int, nextId: Id)
    requires |lines| >= 1
    ensures EraseOptions(options) == OptionsUpTo(lines, |lines|)
    ensures correctOptionIndex == AnswerUpTo(lines, |lines|)
    ensures firstId <= nextId
    ensures Increasing(OptionIds(options)) && Within(OptionIds(options), firstId, nextId)
  {
    options := [];
    correctOptionIndex := -1;
    nextId := firstId;
    var i := 1;
    while i < |lines|
      invariant 1 <= i <= |lines|
      invariant LinesRead(lines, i, options, correctOptionIndex, firstId)
      invariant nextId == firstId + |options|
    {
      var line := lines[i];
      var optionMatch := MatchOptionLine(line);
      var answerMatch := MatchAnswer(line);
      if optionMatch.Some? {
        var optionText := optionMatch.value;
        var draft := ReadOption(optionText);
        var option := QuestionOption(nextId, draft.text, draft.latex);
        OptionLineRead(lines, i, options, correctOptionIndex, firstId, option);
        options := options + [option];
        nextId := nextId + 1;
      } else {
        OtherLineRead(lines, i, options, correctOptionIndex, firstId);
        if answerMatch.Some? {
          correctOptionIndex := answerMatch.value;
        }
      }
      i := i + 1;
    }
    ConsecutiveIds(options, firstId);
  }

  function EraseSome(question: Option<Question>): Option<QuestionDraft> {
    match question
    case None => None
    case Some(q) => Some(Erase(q))
  }

  /** The prompt's image and LaTeX tags, as the loop body takes them out:
      `questionLatex` is the trimmed LaTeX body, still possibly empty. */
  method ReadHeader(prompt: string, images: map<string, string>)
    returns (questionText: string, questionLatex: Option<string>, imagePath: Option<string>)
    ensures ReadPrompt(prompt, images)
      == Prompt(questionText, if questionLatex.Some? && questionLatex.value != "" then questionLatex else None, imagePath)
  {
    questionText := prompt;
    questionLatex := None;
    var imageMatch := MatchTag(questionText, ImageOpen);
    var latexMatch := MatchTag(questionText, LatexOpen);
    imagePath := None;

    if imageMatch.Some? {
      var imageKey := Trim(imageMatch.value.body);
      if Resolves(images, imageKey) {
        imagePath := Some(images[imageKey]);
        questionText := Trim(RemoveFirst(questionText, imageMatch.value.whole));
      }
    }
    if latexMatch.Some? {
      questionLatex := Some(Trim(latexMatch.value.body));
      questionText := Trim(RemoveFirst(questionText, latexMatch.value.whole));
    }
  }

  /** A question the parser emits: four options and a correct index
      among them. */
  predicate WellFormed(q: Question) {
    |q.options| == 4 && 0 <= q.correctOptionIndex < 4
  }

  /** The erased questions, one by one. */
  lemma {:induction false} EraseAllEach(qs: seq<Question>)
    ensures |EraseAll(qs)| == |qs|
    ensures forall k :: 0 <= k < |qs| ==> EraseAll(qs)[k] == Erase(qs[k])
  {
    if |qs| > 0 {
      EraseAllEach(qs[..|qs| - 1]);
    }
  }

  /** `questions` are the questions of the bulk text `text`: with their
      identifiers erased, they are exactly what `ParseText` yields. */
  predicate ParsedFrom(questions: seq<Question>, text: string, images: map<string, string>) {
    EraseAll(questions) == ParseText(text, images)
  }

  /** Questions whose erasure the parser yields are well formed. */
  lemma ParsedWellFormed(qs: seq<Question>, text: string, images: map<string, string>)
    requires ParsedFrom(qs, text, images)
    ensures forall k :: 0 <= k < |qs| ==> WellFormed(qs[k])
  {
    EraseAllEach(qs);
    ParsedQuestionsAreWellFormed(SplitBlocks(text), images);
  }

  /** One pass of the loop over the blocks: the question a block yields,
      with identifiers drawn from `firstId` on. Identifiers are drawn for
      the options of a block that is then dropped, too. */
  method ReadBlock(block: string, images: map<string, string>, firstId: Id)
    returns (question: Option<Question>, nextId: Id)
    ensures EraseSome(question) == ParseBlock(block, images)
    ensures firstId <= nextId
    ensures question.Some? ==>
      Increasing(QuestionIds(question.value)) && Within(QuestionIds(question.value), firstId, nextId)
  {
    question := None;
    nextId := firstId;
    if Trim(block) == "" {
      ParseBlockEmpty(block, images);
      return;
    }
    var lines := Lines(block);
    var questionMatch := MatchHeader(lines[0]);
    if questionMatch.None? {
      ParseBlockHeaderless(block, images, lines);
      return;
    }
    var questionText, questionLatex, imagePath := ReadHeader(questionMatch.value, images);

    var options, correctOptionIndex;
    options, correctOptionIndex, nextId := ReadOptionLines(lines, firstId);

    ParseBlockOfHeader(block, images, lines, questionMatch.value);
    if |options| == 4 && correctOptionIndex >= 0 {
      var latex := if questionLatex.Some? && questionLatex.value != "" then questionLatex else None;
      var q := Question(nextId, None, questionText, latex, imagePath, options, correctOptionIndex, None);
      assert Increasing(QuestionIds(q)) && Within(QuestionIds(q), firstId, nextId + 1) by {
        OneMoreId(OptionIds(options), firstId, nextId);
      }
      question := Some(q);
      nextId := nextId + 1;
    }
  }

  /** A single block yields its question, if any. */
  lemma ParseOneBlock(block: string, images: map<string, string>)
    ensures ParseBlocks([block], images) == (if ParseBlock(block, images).Some? then [ParseBlock(block, images).value] else [])
  {
    assert [block][..0] == [];
  }

  /** The blocks read so far, one block longer: that block's question,
      if any, follows the earlier ones. */
  lemma ParseBlocksSnoc(blocks: seq<string>, b: nat, images: map<string, string>)
    requires b < |blocks|
    ensures ParseBlocks(blocks[..b + 1], images) == ParseBlocks(blocks[..b], images) + ParseBlocks([blocks[b]], images)
  {
    assert blocks[..b + 1] == blocks[..b] + [blocks[b]];
    ParseBlocksAppend(blocks[..b], [blocks[b]], images);
  }

  lemma EraseAllSnoc(questions: seq<Question>, q: Question)
    ensures EraseAll(questions + [q]) == EraseAll(questions) + [Erase(q)]
  {
    assert (questions + [q])[..|questions|] == questions;
  }

  /** One more block read: the questions so far, erased, are still what
      the blocks read so far yield. */
  lemma ParseStep(blocks: seq<string>, b: nat, images: map<string, string>,
                  questions: seq<Question>, question: Option<Question>)
    requires b < |blocks|
    requires EraseAll(questions) == ParseBlocks(blocks[..b], images)
    requires EraseSome(question) == ParseBlock(blocks[b], images)
    ensures question.None? ==> EraseAll(questions) == ParseBlocks(blocks[..b + 1], images)
    ensures question.Some? ==>
      EraseAll(questions + [question.value]) == ParseBlocks(blocks[..b + 1], images)
  {
    var before := ParseBlocks(blocks[..b], images);
    var one := ParseBlocks([blocks[b]], images);
    assert ParseBlocks(blocks[..b + 1], images) == before + one by {
      ParseBlocksSnoc(blocks, b, images);
    }
    if question.Some? {
      var q := question.value;
      assert one == [Erase(q)] by {
        ParseOneBlock(blocks[b], images);
      }
      assert EraseAll(questions + [q]) == EraseAll(questions) + [Erase(q)] by {
        EraseAllSnoc(questions, q);
      }
    } else {
      assert one == [] by {
        ParseOneBlock(blocks[b], images);
      }
    }
  }

  /** One more question kept: it is well formed like the earlier ones,
      and its identifiers follow theirs. */
  lemma KeepStep(questions: seq<Question>, q: Question, firstId: Id, blockStart: Id, nextId: Id)
    requires firstId <= blockStart <= nextId
    requires WellFormed(q)
    requires Increasing(IdsOf(questions)) && Within(IdsOf(questions), firstId, blockStart)
    requires Increasing(QuestionIds(q)) && Within(QuestionIds(q), blockStart, nextId)
    ensures Increasing(IdsOf(questions + [q])) && Within(IdsOf(questions + [q]), firstId, nextId)
  {
    IncreasingAppend(IdsOf(questions), QuestionIds(q), firstId, blockStart, nextId);
    assert (questions + [q])[..|questions|] == questions;
  }

  /** The questions after one more block: the kept question, if any,
      appended. */
  function Appended(questions: seq<Question>, question: Option<Question>): seq<Question> {
    if question.Some? then questions + [question.value] else questions
  }

  /** The identifiers of `questions`, in the order they were drawn, are
      strictly increasing and lie in `[lo, hi)`: no two are the same. */
  predicate IdsFresh(questions: seq<Question>, lo: Id, hi: Id) {
    Increasing(IdsOf(questions)) && Within(IdsOf(questions), lo, hi)
  }

  /** The questions read so far, with their identifiers erased, are what
      the first `n` blocks yield. */
  predicate ReadSoFar(questions: seq<Question>, blocks: seq<string>, n: nat, images: map<string, string>)
    requires n <= |blocks|
  {
    EraseAll(questions) == ParseBlocks(blocks[..n], images)
  }

  /** One pass of the loop over the blocks keeps its invariant. */
  lemma BlockStep(blocks: seq<string>, b: nat, images: map<string, string>,
                  questions: seq<Question>, question: Option<Question>,
                  firstId: Id, blockStart: Id, nextId: Id)
    requires b < |blocks|
    requires ReadSoFar(questions, blocks, b, images)
    requires firstId <= blockStart <= nextId
    requires IdsFresh(questions, firstId, blockStart)
    requires EraseSome(question) == ParseBlock(blocks[b], images)
    requires question.Some? ==>
      Increasing(QuestionIds(question.value)) && Within(QuestionIds(question.value), blockStart, nextId)
    ensures ReadSoFar(Appended(questions, question), blocks, b + 1, images)
    ensures IdsFresh(Appended(questions, question), firstId, nextId)
  {
    ParseStep(blocks, b, images, questions, question);
    if question.Some? {
      var q := question.value;
      assert WellFormed(q);
      KeepStep(questions, q, firstId, blockStart, nextId);
    }
  }

  /** Once every block is read, the questions are those of the text, and
      well formed. */
  lemma AllBlocksRead(questions: seq<Question>, text: string, images: map<string, string>)
    requires ReadSoFar(questions, SplitBlocks(text), |SplitBlocks(text)|, images)
    ensures ParsedFrom(questions, text, images)
    ensures forall k :: 0 <= k < |questions| ==> WellFormed(questions[k])
  {
    var blocks := SplitBlocks(text);
    assert blocks[..|blocks|] == blocks;
    ParsedWellFormed(questions, text, images);
  }

  /** `parseQuestions(text)` with the uploaded images `images`; identifiers
      are drawn from `firstId` on, and `nextId` is the first one left
      unused. The questions are those `ParseText` determines, and no two
      identifiers in them are the same. */
  method ParseQuestions(text: string, images: map<string, string>, firstId: Id)
    returns (questions: seq<Question>, nextId: Id)
    ensures ParsedFrom(questions, text, images)
    ensures forall k :: 0 <= k < |questions| ==> WellFormed(questions[k])
    ensures firstId <= nextId
    ensures IdsFresh(questions, firstId, nextId)
  {
    questions := [];
    nextId := firstId;
    var questionBlocks := SplitBlocks(text);
    var b := 0;
    while b < |questionBlocks|
      invariant 0 <= b <= |questionBlocks|
      invariant ReadSoFar(questions, questionBlocks, b, images)
      invariant firstId <= nextId
      invariant IdsFresh(questions, firstId, nextId)
    {
      var block := questionBlocks[b];
      var blockStart := nextId;
      var question;
      question, nextId := ReadBlock(block, images, nextId);
      BlockStep(questionBlocks, b, images, questions, question, firstId, blockStart, nextId);
      if question.Some? {
        questions := questions + [question.value];
      }
      b := b + 1;
    }
    AllBlocksRead(questions, text, images);
  }
}
