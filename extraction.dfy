/**
 * `extract_article_text`: choose the raw text of the most plausible content
 * region of a fetched page, normalise its whitespace and keep at most 5000
 * characters. Both handlers share this logic; they differ only in which
 * elements are removed from the page before any text is read, which happens
 * inside the HTML library and so before the `Page` this module receives.
 */
module Extraction {
  import opened Wrappers
  import opened PyStr

  /** The CSS selectors tried, in order, when neither <article> nor <main> gives text. */
  const ContentSelectors: seq<string> := [".content", "#content", ".article-body", ".post-content"]

  /** At most this many characters of cleaned text are returned. */
  const MaxTextLength: nat := 5000

  /**
   * What the parsed page offers once script and style elements are gone:
   * the raw `get_text()` of the first <article> and of the first <main>
   * element, when there is one; for each CSS selector that matches, the raw
   * text of its first match; and the raw text of every <p>, in document order.
   */
  datatype Page = Page(
    article: Option<string>,
    main: Option<string>,
    matches: map<string, string>,
    paragraphs: seq<string>)

  /** The page download: a parsed page, or any failure (network, timeout, a non-2xx status). */
  datatype Fetch = FetchFailed | Fetched(page: Page)

  /** Selector `k` is the first of `selectors` that matches. */
  predicate FirstMatchAt(selectors: seq<string>, matches: map<string, string>, k: int) {
    0 <= k < |selectors| && selectors[k] in matches
    && forall j :: 0 <= j < k ==> selectors[j] !in matches
  }

  /** The text of the first selector that matches, whatever that text is. */
  function FirstMatch(selectors: seq<string>, matches: map<string, string>): (r: Option<string>)
    ensures r.None? <==> forall k :: 0 <= k < |selectors| ==> selectors[k] !in matches
    ensures forall k :: FirstMatchAt(selectors, matches, k) ==> r == Some(matches[selectors[k]])
  {
    if selectors == [] then None
    else if selectors[0] in matches then Some(matches[selectors[0]])
    else
      assert forall k :: FirstMatchAt(selectors, matches, k) ==> FirstMatchAt(selectors[1..], matches, k - 1);
      FirstMatch(selectors[1..], matches)
  }

  /** A region that is absent contributes no text. */
  function TextOf(region: Option<string>): string {
    if region.Some? then region.value else ""
  }

  /** The texts the chain tries, in order: <article>, <main>, the first matching selector, all <p> joined by spaces. */
  function Candidates(p: Page): seq<string> {
    [TextOf(p.article), TextOf(p.main), TextOf(FirstMatch(ContentSelectors, p.matches)), Join(" ", p.paragraphs)]
  }

  /** The first non-empty text, or the empty text if there is none. */
  function FirstNonEmpty(texts: seq<string>): (r: string)
    ensures r == [] <==> forall k :: 0 <= k < |texts| ==> texts[k] == []
    ensures forall k :: 0 <= k < |texts| && texts[k] != [] && (forall j :: 0 <= j < k ==> texts[j] == []) ==> r == texts[k]
  {
    if texts == [] then []
    else if texts[0] != [] then texts[0]
    else FirstNonEmpty(texts[1..])
  }

  /** The raw text the selection chain settles on, before clean-up. */
  function SelectText(p: Page): string {
    FirstNonEmpty(Candidates(p))
  }

  /** The selection as a chain of emptiness tests, each on the text the previous ones left. */
  lemma SelectTextChain(p: Page)
    ensures SelectText(p) ==
      if TextOf(p.article) != "" then TextOf(p.article)
      else if TextOf(p.main) != "" then TextOf(p.main)
      else if TextOf(FirstMatch(ContentSelectors, p.matches)) != "" then TextOf(FirstMatch(ContentSelectors, p.matches))
      else Join(" ", p.paragraphs)
  {
    var c := Candidates(p);
    assert c[1..][0] == c[1] && c[2..][0] == c[2] && c[3..][0] == c[3];
    assert c[1..][1..] == c[2..] && c[2..][1..] == c[3..] && c[3..][1..] == [];
    assert FirstNonEmpty(c[3..]) == c[3];
    assert FirstNonEmpty(c[2..]) == if c[2] != [] then c[2] else FirstNonEmpty(c[3..]);
    assert FirstNonEmpty(c[1..]) == if c[1] != [] then c[1] else FirstNonEmpty(c[2..]);
  }

  /** The selection chain is ordered and exclusive; an emptiness test is on raw text, and the first
      matching selector ends the selector search even when its text is empty. */
  lemma SelectionOrder(p: Page)
    ensures p.article.Some? && p.article.value != "" ==> SelectText(p) == p.article.value
    ensures TextOf(p.article) == "" && p.main.Some? && p.main.value != "" ==> SelectText(p) == p.main.value
    ensures TextOf(p.article) == "" && TextOf(p.main) == "" ==>
      forall k :: FirstMatchAt(ContentSelectors, p.matches, k) ==>
        SelectText(p) == if p.matches[ContentSelectors[k]] != "" then p.matches[ContentSelectors[k]] else Join(" ", p.paragraphs)
    ensures (TextOf(p.article) == "" && TextOf(p.main) == ""
      && forall k :: 0 <= k < |ContentSelectors| ==> ContentSelectors[k] !in p.matches) ==>
        SelectText(p) == Join(" ", p.paragraphs)
  {
    var c := Candidates(p);
    assert c[0] == TextOf(p.article) && c[1] == TextOf(p.main);
    if c[0] == "" && c[1] != "" {
      assert forall j :: 0 <= j < 1 ==> c[j] == [];
    }
    if TextOf(p.article) == "" && TextOf(p.main) == "" {
      forall k | FirstMatchAt(ContentSelectors, p.matches, k)
        ensures SelectText(p) == if p.matches[ContentSelectors[k]] != "" then p.matches[ContentSelectors[k]] else Join(" ", p.paragraphs)
      {
        assert c[2] == p.matches[ContentSelectors[k]];
        if c[2] == "" {
          assert c[3] == "" || SelectText(p) == c[3];
        }
      }
      if forall k :: 0 <= k < |ContentSelectors| ==> ContentSelectors[k] !in p.matches {
        assert c[2] == "";
        assert c[3] == "" || SelectText(p) == c[3];
      }
    }
  }

  /** `(line.strip() for line in lines)` */
  function StripLines(lines: seq<string>): (r: seq<string>)
    ensures |r| == |lines|
  {
    if lines == [] then [] else [Strip(lines[0])] + StripLines(lines[1..])
  }

  /** `phrase for line in lines for phrase in line.split("  ")` */
  function Phrases(lines: seq<string>): seq<string> {
    if lines == [] then [] else Split(lines[0], "  ") + Phrases(lines[1..])
  }

  /** `chunk for chunk in (phrase.strip() for phrase in phrases) if chunk` */
  function Chunks(phrases: seq<string>): seq<string> {
    if phrases == [] then []
    else (var c := Strip(phrases[0]); if c == [] then [] else [c]) + Chunks(phrases[1..])
  }

  /** The whitespace clean-up: the non-empty stripped pieces of the stripped lines, cut at double spaces, joined by single spaces. */
  function Clean(text: string): string {
    Join(" ", Chunks(Phrases(StripLines(SplitLines(text)))))
  }

  /** A piece of cleaned text: non-empty, no whitespace at either end, no line break, no double space. */
  predicate IsChunk(c: string) {
    c != [] && !IsSpace(c[0]) && !IsSpace(c[|c| - 1]) && NoLineBreak(c) && NoDoubleSpace(c)
  }

  lemma {:induction false} StripLinesKeep(lines: seq<string>)
    requires forall k :: 0 <= k < |lines| ==> NoLineBreak(lines[k])
    ensures forall k :: 0 <= k < |StripLines(lines)| ==> NoLineBreak(StripLines(lines)[k])
    ensures VisibleAll(StripLines(lines)) == VisibleAll(lines)
  {
    if lines != [] {
      StripLinesKeep(lines[1..]);
      var s := lines[0];
      StripShape(s);
      Infix(s, StripStart(s), StripStart(s) + |Strip(s)|);
      StripVisible(s);
      var r := StripLines(lines);
      assert r[1..] == StripLines(lines[1..]);
      forall k | 0 <= k < |r| ensures NoLineBreak(r[k]) {
        if k > 0 {
          assert r[k] == StripLines(lines[1..])[k - 1];
        }
      }
    }
  }

  lemma {:induction false} PhrasesKeep(lines: seq<string>)
    requires forall k :: 0 <= k < |lines| ==> NoLineBreak(lines[k])
    ensures forall k :: 0 <= k < |Phrases(lines)| ==> NoLineBreak(Phrases(lines)[k]) && NoDoubleSpace(Phrases(lines)[k])
    ensures VisibleAll(Phrases(lines)) == VisibleAll(lines)
  {
    if lines != [] {
      PhrasesKeep(lines[1..]);
      var pieces, rest := Split(lines[0], "  "), Phrases(lines[1..]);
      SplitPiecesFree(lines[0], "  ");
      SplitPiecesWithin(lines[0], "  ");
      SplitVisible(lines[0], "  ");
      VisibleAllConcat(pieces, rest);
      var r := pieces + rest;
      forall k | 0 <= k < |r| ensures NoLineBreak(r[k]) && NoDoubleSpace(r[k]) {
        if k < |pieces| {
          assert r[k] == pieces[k];
          assert NoLineBreak(lines[0]);
        } else {
          assert r[k] == rest[k - |pieces|];
        }
      }
    }
  }

  lemma {:induction false} ChunksKeep(phrases: seq<string>)
    requires forall k :: 0 <= k < |phrases| ==> NoLineBreak(phrases[k]) && NoDoubleSpace(phrases[k])
    ensures forall k :: 0 <= k < |Chunks(phrases)| ==> IsChunk(Chunks(phrases)[k])
    ensures VisibleAll(Chunks(phrases)) == VisibleAll(phrases)
  {
    if phrases != [] {
      ChunksKeep(phrases[1..]);
      var s := phrases[0];
      var c := Strip(s);
      ChunkOf(s);
      var head: seq<string> := if c == [] then [] else [c];
      var rest := Chunks(phrases[1..]);
      VisibleAllConcat(head, rest);
      var r := head + rest;
      forall k | 0 <= k < |r| ensures IsChunk(r[k]) {
        if k < |head| {
          assert r[k] == c;
        } else {
          assert r[k] == rest[k - |head|];
        }
      }
      if c == [] {
        VisibleEmpty(c);
      }
    }
  }

  /** A phrase strips to nothing or to a chunk, keeping its visible characters. */
  lemma ChunkOf(s: string)
    requires NoLineBreak(s) && NoDoubleSpace(s)
    ensures Strip(s) == [] || IsChunk(Strip(s))
    ensures Visible(Strip(s)) == Visible(s)
  {
    StripShape(s);
    Infix(s, StripStart(s), StripStart(s) + |Strip(s)|);
    StripVisible(s);
  }

  /** Chunks joined by single spaces form one chunk. */
  lemma {:induction false} JoinChunks(cs: seq<string>)
    requires forall k :: 0 <= k < |cs| ==> IsChunk(cs[k])
    ensures cs == [] ==> Join(" ", cs) == []
    ensures cs != [] ==> IsChunk(Join(" ", cs))
  {
    if |cs| > 1 {
      JoinChunks(cs[1..]);
      var c, tail := cs[0], Join(" ", cs[1..]);
      var r := Join(" ", cs);
      assert r == c + " " + tail;
      assert r[0] == c[0] && r[|r| - 1] == tail[|tail| - 1];
      forall x | x in r ensures !IsLineBreak(x) {
        assert x in c || x == ' ' || x in tail;
      }
      forall i | 0 <= i <= |r| ensures !OccursAt(r, "  ", i) {
        DoubleSpaceAt(r, i);
        if i + 1 < |c| {
          DoubleSpaceAt(c, i);
        } else if i > |c| {
          DoubleSpaceAt(tail, i - |c| - 1);
          if i + 1 < |r| {
            assert r[i] == tail[i - |c| - 1] && r[i + 1] == tail[i - |c|];
          }
        }
      }
    }
  }

  /** The clean-up removes only whitespace: every visible character survives, in order. */
  lemma CleanVisible(text: string)
    ensures Visible(Clean(text)) == Visible(text)
  {
    var lines := SplitLines(text);
    SplitLinesVisible(text);
    StripLinesKeep(lines);
    PhrasesKeep(StripLines(lines));
    ChunksKeep(Phrases(StripLines(lines)));
    VisibleJoin(" ", Chunks(Phrases(StripLines(lines))));
  }

  lemma {:induction false} StripLinesWords(lines: seq<string>)
    ensures WordsAll(StripLines(lines)) == WordsAll(lines)
  {
    if lines != [] {
      StripLinesWords(lines[1..]);
      StripWords(lines[0]);
      assert StripLines(lines)[1..] == StripLines(lines[1..]);
    }
  }

  lemma {:induction false} PhrasesWords(lines: seq<string>)
    ensures WordsAll(Phrases(lines)) == WordsAll(lines)
  {
    if lines != [] {
      PhrasesWords(lines[1..]);
      SplitWords(lines[0], "  ");
      WordsAllConcat(Split(lines[0], "  "), Phrases(lines[1..]));
    }
  }

  lemma {:induction false} ChunksWords(phrases: seq<string>)
    ensures WordsAll(Chunks(phrases)) == WordsAll(phrases)
  {
    if phrases != [] {
      ChunksWords(phrases[1..]);
      var c := Strip(phrases[0]);
      StripWords(phrases[0]);
      var head: seq<string> := if c == [] then [] else [c];
      WordsAllConcat(head, Chunks(phrases[1..]));
      if c != [] {
        assert head[1..] == [];
      }
    }
  }

  /** The clean-up keeps every word of the raw text, in order: it cuts only at whitespace and
      joins only with a space, so no word is split or merged. */
  lemma CleanWords(text: string)
    ensures Words(Clean(text)) == Words(text)
  {
    var lines := SplitLines(text);
    SplitLinesWords(text);
    StripLinesWords(lines);
    PhrasesWords(StripLines(lines));
    ChunksWords(Phrases(StripLines(lines)));
    WordsOfJoinAt(" ", Chunks(Phrases(StripLines(lines))));
  }

  /** Cleaned text is a single line with no double space and no whitespace at either end;
      it is empty exactly when the raw text is all whitespace. */
  lemma CleanShape(text: string)
    ensures NoLineBreak(Clean(text)) && NoDoubleSpace(Clean(text))
    ensures Clean(text) == [] || (!IsSpace(Clean(text)[0]) && !IsSpace(Clean(text)[|Clean(text)| - 1]))
    ensures Clean(text) == [] <==> forall i :: 0 <= i < |text| ==> IsSpace(text[i])
  {
    var lines := SplitLines(text);
    StripLinesKeep(lines);
    PhrasesKeep(StripLines(lines));
    ChunksKeep(Phrases(StripLines(lines)));
    JoinChunks(Chunks(Phrases(StripLines(lines))));
    CleanVisible(text);
    VisibleEmpty(text);
    VisibleEmpty(Clean(text));
  }

  /** What `extract_article_text` returns: None when the page could not be had, else the
      first 5000 characters of the cleaned selected text. */
  function Extracted(fetch: Fetch): Option<string> {
    match fetch
    case FetchFailed => None
    case Fetched(p) => Some(Take(Clean(SelectText(p)), MaxTextLength))
  }

  /** Extracted text is at most 5000 characters, a prefix of the cleaned text, one line with no
      double space and no leading whitespace, and empty exactly when the selected raw text is all whitespace. */
  lemma ExtractedShape(p: Page)
    ensures var r := Extracted(Fetched(p)).value;
      && |r| <= MaxTextLength && r <= Clean(SelectText(p))
      && NoLineBreak(r) && NoDoubleSpace(r) && (r == [] || !IsSpace(r[0]))
      && (r == [] <==> forall i :: 0 <= i < |SelectText(p)| ==> IsSpace(SelectText(p)[i]))
  {
    var c := Clean(SelectText(p));
    CleanShape(SelectText(p));
    var r := Take(c, MaxTextLength);
    assert r == c[0..|r|];
    Infix(c, 0, |r|);
    if r != [] {
      assert r[0] == c[0];
    }
  }

  /** Text that is already one chunk comes out of the clean-up unchanged. */
  lemma CleanChunk(c: string)
    requires IsChunk(c)
    ensures Clean(c) == c
  {
    SplitLinesOfLine(c);
    StripStripped(c);
    assert StripLines([c]) == [c];
    SplitFree(c, "  ");
    assert Phrases([c]) == [c] + [];
    assert Chunks([c]) == [c] + [];
  }

  /** Cleaning cleaned text changes nothing. */
  lemma CleanIdempotent(text: string)
    ensures Clean(Clean(text)) == Clean(text)
  {
    CleanShape(text);
    if Clean(text) != [] {
      CleanChunk(Clean(text));
    }
  }

  /** When the cleaned text fits in 5000 characters, the extraction holds every word of the
      selected text, in order. */
  lemma ExtractedWords(p: Page)
    requires |Clean(SelectText(p))| <= MaxTextLength
    ensures Words(Extracted(Fetched(p)).value) == Words(SelectText(p))
  {
    CleanWords(SelectText(p));
  }

  /** An <article> whose raw text is only whitespace still wins the selection, and the extraction is then empty. */
  lemma BlankArticleWins(p: Page)
    requires p.article.Some? && p.article.value != ""
    requires forall i :: 0 <= i < |p.article.value| ==> IsSpace(p.article.value[i])
    ensures SelectText(p) == p.article.value
    ensures Extracted(Fetched(p)) == Some("")
  {
    SelectionOrder(p);
    ExtractedShape(p);
  }

  /** The extraction step written as the source writes it: reassign the text region by region,
      stop the selector loop at the first match, then clean and cut. */
  method ExtractArticleText(fetch: Fetch) returns (r: Option<string>)
    ensures r == Extracted(fetch)
  {
    if fetch.FetchFailed? {
      return None;
    }
    var page := fetch.page;
    var articleText := "";
    if page.article.Some? {
      articleText := page.article.value;
    }
    if articleText == "" {
      if page.main.Some? {
        articleText := page.main.value;
      }
    }
    if articleText == "" {
      for i := 0 to |ContentSelectors|
        invariant articleText == ""
        invariant forall j :: 0 <= j < i ==> ContentSelectors[j] !in page.matches
      {
        var selector := ContentSelectors[i];
        if selector in page.matches {
          articleText := page.matches[selector];
          assert FirstMatchAt(ContentSelectors, page.matches, i);
          break;
        }
      }
      assert articleText == TextOf(FirstMatch(ContentSelectors, page.matches));
    }
    if articleText == "" {
      articleText := Join(" ", page.paragraphs);
    }
    SelectTextChain(page);
    articleText := Clean(articleText);
    return Some(Take(articleText, MaxTextLength));
  }
}
