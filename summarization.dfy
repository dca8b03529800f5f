/**
 * The two summarisers: `get_simple_summary`, the extractive fallback that
 * keeps the first few long sentences, and the Mistral path of
 * `get_mistral_summary`, whose only modelled rule is that any failure of the
 * remote call falls back to the simple summary of the whole text.
 */
module Summarization {
  import opened PyStr

  /** A fragment counts as a sentence when it strips to more than this many characters. */
  const MinSentenceLength: nat := 50
  /** At most this many sentences are kept. */
  const MaxSentences: nat := 4
  /** Summaries longer than this are cut, with an ellipsis at the end. */
  const MaxSummaryLength: nat := 600
  /** The answer when no fragment counts as a sentence: one sentence and its period. */
  function NoContentMessage(): string {
    NoContentSentence() + "."
  }

  // Written as two literals: the verifier reasons about their characters more easily.
  function NoContentSentence(): string {
    "Could not extract meaningful " + "content from the article"
  }
  /** Only this many characters of the text go into the prompt. */
  const PromptTextLength: nat := 3000

  predicate IsSentence(fragment: string) {
    |Strip(fragment)| > MinSentenceLength
  }

  /** Every fragment, stripped. */
  function StripAll(fragments: seq<string>): (r: seq<string>)
    ensures |r| == |fragments| && forall k :: 0 <= k < |r| ==> r[k] == Strip(fragments[k])
  {
    seq(|fragments|, k requires 0 <= k < |fragments| => Strip(fragments[k]))
  }

  /** The stripped fragments long enough to count, in their order. */
  function LongOnes(cleaned: seq<string>): (r: seq<string>)
    ensures |r| <= |cleaned|
  {
    if cleaned == [] then []
    else (if |cleaned[0]| > MinSentenceLength then [cleaned[0]] else []) + LongOnes(cleaned[1..])
  }

  /** The sentences the summariser keeps from `fragments`, in their order. */
  function Sentences(fragments: seq<string>): (r: seq<string>)
    ensures |r| <= |fragments|
  {
    LongOnes(StripAll(fragments))
  }

  lemma {:induction false} LongOnesAppend(a: seq<string>, b: seq<string>)
    ensures LongOnes(a + b) == LongOnes(a) + LongOnes(b)
  {
    if a == [] {
      assert a + b == b;
    } else {
      assert (a + b)[1..] == a[1..] + b;
      LongOnesAppend(a[1..], b);
    }
  }

  /** A string is kept exactly when it occurs among the candidates and is longer than 50. */
  lemma {:induction false} LongOnesMembers(cleaned: seq<string>)
    ensures forall x :: x in LongOnes(cleaned) <==> x in cleaned && |x| > MinSentenceLength
  {
    if cleaned != [] {
      LongOnesMembers(cleaned[1..]);
      assert cleaned == [cleaned[0]] + cleaned[1..];
    }
  }

  /** Filtering fragment lists commutes with concatenating them. */
  lemma SentencesAppend(a: seq<string>, b: seq<string>)
    ensures Sentences(a + b) == Sentences(a) + Sentences(b)
  {
    assert StripAll(a + b) == StripAll(a) + StripAll(b);
    LongOnesAppend(StripAll(a), StripAll(b));
  }

  /** The sentences are exactly the stripped fragments longer than 50 characters. */
  lemma SentencesMembers(fragments: seq<string>)
    ensures forall x :: x in Sentences(fragments) <==>
      |x| > MinSentenceLength && exists j :: 0 <= j < |fragments| && x == Strip(fragments[j])
  {
    var c := StripAll(fragments);
    LongOnesMembers(c);
    forall x | x in c ensures exists j :: 0 <= j < |fragments| && x == Strip(fragments[j]) {
      var j :| 0 <= j < |c| && c[j] == x;
    }
    forall x, j | 0 <= j < |fragments| && x == Strip(fragments[j]) ensures x in c {
      assert c[j] == x;
    }
  }

  /** There is no sentence exactly when no fragment strips to more than 50 characters. */
  lemma SentencesEmpty(fragments: seq<string>)
    ensures Sentences(fragments) == [] <==> forall j :: 0 <= j < |fragments| ==> !IsSentence(fragments[j])
  {
    SentencesMembers(fragments);
    if Sentences(fragments) != [] {
      assert Sentences(fragments)[0] in Sentences(fragments);
    }
  }

  /** The fragments of `text.split('.')` that are kept: the first (up to) four sentences. */
  function KeptSentences(text: string): (r: seq<string>)
    ensures |r| <= MaxSentences && r <= Sentences(Split(text, "."))
    ensures |r| < MaxSentences ==> r == Sentences(Split(text, "."))
  {
    var all := Sentences(Split(text, "."));
    if |all| <= MaxSentences then all else all[..MaxSentences]
  }

  /** The kept sentences joined by ". " and closed with a period, before the length limit. */
  function FullSummary(kept: seq<string>): string {
    Join(". ", kept) + "."
  }

  /** What `get_simple_summary` returns. */
  function SimpleSummary(text: string): string {
    var kept := KeptSentences(text);
    if kept == [] then NoContentMessage()
    else
      var full := FullSummary(kept);
      if |full| > MaxSummaryLength then full[..MaxSummaryLength - 3] + "..." else full
  }

  /** What every kept sentence looks like: longer than 50 characters, no whitespace at either
      end, and no period inside. */
  predicate WellFormedSentence(s: string) {
    |s| > MinSentenceLength && !IsSpace(s[0]) && !IsSpace(s[|s| - 1]) && '.' !in s
  }

  /** A long fragment without a period strips to a well-formed sentence. */
  lemma StrippedFragment(f: string)
    requires Free(f, ".") && |Strip(f)| > MinSentenceLength
    ensures WellFormedSentence(Strip(f))
  {
    StripShape(f);
    FreeInfix(f, ".", StripStart(f), StripStart(f) + |Strip(f)|);
    FreeChar(Strip(f), '.');
  }

  /** Every kept sentence is well formed. */
  lemma KeptSentencesShape(text: string)
    ensures forall k :: 0 <= k < |KeptSentences(text)| ==> WellFormedSentence(KeptSentences(text)[k])
  {
    var fragments := Split(text, ".");
    SentencesMembers(fragments);
    SplitPiecesFree(text, ".");
    var kept := KeptSentences(text);
    forall k | 0 <= k < |kept| ensures WellFormedSentence(kept[k]) {
      assert kept[k] in Sentences(fragments);
      var j :| 0 <= j < |fragments| && kept[k] == Strip(fragments[j]);
      StrippedFragment(fragments[j]);
    }
  }

  /** The summary is never empty, never over 600 characters, and always ends with a period. With no
      sentence it is the fixed message; otherwise it is the joined sentences, or their first 597
      characters and "..." (600 in all) when they are longer. */
  lemma SimpleSummaryShape(text: string)
    ensures var r := SimpleSummary(text);
      && 0 < |r| <= MaxSummaryLength && r[|r| - 1] == '.'
      && (KeptSentences(text) == [] <==> forall j :: 0 <= j < |Split(text, ".")| ==> !IsSentence(Split(text, ".")[j]))
      && (KeptSentences(text) == [] ==> r == NoContentMessage())
      && (KeptSentences(text) != [] ==>
            var full := FullSummary(KeptSentences(text));
            && (|full| <= MaxSummaryLength ==> r == full)
            && (|full| > MaxSummaryLength ==> |r| == MaxSummaryLength && r == full[..MaxSummaryLength - 3] + "..."))
  {
    SentencesEmpty(Split(text, "."));
    assert KeptSentences(text) == [] <==> Sentences(Split(text, ".")) == [];
  }

  /** When at least four fragments count, the first four are kept, in order. */
  lemma FourSentences(text: string)
    requires |Sentences(Split(text, "."))| >= MaxSentences
    ensures KeptSentences(text) == Sentences(Split(text, "."))[..MaxSentences]
  {
  }

  /** `text.split('.')` when `text` starts with a period-free piece and a period. */
  lemma {:induction false} SplitAfterPiece(a: string, b: string)
    requires '.' !in a
    ensures Split(a + "." + b, ".") == [a] + Split(b, ".")
  {
    var s := a + "." + b;
    if a == [] {
      assert s == "." + b && s[..1] == "." && s[1..] == b;
    } else {
      assert s[..1] == [a[0]] && s[..1] != ".";
      assert s[1..] == a[1..] + "." + b;
      SplitAfterPiece(a[1..], b);
      assert [a[0]] + a[1..] == a;
    }
  }

  /** One leading space in front of a stripped string is stripped away. */
  lemma StripSpaced(k: string)
    requires k != [] && !IsSpace(k[0]) && !IsSpace(k[|k| - 1])
    ensures Strip(" " + k) == k
  {
    assert (" " + k)[1..] == k;
    assert TrimStart(" " + k) == TrimStart(k);
  }

  /** One fragment gives its stripped self when long enough, and nothing otherwise. */
  lemma SentencesSingle(f: string)
    ensures Sentences([f]) == if IsSentence(f) then [Strip(f)] else []
  {
    assert StripAll([f]) == [Strip(f)];
    assert [Strip(f)][1..] == [];
  }

  /** A well-formed sentence behind at most one space strips to itself and has no period. */
  lemma StripPrefixed(pre: string, k: string)
    requires pre == "" || pre == " "
    requires WellFormedSentence(k)
    ensures Strip(pre + k) == k && '.' !in pre + k
  {
    if pre == " " {
      StripSpaced(k);
    } else {
      assert pre + k == k;
      StripStripped(k);
    }
  }

  /** A full summary is its first sentence, a period, and then either nothing or a space and the
      full summary of the rest. */
  lemma FullSummaryCons(kept: seq<string>)
    requires kept != []
    ensures FullSummary(kept) == kept[0] + "." + if |kept| == 1 then "" else " " + FullSummary(kept[1..])
  {
    if |kept| > 1 {
      assert Join(". ", kept) == kept[0] + ". " + Join(". ", kept[1..]);
    }
  }

  /** What follows the first sentence and its period in a full summary. */
  function AfterFirst(kept: seq<string>): string
    requires kept != []
  {
    if |kept| == 1 then "" else " " + FullSummary(kept[1..])
  }

  /** A full summary splits at the period after its first sentence. */
  lemma SplitFull(pre: string, kept: seq<string>)
    requires pre == "" || pre == " "
    requires kept != [] && WellFormedSentence(kept[0])
    ensures Split(pre + FullSummary(kept), ".") == [pre + kept[0]] + Split(AfterFirst(kept), ".")
  {
    StripPrefixed(pre, kept[0]);
    FullSummaryCons(kept);
    assert pre + FullSummary(kept) == pre + kept[0] + "." + AfterFirst(kept);
    SplitAfterPiece(pre + kept[0], AfterFirst(kept));
  }

  /** The first piece of a full summary gives back the first sentence. */
  lemma FirstSentence(pre: string, k: string)
    requires pre == "" || pre == " "
    requires WellFormedSentence(k)
    ensures Sentences([pre + k]) == [k]
  {
    StripPrefixed(pre, k);
    SentencesSingle(pre + k);
  }

  /** Splitting a full summary at its periods gives back the sentences it was built from. */
  lemma {:induction false} SentencesOfFull(pre: string, kept: seq<string>)
    requires pre == "" || pre == " "
    requires kept != []
    requires forall k :: 0 <= k < |kept| ==> WellFormedSentence(kept[k])
    ensures Sentences(Split(pre + FullSummary(kept), ".")) == kept
    decreases |kept|
  {
    var rest := Split(AfterFirst(kept), ".");
    SplitFull(pre, kept);
    FirstSentence(pre, kept[0]);
    if |kept| == 1 {
      assert rest == [""];
      SentencesSingle("");
    } else {
      SentencesOfFull(" ", kept[1..]);
    }
    SentencesAppend([pre + kept[0]], rest);
  }

  /** The fixed message is itself the full summary of one well-formed sentence. */
  lemma NoContentIsFull()
    ensures WellFormedSentence(NoContentSentence()) && NoContentMessage() == FullSummary([NoContentSentence()])
  {
    var m := NoContentSentence();
    assert |m| == 53 && m[0] == 'C' && m[52] == 'e' && '.' !in m;
  }

  /** Up to four well-formed sentences survive a round trip through their full summary. */
  lemma KeptOfFull(kept: seq<string>)
    requires 0 < |kept| <= MaxSentences
    requires forall k :: 0 <= k < |kept| ==> WellFormedSentence(kept[k])
    ensures KeptSentences(FullSummary(kept)) == kept
  {
    SentencesOfFull("", kept);
    assert "" + FullSummary(kept) == FullSummary(kept);
  }

  /** Summarising a summary that was not cut changes nothing. */
  lemma SimpleSummaryIdempotent(text: string)
    requires |FullSummary(KeptSentences(text))| <= MaxSummaryLength
    ensures SimpleSummary(SimpleSummary(text)) == SimpleSummary(text)
  {
    var kept := KeptSentences(text);
    if kept == [] {
      NoContentIsFull();
      KeptOfFull([NoContentSentence()]);
    } else {
      KeptSentencesShape(text);
      KeptOfFull(kept);
    }
  }

  /** Scanning one more fragment appends its sentence, if it is one. */
  lemma SentencesSnoc(fragments: seq<string>, i: nat)
    requires i < |fragments|
    ensures Sentences(fragments[..i + 1]) ==
      Sentences(fragments[..i]) + if IsSentence(fragments[i]) then [Strip(fragments[i])] else []
  {
    assert fragments[..i + 1] == fragments[..i] + [fragments[i]];
    SentencesAppend(fragments[..i], [fragments[i]]);
    SentencesSingle(fragments[i]);
  }

  /** Once a prefix of the fragments yields four sentences, those are the ones kept. */
  lemma KeptFromPrefix(text: string, i: nat)
    requires i <= |Split(text, ".")| && |Sentences(Split(text, ".")[..i])| == MaxSentences
    ensures KeptSentences(text) == Sentences(Split(text, ".")[..i])
  {
    var fragments := Split(text, ".");
    assert fragments == fragments[..i] + fragments[i..];
    SentencesAppend(fragments[..i], fragments[i..]);
  }

  /** `get_simple_summary` as the source writes it: scan the fragments, append each long one,
      stop after the fourth, then join and cut. */
  method GetSimpleSummary(text: string) returns (summary: string)
    ensures summary == SimpleSummary(text)
  {
    var fragments := Split(text, ".");
    var sentences: seq<string> := [];
    var i := 0;
    while i < |fragments|
      invariant 0 <= i <= |fragments|
      invariant sentences == Sentences(fragments[..i])
      invariant |sentences| < MaxSentences
    {
      var cleaned := Strip(fragments[i]);
      if |cleaned| > MinSentenceLength {
        sentences := sentences + [cleaned];
      }
      SentencesSnoc(fragments, i);
      i := i + 1;
      if |sentences| >= MaxSentences {
        KeptFromPrefix(text, i);
        break;
      }
    }
    if i == |fragments| && |sentences| < MaxSentences {
      assert fragments[..i] == fragments;
    }
    assert sentences == KeptSentences(text);
    if sentences == [] {
      return NoContentMessage();
    }
    summary := Join(". ", sentences) + ".";
    if |summary| > MaxSummaryLength {
      summary := summary[..MaxSummaryLength - 3] + "...";
    }
  }

  /** What the remote model gives back: the message content, or any failure (import, client,
      network, authentication, malformed response). */
  datatype Reply = Reply(content: string) | ApiError

  /** `get_mistral_summary`: the model is asked about the URL and the first 3000 characters of the
      text; its reply is returned as it is, and on failure the simple summary of the WHOLE text is. */
  function MistralSummary(text: string, url: string, ask: (string, string) -> Reply): (r: string)
    ensures ask(url, Take(text, PromptTextLength)).ApiError? ==> r == SimpleSummary(text) && r != []
    ensures ask(url, Take(text, PromptTextLength)).Reply? ==> r == ask(url, Take(text, PromptTextLength)).content
  {
    SimpleSummaryShape(text);
    match ask(url, Take(text, PromptTextLength))
    case Reply(content) => content
    case ApiError => SimpleSummary(text)
  }
}
