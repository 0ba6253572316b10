/** Grouping the retained sentences into paragraphs and a conclusion, and turning the
    result into text. */
module Assembler {
  import opened Text
  import Seqs
  import Truncator

  /** A paragraph is closed once it holds this many sentences. */
  const ParagraphSize := 3
  /** A sentence mentioning one of these closes its paragraph. */
  const TopicPhrases: seq<string> := ["types", "examples", "features", "benefits", "importantly"]
  /** Separator between paragraphs. */
  const ParagraphBreak := "\n\n"

  /** Paragraphs (each a list of sentences) and the conclusion bucket. */
  datatype Document = Document(paragraphs: seq<seq<string>>, conclusion: seq<string>)

  /** Sentences before this index go to paragraphs, the rest to the conclusion bucket. */
  function BodyEnd(n: nat, ci: int): nat
    requires Truncator.NotFound <= ci
  {
    if ci == Truncator.NotFound || n <= ci then n else ci
  }

  predicate Sized(p: seq<string>)
  {
    1 <= |p| <= ParagraphSize
  }

  /** Only the last sentence of a paragraph may mention a topic phrase. */
  predicate NoInnerTopic(p: seq<string>)
  {
    forall j :: 0 <= j < |p| - 1 ==> !Mentions(p[j], TopicPhrases)
  }

  /** A paragraph that was closed before the end: it is full or ends on a topic phrase. */
  predicate Closed(p: seq<string>)
  {
    |p| == ParagraphSize || (|p| > 0 && Mentions(p[|p| - 1], TopicPhrases))
  }

  /** The `forEach` over the retained sentences from index `i` on, with the paragraphs
      closed so far, the open paragraph `cur` and the conclusion bucket `concl`; the
      leftover open paragraph is closed at the end. */
  function AssembleFrom(ss: seq<string>, ci: int, i: nat, paras: seq<seq<string>>,
                        cur: seq<string>, concl: seq<string>): Document
    requires i <= |ss|
    decreases |ss| - i
  {
    if i == |ss| then
      if cur != [] then Document(paras + [cur], concl) else Document(paras, concl)
    else if i >= ci && ci != Truncator.NotFound then
      AssembleFrom(ss, ci, i + 1, paras, cur, concl + [ss[i]])
    else
      var cur' := cur + [ss[i]];
      if |cur'| >= ParagraphSize || Mentions(ss[i], TopicPhrases) || i == |ss| - 1 then
        AssembleFrom(ss, ci, i + 1, paras + [cur'], [], concl)
      else
        AssembleFrom(ss, ci, i + 1, paras, cur', concl)
  }

  /** What holds of the loop state before sentence `i`: the open paragraph is not full
      and no sentence in it mentions a topic phrase; every closed paragraph is sized with
      no inner topic; every closed paragraph is `Closed`, except that the last one may
      have been closed because it reached the last sentence. */
  predicate LoopState(ss: seq<string>, i: nat, paras: seq<seq<string>>, cur: seq<string>)
  {
    && |cur| < ParagraphSize
    && (forall j :: 0 <= j < |cur| ==> !Mentions(cur[j], TopicPhrases))
    && (forall k :: 0 <= k < |paras| ==> Sized(paras[k]) && NoInnerTopic(paras[k]))
    && (forall k :: 0 <= k < |paras| && (k < |paras| - 1 || i < |ss| || cur != []) ==> Closed(paras[k]))
  }

  /** The shape of a finished document. */
  predicate Shaped(d: Document)
  {
    && (forall k :: 0 <= k < |d.paragraphs| ==> Sized(d.paragraphs[k]) && NoInnerTopic(d.paragraphs[k]))
    && (forall k :: 0 <= k < |d.paragraphs| - 1 ==> Closed(d.paragraphs[k]))
  }

  /** The loop puts the remaining sentences before the body end, in order, after what the
      paragraphs and the open paragraph already hold. */
  lemma {:induction false} AssembleFromBody(ss: seq<string>, ci: int, i: nat, paras: seq<seq<string>>,
                                            cur: seq<string>, concl: seq<string>)
    requires i <= |ss|
    requires Truncator.NotFound <= ci
    ensures var b := BodyEnd(|ss|, ci);
      Seqs.Flatten(AssembleFrom(ss, ci, i, paras, cur, concl).paragraphs)
        == Seqs.Flatten(paras) + cur + ss[if i < b then i else b..b]
    decreases |ss| - i
  {
    var b := BodyEnd(|ss|, ci);
    if i == |ss| {
      if cur != [] {
        Seqs.FlattenAppend(paras, cur);
      }
    } else if i >= ci && ci != Truncator.NotFound {
      AssembleFromBody(ss, ci, i + 1, paras, cur, concl + [ss[i]]);
    } else {
      var cur' := cur + [ss[i]];
      assert ss[i..b] == [ss[i]] + ss[i + 1..b];
      if |cur'| >= ParagraphSize || Mentions(ss[i], TopicPhrases) || i == |ss| - 1 {
        AssembleFromBody(ss, ci, i + 1, paras + [cur'], [], concl);
        MoveIntoClosed(paras, cur, ss[i], ss[i + 1..b]);
      } else {
        AssembleFromBody(ss, ci, i + 1, paras, cur', concl);
        MoveIntoOpen(Seqs.Flatten(paras), cur, ss[i], ss[i + 1..b]);
      }
    }
  }

  lemma MoveIntoClosed(paras: seq<seq<string>>, cur: seq<string>, x: string, rest: seq<string>)
    ensures Seqs.Flatten(paras + [cur + [x]]) + [] + rest == Seqs.Flatten(paras) + cur + ([x] + rest)
  {
    Seqs.FlattenAppend(paras, cur + [x]);
  }

  lemma MoveIntoOpen(done: seq<string>, cur: seq<string>, x: string, rest: seq<string>)
    ensures done + (cur + [x]) + rest == done + cur + ([x] + rest)
  {
  }

  /** The loop puts the remaining sentences from the body end on, in order, after what
      the conclusion bucket already holds. */
  lemma {:induction false} AssembleFromConclusion(ss: seq<string>, ci: int, i: nat, paras: seq<seq<string>>,
                                                  cur: seq<string>, concl: seq<string>)
    requires i <= |ss|
    requires Truncator.NotFound <= ci
    ensures var b := BodyEnd(|ss|, ci);
      AssembleFrom(ss, ci, i, paras, cur, concl).conclusion == concl + ss[if i < b then b else i..]
    decreases |ss| - i
  {
    if i < |ss| {
      if i >= ci && ci != Truncator.NotFound {
        assert ss[i..] == [ss[i]] + ss[i + 1..];
        AssembleFromConclusion(ss, ci, i + 1, paras, cur, concl + [ss[i]]);
      } else {
        var cur' := cur + [ss[i]];
        if |cur'| >= ParagraphSize || Mentions(ss[i], TopicPhrases) || i == |ss| - 1 {
          AssembleFromConclusion(ss, ci, i + 1, paras + [cur'], [], concl);
        } else {
          AssembleFromConclusion(ss, ci, i + 1, paras, cur', concl);
        }
      }
    }
  }

  /** The loop state is kept to the end, where it gives a shaped document. */
  lemma {:induction false} AssembleFromShape(ss: seq<string>, ci: int, i: nat, paras: seq<seq<string>>,
                                             cur: seq<string>, concl: seq<string>)
    requires i <= |ss|
    requires LoopState(ss, i, paras, cur)
    ensures Shaped(AssembleFrom(ss, ci, i, paras, cur, concl))
    decreases |ss| - i
  {
    if i < |ss| {
      if i >= ci && ci != Truncator.NotFound {
        AssembleFromShape(ss, ci, i + 1, paras, cur, concl + [ss[i]]);
      } else {
        var cur' := cur + [ss[i]];
        if |cur'| >= ParagraphSize || Mentions(ss[i], TopicPhrases) || i == |ss| - 1 {
          CloseParagraph(ss, i, paras, cur);
          AssembleFromShape(ss, ci, i + 1, paras + [cur'], [], concl);
        } else {
          OpenParagraph(ss, i, paras, cur);
          AssembleFromShape(ss, ci, i + 1, paras, cur', concl);
        }
      }
    } else if cur != [] {
      FinalParagraph(ss, paras, cur);
    }
  }

  /** Adding sentence `i` to the open paragraph without closing it keeps the loop state. */
  lemma OpenParagraph(ss: seq<string>, i: nat, paras: seq<seq<string>>, cur: seq<string>)
    requires i < |ss|
    requires LoopState(ss, i, paras, cur)
    requires !(|cur + [ss[i]]| >= ParagraphSize || Mentions(ss[i], TopicPhrases) || i == |ss| - 1)
    ensures LoopState(ss, i + 1, paras, cur + [ss[i]])
  {
    var cur' := cur + [ss[i]];
    assert forall j :: 0 <= j < |cur| ==> cur'[j] == cur[j];
  }

  /** The leftover open paragraph, closed at the end, gives a shaped document. */
  lemma FinalParagraph(ss: seq<string>, paras: seq<seq<string>>, cur: seq<string>)
    requires LoopState(ss, |ss|, paras, cur) && cur != []
    ensures Shaped(Document(paras + [cur], []))
  {
    var ps := paras + [cur];
    assert forall k :: 0 <= k < |paras| ==> ps[k] == paras[k];
  }

  /** Closing the open paragraph after sentence `i` keeps the loop state. */
  lemma CloseParagraph(ss: seq<string>, i: nat, paras: seq<seq<string>>, cur: seq<string>)
    requires i < |ss|
    requires LoopState(ss, i, paras, cur)
    requires |cur + [ss[i]]| >= ParagraphSize || Mentions(ss[i], TopicPhrases) || i == |ss| - 1
    ensures LoopState(ss, i + 1, paras + [cur + [ss[i]]], [])
  {
    var cur' := cur + [ss[i]];
    var ps := paras + [cur'];
    assert NoInnerTopic(cur') by {
      forall j | 0 <= j < |cur'| - 1
        ensures !Mentions(cur'[j], TopicPhrases)
      {
        assert cur'[j] == cur[j];
      }
    }
    forall k | 0 <= k < |ps| && (k < |ps| - 1 || i + 1 < |ss|)
      ensures Closed(ps[k])
    {
      if k == |ps| - 1 {
        assert cur'[|cur'| - 1] == ss[i];
      }
    }
  }

  /** The paragraphs and the conclusion bucket of the retained sentences `ss`. */
  function Assemble(ss: seq<string>, ci: int): (d: Document)
    requires Truncator.NotFound <= ci
    ensures Seqs.Flatten(d.paragraphs) == ss[..BodyEnd(|ss|, ci)]
    ensures d.conclusion == ss[BodyEnd(|ss|, ci)..]
    ensures forall k :: 0 <= k < |d.paragraphs| ==> Sized(d.paragraphs[k]) && NoInnerTopic(d.paragraphs[k])
    ensures forall k :: 0 <= k < |d.paragraphs| - 1 ==> Closed(d.paragraphs[k])
  {
    AssembleFromBody(ss, ci, 0, [], [], []);
    AssembleFromConclusion(ss, ci, 0, [], [], []);
    AssembleFromShape(ss, ci, 0, [], [], []);
    AssembleFrom(ss, ci, 0, [], [], [])
  }

  /** The start of the run of non-terminal characters that ends at `j`. */
  function RunStart(s: string, j: nat): (p: nat)
    requires j <= |s|
    ensures p <= j
    ensures forall k :: p <= k < j ==> !IsTerminal(s[k])
    ensures p == 0 || IsTerminal(s[p - 1])
  {
    if j > 0 && !IsTerminal(s[j - 1]) then RunStart(s, j - 1) else j
  }

  /** `/[^.!?]+[.!?]$/` matches somewhere in `s`. */
  predicate EndsWithSentence(s: string)
  {
    |s| >= 2 && IsTerminal(s[|s| - 1]) && !IsTerminal(s[|s| - 2])
  }

  /** `s.replace(/[^.!?]+[.!?]$/, "")`: the leftmost match is the whole run of
      non-terminal characters before the final mark, and it is deleted with that mark. */
  function StripLastSentence(s: string): (r: string)
    ensures r <= s
    ensures r == s <==> !EndsWithSentence(s)
    ensures r != s ==> |r| <= |s| - 2
    ensures r != s ==> forall k :: |r| <= k < |s| - 1 ==> !IsTerminal(s[k])
    ensures r != s ==> |r| == 0 || IsTerminal(s[|r| - 1])
  {
    if EndsWithSentence(s) then s[..RunStart(s, |s| - 1)] else s
  }

  /** Each paragraph's sentences joined with single spaces. */
  function ParagraphTexts(d: Document): (r: seq<string>)
    ensures |r| == |d.paragraphs|
  {
    seq(|d.paragraphs|, k requires 0 <= k < |d.paragraphs| => Join(d.paragraphs[k], " "))
  }

  /** The text of a document built from the retained sentences `kept`: the paragraphs
      separated by blank lines, then the conclusion; without a conclusion, the last
      sentence-like run is cut from the paragraphs and the last two retained sentences
      are appended instead. */
  function Serialise(d: Document, kept: seq<string>): string
  {
    var body := Join(ParagraphTexts(d), ParagraphBreak);
    if d.conclusion != [] then
      body + ParagraphBreak + Join(d.conclusion, " ")
    else if kept != [] then
      StripLastSentence(body) + ParagraphBreak + Join(kept[if |kept| < 2 then 0 else |kept| - 2..], " ")
    else
      body
  }
}
