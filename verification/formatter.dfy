/** `formatAsBulletPoints` and `formatResponse`: the whole reply-formatting pipeline. */
module Formatter {
  import opened Text
  import Seqs
  import Segmenter
  import Truncator
  import Assembler

  predicate AllClean(ss: seq<string>)
  {
    forall k :: 0 <= k < |ss| ==> Clean(ss[k])
  }

  predicate AllHaveContent(ss: seq<string>)
  {
    forall k :: 0 <= k < |ss| ==> HasContent(ss[k])
  }

  /** The sentences of a markup-free reply that survive the cut. */
  function Retained(clean: string): (r: seq<string>)
    ensures AllClean(r)
    ensures Clean(clean) ==> AllHaveContent(r)
  {
    var all := Segmenter.Segment(clean);
    Truncator.Kept(all, Truncator.ConclusionIndex(all))
  }

  /** Formatting of a markup-free, non-empty reply. */
  function Pipeline(clean: string): string
  {
    var all := Segmenter.Segment(clean);
    var ci := Truncator.ConclusionIndex(all);
    var kept := Truncator.Kept(all, ci);
    Trim(Assembler.Serialise(Assembler.Assemble(kept, ci), kept))
  }

  /** `formatAsBulletPoints(text)`. The result is trimmed and free of markup, and it is
      empty exactly when the input is empty or no sentence is retained. */
  function FormatAsBulletPoints(text: string): (r: string)
    ensures NoOuterSpace(r)
    ensures Clean(r)
    ensures r == "" <==> text == "" || Retained(Sanitize(text)) == []
  {
    if text == "" then ""
    else
      PipelineClean(Sanitize(text));
      PipelineEmptyIff(Sanitize(text));
      Pipeline(Sanitize(text))
  }

  /** `formatResponse(text)`: sanitises, then formats; the same as formatting directly. */
  function FormatResponse(text: string): (r: string)
    ensures r == FormatAsBulletPoints(text)
  {
    if text == "" then ""
    else
      SanitizedFormatsSame(text);
      FormatAsBulletPoints(Sanitize(text))
  }

  /** Formatting already sanitised text gives what formatting the raw text gives. */
  lemma SanitizedFormatsSame(text: string)
    ensures FormatAsBulletPoints(Sanitize(text)) == FormatAsBulletPoints(text)
  {
    if text != "" {
      var c := Sanitize(text);
      SanitizeIdempotent(text);
      if c == "" {
        EmptyRetainsNothing();
        PipelineEmptyIff(c);
      } else {
        assert FormatAsBulletPoints(c) == Pipeline(Sanitize(c));
      }
    }
  }

  /** The empty text has no sentence. */
  lemma EmptyRetainsNothing()
    ensures Retained("") == []
  {
    assert Segmenter.Split("") == [Segmenter.Piece("", "")];
    assert Segmenter.Texts(Segmenter.Split("")) == [""];
    assert !HasContent("");
  }

  /** Every sentence placed in a paragraph is one of the retained sentences. */
  lemma ParagraphSentencesClean(d: Assembler.Document, kept: seq<string>, b: nat)
    requires b <= |kept| && AllClean(kept)
    requires Seqs.Flatten(d.paragraphs) == kept[..b]
    ensures forall k :: 0 <= k < |d.paragraphs| ==> AllClean(d.paragraphs[k])
  {
    forall k, j | 0 <= k < |d.paragraphs| && 0 <= j < |d.paragraphs[k]|
      ensures Clean(d.paragraphs[k][j])
    {
      Seqs.FlattenMember(d.paragraphs, k, j);
    }
  }

  lemma SerialiseClean(d: Assembler.Document, kept: seq<string>, b: nat)
    requires b <= |kept| && AllClean(kept)
    requires Seqs.Flatten(d.paragraphs) == kept[..b]
    requires d.conclusion == kept[b..]
    ensures Clean(Assembler.Serialise(d, kept))
  {
    ParagraphSentencesClean(d, kept, b);
    var body := Join(Assembler.ParagraphTexts(d), Assembler.ParagraphBreak);
    BodyClean(d);
    if d.conclusion != [] {
      AllCleanSuffix(kept, b);
      AppendClean(body, d.conclusion);
    } else if kept != [] {
      var tail := kept[if |kept| < 2 then 0 else |kept| - 2..];
      AllCleanSuffix(kept, if |kept| < 2 then 0 else |kept| - 2);
      StrippedClean(body);
      AppendClean(Assembler.StripLastSentence(body), tail);
    }
  }

  lemma AllCleanSuffix(ss: seq<string>, i: nat)
    requires i <= |ss| && AllClean(ss)
    ensures AllClean(ss[i..])
  {
    assert forall k :: 0 <= k < |ss| - i ==> ss[i..][k] == ss[i + k];
  }

  /** The paragraphs' text is markup-free when their sentences are. */
  lemma BodyClean(d: Assembler.Document)
    requires forall k :: 0 <= k < |d.paragraphs| ==> AllClean(d.paragraphs[k])
    ensures Clean(Join(Assembler.ParagraphTexts(d), Assembler.ParagraphBreak))
  {
    var texts := Assembler.ParagraphTexts(d);
    forall k | 0 <= k < |texts|
      ensures Clean(texts[k])
    {
      JoinClean(d.paragraphs[k], " ");
    }
    JoinClean(texts, Assembler.ParagraphBreak);
  }

  /** Markup-free text, a paragraph break and markup-free sentences joined by spaces make
      markup-free text. */
  lemma AppendClean(head: string, ss: seq<string>)
    requires Clean(head) && AllClean(ss)
    ensures Clean(head + Assembler.ParagraphBreak + Join(ss, " "))
  {
    JoinClean(ss, " ");
    CleanConcat(head, Assembler.ParagraphBreak);
    CleanConcat(head + Assembler.ParagraphBreak, Join(ss, " "));
  }

  /** Stripping the last sentence keeps text markup-free. */
  lemma StrippedClean(body: string)
    requires Clean(body)
    ensures Clean(Assembler.StripLastSentence(body))
  {
    var stripped := Assembler.StripLastSentence(body);
    assert body == stripped + body[|stripped|..];
    CleanConcat(stripped, body[|stripped|..]);
  }

  lemma PipelineClean(clean: string)
    ensures Clean(Pipeline(clean))
  {
    var all := Segmenter.Segment(clean);
    var ci := Truncator.ConclusionIndex(all);
    var kept := Truncator.Kept(all, ci);
    var d := Assembler.Assemble(kept, ci);
    SerialiseClean(d, kept, Assembler.BodyEnd(|kept|, ci));
  }

  /** A document built from retained sentences that all have content has content
      exactly when some sentence was retained. */
  lemma SerialiseContent(d: Assembler.Document, kept: seq<string>, b: nat)
    requires b <= |kept| && AllHaveContent(kept)
    requires Seqs.Flatten(d.paragraphs) == kept[..b]
    requires d.conclusion == kept[b..]
    requires forall k :: 0 <= k < |d.paragraphs| ==> Assembler.Sized(d.paragraphs[k])
    ensures HasContent(Assembler.Serialise(d, kept)) <==> kept != []
  {
    var body := Join(Assembler.ParagraphTexts(d), Assembler.ParagraphBreak);
    if kept == [] {
      assert Assembler.Serialise(d, kept) == "";
    } else if d.conclusion != [] {
      JoinHasContent(d.conclusion, " ", 0);
      HasContentConcat(body + Assembler.ParagraphBreak, Join(d.conclusion, " "));
    } else {
      var tail := kept[if |kept| < 2 then 0 else |kept| - 2..];
      JoinHasContent(tail, " ", 0);
      HasContentConcat(Assembler.StripLastSentence(body) + Assembler.ParagraphBreak, Join(tail, " "));
    }
  }

  lemma PipelineEmptyIff(clean: string)
    requires Clean(clean)
    ensures Pipeline(clean) == "" <==> Retained(clean) == []
  {
    var all := Segmenter.Segment(clean);
    var ci := Truncator.ConclusionIndex(all);
    var kept := Truncator.Kept(all, ci);
    var d := Assembler.Assemble(kept, ci);
    SerialiseContent(d, kept, Assembler.BodyEnd(|kept|, ci));
  }
}
