/** Worked replies: the formatter's output on small inputs, derived step by step through
    segmentation, conclusion search, truncation, assembly and serialisation; and the
    stale-reveal trace on the page as built, whose formatter these replies pin down. */
module Scenarios {
  import opened Text
  import Seqs
  import Segmenter
  import Truncator
  import Assembler
  import Formatter
  import Turn

  /** A phrase longer than the text cannot occur in it. */
  lemma {:induction false} LongerNotContained(hay: string, needle: string)
    requires |needle| > |hay|
    ensures !Contains(hay, needle)
  {
    if hay != [] {
      LongerNotContained(hay[1..], needle);
    }
  }

  /** A sentence shorter than every phrase mentions none of them. */
  lemma {:induction false} ShortNotMentioned(s: string, phrases: seq<string>)
    requires forall k :: 0 <= k < |phrases| ==> |phrases[k]| > |s|
    ensures !Mentions(s, phrases)
  {
    if phrases != [] {
      LongerNotContained(Lower(s), phrases[0]);
      ShortNotMentioned(s, phrases[1..]);
    }
  }

  /** Each piece of a text whose only terminal mark is its last character has no inner
      separator. */
  lemma FinalTerminalOnly(s: string)
    requires forall i :: 0 <= i < |s| - 1 ==> !IsTerminal(s[i])
    ensures Segmenter.NoInnerBoundary(s)
  {
  }

  /** `whole` is `a`, one space, then `b`. */
  lemma Glued(a: string, b: string, whole: string)
    requires |whole| == |a| + 1 + |b|
    requires whole[..|a|] == a && whole[|a|] == ' ' && whole[|a| + 1..] == b
    ensures a + " " + b == whole
  {
    assert whole == whole[..|a|] + [whole[|a|]] + whole[|a| + 1..];
  }

  lemma SegmentTwo()
    ensures Segmenter.Segment("A. B.") == ["A.", "B."]
  {
    ShortSentence("A.");
    ShortSentence("B.");
    assert ["A.", "B."][1..] == ["B."];
    assert Join(["A.", "B."], " ") == "A." + " " + "B.";
    assert "A." + " " + "B." == "A. B.";
    Segmenter.SegmentJoin(["A.", "B."]);
  }

  /** The second worked reply: two short sentences and no conclusion. The last sentence
      is cut from the body and the last two sentences are appended after a blank line. */
  lemma FormatTwo()
    ensures Formatter.FormatAsBulletPoints("A. B.") == "A.\n\nA. B."
  {
    var t := "A. B.";
    assert Sanitize(t) == t by { assert Clean(t); }
    SegmentTwo();
    KeptTwo();
    AssembleTwo();
    SerialiseTwo();
    TrimTwo();
    assert Formatter.Pipeline(t) == "A.\n\nA. B.";
  }

  lemma TrimTwo()
    ensures Trim("A.\n\nA. B.") == "A.\n\nA. B."
  {
    Trimmed("A.\n\nA. B.");
  }

  lemma TrimFour()
    ensures Trim("A. B. C.\n\nIn conclusion, D.") == "A. B. C.\n\nIn conclusion, D."
  {
    Trimmed("A. B. C.\n\nIn conclusion, D.");
  }

  lemma KeptTwo()
    ensures Truncator.ConclusionIndex(["A.", "B."]) == Truncator.NotFound
    ensures Truncator.Kept(["A.", "B."], Truncator.NotFound) == ["A.", "B."]
  {
    KeptPair("A.", "B.");
  }

  /** Two one-word sentences too short for any conclusion phrase are all kept. */
  lemma KeptPair(a: string, b: string)
    requires |a| < 4 && |b| < 4
    requires forall i :: 0 <= i < |a| ==> !IsSpace(a[i])
    requires forall i :: 0 <= i < |b| ==> !IsSpace(b[i])
    ensures Truncator.ConclusionIndex([a, b]) == Truncator.NotFound
    ensures Truncator.Kept([a, b], Truncator.NotFound) == [a, b]
  {
    var ss := [a, b];
    PhrasesAtLeastFour();
    ShortNotMentioned(a, Truncator.ConclusionPhrases);
    ShortNotMentioned(b, Truncator.ConclusionPhrases);
    assert ss[0] == a && ss[1] == b;
    NoSpaceOneWord(a);
    NoSpaceOneWord(b);
    assert Truncator.Total(ss, 1) == 1;
    assert Truncator.Total(ss, 2) == 2;
  }

  /** A text that neither starts nor ends with white space is its own trim. */
  lemma Trimmed(r: string)
    requires r != [] && !IsSpace(r[0]) && !IsSpace(r[|r| - 1])
    ensures Trim(r) == r
  {
    assert TrimStart(r) == r;
    assert TrimEnd(r) == r;
  }

  lemma AssembleTwo()
    ensures Assembler.Assemble(["A.", "B."], Truncator.NotFound) == Assembler.Document([["A.", "B."]], [])
  {
    ShortNotMentioned("A.", Assembler.TopicPhrases);
    ShortNotMentioned("B.", Assembler.TopicPhrases);
    var ss := ["A.", "B."];
    assert ["A."] + [ss[1]] == ss;
    assert Assembler.AssembleFrom(ss, -1, 1, [], ["A."], []) == Assembler.Document([ss], []);
    assert [] + [ss[0]] == ["A."];
  }

  lemma SerialiseTwo()
    ensures Assembler.Serialise(Assembler.Document([["A.", "B."]], []), ["A.", "B."]) == "A.\n\nA. B."
  {
    var d := Assembler.Document([["A.", "B."]], []);
    assert ["A.", "B."][1..] == ["B."];
    assert Join(["A.", "B."], " ") == "A. B.";
    assert Assembler.ParagraphTexts(d) == ["A. B."];
    var body := "A. B.";
    assert Assembler.EndsWithSentence(body);
    assert Assembler.RunStart(body, 4) == 2;
    assert Assembler.StripLastSentence(body) == "A.";
  }

  lemma SegmentFour()
    ensures Segmenter.Segment("A. B. C. In conclusion, D.") == ["A.", "B.", "C.", "In conclusion, D."]
  {
    var ss := ["A.", "B.", "C.", "In conclusion, D."];
    FourSentences();
    JoinFour("A.", "B.", "C.", "In conclusion, D.");
    FourText();
    Segmenter.SegmentJoin(ss);
  }

  lemma FourSentences()
    ensures Segmenter.Sentences(["A.", "B.", "C.", "In conclusion, D."])
    ensures forall k :: 0 <= k < 4 ==> Clean(["A.", "B.", "C.", "In conclusion, D."][k])
    ensures forall k :: 0 <= k < 4 ==> HasContent(["A.", "B.", "C.", "In conclusion, D."][k])
  {
    ShortSentence("A.");
    ShortSentence("B.");
    ShortSentence("C.");
    var last := "In conclusion, D.";
    FinalTerminalOnly(last);
    assert Clean(last);
    assert !IsSpace(last[0]);
  }

  /** A letter followed by a full stop is a sentence. */
  lemma ShortSentence(x: string)
    requires |x| == 2 && !IsSpace(x[0]) && !IsMarkup(x[0]) && !IsTerminal(x[0]) && x[1] == '.'
    ensures Segmenter.Sentence(x) && Clean(x) && HasContent(x)
  {
  }

  lemma JoinFour(a: string, b: string, c: string, d: string)
    ensures Join([a, b, c, d], " ") == a + " " + b + " " + c + " " + d
  {
    assert [c, d][1..] == [d];
    assert Join([c, d], " ") == c + " " + d;
    assert [b, c, d][1..] == [c, d];
    assert Join([b, c, d], " ") == b + " " + (c + " " + d);
    assert [a, b, c, d][1..] == [b, c, d];
    assert Join([a, b, c, d], " ") == a + " " + (b + " " + (c + " " + d));
  }

  lemma FourClean()
    ensures Clean("A. B. C. In conclusion, D.")
  {
    FourSentences();
    JoinFour("A.", "B.", "C.", "In conclusion, D.");
    FourText();
    JoinClean(["A.", "B.", "C.", "In conclusion, D."], " ");
  }

  lemma FourText()
    ensures "A." + " " + "B." + " " + "C." + " " + "In conclusion, D." == "A. B. C. In conclusion, D."
  {
  }

  lemma ConclusionFound()
    ensures Truncator.ConclusionIndex(["A.", "B.", "C.", "In conclusion, D."]) == 3
  {
    InConclusion();
    ConclusionLast("A.", "B.", "C.", "In conclusion, D.");
  }

  /** Three sentences too short for any conclusion phrase, then one that has one. */
  lemma ConclusionLast(a: string, b: string, c: string, d: string)
    requires |a| < 4 && |b| < 4 && |c| < 4
    requires Mentions(d, Truncator.ConclusionPhrases)
    ensures Truncator.ConclusionIndex([a, b, c, d]) == 3
  {
    PhrasesAtLeastFour();
    ShortNotMentioned(a, Truncator.ConclusionPhrases);
    ShortNotMentioned(b, Truncator.ConclusionPhrases);
    ShortNotMentioned(c, Truncator.ConclusionPhrases);
    var ss := [a, b, c, d];
    assert ss[0] == a && ss[1] == b && ss[2] == c && ss[3] == d;
    assert Truncator.ConclusionIndex(ss) != Truncator.NotFound;
  }

  lemma PhrasesAtLeastFour()
    ensures forall k :: 0 <= k < |Truncator.ConclusionPhrases| ==> |Truncator.ConclusionPhrases[k]| >= 4
  {
  }

  lemma InConclusion()
    ensures Mentions("In conclusion, D.", Truncator.ConclusionPhrases)
  {
    var l := Lower("In conclusion, D.");
    assert l[0..13] == "in conclusion";
    ContainsAt(l, "in conclusion", 0);
  }

  lemma WordsOfFour()
    ensures Truncator.Total(["A.", "B.", "C.", "In conclusion, D."], 4) == 6
  {
    NoSpaceOneWord("A.");
    NoSpaceOneWord("B.");
    NoSpaceOneWord("C.");
    NoSpaceOneWord("In");
    NoSpaceOneWord("conclusion,");
    NoSpaceOneWord("D.");
    WordCountSpaced("conclusion,", "D.");
    Glued("conclusion,", "D.", "conclusion, D.");
    WordCountSpaced("In", "conclusion, D.");
    Glued("In", "conclusion, D.", "In conclusion, D.");
  }

  lemma AssembleFour()
    ensures Assembler.Assemble(["A.", "B.", "C.", "In conclusion, D."], 3)
         == Assembler.Document([["A.", "B.", "C."]], ["In conclusion, D."])
  {
    var ss := ["A.", "B.", "C.", "In conclusion, D."];
    ShortNotMentioned("A.", Assembler.TopicPhrases);
    ShortNotMentioned("B.", Assembler.TopicPhrases);
    ShortNotMentioned("C.", Assembler.TopicPhrases);
    var p := ["A.", "B.", "C."];
    var d := Assembler.Document([p], ["In conclusion, D."]);
    assert Assembler.AssembleFrom(ss, 3, 3, [p], [], []) == d;
    assert ["A.", "B."] + [ss[2]] == p;
    assert Assembler.AssembleFrom(ss, 3, 2, [], ["A.", "B."], []) == d;
    assert ["A."] + [ss[1]] == ["A.", "B."];
    assert Assembler.AssembleFrom(ss, 3, 1, [], ["A."], []) == d;
    assert [] + [ss[0]] == ["A."];
  }

  lemma SerialiseFour()
    ensures Assembler.Serialise(Assembler.Document([["A.", "B.", "C."]], ["In conclusion, D."]),
                                ["A.", "B.", "C.", "In conclusion, D."])
         == "A. B. C.\n\nIn conclusion, D."
  {
    SerialiseWithConclusion(["A.", "B.", "C."], "In conclusion, D.", ["A.", "B.", "C.", "In conclusion, D."]);
    JoinThree("A.", "B.", "C.");
    FourOutput();
  }

  lemma FourOutput()
    ensures "A." + " " + "B." + " " + "C." + Assembler.ParagraphBreak + "In conclusion, D."
         == "A. B. C.\n\nIn conclusion, D."
  {
    assert "A." + " " + "B." + " " + "C." == "A. B. C.";
  }

  /** One paragraph and a one-sentence conclusion print as the paragraph, a blank line and
      the conclusion. */
  lemma SerialiseWithConclusion(p: seq<string>, c: string, kept: seq<string>)
    ensures Assembler.Serialise(Assembler.Document([p], [c]), kept)
         == Join(p, " ") + Assembler.ParagraphBreak + c
  {
    var d := Assembler.Document([p], [c]);
    assert Assembler.ParagraphTexts(d) == [Join(p, " ")];
  }

  lemma JoinThree(a: string, b: string, c: string)
    ensures Join([a, b, c], " ") == a + " " + b + " " + c
  {
    assert [b, c][1..] == [c];
    assert Join([b, c], " ") == b + " " + c;
    assert [a, b, c][1..] == [b, c];
    assert Join([a, b, c], " ") == a + " " + (b + " " + c);
  }

  /** The first worked reply: a conclusion sentence goes to its own block after the body
      paragraph. */
  lemma FormatFour()
    ensures Formatter.FormatAsBulletPoints("A. B. C. In conclusion, D.") == "A. B. C.\n\nIn conclusion, D."
  {
    var t := "A. B. C. In conclusion, D.";
    FourClean();
    assert Sanitize(t) == t;
    SegmentFour();
    KeptFour();
    AssembleFour();
    SerialiseFour();
    TrimFour();
    assert Formatter.Pipeline(t) == "A. B. C.\n\nIn conclusion, D.";
  }

  lemma KeptFour()
    ensures Truncator.ConclusionIndex(["A.", "B.", "C.", "In conclusion, D."]) == 3
    ensures Truncator.Kept(["A.", "B.", "C.", "In conclusion, D."], 3) == ["A.", "B.", "C.", "In conclusion, D."]
  {
    ConclusionFound();
    WordsOfFour();
  }

  /** A one-letter reply without punctuation is one sentence and no conclusion, so the
      formatter prints it, a blank line, and it again. */
  lemma FormatLetter(c: char)
    requires !IsSpace(c) && !IsTerminal(c) && !IsMarkup(c)
    ensures Formatter.FormatAsBulletPoints([c]) == [c] + "\n\n" + [c]
  {
    var t := [c];
    assert Sanitize(t) == t by { assert Clean(t); }
    SegmentLetter(c);
    KeptLetter(c);
    AssembleLetter(c);
    var r := [c] + "\n\n" + [c];
    assert Assembler.Serialise(Assembler.Document([[t]], []), [t]) == r by {
      assert Assembler.ParagraphTexts(Assembler.Document([[t]], [])) == [t];
      assert Assembler.StripLastSentence(t) == t;
    }
    Trimmed(r);
    assert Formatter.Pipeline(t) == r;
  }

  lemma SegmentLetter(c: char)
    requires !IsSpace(c) && !IsTerminal(c) && !IsMarkup(c)
    ensures Segmenter.Segment([c]) == [[c]]
  {
    Segmenter.Unsplit([c]);
    assert Clean([c]);
    assert Segmenter.Texts(Segmenter.Split([c])) == [[c]];
    assert HasContent([c]) by { assert !IsSpace([c][0]); }
    Seqs.FilterKeepsAll([[c]], HasContent);
  }

  lemma KeptLetter(c: char)
    requires !IsSpace(c)
    ensures Truncator.ConclusionIndex([[c]]) == Truncator.NotFound
    ensures Truncator.Kept([[c]], Truncator.NotFound) == [[c]]
  {
    ShortNotMentioned([c], Truncator.ConclusionPhrases);
    NoSpaceOneWord([c]);
    assert Truncator.Total([[c]], 1) == 1;
  }

  lemma AssembleLetter(c: char)
    ensures Assembler.Assemble([[c]], Truncator.NotFound) == Assembler.Document([[[c]]], [])
  {
    ShortNotMentioned([c], Assembler.TopicPhrases);
    var ss := [[c]];
    assert [] + [ss[0]] == ss;
    assert Assembler.AssembleFrom(ss, -1, 1, [ss], [], []) == Assembler.Document([ss], []);
    assert Assembler.AssembleFrom(ss, -1, 0, [], [], []) == Assembler.Document([ss], []);
  }

  /** On the page as built, any two different one-character replies (letters, digits,
      commas and the like) leave the second reply under the first reply's character. */
  lemma StaleRevealOnPage(serialize: seq<string> -> string, q1: string, q2: string, a: char, b: char)
    requires HasContent(q1) && HasContent(q2)
    requires !IsSpace(a) && !IsTerminal(a) && !IsMarkup(a)
    requires !IsSpace(b) && !IsTerminal(b) && !IsMarkup(b)
    requires a != b
    ensures Turn.StaleTrace(Turn.Page(serialize), q1, q2, [a], [b])
  {
    FormatLetter(a);
    FormatLetter(b);
    Turn.StaleRevealFor(Turn.Page(serialize), q1, q2, [a], [b]);
  }

  /** Sending "a" and then "b", with replies "a" and "b": the screen shows "a" over the
      reply "b". */
  lemma StaleRevealCounterexample(serialize: seq<string> -> string)
    ensures Turn.StaleTrace(Turn.Page(serialize), "a", "b", "a", "b")
  {
    assert HasContent("a") && HasContent("b") by {
      assert !IsSpace("a"[0]) && !IsSpace("b"[0]);
    }
    StaleRevealOnPage(serialize, "a", "b", 'a', 'b');
  }
}
