/** Sentence segmentation: `text.split(/(?<=[.!?])\s+/)`, then dropping blank pieces and
    sanitising each remaining piece once more. */
module Segmenter {
  import opened Text
  import Seqs

  /** Position `q` is where a separator match starts: a white-space character whose
      predecessor is a terminal mark (the look-behind `(?<=[.!?])` needs a predecessor). */
  predicate IsBoundary(s: string, q: int)
  {
    0 < q < |s| && IsSpace(s[q]) && IsTerminal(s[q - 1])
  }

  /** A piece of text with no separator start inside it. */
  predicate NoInnerBoundary(t: string)
  {
    forall j :: 0 < j < |t| ==> !IsBoundary(t, j)
  }

  /** One result of the split together with the separator the split removed after it
      (empty after the last piece). */
  datatype Piece = Piece(text: string, gap: string)

  /** Reassembles the split: every piece followed by its separator. */
  function Glue(ps: seq<Piece>): string
  {
    if ps == [] then "" else ps[0].text + ps[0].gap + Glue(ps[1..])
  }

  /** A piece that a separator follows: it ends in a terminal mark and the separator is a
      non-empty run of white space. */
  predicate Separated(p: Piece)
  {
    |p.text| > 0 && IsTerminal(p.text[|p.text| - 1]) && |p.gap| > 0 && AllSpace(p.gap)
  }

  /** The end of the greedy `\s+` match that starts at `q`. */
  function SpaceRunEnd(s: string, q: nat): (e: nat)
    requires q <= |s|
    ensures q <= e <= |s|
    ensures forall k :: q <= k < e ==> IsSpace(s[k])
    ensures e == |s| || !IsSpace(s[e])
    ensures q < |s| && IsSpace(s[q]) ==> q < e
    decreases |s| - q
  {
    if q < |s| && IsSpace(s[q]) then SpaceRunEnd(s, q + 1) else q
  }

  /** The shape of a split result: separated pieces, no separator left inside a piece,
      no white space left at the start of a piece that follows a separator (the run is
      maximal), and nothing after the last piece. */
  predicate WellSplit(r: seq<Piece>)
  {
    && |r| > 0
    && (forall k :: 0 <= k < |r| - 1 ==> Separated(r[k]))
    && r[|r| - 1].gap == ""
    && (forall k :: 0 <= k < |r| ==> NoInnerBoundary(r[k].text))
    && (forall k :: 0 < k < |r| ==> r[k].text == "" || !IsSpace(r[k].text[0]))
  }

  /** The split scan: the current piece started at `start`, and positions before `q` hold
      no separator. A match ends the piece and the scan resumes after the whole run. */
  function SplitFrom(s: string, start: nat, q: nat): (r: seq<Piece>)
    requires start <= q <= |s|
    requires start == 0 || IsSpace(s[start - 1])
    requires forall j :: start < j < q ==> !IsBoundary(s, j)
    ensures |r| > 0
    decreases |s| - q
  {
    if q == |s| then
      [Piece(s[start..q], "")]
    else if IsBoundary(s, q) then
      var e := SpaceRunEnd(s, q);
      [Piece(s[start..q], s[q..e])] + SplitFrom(s, e, e)
    else
      SplitFrom(s, start, q + 1)
  }

  /** The scan loses nothing, cuts only at separators and consumes each separator whole. */
  lemma {:induction false} SplitFromShape(s: string, start: nat, q: nat)
    requires start <= q <= |s|
    requires start == 0 || IsSpace(s[start - 1])
    requires forall j :: start < j < q ==> !IsBoundary(s, j)
    ensures Glue(SplitFrom(s, start, q)) == s[start..]
    ensures WellSplit(SplitFrom(s, start, q))
    ensures start == |s| || !IsSpace(s[start]) ==>
              SplitFrom(s, start, q)[0].text == "" || !IsSpace(SplitFrom(s, start, q)[0].text[0])
    decreases |s| - q
  {
    if q == |s| {
      NoInnerBoundarySlice(s, start, q);
      assert s[start..] == s[start..q];
    } else if IsBoundary(s, q) {
      var e := SpaceRunEnd(s, q);
      SplitFromShape(s, e, e);
      NoInnerBoundarySlice(s, start, q);
      CutAtBoundary(s, start, q, e, SplitFrom(s, e, e));
    } else {
      SplitFromShape(s, start, q + 1);
    }
  }

  lemma CutAtBoundary(s: string, start: nat, q: nat, e: nat, rest: seq<Piece>)
    requires start <= q < e <= |s|
    requires start == 0 || IsSpace(s[start - 1])
    requires IsBoundary(s, q)
    requires forall k :: q <= k < e ==> IsSpace(s[k])
    requires e == |s| || !IsSpace(s[e])
    requires NoInnerBoundary(s[start..q])
    requires Glue(rest) == s[e..] && WellSplit(rest)
    requires e == |s| || !IsSpace(s[e]) ==> rest[0].text == "" || !IsSpace(rest[0].text[0])
    ensures Glue([Piece(s[start..q], s[q..e])] + rest) == s[start..]
    ensures WellSplit([Piece(s[start..q], s[q..e])] + rest)
    ensures !IsSpace(s[start]) ==> s[start..q] == "" || !IsSpace(s[start..q][0])
  {
    var p := Piece(s[start..q], s[q..e]);
    assert q > start;
    SeparatedAt(s, start, q, e);
    GlueCons(p, rest);
    SliceThree(s, start, q, e);
    WellSplitCons(p, rest);
  }

  /** The piece cut at a separator ends in the terminal mark and keeps the whole run. */
  lemma SeparatedAt(s: string, start: nat, q: nat, e: nat)
    requires start < q < e <= |s|
    requires IsBoundary(s, q)
    requires forall k :: q <= k < e ==> IsSpace(s[k])
    ensures Separated(Piece(s[start..q], s[q..e]))
  {
    var p := Piece(s[start..q], s[q..e]);
    assert p.text[|p.text| - 1] == s[q - 1];
    assert forall k :: 0 <= k < |p.gap| ==> p.gap[k] == s[q + k];
  }

  lemma SliceThree(s: string, start: nat, q: nat, e: nat)
    requires start <= q <= e <= |s|
    ensures s[start..] == s[start..q] + s[q..e] + s[e..]
  {
  }

  lemma GlueCons(p: Piece, rest: seq<Piece>)
    ensures Glue([p] + rest) == p.text + p.gap + Glue(rest)
  {
    assert ([p] + rest)[1..] == rest;
  }

  lemma WellSplitCons(p: Piece, rest: seq<Piece>)
    requires Separated(p) && NoInnerBoundary(p.text)
    requires WellSplit(rest)
    requires rest[0].text == "" || !IsSpace(rest[0].text[0])
    ensures WellSplit([p] + rest)
  {
    var r := [p] + rest;
    assert forall k :: 0 < k < |r| ==> r[k] == rest[k - 1];
  }

  lemma NoInnerBoundarySlice(s: string, start: nat, q: nat)
    requires start <= q <= |s|
    requires forall j :: start < j < q ==> !IsBoundary(s, j)
    ensures NoInnerBoundary(s[start..q])
  {
    forall j | 0 < j < q - start
      ensures !IsBoundary(s[start..q], j)
    {
      assert !IsBoundary(s, start + j);
    }
  }

  /** `text.split(/(?<=[.!?])\s+/)`. */
  function Split(text: string): (r: seq<Piece>)
    ensures Glue(r) == text
    ensures WellSplit(r)
  {
    SplitFromShape(text, 0, 0);
    SplitFrom(text, 0, 0)
  }

  function Texts(ps: seq<Piece>): (r: seq<string>)
    ensures |r| == |ps|
  {
    seq(|ps|, k requires 0 <= k < |ps| => ps[k].text)
  }

  /** The pieces of a markup-free text are markup-free. */
  lemma {:induction false} GluedClean(ps: seq<Piece>)
    requires Clean(Glue(ps))
    ensures forall k :: 0 <= k < |ps| ==> Clean(ps[k].text)
  {
    if ps != [] {
      CleanConcat(ps[0].text + ps[0].gap, Glue(ps[1..]));
      CleanConcat(ps[0].text, ps[0].gap);
      GluedClean(ps[1..]);
      assert forall k :: 1 <= k < |ps| ==> ps[k] == ps[1..][k - 1];
    }
  }

  /** The sentences of a reply: the non-blank split pieces, each sanitised. Sanitising
      has already happened upstream, so on markup-free text the second pass changes
      nothing and every sentence keeps its content. */
  function Segment(text: string): (r: seq<string>)
    ensures forall k :: 0 <= k < |r| ==> Clean(r[k])
    ensures Clean(text) ==> r == Seqs.Filter(Texts(Split(text)), HasContent)
    ensures Clean(text) ==> forall k :: 0 <= k < |r| ==> HasContent(r[k])
  {
    var pieces := Seqs.Filter(Texts(Split(text)), HasContent);
    assert forall k :: 0 <= k < |pieces| ==> pieces[k] in pieces;
    var r := seq(|pieces|, k requires 0 <= k < |pieces| => Sanitize(pieces[k]));
    assert Clean(text) ==> r == pieces by {
      if Clean(text) {
        GluedClean(Split(text));
        assert forall k :: 0 <= k < |pieces| ==> pieces[k] in Texts(Split(text));
      }
    }
    r
  }

  /** The scan over `b` is the scan over `pre + b` shifted by `|pre|`, when `pre` ends in
      white space (so no separator can start where `b` starts). */
  lemma {:induction false} ShiftSplit(pre: string, b: string, st: nat, q: nat)
    requires st <= q <= |b|
    requires st == 0 || IsSpace(b[st - 1])
    requires forall j :: st < j < q ==> !IsBoundary(b, j)
    requires pre == [] || IsSpace(pre[|pre| - 1])
    ensures forall j :: |pre| + st < j < |pre| + q ==> !IsBoundary(pre + b, j)
    ensures |pre| + st == 0 || IsSpace((pre + b)[|pre| + st - 1])
    ensures SplitFrom(pre + b, |pre| + st, |pre| + q) == SplitFrom(b, st, q)
    decreases |b| - q
  {
    ShiftBoundaries(pre, b, st, q);
    if q < |b| {
      ShiftBoundaryAt(pre, b, q);
      if IsBoundary(b, q) {
        var e := SpaceRunEnd(b, q);
        ShiftSplit(pre, b, e, e);
        ShiftCut(pre, b, st, q, e);
      } else {
        ShiftSplit(pre, b, st, q + 1);
      }
    } else {
      ShiftSlices(pre, b, st, q, q);
    }
  }

  /** The separator step of `ShiftSplit`, given the shifted scan after the separator. */
  lemma ShiftCut(pre: string, b: string, st: nat, q: nat, e: nat)
    requires st <= q < |b|
    requires st == 0 || IsSpace(b[st - 1])
    requires forall j :: st < j < q ==> !IsBoundary(b, j)
    requires pre == [] || IsSpace(pre[|pre| - 1])
    requires IsBoundary(b, q) && e == SpaceRunEnd(b, q)
    requires forall j :: |pre| + st < j < |pre| + q ==> !IsBoundary(pre + b, j)
    requires |pre| + st == 0 || IsSpace((pre + b)[|pre| + st - 1])
    requires IsSpace(b[e - 1])
    requires SplitFrom(pre + b, |pre| + e, |pre| + e) == SplitFrom(b, e, e)
    ensures SplitFrom(pre + b, |pre| + st, |pre| + q) == SplitFrom(b, st, q)
  {
    ShiftCutLeft(pre, b, st, q, e);
    CutStep(b, st, q, e);
    ShiftSlices(pre, b, st, q, e);
  }

  lemma ShiftCutLeft(pre: string, b: string, st: nat, q: nat, e: nat)
    requires st <= q < |b|
    requires pre == [] || IsSpace(pre[|pre| - 1])
    requires IsBoundary(b, q) && e == SpaceRunEnd(b, q)
    requires forall j :: |pre| + st < j < |pre| + q ==> !IsBoundary(pre + b, j)
    requires |pre| + st == 0 || IsSpace((pre + b)[|pre| + st - 1])
    requires IsSpace(b[e - 1])
    ensures SplitFrom(pre + b, |pre| + st, |pre| + q)
         == [Piece((pre + b)[|pre| + st..|pre| + q], (pre + b)[|pre| + q..|pre| + e])]
            + SplitFrom(pre + b, |pre| + e, |pre| + e)
  {
    ShiftedCut(pre, b, q, e);
    CutStep(pre + b, |pre| + st, |pre| + q, |pre| + e);
  }

  lemma ShiftedCut(pre: string, b: string, q: nat, e: nat)
    requires q < |b|
    requires pre == [] || IsSpace(pre[|pre| - 1])
    requires IsBoundary(b, q) && e == SpaceRunEnd(b, q)
    ensures IsBoundary(pre + b, |pre| + q)
    ensures SpaceRunEnd(pre + b, |pre| + q) == |pre| + e
  {
    ShiftBoundaryAt(pre, b, q);
    ShiftRunEnd(pre, b, q);
  }

  /** One step of the scan at a separator. */
  lemma CutStep(s: string, start: nat, q: nat, e: nat)
    requires start <= q < |s|
    requires start == 0 || IsSpace(s[start - 1])
    requires forall j :: start < j < q ==> !IsBoundary(s, j)
    requires IsBoundary(s, q) && e == SpaceRunEnd(s, q)
    ensures q < e <= |s| && IsSpace(s[e - 1])
    ensures SplitFrom(s, start, q) == [Piece(s[start..q], s[q..e])] + SplitFrom(s, e, e)
  {
  }

  lemma ShiftSlices(pre: string, b: string, st: nat, q: nat, e: nat)
    requires st <= q <= e <= |b|
    ensures (pre + b)[|pre| + st..|pre| + q] == b[st..q]
    ensures (pre + b)[|pre| + q..|pre| + e] == b[q..e]
    ensures (pre + b)[|pre| + st..] == b[st..]
  {
  }

  lemma ShiftBoundaries(pre: string, b: string, st: nat, q: nat)
    requires st <= q <= |b|
    requires st == 0 || IsSpace(b[st - 1])
    requires forall j :: st < j < q ==> !IsBoundary(b, j)
    requires pre == [] || IsSpace(pre[|pre| - 1])
    ensures forall j :: |pre| + st < j < |pre| + q ==> !IsBoundary(pre + b, j)
    ensures |pre| + st == 0 || IsSpace((pre + b)[|pre| + st - 1])
  {
    var s := pre + b;
    var n := |pre|;
    forall j | n + st < j < n + q
      ensures !IsBoundary(s, j)
    {
      assert !IsBoundary(b, j - n);
      assert s[j] == b[j - n];
      assert s[j - 1] == b[j - n - 1];
    }
    if st > 0 {
      assert s[n + st - 1] == b[st - 1];
    } else if n > 0 {
      assert s[n - 1] == pre[n - 1];
    }
  }

  lemma ShiftBoundaryAt(pre: string, b: string, q: nat)
    requires q < |b|
    requires pre == [] || IsSpace(pre[|pre| - 1])
    ensures IsBoundary(pre + b, |pre| + q) <==> IsBoundary(b, q)
  {
    var s := pre + b;
    var n := |pre|;
    assert s[n + q] == b[q];
    if q > 0 {
      assert s[n + q - 1] == b[q - 1];
    } else if n > 0 {
      assert s[n - 1] == pre[n - 1];
    }
  }

  lemma {:induction false} ShiftRunEnd(pre: string, b: string, k: nat)
    requires k <= |b|
    ensures SpaceRunEnd(pre + b, |pre| + k) == |pre| + SpaceRunEnd(b, k)
    decreases |b| - k
  {
    var s := pre + b;
    if k < |b| {
      assert s[|pre| + k] == b[k];
      if IsSpace(b[k]) {
        ShiftRunEnd(pre, b, k + 1);
      }
    }
  }

  lemma {:induction false} SpaceRunEndSkips(s: string, q: nat, k: nat)
    requires q <= k <= |s|
    requires forall j :: q <= j < k ==> IsSpace(s[j])
    ensures SpaceRunEnd(s, q) == SpaceRunEnd(s, k)
    decreases k - q
  {
    if q < k {
      SpaceRunEndSkips(s, q + 1, k);
    }
  }

  /** Splitting is compositional: a sentence ending in a terminal mark, a run of white
      space, then text that does not start with white space, splits into that sentence and
      the split of the rest. */
  lemma SplitPrepend(a: string, gap: string, b: string)
    requires |a| > 0 && IsTerminal(a[|a| - 1]) && NoInnerBoundary(a)
    requires |gap| > 0 && AllSpace(gap)
    requires b == [] || !IsSpace(b[0])
    ensures Split(a + gap + b) == [Piece(a, gap)] + Split(b)
  {
    PrependScan(a, gap, b);
  }

  lemma PrependScan(a: string, gap: string, b: string)
    requires |a| > 0 && IsTerminal(a[|a| - 1]) && NoInnerBoundary(a)
    requires |gap| > 0 && AllSpace(gap)
    requires b == [] || !IsSpace(b[0])
    ensures SplitFrom(a + gap + b, 0, 0) == [Piece(a, gap)] + SplitFrom(b, 0, 0)
  {
    PrependHead(a, gap, b);
    PrependTail(a + gap, b);
  }

  /** The scan resumed after a prefix ending in white space is the scan of the rest. */
  lemma PrependTail(pre: string, b: string)
    requires pre == [] || IsSpace(pre[|pre| - 1])
    ensures SplitFrom(pre + b, |pre|, |pre|) == SplitFrom(b, 0, 0)
  {
    ShiftSplit(pre, b, 0, 0);
  }

  lemma PrependHead(a: string, gap: string, b: string)
    requires |a| > 0 && IsTerminal(a[|a| - 1]) && NoInnerBoundary(a)
    requires |gap| > 0 && AllSpace(gap)
    requires b == [] || !IsSpace(b[0])
    ensures IsSpace((a + gap + b)[|a| + |gap| - 1])
    ensures SplitFrom(a + gap + b, 0, 0)
         == [Piece(a, gap)] + SplitFrom(a + gap + b, |a| + |gap|, |a| + |gap|)
  {
    var s := a + gap + b;
    var n := |a| + |gap|;
    PrefixScan(a, gap, b);
    GapRunEnd(a, gap, b);
    HeadSlices(a, gap, b);
    CutStep(s, 0, |a|, n);
  }

  lemma HeadSlices(a: string, gap: string, b: string)
    ensures (a + gap + b)[0..|a|] == a
    ensures (a + gap + b)[|a|..|a| + |gap|] == gap
  {
  }

  lemma PrefixScan(a: string, gap: string, b: string)
    requires |a| > 0 && IsTerminal(a[|a| - 1]) && NoInnerBoundary(a)
    requires |gap| > 0 && AllSpace(gap)
    ensures forall j :: 0 < j < |a| ==> !IsBoundary(a + gap + b, j)
    ensures IsBoundary(a + gap + b, |a|)
    ensures SplitFrom(a + gap + b, 0, 0) == SplitFrom(a + gap + b, 0, |a|)
  {
    var s := a + gap + b;
    forall j | 0 < j < |a|
      ensures !IsBoundary(s, j)
    {
      assert !IsBoundary(a, j);
      assert s[j] == a[j] && s[j - 1] == a[j - 1];
    }
    assert s[|a|] == gap[0];
    ScanTo(s, 0, |a|);
  }

  lemma GapRunEnd(a: string, gap: string, b: string)
    requires |gap| > 0 && AllSpace(gap)
    requires b == [] || !IsSpace(b[0])
    ensures SpaceRunEnd(a + gap + b, |a|) == |a| + |gap|
  {
    var s := a + gap + b;
    var n := |a| + |gap|;
    forall j | |a| <= j < n
      ensures IsSpace(s[j])
    {
      assert s[j] == gap[j - |a|];
    }
    SpaceRunEndSkips(s, |a|, n);
    if b != [] {
      assert s[n] == b[0];
    }
  }

  /** The scan reaches position `q` unchanged while no separator starts before it. */
  lemma {:induction false} ScanTo(s: string, start: nat, q: nat)
    requires start <= q <= |s|
    requires start == 0 || IsSpace(s[start - 1])
    requires forall j :: start < j < q ==> !IsBoundary(s, j)
    ensures SplitFrom(s, start, start) == SplitFrom(s, start, q)
    decreases q - start
  {
    if start < q {
      ScanFrom(s, start, start, q);
    }
  }

  lemma {:induction false} ScanFrom(s: string, start: nat, k: nat, q: nat)
    requires start <= k <= q <= |s|
    requires start == 0 || IsSpace(s[start - 1])
    requires forall j :: start < j < q ==> !IsBoundary(s, j)
    requires k == start || !IsBoundary(s, k) || k == q
    ensures SplitFrom(s, start, k) == SplitFrom(s, start, q)
    decreases q - k
  {
    if k < q {
      assert !IsBoundary(s, k) by {
        if k == start {
          assert start == 0 || !IsTerminal(s[start - 1]);
        }
      }
      ScanFrom(s, start, k + 1, q);
    }
  }

  /** A text with no separator in it is a single piece. */
  lemma Unsplit(s: string)
    requires NoInnerBoundary(s)
    ensures Split(s) == [Piece(s, "")]
  {
    ScanTo(s, 0, |s|);
    assert s[0..|s|] == s;
  }

  /** Without terminal punctuation nothing is split. */
  lemma {:induction false} NoTerminalNoSplit(s: string, q: nat)
    requires q <= |s|
    requires forall i :: 0 <= i < |s| ==> !IsTerminal(s[i])
    ensures SplitFrom(s, 0, q) == [Piece(s, "")]
    decreases |s| - q
  {
    if q < |s| {
      assert !IsBoundary(s, q);
      NoTerminalNoSplit(s, q + 1);
    } else {
      assert s[0..q] == s;
    }
  }

  /** A markup-free text without terminal punctuation is one sentence, or none when blank. */
  lemma SingleSentence(s: string)
    requires Clean(s)
    requires forall i :: 0 <= i < |s| ==> !IsTerminal(s[i])
    ensures Segment(s) == if HasContent(s) then [s] else []
  {
    NoTerminalNoSplit(s, 0);
    assert Texts(Split(s)) == [s];
    assert Texts(Split(s))[1..] == [];
  }

  /** `t` does not start with white space. */
  predicate Leading(t: string)
  {
    t == [] || !IsSpace(t[0])
  }

  /** A sentence the split cuts after: it ends in a terminal mark, has no separator inside
      and does not start with white space. */
  predicate Sentence(t: string)
  {
    |t| > 0 && IsTerminal(t[|t| - 1]) && NoInnerBoundary(t) && Leading(t)
  }

  /** Sentences that joining with single spaces and splitting again gives back: every one
      but the last is a `Sentence`, and the last has no separator inside and does not start
      with white space. */
  predicate Sentences(xs: seq<string>)
  {
    && |xs| > 0
    && (forall k :: 0 <= k < |xs| - 1 ==> Sentence(xs[k]))
    && NoInnerBoundary(xs[|xs| - 1]) && Leading(xs[|xs| - 1])
  }

  /** The pieces of `xs` joined by single spaces. */
  function Spaced(xs: seq<string>): (r: seq<Piece>)
    ensures |r| == |xs|
  {
    seq(|xs|, k requires 0 <= k < |xs| => Piece(xs[k], if k < |xs| - 1 then " " else ""))
  }

  /** Splitting undoes joining with single spaces. */
  lemma {:induction false} SplitJoin(xs: seq<string>)
    requires Sentences(xs)
    ensures Split(Join(xs, " ")) == Spaced(xs)
  {
    if |xs| == 1 {
      Unsplit(xs[0]);
    } else {
      var rest := xs[1..];
      assert Sentences(rest) by {
        assert forall k :: 0 <= k < |rest| ==> rest[k] == xs[k + 1];
      }
      SplitJoin(rest);
      JoinLeading(rest);
      SplitPrepend(xs[0], " ", Join(rest, " "));
      SpacedCons(xs);
    }
  }

  /** The join of sentences starts where its first sentence starts. */
  lemma JoinLeading(xs: seq<string>)
    requires Sentences(xs)
    ensures Leading(Join(xs, " "))
  {
    if |xs| > 1 {
      assert (xs[0] + " " + Join(xs[1..], " "))[0] == xs[0][0];
    }
  }

  lemma SpacedCons(xs: seq<string>)
    requires |xs| > 1
    ensures Spaced(xs) == [Piece(xs[0], " ")] + Spaced(xs[1..])
  {
  }

  /** The texts of the spaced pieces are the joined sentences. */
  lemma SpacedTexts(xs: seq<string>)
    ensures Texts(Spaced(xs)) == xs
  {
  }

  /** Segmenting undoes joining with single spaces: markup-free, non-blank sentences come
      back one for one. */
  lemma SegmentJoin(xs: seq<string>)
    requires Sentences(xs)
    requires forall k :: 0 <= k < |xs| ==> Clean(xs[k]) && HasContent(xs[k])
    ensures Segment(Join(xs, " ")) == xs
  {
    JoinClean(xs, " ");
    JoinedTexts(xs);
    Seqs.FilterKeepsAll(xs, HasContent);
  }

  lemma JoinedTexts(xs: seq<string>)
    requires Sentences(xs)
    ensures Texts(Split(Join(xs, " "))) == xs
  {
    SplitJoin(xs);
    SpacedTexts(xs);
  }
}
