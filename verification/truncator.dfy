/** Locating the conclusion and choosing where a long reply is cut. */
module Truncator {
  import opened Text

  /** Word budget after which a cut is considered. */
  const TargetWords := 300
  /** Running total from which a cut no longer keeps the current sentence. */
  const HardCapWords := 350
  /** `findIndex`'s "no such sentence". */
  const NotFound := -1

  const ConclusionPhrases: seq<string> :=
    ["in conclusion", "to summarize", "finally", "overall", "in summary",
     "therefore", "thus", "hence", "ultimately"]
  const ElaborationPhrases: seq<string> :=
    ["importantly", "specifically", "for example", "such as", "including"]
  const CausalPhrases: seq<string> := ["therefore", "thus", "hence", "consequently"]

  /** `findIndex` from position `i` on. */
  function FindFrom(ss: seq<string>, phrases: seq<string>, i: nat): (r: int)
    requires i <= |ss|
    ensures r == NotFound || i <= r < |ss|
    ensures r == NotFound <==> forall k :: i <= k < |ss| ==> !Mentions(ss[k], phrases)
    ensures r != NotFound ==> Mentions(ss[r], phrases)
    ensures r != NotFound ==> forall k :: i <= k < r ==> !Mentions(ss[k], phrases)
    decreases |ss| - i
  {
    if i == |ss| then NotFound
    else if Mentions(ss[i], phrases) then i
    else FindFrom(ss, phrases, i + 1)
  }

  /** The index of the first sentence that mentions a conclusion phrase, or `NotFound`. */
  function ConclusionIndex(ss: seq<string>): (ci: int)
    ensures NotFound <= ci < |ss|
    ensures ci == NotFound <==> forall k :: 0 <= k < |ss| ==> !Mentions(ss[k], ConclusionPhrases)
    ensures ci != NotFound ==> Mentions(ss[ci], ConclusionPhrases)
    ensures ci != NotFound ==> forall k :: 0 <= k < ci ==> !Mentions(ss[k], ConclusionPhrases)
  {
    FindFrom(ss, ConclusionPhrases, 0)
  }

  /** Running word total of the first `n` sentences. */
  function Total(ss: seq<string>, n: nat): nat
    requires n <= |ss|
  {
    if n == 0 then 0 else Total(ss, n - 1) + WordCount(ss[n - 1])
  }

  lemma {:induction false} TotalMonotone(ss: seq<string>, m: nat, n: nat)
    requires m <= n <= |ss|
    ensures Total(ss, m) <= Total(ss, n)
    decreases n - m
  {
    if m < n {
      TotalMonotone(ss, m, n - 1);
    }
  }

  /** Sentence `i` sets up what follows: it elaborates, or the next sentence is a causal
      continuation (there is no next sentence after the last one). */
  predicate Defers(ss: seq<string>, i: nat)
    requires i < |ss|
  {
    Mentions(ss[i], ElaborationPhrases) || (i + 1 < |ss| && Mentions(ss[i + 1], CausalPhrases))
  }

  /** The cutting loop from sentence `i` on, with the running total of the sentences before
      `i` and the cutoff chosen so far (`NotFound` while none is). A cut next to a located
      conclusion ends the loop; any other cut is kept while the loop runs on. */
  function Scan(ss: seq<string>, ci: int, i: nat, total: int, cutoff: int): (r: int)
    requires i <= |ss|
    requires NotFound <= ci
    requires cutoff == NotFound || 0 <= cutoff <= |ss|
    ensures 0 <= r
    ensures r <= |ss| || (ci != NotFound && r == ci + 2)
    decreases |ss| - i
  {
    if i == |ss| then
      if cutoff == NotFound then |ss| else cutoff
    else
      var total' := total + WordCount(ss[i]);
      if total' > TargetWords && cutoff == NotFound then
        if ci != NotFound && i >= ci && total' < HardCapWords then ci + 2
        else if Defers(ss, i) then Scan(ss, ci, i + 1, total', cutoff)
        else if i < |ss| - 1 && total' < HardCapWords then Scan(ss, ci, i + 1, total', i + 1)
        else Scan(ss, ci, i + 1, total', i)
      else
        Scan(ss, ci, i + 1, total', cutoff)
  }

  /** The exclusive end of the retained sentences, before clamping to the sentence count. */
  function Cutoff(ss: seq<string>, ci: int): (r: int)
    requires NotFound <= ci
    ensures 0 <= r
    ensures r <= |ss| || (ci != NotFound && r == ci + 2)
  {
    Scan(ss, ci, 0, 0, NotFound)
  }

  /** Sentence `i` decides the cut: the running total through it exceeds the target, and
      either a conclusion located at or before it can still be closed off under the hard
      cap, or nothing defers the decision. */
  predicate Decides(ss: seq<string>, ci: int, i: nat)
    requires i < |ss|
  {
    var t := Total(ss, i + 1);
    t > TargetWords && ((ci != NotFound && i >= ci && t < HardCapWords) || !Defers(ss, i))
  }

  /** The cutoff a deciding sentence `i` chooses: the conclusion plus the sentence after
      it; otherwise sentence `i` included if the hard cap is not reached and `i` is not the
      last sentence; otherwise sentence `i` excluded. */
  function Decision(ss: seq<string>, ci: int, i: nat): int
    requires i < |ss|
  {
    var t := Total(ss, i + 1);
    if ci != NotFound && i >= ci && t < HardCapWords then ci + 2
    else if i < |ss| - 1 && t < HardCapWords then i + 1
    else i
  }

  /** Once a cutoff is chosen the rest of the loop leaves it alone. */
  lemma {:induction false} ScanKeepsChosen(ss: seq<string>, ci: int, i: nat, total: int, cutoff: int)
    requires i <= |ss|
    requires NotFound <= ci
    requires 0 <= cutoff <= |ss|
    ensures Scan(ss, ci, i, total, cutoff) == cutoff
    decreases |ss| - i
  {
    if i < |ss| {
      ScanKeepsChosen(ss, ci, i + 1, total + WordCount(ss[i]), cutoff);
    }
  }

  /** With no deciding sentence from `i` on, the loop keeps every sentence. */
  lemma {:induction false} ScanNoDecision(ss: seq<string>, ci: int, i: nat)
    requires i <= |ss|
    requires NotFound <= ci
    requires forall k :: i <= k < |ss| ==> !Decides(ss, ci, k)
    ensures Scan(ss, ci, i, Total(ss, i), NotFound) == |ss|
    decreases |ss| - i
  {
    if i < |ss| {
      assert !Decides(ss, ci, i);
      assert Total(ss, i + 1) == Total(ss, i) + WordCount(ss[i]);
      ScanNoDecision(ss, ci, i + 1);
    }
  }

  /** The loop's result from `i` on is chosen by the first deciding sentence `k`. */
  lemma {:induction false} ScanFirstDecision(ss: seq<string>, ci: int, i: nat, k: nat)
    requires i <= k < |ss|
    requires NotFound <= ci
    requires Decides(ss, ci, k)
    requires forall j :: i <= j < k ==> !Decides(ss, ci, j)
    ensures Scan(ss, ci, i, Total(ss, i), NotFound) == Decision(ss, ci, k)
    decreases k - i
  {
    assert Total(ss, i + 1) == Total(ss, i) + WordCount(ss[i]);
    if i < k {
      assert !Decides(ss, ci, i);
      ScanFirstDecision(ss, ci, i + 1, k);
    } else {
      DecisionStep(ss, ci, i);
    }
  }

  /** A deciding sentence ends the loop with its decision. */
  lemma DecisionStep(ss: seq<string>, ci: int, i: nat)
    requires i < |ss|
    requires NotFound <= ci
    requires Decides(ss, ci, i)
    ensures Scan(ss, ci, i, Total(ss, i), NotFound) == Decision(ss, ci, i)
  {
    var t := Total(ss, i + 1);
    assert t == Total(ss, i) + WordCount(ss[i]);
    if !(ci != NotFound && i >= ci && t < HardCapWords) {
      if i < |ss| - 1 && t < HardCapWords {
        ScanKeepsChosen(ss, ci, i + 1, t, i + 1);
      } else {
        ScanKeepsChosen(ss, ci, i + 1, t, i);
      }
    }
  }

  /** The cutoff is chosen at the first deciding sentence; without one nothing is cut. */
  lemma CutoffIsFirstDecision(ss: seq<string>, ci: int)
    requires NotFound <= ci
    ensures (forall k :: 0 <= k < |ss| ==> !Decides(ss, ci, k)) ==> Cutoff(ss, ci) == |ss|
    ensures forall k :: 0 <= k < |ss| && Decides(ss, ci, k) && (forall j :: 0 <= j < k ==> !Decides(ss, ci, j))
              ==> Cutoff(ss, ci) == Decision(ss, ci, k)
  {
    if forall k :: 0 <= k < |ss| ==> !Decides(ss, ci, k) {
      ScanNoDecision(ss, ci, 0);
    }
    forall k | 0 <= k < |ss| && Decides(ss, ci, k) && (forall j :: 0 <= j < k ==> !Decides(ss, ci, j))
      ensures Cutoff(ss, ci) == Decision(ss, ci, k)
    {
      ScanFirstDecision(ss, ci, 0, k);
    }
  }

  /** A reply whose words never exceed the target is kept whole. */
  lemma WithinBudgetKeepsAll(ss: seq<string>, ci: int)
    requires NotFound <= ci
    requires Total(ss, |ss|) <= TargetWords
    ensures Cutoff(ss, ci) == |ss|
  {
    forall k | 0 <= k < |ss|
      ensures !Decides(ss, ci, k)
    {
      TotalMonotone(ss, k + 1, |ss|);
    }
    ScanNoDecision(ss, ci, 0);
  }

  /** The retained sentences: `ss.slice(0, cutoff)`, which clamps to the sentence count. */
  function Kept(ss: seq<string>, ci: int): (r: seq<string>)
    requires NotFound <= ci
    ensures r <= ss
    ensures |r| == if Cutoff(ss, ci) < |ss| then Cutoff(ss, ci) else |ss|
    ensures Total(ss, |ss|) <= TargetWords ==> r == ss
  {
    var cutoff := Cutoff(ss, ci);
    assert Total(ss, |ss|) <= TargetWords ==> cutoff == |ss| by {
      if Total(ss, |ss|) <= TargetWords {
        WithinBudgetKeepsAll(ss, ci);
      }
    }
    ss[..if cutoff < |ss| then cutoff else |ss|]
  }
}
