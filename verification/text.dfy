/** Character classes and string helpers shared by the reply formatter and the ledger. */
module Text {
  import Seqs

  /** White space as JavaScript's `\s` class and `String.prototype.trim` both see it:
      the ECMAScript WhiteSpace and LineTerminator code points. */
  predicate IsSpace(c: char)
  {
    || c == ' ' || c == '\t' || c == '\n' || c == '\r' || c == '\U{000B}' || c == '\U{000C}'
    || c == '\U{00A0}' || c == '\U{1680}' || ('\U{2000}' <= c <= '\U{200A}')
    || c == '\U{2028}' || c == '\U{2029}' || c == '\U{202F}' || c == '\U{205F}'
    || c == '\U{3000}' || c == '\U{FEFF}'
  }

  /** The sentence-terminal marks of the class `[.!?]`. */
  predicate IsTerminal(c: char)
  {
    c == '.' || c == '!' || c == '?'
  }

  /** The markup characters of the class `[\*#_`~\[\]]`. */
  predicate IsMarkup(c: char)
  {
    c == '*' || c == '#' || c == '_' || c == '`' || c == '~' || c == '[' || c == ']'
  }

  /** No markup character occurs in `s`. */
  predicate Clean(s: string)
  {
    forall i :: 0 <= i < |s| ==> !IsMarkup(s[i])
  }

  /** `s.trim()` is non-empty: some character is not white space. */
  predicate HasContent(s: string)
  {
    exists i :: 0 <= i < |s| && !IsSpace(s[i])
  }

  /** Every character of `s` is white space. */
  predicate AllSpace(s: string)
  {
    forall i :: 0 <= i < |s| ==> IsSpace(s[i])
  }

  /** `s.replace(/[\*#_`~\[\]]/g, "")`. */
  function Sanitize(s: string): (r: string)
    ensures Clean(r)
    ensures forall c :: c in r <==> c in s && !IsMarkup(c)
    ensures Seqs.IsSubsequence(r, s)
    ensures Clean(s) ==> r == s
  {
    var keep := (c: char) => !IsMarkup(c);
    var r := Seqs.Filter(s, keep);
    assert forall i :: 0 <= i < |r| ==> r[i] in r;
    assert Clean(s) ==> r == s by {
      if Clean(s) {
        Seqs.FilterKeepsAll(s, keep);
      }
    }
    r
  }

  /** Removing markup twice removes nothing more. */
  lemma SanitizeIdempotent(s: string)
    ensures Sanitize(Sanitize(s)) == Sanitize(s)
  {
  }

  /** Sanitising keeps each non-markup character exactly as often as it occurs. */
  lemma SanitizeKeepsOthers(s: string, c: char)
    ensures multiset(Sanitize(s))[c] == if IsMarkup(c) then 0 else multiset(s)[c]
  {
    Seqs.FilterCounts(s, (c: char) => !IsMarkup(c), c);
  }

  /** ASCII lower-casing of one character. */
  function LowerChar(c: char): char
  {
    if 'A' <= c <= 'Z' then (c as int + 32) as char else c
  }

  /** ASCII lower-casing of a string. */
  function Lower(s: string): (r: string)
    ensures |r| == |s|
  {
    seq(|s|, i requires 0 <= i < |s| => LowerChar(s[i]))
  }

  /** `needle` occurs in `hay` as a contiguous block. */
  predicate Contains(hay: string, needle: string)
    decreases |hay|
  {
    needle <= hay || (hay != [] && Contains(hay[1..], needle))
  }

  /** An occurrence at position `i` is found by `Contains`. */
  lemma {:induction false} ContainsAt(hay: string, needle: string, i: nat)
    requires i + |needle| <= |hay|
    requires hay[i..i + |needle|] == needle
    ensures Contains(hay, needle)
  {
    if i > 0 {
      ContainsAt(hay[1..], needle, i - 1);
      assert hay[1..][i - 1..i - 1 + |needle|] == hay[i..i + |needle|];
    } else {
      assert needle <= hay;
    }
  }

  /** Some phrase of `phrases` occurs in `text`. */
  predicate ContainsAny(text: string, phrases: seq<string>)
  {
    phrases != [] && (Contains(text, phrases[0]) || ContainsAny(text, phrases[1..]))
  }

  /** `s.match(/p1|p2|.../i)` for lower-case ASCII phrases: a case-insensitive substring test. */
  predicate Mentions(s: string, phrases: seq<string>)
  {
    ContainsAny(Lower(s), phrases)
  }

  /** `Mentions` holds exactly when one of the listed phrases occurs, case-insensitively. */
  lemma {:induction false} MentionsIff(s: string, phrases: seq<string>)
    ensures Mentions(s, phrases) <==> exists k :: 0 <= k < |phrases| && Contains(Lower(s), phrases[k])
  {
    if phrases != [] {
      MentionsIff(s, phrases[1..]);
      if Mentions(s, phrases[1..]) {
        var k :| 0 <= k < |phrases[1..]| && Contains(Lower(s), phrases[1..][k]);
        assert Contains(Lower(s), phrases[k + 1]);
      }
      if exists k :: 0 <= k < |phrases| && Contains(Lower(s), phrases[k]) {
        var k :| 0 <= k < |phrases| && Contains(Lower(s), phrases[k]);
        if k > 0 {
          assert Contains(Lower(s), phrases[1..][k - 1]);
        }
      }
    }
  }

  /** Neither the first nor the last character is white space. */
  predicate NoOuterSpace(s: string)
  {
    s == [] || (!IsSpace(s[0]) && !IsSpace(s[|s| - 1]))
  }

  /** `s.trimStart()`. */
  function TrimStart(s: string): (r: string)
    ensures |r| <= |s| && r == s[|s| - |r|..]
    ensures forall k :: 0 <= k < |s| - |r| ==> IsSpace(s[k])
    ensures r == [] || !IsSpace(r[0])
  {
    if s != [] && IsSpace(s[0]) then TrimStart(s[1..]) else s
  }

  /** `s.trimEnd()`. */
  function TrimEnd(s: string): (r: string)
    ensures |r| <= |s| && r == s[..|r|]
    ensures forall k :: |r| <= k < |s| ==> IsSpace(s[k])
    ensures r == [] || !IsSpace(r[|r| - 1])
  {
    if s != [] && IsSpace(s[|s| - 1]) then TrimEnd(s[..|s| - 1]) else s
  }

  /** `r` is `s` with some leading and some trailing white space cut off and nothing else
      changed. */
  predicate StripsOuterSpace(s: string, r: string)
  {
    exists i :: 0 <= i <= |s| - |r| && r == s[i..i + |r|] && AllSpace(s[..i]) && AllSpace(s[i + |r|..])
  }

  /** `s.trim()`: the text between the leading and the trailing white space. */
  function Trim(s: string): (r: string)
    ensures StripsOuterSpace(s, r)
    ensures NoOuterSpace(r)
    ensures r == [] <==> !HasContent(s)
    ensures forall c :: c in r ==> c in s
    ensures Clean(s) ==> Clean(r)
  {
    TrimBoth(s, TrimStart(s), TrimEnd(TrimStart(s)));
    TrimEnd(TrimStart(s))
  }

  lemma {:induction false} TrimBoth(s: string, a: string, r: string)
    requires a == TrimStart(s) && r == TrimEnd(a)
    ensures StripsOuterSpace(s, r)
    ensures NoOuterSpace(r)
    ensures r == [] <==> !HasContent(s)
    ensures forall c :: c in r ==> c in s
    ensures Clean(s) ==> Clean(r)
  {
    TrimOuter(s);
    TrimStrips(s, a, r);
    TrimContent(s, a, r);
    if Clean(s) {
      TrimClean(s, a, r);
    }
  }

  lemma {:induction false} TrimContent(s: string, a: string, r: string)
    requires a == TrimStart(s) && r == TrimEnd(a)
    ensures r == [] <==> !HasContent(s)
    ensures forall c :: c in r ==> c in s
  {
    var i := |s| - |a|;
    SliceOfSuffix(s, a, r, i);
    TailSpaces(s, a, i, |r|);
    InfixContent(s, i, i + |r|);
  }

  lemma {:induction false} TrimStrips(s: string, a: string, r: string)
    requires a == TrimStart(s) && r == TrimEnd(a)
    ensures StripsOuterSpace(s, r)
  {
    var i := |s| - |a|;
    SliceOfSuffix(s, a, r, i);
    TailSpaces(s, a, i, |r|);
    SpacePrefix(s, i);
    SpaceSuffix(s, i + |r|);
    assert 0 <= i <= |s| - |r| && r == s[i..i + |r|] && AllSpace(s[..i]) && AllSpace(s[i + |r|..]);
  }

  lemma SpacePrefix(s: string, i: nat)
    requires i <= |s|
    requires forall k :: 0 <= k < i ==> IsSpace(s[k])
    ensures AllSpace(s[..i])
  {
    forall k | 0 <= k < i
      ensures IsSpace(s[..i][k])
    {
      assert s[..i][k] == s[k];
    }
  }

  lemma SpaceSuffix(s: string, j: nat)
    requires j <= |s|
    requires forall k :: j <= k < |s| ==> IsSpace(s[k])
    ensures AllSpace(s[j..])
  {
    forall k | 0 <= k < |s| - j
      ensures IsSpace(s[j..][k])
    {
      assert s[j..][k] == s[j + k];
    }
  }

  lemma {:induction false} TrimClean(s: string, a: string, r: string)
    requires a == TrimStart(s) && r == TrimEnd(a)
    requires Clean(s)
    ensures Clean(r)
  {
    var i := |s| - |a|;
    SliceOfSuffix(s, a, r, i);
    CleanSlice(s, i, i + |r|);
  }

  lemma {:induction false} TrimOuter(s: string)
    ensures NoOuterSpace(TrimEnd(TrimStart(s)))
  {
    var a := TrimStart(s);
    var r := TrimEnd(a);
    if r != [] {
      assert r[0] == a[0];
      assert !IsSpace(a[0]);
    }
  }

  lemma SliceOfSuffix(s: string, a: string, r: string, i: nat)
    requires i <= |s| && a == s[i..] && |r| <= |a| && r == a[..|r|]
    ensures r == s[i..i + |r|]
    ensures r != [] ==> r[0] == a[0]
  {
  }

  lemma TailSpaces(s: string, a: string, i: nat, n: nat)
    requires i <= |s| && a == s[i..] && n <= |a|
    requires forall k :: n <= k < |a| ==> IsSpace(a[k])
    ensures forall k :: i + n <= k < |s| ==> IsSpace(s[k])
  {
    forall k | i + n <= k < |s|
      ensures IsSpace(s[k])
    {
      assert s[k] == a[k - i];
    }
  }

  lemma CleanSlice(s: string, i: nat, j: nat)
    requires i <= j <= |s| && Clean(s)
    ensures Clean(s[i..j])
  {
    forall k | 0 <= k < j - i
      ensures !IsMarkup(s[i..j][k])
    {
      assert s[i..j][k] == s[i + k];
    }
  }

  /** Cutting white space off both ends keeps the content and adds no character. */
  lemma {:induction false} InfixContent(s: string, i: nat, j: nat)
    requires i <= j <= |s|
    requires forall k :: 0 <= k < i ==> IsSpace(s[k])
    requires forall k :: j <= k < |s| ==> IsSpace(s[k])
    requires i == j || !IsSpace(s[i])
    ensures s[i..j] == [] <==> !HasContent(s)
    ensures forall c :: c in s[i..j] ==> c in s
  {
    if HasContent(s) {
      var k :| 0 <= k < |s| && !IsSpace(s[k]);
      assert s[i..j][k - i] == s[k];
    }
  }

  /** `ss.join(sep)`. */
  function Join(ss: seq<string>, sep: string): string
  {
    if ss == [] then "" else if |ss| == 1 then ss[0] else ss[0] + sep + Join(ss[1..], sep)
  }

  lemma CleanConcat(a: string, b: string)
    ensures Clean(a + b) <==> Clean(a) && Clean(b)
  {
    if Clean(a) && Clean(b) {
      forall i | 0 <= i < |a + b|
        ensures !IsMarkup((a + b)[i])
      {
        if i >= |a| {
          assert (a + b)[i] == b[i - |a|];
        }
      }
    }
    if Clean(a + b) {
      forall i | 0 <= i < |a|
        ensures !IsMarkup(a[i])
      {
        assert (a + b)[i] == a[i];
      }
      forall i | 0 <= i < |b|
        ensures !IsMarkup(b[i])
      {
        assert (a + b)[|a| + i] == b[i];
      }
    }
  }

  lemma HasContentConcat(a: string, b: string)
    ensures HasContent(a + b) <==> HasContent(a) || HasContent(b)
  {
    if HasContent(b) {
      var i :| 0 <= i < |b| && !IsSpace(b[i]);
      assert (a + b)[|a| + i] == b[i];
    }
    if HasContent(a) {
      var i :| 0 <= i < |a| && !IsSpace(a[i]);
      assert (a + b)[i] == a[i];
    }
    if HasContent(a + b) {
      var i :| 0 <= i < |a + b| && !IsSpace((a + b)[i]);
      if i < |a| {
        assert a[i] == (a + b)[i];
      } else {
        assert b[i - |a|] == (a + b)[i];
      }
    }
  }

  /** Joining markup-free strings with a markup-free separator gives a markup-free string. */
  lemma {:induction false} JoinClean(ss: seq<string>, sep: string)
    requires Clean(sep)
    requires forall k :: 0 <= k < |ss| ==> Clean(ss[k])
    ensures Clean(Join(ss, sep))
  {
    if |ss| > 1 {
      JoinClean(ss[1..], sep);
      CleanConcat(ss[0], sep);
      CleanConcat(ss[0] + sep, Join(ss[1..], sep));
    }
  }

  /** A joined string has content when one of its parts has. */
  lemma {:induction false} JoinHasContent(ss: seq<string>, sep: string, k: nat)
    requires k < |ss| && HasContent(ss[k])
    ensures HasContent(Join(ss, sep))
  {
    if |ss| > 1 {
      HasContentConcat(ss[0], sep);
      HasContentConcat(ss[0] + sep, Join(ss[1..], sep));
      if k > 0 {
        JoinHasContent(ss[1..], sep, k - 1);
      }
    }
  }

  /** Position `i` starts a maximal run of white space. */
  predicate StartsSpaceRun(s: string, i: nat)
    requires i < |s|
  {
    IsSpace(s[i]) && (i == 0 || !IsSpace(s[i - 1]))
  }

  /** The number of maximal white-space runs among the first `n` characters. */
  function SpaceRuns(s: string, n: nat): nat
    requires n <= |s|
  {
    if n == 0 then 0 else SpaceRuns(s, n - 1) + (if StartsSpaceRun(s, n - 1) then 1 else 0)
  }

  /** `s.split(/\s+/).length`: one piece more than there are white-space runs, so a
      leading or a trailing run counts as a word of its own. */
  function WordCount(s: string): nat
  {
    1 + SpaceRuns(s, |s|)
  }

  /** Text without white space is one word. */
  lemma NoSpaceOneWord(s: string)
    requires forall i :: 0 <= i < |s| ==> !IsSpace(s[i])
    ensures WordCount(s) == 1
  {
    NoSpaceRuns(s, |s|);
  }

  lemma {:induction false} NoSpaceRuns(s: string, n: nat)
    requires n <= |s|
    requires forall i :: 0 <= i < |s| ==> !IsSpace(s[i])
    ensures SpaceRuns(s, n) == 0
  {
    if n > 0 {
      NoSpaceRuns(s, n - 1);
    }
  }

  /** Two texts joined by one space have the words of both: the space is a run of its
      own when it touches no other white space. */
  lemma WordCountSpaced(a: string, b: string)
    requires a != [] && !IsSpace(a[|a| - 1])
    requires b != [] && !IsSpace(b[0])
    ensures WordCount(a + " " + b) == WordCount(a) + WordCount(b)
  {
    var s := a + " " + b;
    SpaceRunsPrefix(a, " " + b, |a|);
    assert s == a + (" " + b);
    assert StartsSpaceRun(s, |a|);
    SpaceRunsAfter(a, b, |b|);
  }

  /** Counting runs in a prefix does not look past it. */
  lemma {:induction false} SpaceRunsPrefix(a: string, c: string, n: nat)
    requires n <= |a|
    ensures SpaceRuns(a + c, n) == SpaceRuns(a, n)
  {
    if n > 0 {
      SpaceRunsPrefix(a, c, n - 1);
      assert (a + c)[n - 1] == a[n - 1];
      if n > 1 {
        assert (a + c)[n - 2] == a[n - 2];
      }
    }
  }

  lemma {:induction false} SpaceRunsAfter(a: string, b: string, k: nat)
    requires a != [] && !IsSpace(a[|a| - 1])
    requires b != [] && !IsSpace(b[0])
    requires k <= |b|
    ensures SpaceRuns(a + " " + b, |a| + 1 + k) == SpaceRuns(a, |a|) + 1 + SpaceRuns(b, k)
  {
    var s := a + " " + b;
    if k == 0 {
      SpaceRunsPrefix(a, " " + b, |a|);
      assert s == a + (" " + b);
      assert s[|a|] == ' ' && s[|a| - 1] == a[|a| - 1];
    } else {
      SpaceRunsAfter(a, b, k - 1);
      assert s[|a| + k] == b[k - 1];
      if k > 1 {
        assert s[|a| + k - 1] == b[k - 2];
      }
    }
  }
}
