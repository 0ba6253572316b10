/** The recent-query ledger: the list of past prompts shown on the start page and in the
    side bar, most recent first, without case-insensitive repeats and at most twenty long,
    kept in the browser's key-value store under one key. */
module Ledger {
  import opened Text
  import opened Wrappers
  import Seqs

  /** `.slice(0, 20)` in the submit handler. */
  const Capacity := 20
  /** The storage key the ledger is read from and written to. */
  const StorageKey := "recentSearches"

  /** The ledger shown when nothing has been saved yet. */
  const Seed: seq<string> :=
    ["What is React?", "How to create components", "State management in React",
     "React best practices", "React Hooks explained", "React Router setup",
     "Redux vs Context", "React performance tips"]

  /** Two queries are the same entry when they agree after lower-casing. */
  predicate SameQuery(a: string, b: string)
  {
    Lower(a) == Lower(b)
  }

  /** The filter of the submit handler: entries that are not the query `q`. */
  function NotSame(q: string): string -> bool
  {
    x => !SameQuery(x, q)
  }

  predicate NoDuplicates(l: seq<string>)
  {
    forall i, j :: 0 <= i < j < |l| ==> !SameQuery(l[i], l[j])
  }

  /** The ledger invariant. */
  predicate WellFormed(l: seq<string>)
  {
    |l| <= Capacity && NoDuplicates(l)
  }

  /** The ledger update of a submitted query `q`: `q` goes to the front, every earlier
      entry equal to it up to case disappears, the others keep their order, and the list
      is cut at the capacity. */
  function Record(l: seq<string>, q: string): (r: seq<string>)
    ensures |r| > 0 && r[0] == q
    ensures |r| <= Capacity
    ensures forall k :: 1 <= k < |r| ==> !SameQuery(r[k], q)
    ensures Seqs.IsSubsequence(r[1..], l)
    ensures |r| == Capacity || forall x :: x in l && !SameQuery(x, q) ==> x in r
    ensures r[1..] <= Seqs.Filter(l, NotSame(q))
    ensures |r| == if |Seqs.Filter(l, NotSame(q))| < Capacity then 1 + |Seqs.Filter(l, NotSame(q))| else Capacity
  {
    var rest := Seqs.Filter(l, NotSame(q));
    var r := ([q] + rest)[..if 1 + |rest| < Capacity then 1 + |rest| else Capacity];
    RecordFacts(l, q, rest, r);
    r
  }

  lemma RecordFacts(l: seq<string>, q: string, rest: seq<string>, r: seq<string>)
    requires rest == Seqs.Filter(l, NotSame(q))
    requires r == ([q] + rest)[..if 1 + |rest| < Capacity then 1 + |rest| else Capacity]
    ensures |r| > 0 && r[0] == q
    ensures |r| <= Capacity
    ensures forall k :: 1 <= k < |r| ==> !SameQuery(r[k], q)
    ensures Seqs.IsSubsequence(r[1..], l)
    ensures |r| == Capacity || forall x :: x in l && !SameQuery(x, q) ==> x in r
    ensures r[1..] <= rest
    ensures |r| == if |rest| < Capacity then 1 + |rest| else Capacity
  {
    CapFront(q, rest, r);
    Seqs.PrefixIsSubsequence(rest, |r| - 1);
    Seqs.SubsequenceTrans(r[1..], rest, l);
    if |r| < Capacity {
      assert r[1..] == rest;
      forall x | x in l && !SameQuery(x, q)
        ensures x in r
      {
        assert NotSame(q)(x);
        assert x in r[1..];
      }
    }
  }

  /** The capped list is the query followed by a prefix of the remaining entries. */
  lemma CapFront(q: string, rest: seq<string>, r: seq<string>)
    requires r == ([q] + rest)[..if 1 + |rest| < Capacity then 1 + |rest| else Capacity]
    ensures |r| > 0 && r[0] == q
    ensures r[1..] == rest[..|r| - 1]
    ensures forall k :: 1 <= k < |r| ==> r[k] in rest
  {
    assert forall k :: 1 <= k < |r| ==> r[k] == rest[k - 1];
  }

  /** The submit handler's guard: a blank input leaves the ledger alone. */
  function Submit(l: seq<string>, input: string): (r: seq<string>)
    ensures !HasContent(input) ==> r == l
    ensures HasContent(input) ==> r == Record(l, input)
  {
    if Trim(input) != "" then Record(l, input) else l
  }

  /** `prev.filter(item => item !== q)`: literal, case-sensitive removal. */
  function Delete(l: seq<string>, q: string): (r: seq<string>)
    ensures q !in r
    ensures forall x :: x in r <==> x in l && x != q
    ensures Seqs.IsSubsequence(r, l)
    ensures |r| <= |l|
  {
    Seqs.Filter(l, x => x != q)
  }

  /** The initial ledger: the saved value when the store holds a non-empty one, run
      through the parser (which fails on malformed text, and nothing catches that), and
      the seed list otherwise. */
  function Load(store: map<string, string>, parse: string -> Result<seq<string>, string>)
    : Result<seq<string>, string>
  {
    if StorageKey in store && store[StorageKey] != "" then parse(store[StorageKey]) else Success(Seed)
  }

  /** The write after every change: the serialised ledger under the storage key, and
      nothing else in the store touched. */
  function Persist(store: map<string, string>, l: seq<string>, serialize: seq<string> -> string)
    : (r: map<string, string>)
    ensures StorageKey in r && r[StorageKey] == serialize(l)
    ensures forall k :: k != StorageKey ==> (k in r <==> k in store)
    ensures forall k :: k in store && k != StorageKey ==> r[k] == store[k]
  {
    store[StorageKey := serialize(l)]
  }

  /** Removing entries never creates a repeat. */
  lemma {:induction false} FilterKeepsDistinct(l: seq<string>, keep: string -> bool)
    requires NoDuplicates(l)
    ensures NoDuplicates(Seqs.Filter(l, keep))
  {
    if l != [] {
      var rest := Seqs.Filter(l[1..], keep);
      assert NoDuplicates(l[1..]) by {
        forall i, j | 0 <= i < j < |l[1..]|
          ensures !SameQuery(l[1..][i], l[1..][j])
        {
          assert l[1..][i] == l[i + 1] && l[1..][j] == l[j + 1];
        }
      }
      FilterKeepsDistinct(l[1..], keep);
      if keep(l[0]) {
        forall k | 0 <= k < |rest|
          ensures !SameQuery(l[0], rest[k])
        {
          assert rest[k] in l[1..];
          var j :| 0 <= j < |l[1..]| && l[1..][j] == rest[k];
          assert l[j + 1] == rest[k];
        }
        AddFront(l[0], rest);
      }
    }
  }

  /** An entry different from every other one can go to the front. */
  lemma AddFront(q: string, rest: seq<string>)
    requires NoDuplicates(rest)
    requires forall k :: 0 <= k < |rest| ==> !SameQuery(q, rest[k])
    ensures NoDuplicates([q] + rest)
  {
    var l := [q] + rest;
    forall i, j | 0 <= i < j < |l|
      ensures !SameQuery(l[i], l[j])
    {
      assert l[j] == rest[j - 1];
      if i > 0 {
        assert l[i] == rest[i - 1];
      }
    }
  }

  /** Recording keeps the ledger invariant, whatever the length of the list before. */
  lemma RecordPreservesWellFormed(l: seq<string>, q: string)
    requires NoDuplicates(l)
    ensures WellFormed(Record(l, q))
  {
    var rest := Seqs.Filter(l, NotSame(q));
    FilterKeepsDistinct(l, NotSame(q));
    forall k | 0 <= k < |rest|
      ensures !SameQuery(q, rest[k])
    {
      assert rest[k] in rest;
    }
    AddFront(q, rest);
    var full := [q] + rest;
    var n := if |full| < Capacity then |full| else Capacity;
    assert Record(l, q) == full[..n];
    assert forall i, j :: 0 <= i < j < n ==> full[..n][i] == full[i] && full[..n][j] == full[j];
  }

  /** Submitting the most recent query again changes nothing. */
  lemma RecordIdempotent(l: seq<string>, q: string)
    ensures Record(Record(l, q), q) == Record(l, q)
  {
    var r := Record(l, q);
    assert r == [q] + r[1..];
    assert Seqs.Filter(r, NotSame(q)) == Seqs.Filter(r[1..], NotSame(q));
    Seqs.FilterKeepsAll(r[1..], NotSame(q));
    assert ([q] + r[1..])[..|r|] == r;
  }

  /** Two different queries submitted in turn sit at the front, latest first. */
  lemma RecordOrder(l: seq<string>, a: string, b: string)
    requires !SameQuery(a, b)
    ensures |Record(Record(l, a), b)| >= 2
    ensures Record(Record(l, a), b)[..2] == [b, a]
  {
    var r := Record(l, a);
    assert NotSame(b)(r[0]);
    Seqs.FilterKeptPrefix(r, NotSame(b), 1);
  }

  /** Deletion removes every copy of the query and keeps every other entry as often as it
      occurs; with the order kept, this pins the result down. */
  lemma DeleteCounts(l: seq<string>, q: string, x: string)
    ensures multiset(Delete(l, q))[x] == if x == q then 0 else multiset(l)[x]
  {
    Seqs.FilterCounts(l, y => y != q, x);
  }

  /** Deleting twice is deleting once. */
  lemma DeleteIdempotent(l: seq<string>, q: string)
    ensures Delete(Delete(l, q), q) == Delete(l, q)
  {
    Seqs.FilterIdempotent(l, x => x != q);
  }

  /** Deleting keeps the ledger invariant. */
  lemma DeletePreservesWellFormed(l: seq<string>, q: string)
    requires WellFormed(l)
    ensures WellFormed(Delete(l, q))
  {
    FilterKeepsDistinct(l, x => x != q);
  }

  /** Deleting a query that is not in the ledger changes nothing. */
  lemma DeleteAbsent(l: seq<string>, q: string)
    requires q !in l
    ensures Delete(l, q) == l
  {
    Seqs.FilterKeepsAll(l, x => x != q);
  }

  /** Deletion is case-sensitive: deleting "Hello" leaves "hello" in place. */
  lemma DeleteKeepsOtherCase()
    ensures Delete(["Hello", "hello"], "Hello") == ["hello"]
  {
    var l := ["Hello", "hello"];
    assert l[1..] == ["hello"];
    assert "hello" != "Hello";
    DeleteAbsent(l[1..], "Hello");
  }

  /** The seed list holds eight entries, no two alike up to case. */
  lemma SeedWellFormed()
    ensures |Seed| == 8
    ensures WellFormed(Seed)
  {
    forall i, j | 0 <= i < j < |Seed|
      ensures !SameQuery(Seed[i], Seed[j])
    {
      assert |Seed[i]| != |Seed[j]|;
      assert |Lower(Seed[i])| != |Lower(Seed[j])|;
    }
  }

  /** A store with nothing saved, or with the empty string saved (which is falsy), starts
      from the seed list, which satisfies the invariant. */
  lemma FreshStartIsSeed(store: map<string, string>, parse: string -> Result<seq<string>, string>)
    requires StorageKey !in store || store[StorageKey] == ""
    ensures Load(store, parse) == Success(Seed)
    ensures WellFormed(Load(store, parse).value)
  {
    SeedWellFormed();
  }

  /** After a write, reloading gives back the written ledger, given a parser that reads
      back what the serialiser writes and a serialiser that never writes the empty string
      (the JSON text of a list is at least `[]`). */
  lemma ReloadRoundTrip(store: map<string, string>, l: seq<string>,
                        serialize: seq<string> -> string,
                        parse: string -> Result<seq<string>, string>)
    requires parse(serialize(l)) == Success(l)
    requires serialize(l) != ""
    ensures Load(Persist(store, l, serialize), parse) == Success(l)
  {
  }
}
