/**
 * The per-document word-count table: document -> number of words seen in it.
 */
module WordCounts {

  type Counts = map<string, int>

  /** The count of `doc`, zero when the table has no entry for it. */
  function CountOf(c: Counts, doc: string): int {
    if doc in c then c[doc] else 0
  }

  /** The table after one more word of `doc` has been seen. */
  function Incremented(c: Counts, doc: string): Counts {
    if doc in c then c[doc := c[doc] + 1] else c[doc := 1]
  }

  /** Every stored count is at least one. */
  predicate AllPositive(c: Counts) {
    forall d :: d in c ==> c[d] >= 1
  }

  /** The table after incrementing each document of `docs`, in order. */
  function IncrementedAll(c: Counts, docs: seq<string>): Counts
    decreases |docs|
  {
    if docs == [] then c
    else Incremented(IncrementedAll(c, docs[..|docs| - 1]), docs[|docs| - 1])
  }

  /**
   * One increment adds exactly one to its document, creating the entry
   * with count one when absent, and touches no other document.
   */
  lemma IncrementedSpec(c: Counts, doc: string)
    ensures doc in Incremented(c, doc)
    ensures doc !in c ==> Incremented(c, doc)[doc] == 1
    ensures doc in c ==> Incremented(c, doc)[doc] == c[doc] + 1
    ensures forall d :: d != doc ==> CountOf(Incremented(c, doc), d) == CountOf(c, d)
    ensures Incremented(c, doc).Keys == c.Keys + {doc}
    ensures AllPositive(c) ==> AllPositive(Incremented(c, doc))
  {
  }

  /**
   * Starting from the empty table, a document has an entry exactly when it
   * was incremented, and its count is the number of times it was.
   */
  lemma {:induction false} IncrementedAllCounts(docs: seq<string>, d: string)
    ensures d in IncrementedAll(map[], docs) <==> d in docs
    ensures CountOf(IncrementedAll(map[], docs), d) == multiset(docs)[d]
    ensures AllPositive(IncrementedAll(map[], docs))
    decreases |docs|
  {
    if docs != [] {
      var prefix, last := docs[..|docs| - 1], docs[|docs| - 1];
      IncrementedAllCounts(prefix, d);
      IncrementedAllCounts(prefix, last);
      assert docs == prefix + [last];
      IncrementedSpec(IncrementedAll(map[], prefix), last);
    }
  }

  class WordCount {
    var counts: Counts

    ghost predicate Valid()
      reads this
    {
      AllPositive(counts)
    }

    constructor ()
      ensures Valid() && counts == map[]
    {
      counts := map[];
    }

    /** Counts one more word of `doc`. */
    method Increment(doc: string)
      requires Valid()
      modifies this
      ensures Valid()
      ensures counts == Incremented(old(counts), doc)
    {
      if doc in counts {
        var current := counts[doc];
        counts := counts[doc := current + 1];
      } else {
        counts := counts[doc := 1];
      }
    }

    /** The stored table itself; every count in it is at least one. */
    function GetWordCount(): (r: Counts)
      reads this
      requires Valid()
      ensures r == counts && AllPositive(r)
    {
      counts
    }
  }
}
