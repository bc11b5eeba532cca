/**
 * The inverted index: word -> document -> positions of the word in the
 * document, with the per-document word-count table kept beside it.
 *
 * The first part specifies the index as a value; the class `InvertedIndex`
 * at the end holds it in fields that its methods update in place.
 */
module InvertedIndexes {
  import opened Wrappers
  import opened Strings
  import opened WordCounts

  type Positions = seq<int>
  /** document -> positions */
  type Postings = map<string, Positions>
  /** word -> document -> positions */
  type Index = map<string, Postings>

  function PostingsOf(idx: Index, w: string): Postings {
    if w in idx then idx[w] else map[]
  }

  function PositionsOf(p: Postings, d: string): Positions {
    if d in p then p[d] else []
  }

  /** The entries of `m` whose keys are in `keys`. */
  function Restrict<V>(m: map<string, V>, keys: set<string>): map<string, V> {
    map k | k in m && k in keys :: m[k]
  }

  /** How many times word `w` was recorded in document `d`. */
  function Occ(idx: Index, w: string, d: string): nat {
    |PositionsOf(PostingsOf(idx, w), d)|
  }

  /** `add(word)`: the word gets an empty document map unless it has one. */
  function WithWord(idx: Index, w: string): Index {
    if w in idx then idx else idx[w := map[]]
  }

  /** `add(word, document, position)`: the position goes at the end of the (word, document) list. */
  function WithPosition(idx: Index, w: string, d: string, p: int): Index {
    var docs := PostingsOf(idx, w);
    idx[w := docs[d := PositionsOf(docs, d) + [p]]]
  }

  /** `add(list, document)`: `list[i]` is recorded at position `i + 1`. */
  function WithList(idx: Index, list: seq<string>, d: string): Index
    decreases |list|
  {
    if list == [] then idx
    else WithPosition(WithList(idx, list[..|list| - 1], d), list[|list| - 1], d, |list|)
  }

  /** The 1-based positions at which `w` occurs in `list`, ascending. */
  function Occurrences(list: seq<string>, w: string): Positions
    decreases |list|
  {
    if list == [] then []
    else Occurrences(list[..|list| - 1], w) + (if list[|list| - 1] == w then [|list|] else [])
  }

  /** Every (word, document) list holds at least one position. */
  predicate NonEmptyLists(idx: Index) {
    forall w, d :: w in idx && d in idx[w] ==> idx[w][d] != []
  }

  /** `d` has no entry under any word. */
  predicate FreshDocument(idx: Index, d: string) {
    forall w :: w in idx ==> d !in idx[w]
  }

  /** Nothing of `a` is missing from `b`: words, documents and position-list prefixes survive. */
  predicate Extends(a: Index, b: Index) {
    forall w :: w in a ==> w in b && forall d :: d in a[w] ==> d in b[w] && a[w][d] <= b[w][d]
  }

  predicate StrictlyIncreasing(s: seq<int>) {
    forall i, j :: 0 <= i < j < |s| ==> s[i] < s[j]
  }

  // ---------------------------------------------------------------------
  // Word totals: the sum over words of the lengths of a document's lists.
  // ---------------------------------------------------------------------

  /** The number of positions recorded for document `d` under the words of `words`. */
  ghost function DocTotal(idx: Index, words: set<string>, d: string): nat
    decreases words
  {
    if words == {} then 0
    else
      var w :| w in words;
      Occ(idx, w, d) + DocTotal(idx, words - {w}, d)
  }

  /** The number of positions recorded for document `d` in the whole index. */
  ghost function TotalOf(idx: Index, d: string): nat {
    DocTotal(idx, idx.Keys, d)
  }

  lemma {:induction false} DocTotalRemove(idx: Index, words: set<string>, w: string, d: string)
    requires w in words
    ensures DocTotal(idx, words, d) == Occ(idx, w, d) + DocTotal(idx, words - {w}, d)
    decreases words
  {
    var v :| v in words && DocTotal(idx, words, d) == Occ(idx, v, d) + DocTotal(idx, words - {v}, d);
    if v != w {
      DocTotalRemove(idx, words - {v}, w, d);
      DocTotalRemove(idx, words - {w}, v, d);
      assert words - {v} - {w} == words - {w} - {v};
    }
  }

  lemma {:induction false} DocTotalCongruent(a: Index, b: Index, words: set<string>, d: string)
    requires forall w :: w in words ==> Occ(a, w, d) == Occ(b, w, d)
    ensures DocTotal(a, words, d) == DocTotal(b, words, d)
    decreases words
  {
    if words != {} {
      var w :| w in words;
      DocTotalRemove(a, words, w, d);
      DocTotalRemove(b, words, w, d);
      DocTotalCongruent(a, b, words - {w}, d);
    }
  }

  lemma {:induction false} DocTotalAdditive(m: Index, a: Index, b: Index, words: set<string>, d: string)
    requires forall w :: w in words ==> Occ(m, w, d) == Occ(a, w, d) + Occ(b, w, d)
    ensures DocTotal(m, words, d) == DocTotal(a, words, d) + DocTotal(b, words, d)
    decreases words
  {
    if words != {} {
      var w :| w in words;
      DocTotalRemove(m, words, w, d);
      DocTotalRemove(a, words, w, d);
      DocTotalRemove(b, words, w, d);
      DocTotalAdditive(m, a, b, words - {w}, d);
    }
  }

  /** Words the index does not hold add nothing to a total. */
  lemma {:induction false} DocTotalSuperset(idx: Index, words: set<string>, d: string)
    requires idx.Keys <= words
    ensures DocTotal(idx, words, d) == TotalOf(idx, d)
    decreases words
  {
    if w :| w in words && w !in idx {
      DocTotalRemove(idx, words, w, d);
      DocTotalSuperset(idx, words - {w}, d);
    } else {
      assert words == idx.Keys;
    }
  }

  /** Replacing one word's document map changes a total by the change in that word's list. */
  lemma UpdateWordTotal(idx: Index, w: string, docs: Postings, d: string)
    ensures TotalOf(idx[w := docs], d) + Occ(idx, w, d) == TotalOf(idx, d) + |PositionsOf(docs, d)|
  {
    var m := idx[w := docs];
    var keys := idx.Keys + {w};
    assert m.Keys == keys;
    DocTotalRemove(m, keys, w, d);
    DocTotalCongruent(m, idx, keys - {w}, d);
    DocTotalSuperset(idx, keys, d);
    DocTotalRemove(idx, keys, w, d);
  }

  // ---------------------------------------------------------------------
  // Properties of the single-step operations.
  // ---------------------------------------------------------------------

  /**
   * `add(word)` leaves an existing word's documents untouched, gives a new
   * word an empty document map, and doing it twice is doing it once.
   */
  lemma WithWordSpec(idx: Index, w: string)
    ensures w in idx ==> WithWord(idx, w) == idx
    ensures w !in idx ==> WithWord(idx, w) == idx[w := map[]]
    ensures WithWord(WithWord(idx, w), w) == WithWord(idx, w)
    ensures WithWord(idx, w).Keys == idx.Keys + {w}
  {
  }

  lemma WithWordTotal(idx: Index, w: string, d: string)
    ensures TotalOf(WithWord(idx, w), d) == TotalOf(idx, d)
  {
    if w !in idx {
      UpdateWordTotal(idx, w, map[], d);
    }
  }

  /**
   * `add(word, document, position)` appends the position to that one list,
   * creating the word and document entries as needed; every other entry is
   * unchanged, and the document's word total grows by exactly one.
   */
  lemma WithPositionSpec(idx: Index, w: string, d: string, p: int)
    ensures WithPosition(idx, w, d, p).Keys == idx.Keys + {w}
    ensures WithPosition(idx, w, d, p)[w].Keys == PostingsOf(idx, w).Keys + {d}
    ensures WithPosition(idx, w, d, p)[w][d] == PositionsOf(PostingsOf(idx, w), d) + [p]
    ensures forall e :: e in PostingsOf(idx, w) && e != d ==> WithPosition(idx, w, d, p)[w][e] == idx[w][e]
    ensures forall v :: v in idx && v != w ==> WithPosition(idx, w, d, p)[v] == idx[v]
    ensures forall e :: TotalOf(WithPosition(idx, w, d, p), e) == TotalOf(idx, e) + (if e == d then 1 else 0)
  {
    var docs := PostingsOf(idx, w);
    forall e ensures TotalOf(WithPosition(idx, w, d, p), e) == TotalOf(idx, e) + (if e == d then 1 else 0) {
      UpdateWordTotal(idx, w, docs[d := PositionsOf(docs, d) + [p]], e);
    }
  }

  /** Adding a position and counting it keeps every count equal to its document's total, and no list empty. */
  lemma AddPositionCounts(idx: Index, counts: Counts, w: string, d: string, p: int)
    requires NonEmptyLists(idx) && forall e :: CountOf(counts, e) == TotalOf(idx, e)
    ensures NonEmptyLists(WithPosition(idx, w, d, p))
    ensures forall e :: CountOf(Incremented(counts, d), e) == TotalOf(WithPosition(idx, w, d, p), e)
  {
    WithPositionSpec(idx, w, d, p);
    IncrementedSpec(counts, d);
    NonEmptyListsSteps(idx, w, d, p);
  }

  /** No operation removes a word, a document entry or a position. */
  lemma ExtendsSteps(idx: Index, w: string, d: string, p: int)
    ensures Extends(idx, WithWord(idx, w))
    ensures Extends(idx, WithPosition(idx, w, d, p))
  {
  }

  lemma ExtendsTransitive(a: Index, b: Index, c: Index)
    requires Extends(a, b) && Extends(b, c)
    ensures Extends(a, c)
  {
    forall w | w in a ensures w in c && forall d :: d in a[w] ==> d in c[w] && a[w][d] <= c[w][d] {
      forall d | d in a[w] ensures d in c[w] && a[w][d] <= c[w][d] {
        assert a[w][d] <= b[w][d] <= c[w][d];
      }
    }
  }

  lemma NonEmptyListsSteps(idx: Index, w: string, d: string, p: int)
    requires NonEmptyLists(idx)
    ensures NonEmptyLists(WithWord(idx, w))
    ensures NonEmptyLists(WithPosition(idx, w, d, p))
  {
  }

  // ---------------------------------------------------------------------
  // Properties of add(list, document).
  // ---------------------------------------------------------------------

  lemma OccurrencesSpec(list: seq<string>, w: string)
    ensures StrictlyIncreasing(Occurrences(list, w))
    ensures forall k :: k in Occurrences(list, w) <==> 1 <= k <= |list| && list[k - 1] == w
    ensures |Occurrences(list, w)| == multiset(list)[w]
  {
    OccurrencesIncreasing(list, w);
    OccurrencesMembers(list, w);
    OccurrencesCount(list, w);
  }

  /** The occurrence positions are exactly the 1-based indexes holding `w`. */
  lemma {:induction false} OccurrencesMembers(list: seq<string>, w: string)
    ensures forall k :: k in Occurrences(list, w) <==> 1 <= k <= |list| && list[k - 1] == w
    decreases |list|
  {
    if list != [] {
      var prefix := list[..|list| - 1];
      OccurrencesMembers(prefix, w);
      forall k ensures k in Occurrences(list, w) <==> 1 <= k <= |list| && list[k - 1] == w {
        if 1 <= k < |list| {
          assert list[k - 1] == prefix[k - 1];
        }
      }
    }
  }

  /** The occurrence positions ascend strictly and stay within 1..|list|. */
  lemma {:induction false} OccurrencesIncreasing(list: seq<string>, w: string)
    ensures StrictlyIncreasing(Occurrences(list, w))
    ensures forall i :: 0 <= i < |Occurrences(list, w)| ==> Occurrences(list, w)[i] <= |list|
    decreases |list|
  {
    if list != [] {
      OccurrencesIncreasing(list[..|list| - 1], w);
    }
  }

  /** There are as many occurrence positions as copies of `w`. */
  lemma {:induction false} OccurrencesCount(list: seq<string>, w: string)
    ensures |Occurrences(list, w)| == multiset(list)[w]
    decreases |list|
  {
    if list != [] {
      var prefix := list[..|list| - 1];
      OccurrencesCount(prefix, w);
      assert list == prefix + [list[|list| - 1]];
    }
  }

  lemma {:induction false} OccurrencesAbsent(list: seq<string>, w: string)
    requires w !in list
    ensures Occurrences(list, w) == []
    decreases |list|
  {
    if list != [] {
      OccurrencesAbsent(list[..|list| - 1], w);
    }
  }

  /** `add(list, document)` adds exactly `|list|` to the document's word total and nothing to others. */
  lemma {:induction false} WithListTotal(idx: Index, list: seq<string>, d: string, e: string)
    ensures TotalOf(WithList(idx, list, d), e) == TotalOf(idx, e) + (if e == d then |list| else 0)
    decreases |list|
  {
    if list != [] {
      WithListTotal(idx, list[..|list| - 1], d, e);
      WithPositionSpec(WithList(idx, list[..|list| - 1], d), list[|list| - 1], d, |list|);
    }
  }

  lemma {:induction false} WithListExtends(idx: Index, list: seq<string>, d: string)
    ensures Extends(idx, WithList(idx, list, d))
    ensures NonEmptyLists(idx) ==> NonEmptyLists(WithList(idx, list, d))
    decreases |list|
  {
    if list != [] {
      var before := WithList(idx, list[..|list| - 1], d);
      WithListExtends(idx, list[..|list| - 1], d);
      ExtendsSteps(before, list[|list| - 1], d, |list|);
      ExtendsTransitive(idx, before, WithList(idx, list, d));
      if NonEmptyLists(idx) {
        NonEmptyListsSteps(before, list[|list| - 1], d, |list|);
      }
    }
  }

  /**
   * `add(list, document)` for a document not yet indexed: the words of the
   * list are added, each word's list for the document is exactly the
   * 1-based positions at which it occurs, and words not in the list keep
   * their documents.
   */
  lemma WithListFresh(idx: Index, list: seq<string>, d: string)
    requires FreshDocument(idx, d)
    ensures forall w :: w in WithList(idx, list, d) <==> w in idx || w in list
    ensures forall w :: w in list ==> WithList(idx, list, d)[w] == PostingsOf(idx, w)[d := Occurrences(list, w)]
    ensures forall w :: w in idx && w !in list ==> WithList(idx, list, d)[w] == idx[w]
  {
    forall w ensures w in WithList(idx, list, d) <==> w in idx || w in list {
      WithListFreshAt(idx, list, d, w);
    }
    forall w | w in list ensures WithList(idx, list, d)[w] == PostingsOf(idx, w)[d := Occurrences(list, w)] {
      WithListFreshAt(idx, list, d, w);
    }
    forall w | w in idx && w !in list ensures WithList(idx, list, d)[w] == idx[w] {
      WithListFreshAt(idx, list, d, w);
    }
  }

  /** `WithListFresh` for one word, by induction on the list. */
  lemma {:induction false} WithListFreshAt(idx: Index, list: seq<string>, d: string, w: string)
    requires FreshDocument(idx, d)
    ensures w in WithList(idx, list, d) <==> w in idx || w in list
    ensures PostingsOf(WithList(idx, list, d), w) == if w in list then PostingsOf(idx, w)[d := Occurrences(list, w)] else PostingsOf(idx, w)
    decreases |list|
  {
    if list != [] {
      var prefix, x := list[..|list| - 1], list[|list| - 1];
      assert list == prefix + [x];
      var before := WithList(idx, prefix, d);
      WithListFreshAt(idx, prefix, d, w);
      if w != x {
        assert w in list <==> w in prefix;
        assert Occurrences(list, w) == Occurrences(prefix, w);
      } else {
        assert PositionsOf(PostingsOf(before, x), d) == Occurrences(prefix, x) by {
          if x !in prefix {
            OccurrencesAbsent(prefix, x);
          }
        }
        assert Occurrences(list, x) == Occurrences(prefix, x) + [|list|];
      }
    }
  }

  /** A fresh document's lists run over 1..|list|, ascending, and its total becomes |list|. */
  lemma WithListFreshPositions(idx: Index, list: seq<string>, d: string, w: string)
    requires FreshDocument(idx, d) && w in list
    ensures w in WithList(idx, list, d)
    ensures d in WithList(idx, list, d)[w]
    ensures StrictlyIncreasing(WithList(idx, list, d)[w][d])
    ensures forall k :: k in WithList(idx, list, d)[w][d] <==> 1 <= k <= |list| && list[k - 1] == w
    ensures TotalOf(idx, d) == 0 ==> TotalOf(WithList(idx, list, d), d) == |list|
  {
    WithListFresh(idx, list, d);
    OccurrencesSpec(list, w);
    WithListTotal(idx, list, d, d);
  }

  // ---------------------------------------------------------------------
  // merge(fragment): every fragment list is appended to the shared list.
  // ---------------------------------------------------------------------

  /** Each document's fragment list appended to its shared list. */
  function MergePostings(a: Postings, b: Postings): Postings {
    map d | d in a.Keys + b.Keys :: PositionsOf(a, d) + PositionsOf(b, d)
  }

  /** The shared index after merging `frag` into it. */
  function Merged(idx: Index, frag: Index): Index {
    map w | w in idx.Keys + frag.Keys :: MergePostings(PostingsOf(idx, w), PostingsOf(frag, w))
  }

  /**
   * After a merge the words are those of both indexes (fragment words with
   * no documents included), each (word, document) list is the shared list
   * followed by the fragment list, and every document's word total is the
   * sum of its two totals.
   */
  lemma MergedSpec(idx: Index, frag: Index)
    ensures Merged(idx, frag).Keys == idx.Keys + frag.Keys
    ensures forall w, d :: w in Merged(idx, frag) && d in Merged(idx, frag)[w] ==>
      Merged(idx, frag)[w][d] == PositionsOf(PostingsOf(idx, w), d) + PositionsOf(PostingsOf(frag, w), d)
    ensures forall d :: TotalOf(Merged(idx, frag), d) == TotalOf(idx, d) + TotalOf(frag, d)
    ensures Extends(idx, Merged(idx, frag))
    ensures NonEmptyLists(idx) && NonEmptyLists(frag) ==> NonEmptyLists(Merged(idx, frag))
  {
    var m := Merged(idx, frag);
    var keys := idx.Keys + frag.Keys;
    assert m.Keys == keys;
    forall d ensures TotalOf(m, d) == TotalOf(idx, d) + TotalOf(frag, d) {
      forall w | w in keys ensures Occ(m, w, d) == Occ(idx, w, d) + Occ(frag, w, d) {
        PositionsOfMerge(PostingsOf(idx, w), PostingsOf(frag, w), d);
      }
      DocTotalAdditive(m, idx, frag, keys, d);
      DocTotalSuperset(idx, keys, d);
      DocTotalSuperset(frag, keys, d);
    }
  }

  lemma PositionsOfMerge(a: Postings, b: Postings, d: string)
    ensures d in MergePostings(a, b) <==> d in a || d in b
    ensures PositionsOf(MergePostings(a, b), d) == PositionsOf(a, d) + PositionsOf(b, d)
  {
  }

  lemma PostingsOfMerged(idx: Index, frag: Index, w: string)
    ensures PostingsOf(Merged(idx, frag), w) == MergePostings(PostingsOf(idx, w), PostingsOf(frag, w))
  {
    if w !in idx && w !in frag {
      assert MergePostings(map[], map[]) == map[];
    }
  }

  /** Each document's three lists, one after the other. */
  function Appended3(p: Postings, x: Postings, y: Postings): Postings {
    map d | d in p.Keys + x.Keys + y.Keys :: PositionsOf(p, d) + PositionsOf(x, d) + PositionsOf(y, d)
  }

  /** Merging twice appends both fragment lists, in merge order. */
  lemma MergePostingsTwice(p: Postings, x: Postings, y: Postings)
    ensures MergePostings(MergePostings(p, x), y) == Appended3(p, x, y)
  {
    var px := MergePostings(p, x);
    var a := MergePostings(px, y);
    var c := Appended3(p, x, y);
    forall d ensures d in a <==> d in c {
      PositionsOfMerge(px, y, d);
    }
    forall d | d in a ensures a[d] == c[d] {
      PositionsOfMerge(p, x, d);
      PositionsOfMerge(px, y, d);
    }
  }

  lemma Appended3Swap(p: Postings, x: Postings, y: Postings)
    requires forall d :: d in x ==> d !in y
    ensures Appended3(p, x, y) == Appended3(p, y, x)
  {
    var c1, c2 := Appended3(p, x, y), Appended3(p, y, x);
    assert c1.Keys == c2.Keys;
    forall d | d in c1 ensures c1[d] == c2[d] {
      SwapAroundEmpty(PositionsOf(p, d), PositionsOf(x, d), PositionsOf(y, d));
    }
  }

  /** Two lists, one of them empty, can be appended in either order. */
  lemma SwapAroundEmpty(a: Positions, b: Positions, c: Positions)
    requires b == [] || c == []
    ensures a + b + c == a + c + b
  {
    if b == [] {
      assert a + b == a;
    } else {
      assert a + c == a;
    }
  }

  lemma MergePostingsCommute(p: Postings, x: Postings, y: Postings)
    requires forall d :: d in x ==> d !in y
    ensures MergePostings(MergePostings(p, x), y) == MergePostings(MergePostings(p, y), x)
  {
    MergePostingsTwice(p, x, y);
    MergePostingsTwice(p, y, x);
    Appended3Swap(p, x, y);
  }

  /**
   * Merges of fragments about disjoint sets of documents commute: the
   * final index does not depend on the order in which tasks finish.
   */
  lemma MergeCommutes(idx: Index, f: Index, g: Index)
    requires DisjointDocuments(f, g)
    ensures Merged(Merged(idx, f), g) == Merged(Merged(idx, g), f)
  {
    var a, b := Merged(Merged(idx, f), g), Merged(Merged(idx, g), f);
    assert a.Keys == b.Keys;
    forall w | w in a ensures a[w] == b[w] {
      MergeCommutesAt(idx, f, g, w);
    }
    SameEntries(a, b);
  }

  /** No document has an entry in both fragments. */
  predicate DisjointDocuments(f: Index, g: Index) {
    forall w, v, d :: w in f && v in g && d in f[w] ==> d !in g[v]
  }

  /** The merge order does not matter for one word of two fragments about different documents. */
  lemma MergeCommutesAt(idx: Index, f: Index, g: Index, w: string)
    requires DisjointDocuments(f, g)
    ensures PostingsOf(Merged(Merged(idx, f), g), w) == PostingsOf(Merged(Merged(idx, g), f), w)
  {
    PostingsOfMerged(Merged(idx, f), g, w);
    PostingsOfMerged(Merged(idx, g), f, w);
    PostingsOfMerged(idx, f, w);
    PostingsOfMerged(idx, g, w);
    MergePostingsCommute(PostingsOf(idx, w), PostingsOf(f, w), PostingsOf(g, w));
  }

  /** Merging no documents leaves the postings unchanged. */
  lemma MergePostingsEmpty(p: Postings)
    ensures MergePostings(p, map[]) == p
  {
    var m := MergePostings(p, map[]);
    forall e ensures e in m <==> e in p {
      PositionsOfMerge(p, map[], e);
    }
    assert m.Keys == p.Keys;
    forall e | e in m ensures m[e] == p[e] {
      PositionsOfMerge(p, map[], e);
    }
  }

  lemma MergePostingsWithNew(p: Postings, d: string, positions: Positions)
    requires d !in p
    ensures MergePostings(p, map[]) == p
    ensures MergePostings(p, map[d := positions]) == p[d := positions]
  {
    MergePostingsEmpty(p);
    var n := MergePostings(p, map[d := positions]);
    forall e ensures e in n <==> e in p[d := positions] {
      PositionsOfMerge(p, map[d := positions], e);
    }
    assert n.Keys == p[d := positions].Keys;
    forall e | e in n ensures n[e] == p[d := positions][e] {
      PositionsOfMerge(p, map[d := positions], e);
    }
  }

  /**
   * Indexing one document in a private fragment and merging it gives the
   * same index as adding the document's words directly, when the shared
   * index does not hold the document yet.
   */
  lemma MergeFreshFragment(idx: Index, list: seq<string>, d: string)
    requires FreshDocument(idx, d)
    ensures Merged(idx, WithList(map[], list, d)) == WithList(idx, list, d)
  {
    var a, b := Merged(idx, WithList(map[], list, d)), WithList(idx, list, d);
    MergeFreshKeys(idx, list, d);
    forall w | w in a ensures a[w] == b[w] {
      MergeFreshAt(idx, list, d, w);
    }
    SameEntries(a, b);
  }

  /** Two indexes with the same words and the same entry for each word are equal. */
  lemma SameEntries(a: Index, b: Index)
    requires a.Keys == b.Keys && forall w | w in a :: a[w] == b[w]
    ensures a == b
  {
  }

  /** Merging the fresh document's fragment adds the same words as adding the document directly. */
  lemma MergeFreshKeys(idx: Index, list: seq<string>, d: string)
    requires FreshDocument(idx, d)
    ensures Merged(idx, WithList(map[], list, d)).Keys == WithList(idx, list, d).Keys == idx.Keys + set w | w in list
  {
    WithListFresh(map[], list, d);
    WithListFresh(idx, list, d);
  }

  /** For one word, merging the fresh document's fragment gives that word's postings after the direct add. */
  lemma MergeFreshAt(idx: Index, list: seq<string>, d: string, w: string)
    requires FreshDocument(idx, d) && (w in idx || w in list)
    ensures PostingsOf(Merged(idx, WithList(map[], list, d)), w) == PostingsOf(WithList(idx, list, d), w)
  {
    var frag := WithList(map[], list, d);
    WithListFresh(map[], list, d);
    WithListFresh(idx, list, d);
    PostingsOfMerged(idx, frag, w);
    MergePostingsWithNew(PostingsOf(idx, w), d, Occurrences(list, w));
    if w in list {
      assert PostingsOf(frag, w) == map[d := Occurrences(list, w)];
    } else {
      assert PostingsOf(frag, w) == map[];
    }
  }

  // ---------------------------------------------------------------------
  // The index object.
  // ---------------------------------------------------------------------

  class InvertedIndex {
    var index: Index
    var wordCount: WordCount

    /** The word counts are the list-length totals, and no list is empty. */
    ghost predicate Valid()
      reads this, wordCount
    {
      && wordCount.Valid()
      && NonEmptyLists(index)
      && forall d :: CountOf(wordCount.counts, d) == TotalOf(index, d)
    }

    constructor ()
      ensures Valid() && fresh(wordCount)
      ensures index == map[] && wordCount.counts == map[]
    {
      index := map[];
      wordCount := new WordCount();
    }

    /** `add(word)` */
    method AddWord(word: string)
      requires Valid()
      modifies this`index
      ensures Valid()
      ensures index == WithWord(old(index), word)
    {
      if word !in index {
        forall d ensures TotalOf(index[word := map[]], d) == TotalOf(index, d) {
          UpdateWordTotal(index, word, map[], d);
        }
        index := index[word := map[]];
      }
    }

    /** `add(word, document, position)` */
    method Add(word: string, document: string, position: int)
      requires Valid()
      modifies this`index, wordCount
      ensures Valid()
      ensures index == WithPosition(old(index), word, document, position)
      ensures wordCount.counts == Incremented(old(wordCount.counts), document)
    {
      ghost var before := index;
      AddPositionCounts(before, wordCount.counts, word, document, position);
      AddWord(word);
      wordCount.Increment(document);
      var values := index[word];
      var positions := if document in values then values[document] else [];
      assert values == PostingsOf(before, word);
      ghost var updated := values[document := positions + [position]];
      assert index[word := updated] == before[word := updated];
      index := index[word := values[document := positions + [position]]];
    }

    /** `add(list, document)`: `list[i]` goes in at position `i + 1`. */
    method AddList(list: seq<string>, document: string)
      requires Valid()
      modifies this`index, wordCount
      ensures Valid()
      ensures index == WithList(old(index), list, document)
      ensures forall d :: (CountOf(wordCount.counts, d)
        == CountOf(old(wordCount.counts), d) + (if d == document then |list| else 0))
    {
      for i := 0 to |list|
        invariant Valid()
        invariant index == WithList(old(index), list[..i], document)
      {
        assert list[..i + 1][..i] == list[..i];
        Add(list[i], document, i + 1);
      }
      assert list[..|list|] == list;
      forall d ensures CountOf(wordCount.counts, d)
        == CountOf(old(wordCount.counts), d) + (if d == document then |list| else 0)
      {
        WithListTotal(old(index), list, document, d);
      }
    }

    /** `get(word)`: the word's document map, or `None` (Java's null) when the word is absent. */
    function Get(word: string): (r: Option<Postings>)
      reads this, wordCount
      requires Valid()
      ensures r.None? <==> word !in index
      ensures r.Some? ==> r.value == index[word] && forall d :: d in r.value ==> r.value[d] != []
    {
      if word in index then Some(index[word]) else None
    }

    /** `has(word)` */
    function Has(word: string): (r: bool)
      reads this
      ensures r <==> word in index
    {
      word in index
    }

    /** `has(word, document)`; the source dereferences `get(word)`, so the word must be present. */
    function HasDocument(word: string, document: string): (r: bool)
      reads this
      requires word in index
      ensures r <==> document in index[word]
    {
      document in index[word]
    }

    /** `size()`: the number of words. */
    function Size(): (r: nat)
      reads this
      ensures r == |index.Keys|
    {
      |index|
    }

    /** `size(word)`: the number of documents of a word the index holds. */
    function SizeOf(word: string): (r: nat)
      reads this
      requires word in index
      ensures r == |index[word].Keys|
    {
      |index[word]|
    }

    /** `view()`: the words. */
    function View(): (r: set<string>)
      reads this
      ensures forall w :: w in r <==> w in index
    {
      index.Keys
    }

    /** `getSortedKeys()`: every word once, in ascending order. */
    function GetSortedKeys(): (r: seq<string>)
      reads this
      ensures StrictlySorted(r)
      ensures forall w :: w in r <==> w in index
      ensures |r| == |index|
    {
      SortedSeq(index.Keys)
    }

    /** `getWordCount()`: the count table; each count is the document's total number of positions. */
    function GetWordCount(): (r: Counts)
      reads this, wordCount
      requires Valid()
      ensures AllPositive(r)
      ensures forall d :: CountOf(r, d) == TotalOf(index, d)
      ensures forall d :: d in r <==> TotalOf(index, d) > 0
    {
      wordCount.GetWordCount()
    }
  }
}
