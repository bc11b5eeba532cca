/**
 * Query evaluation: a query is a set of stems; its key is the set's
 * printed form without commas and brackets; each index word matching a
 * query word (equal, or starting with it in partial mode) adds the length
 * of its position list to the count of every document it occurs in.
 * Results are memoised by query key.
 */
module Queries {
  import opened Wrappers
  import opened Strings
  import opened WordCounts
  import opened InvertedIndexes

  /** The characters a regular expression's `.` does not match. */
  predicate IsLineTerminator(c: char) {
    c == '\n' || c == '\r' || c as int == 0x85 || c as int == 0x2028 || c as int == 0x2029
  }

  /**
   * Whether index word `stem` matches query word `q`: equality in exact
   * mode; in partial mode the pattern `(?m)^q.*` matching all of `stem`,
   * that is `q` is a prefix and the rest holds no line terminator.
   */
  predicate Matches(stem: string, q: string, partial: bool) {
    if partial then q <= stem && forall i | |q| <= i < |stem| :: !IsLineTerminator(stem[i])
    else stem == q
  }

  /** The index words matching `q`. */
  function Matching(words: set<string>, q: string, partial: bool): (r: set<string>)
    ensures forall w :: w in r <==> w in words && Matches(w, q, partial)
  {
    set w | w in words && Matches(w, q, partial)
  }

  /** `TreeSet.toString`: the elements in ascending order, between brackets, separated by ", ". */
  function SetString(q: set<string>): string {
    "[" + Join(SortedSeq(q), ", ") + "]"
  }

  predicate IsSetPunctuation(c: char) {
    c == ',' || c == '[' || c == ']'
  }

  /** `replaceAll("[,\\[\\]]", "")`: every comma and bracket removed. */
  function WithoutSetPunctuation(s: string): (r: string)
    ensures |r| <= |s|
    ensures forall i | 0 <= i < |r| :: !IsSetPunctuation(r[i])
  {
    if s == [] then []
    else if IsSetPunctuation(s[0]) then WithoutSetPunctuation(s[1..])
    else [s[0]] + WithoutSetPunctuation(s[1..])
  }

  /** The memo key of a query. */
  function QueryKey(q: set<string>): string {
    WithoutSetPunctuation(SetString(q))
  }

  predicate Plain(s: string) {
    forall i | 0 <= i < |s| :: !IsSetPunctuation(s[i])
  }

  lemma {:induction false} WithoutSetPunctuationAppend(a: string, b: string)
    ensures WithoutSetPunctuation(a + b) == WithoutSetPunctuation(a) + WithoutSetPunctuation(b)
    decreases |a|
  {
    if a == [] {
      assert a + b == b;
    } else {
      WithoutSetPunctuationAppend(a[1..], b);
      assert (a + b)[0] == a[0];
      assert (a + b)[1..] == a[1..] + b;
    }
  }

  lemma {:induction false} WithoutSetPunctuationPlain(s: string)
    requires Plain(s)
    ensures WithoutSetPunctuation(s) == s
    decreases |s|
  {
    if s != [] {
      WithoutSetPunctuationPlain(s[1..]);
    }
  }

  lemma {:induction false} WithoutSetPunctuationJoin(parts: seq<string>)
    requires forall i | 0 <= i < |parts| :: Plain(parts[i])
    ensures WithoutSetPunctuation(Join(parts, ", ")) == Join(parts, " ")
    decreases |parts|
  {
    if |parts| == 1 {
      WithoutSetPunctuationPlain(parts[0]);
    } else if |parts| > 1 {
      WithoutSetPunctuationJoin(parts[1..]);
      WithoutSetPunctuationAppend(parts[0] + ", ", Join(parts[1..], ", "));
      WithoutSetPunctuationAppend(parts[0], ", ");
      WithoutSetPunctuationPlain(parts[0]);
      assert WithoutSetPunctuation(", ") == " ";
    }
  }

  /**
   * The key of a query whose stems hold no comma or bracket is its stems
   * in ascending order separated by single spaces; the empty query's key
   * is empty.
   */
  lemma QueryKeyIsSortedWords(q: set<string>)
    requires forall w | w in q :: Plain(w)
    ensures QueryKey(q) == Join(SortedSeq(q), " ")
  {
    var parts := SortedSeq(q);
    assert forall i | 0 <= i < |parts| :: parts[i] in q;
    WithoutSetPunctuationJoin(parts);
    WithoutSetPunctuationAppend("[" + Join(parts, ", "), "]");
    WithoutSetPunctuationAppend("[", Join(parts, ", "));
  }

  /** The document counts after one matching word's documents are counted. */
  function AddPostings(values: Counts, docs: Postings): Counts {
    map d | d in values.Keys + docs.Keys :: CountOf(values, d) + |PositionsOf(docs, d)|
  }

  lemma AddPostingsSpec(values: Counts, docs: Postings, d: string)
    ensures d in AddPostings(values, docs) <==> d in values || d in docs
    ensures CountOf(AddPostings(values, docs), d) == CountOf(values, d) + |PositionsOf(docs, d)|
  {
  }

  /** Counting none of a word's documents changes nothing; counting all of them counts the postings. */
  lemma RestrictEnds(values: Counts, docs: Postings)
    ensures AddPostings(values, Restrict(docs, docs.Keys - docs.Keys)) == values
    ensures Restrict(docs, docs.Keys) == docs
  {
    assert Restrict(docs, docs.Keys - docs.Keys) == map[];
  }

  /** Taking one more document out of the remaining ones adds it to the counted part. */
  lemma RestrictStep(docs: Postings, remaining: set<string>, d: string)
    requires remaining <= docs.Keys && d in remaining
    ensures d !in Restrict(docs, docs.Keys - remaining)
    ensures Restrict(docs, docs.Keys - (remaining - {d})) == Restrict(docs, docs.Keys - remaining)[d := docs[d]]
  {
  }

  /** Counting one more document of a word's postings. */
  lemma AddPostingsStep(values: Counts, done: Postings, d: string, ps: Positions)
    requires d !in done
    ensures CountOf(AddPostings(values, done), d) == CountOf(values, d)
    ensures AddPostings(values, done[d := ps]) == AddPostings(values, done)[d := CountOf(values, d) + |ps|]
    ensures AddPostings(values, done[d := ps]) == AddPostings(values, done)[d := CountOf(AddPostings(values, done), d) + |ps|]
  {
    var a, b := AddPostings(values, done[d := ps]), AddPostings(values, done)[d := CountOf(values, d) + |ps|];
    assert a.Keys == b.Keys;
    forall e | e in a ensures a[e] == b[e] {
      if e != d {
        assert PositionsOf(done[d := ps], e) == PositionsOf(done, e);
      }
    }
  }

  /** The counts after scanning index words `keys` in order for query word `q`. */
  function ScanWords(values: Counts, idx: Index, keys: seq<string>, q: string, partial: bool): Counts
    decreases |keys|
  {
    if keys == [] then values
    else
      var previous := ScanWords(values, idx, keys[..|keys| - 1], q, partial);
      var w := keys[|keys| - 1];
      if Matches(w, q, partial) then AddPostings(previous, PostingsOf(idx, w)) else previous
  }

  /** Scanning one more index word counts its documents when it matches, and nothing otherwise. */
  lemma ScanWordsStep(values: Counts, idx: Index, keys: seq<string>, k: nat, q: string, partial: bool)
    requires k < |keys|
    ensures ScanWords(values, idx, keys[..k + 1], q, partial)
      == if Matches(keys[k], q, partial) then AddPostings(ScanWords(values, idx, keys[..k], q, partial), PostingsOf(idx, keys[k]))
         else ScanWords(values, idx, keys[..k], q, partial)
  {
    assert keys[..k + 1][..k] == keys[..k];
  }

  /** The counts after scanning every index word for each query word of `qs`, in order. */
  function ScanQuery(values: Counts, idx: Index, keys: seq<string>, qs: seq<string>, partial: bool): Counts
    decreases |qs|
  {
    if qs == [] then values
    else ScanWords(ScanQuery(values, idx, keys, qs[..|qs| - 1], partial), idx, keys, qs[|qs| - 1], partial)
  }

  /** Scanning for one more query word scans the index words for it after the earlier ones. */
  lemma ScanQueryStep(values: Counts, idx: Index, keys: seq<string>, qs: seq<string>, j: nat, partial: bool)
    requires j < |qs|
    ensures ScanQuery(values, idx, keys, qs[..j + 1], partial)
      == ScanWords(ScanQuery(values, idx, keys, qs[..j], partial), idx, keys, qs[j], partial)
  {
    assert qs[..j + 1][..j] == qs[..j];
  }

  /** The document counts of one query: query words and index words in ascending order. */
  function Evaluate(idx: Index, query: set<string>, partial: bool): Counts {
    ScanQuery(map[], idx, SortedSeq(idx.Keys), SortedSeq(query), partial)
  }

  /**
   * The reference count of document `d` for a query: over every query
   * word, the positions of `d` under every index word matching it.
   */
  ghost function Hits(idx: Index, query: set<string>, partial: bool, d: string): nat
    decreases query
  {
    if query == {} then 0
    else
      var q :| q in query;
      DocTotal(idx, Matching(idx.Keys, q, partial), d) + Hits(idx, query - {q}, partial, d)
  }

  lemma {:induction false} HitsRemove(idx: Index, query: set<string>, partial: bool, q: string, d: string)
    requires q in query
    ensures Hits(idx, query, partial, d) == DocTotal(idx, Matching(idx.Keys, q, partial), d) + Hits(idx, query - {q}, partial, d)
    decreases query
  {
    var v :| v in query && Hits(idx, query, partial, d)
      == DocTotal(idx, Matching(idx.Keys, v, partial), d) + Hits(idx, query - {v}, partial, d);
    if v != q {
      HitsRemove(idx, query - {v}, partial, q, d);
      HitsRemove(idx, query - {q}, partial, v, d);
      assert query - {v} - {q} == query - {q} - {v};
    }
  }

  /** Scanning distinct words adds, for each document, its positions under the matching ones. */
  lemma {:induction false} ScanWordsCount(values: Counts, idx: Index, keys: seq<string>, q: string, partial: bool, d: string)
    requires NoDuplicates(keys)
    ensures CountOf(ScanWords(values, idx, keys, q, partial), d)
      == CountOf(values, d) + DocTotal(idx, Matching((set w | w in keys), q, partial), d)
    decreases |keys|
  {
    var all := set w | w in keys;
    if keys == [] {
      assert Matching(all, q, partial) == {};
    } else {
      var prefix, w := keys[..|keys| - 1], keys[|keys| - 1];
      NoDuplicatesLast(keys);
      ScanWordsCount(values, idx, prefix, q, partial, d);
      var before := set v | v in prefix;
      if Matches(w, q, partial) {
        AddPostingsSpec(ScanWords(values, idx, prefix, q, partial), PostingsOf(idx, w), d);
        DocTotalRemove(idx, Matching(all, q, partial), w, d);
        assert Matching(all, q, partial) - {w} == Matching(before, q, partial);
      } else {
        assert Matching(all, q, partial) == Matching(before, q, partial);
      }
    }
  }

  /** Scanning for distinct query words adds each query word's matches. */
  lemma {:induction false} ScanQueryCount(values: Counts, idx: Index, keys: seq<string>, qs: seq<string>, partial: bool, d: string)
    requires NoDuplicates(keys) && NoDuplicates(qs)
    requires forall w :: w in keys <==> w in idx
    ensures CountOf(ScanQuery(values, idx, keys, qs, partial), d)
      == CountOf(values, d) + Hits(idx, (set q | q in qs), partial, d)
    decreases |qs|
  {
    var all := set q | q in qs;
    if qs != [] {
      var prefix, q := qs[..|qs| - 1], qs[|qs| - 1];
      NoDuplicatesLast(qs);
      ScanQueryCount(values, idx, keys, prefix, partial, d);
      ScanWordsCount(ScanQuery(values, idx, keys, prefix, partial), idx, keys, q, partial, d);
      var before := set v | v in prefix;
      assert all - {q} == before;
      HitsRemove(idx, all, partial, q, d);
      assert (set w | w in keys) == idx.Keys;
    }
  }

  /**
   * A query's count for a document is the reference count: every pair of
   * a query word and a matching index word adds the length of that word's
   * position list for the document.
   */
  lemma EvaluateCount(idx: Index, query: set<string>, partial: bool, d: string)
    ensures CountOf(Evaluate(idx, query, partial), d) == Hits(idx, query, partial, d)
  {
    var keys, qs := SortedSeq(idx.Keys), SortedSeq(query);
    StrictlySortedNoDuplicates(keys);
    StrictlySortedNoDuplicates(qs);
    ScanQueryCount(map[], idx, keys, qs, partial, d);
    assert (set q | q in qs) == query;
  }

  /** An exact one-word query counts exactly that word's positions in each document. */
  lemma ExactSingleWord(idx: Index, w: string, d: string)
    ensures CountOf(Evaluate(idx, {w}, false), d) == Occ(idx, w, d)
  {
    EvaluateCount(idx, {w}, false, d);
    HitsRemove(idx, {w}, false, w, d);
    var m := Matching(idx.Keys, w, false);
    if w in idx {
      assert m == {w};
      DocTotalRemove(idx, m, w, d);
      assert m - {w} == {};
    } else {
      assert m == {};
    }
  }

  lemma {:induction false} ScanWordsDocuments(values: Counts, idx: Index, keys: seq<string>, q: string, partial: bool, d: string)
    ensures d in ScanWords(values, idx, keys, q, partial)
      <==> d in values || exists i :: 0 <= i < |keys| && Matches(keys[i], q, partial) && d in PostingsOf(idx, keys[i])
    decreases |keys|
  {
    if keys != [] {
      var prefix := keys[..|keys| - 1];
      ScanWordsDocuments(values, idx, prefix, q, partial, d);
      AddPostingsSpec(ScanWords(values, idx, prefix, q, partial), PostingsOf(idx, keys[|keys| - 1]), d);
      if exists i :: 0 <= i < |keys| && Matches(keys[i], q, partial) && d in PostingsOf(idx, keys[i]) {
        var i :| 0 <= i < |keys| && Matches(keys[i], q, partial) && d in PostingsOf(idx, keys[i]);
        if i < |prefix| {
          assert prefix[i] == keys[i];
        }
      }
      forall i | 0 <= i < |prefix| ensures prefix[i] == keys[i] {
      }
    }
  }

  lemma {:induction false} ScanQueryDocuments(values: Counts, idx: Index, keys: seq<string>, qs: seq<string>, partial: bool, d: string)
    ensures d in ScanQuery(values, idx, keys, qs, partial)
      <==> d in values || exists j, i :: 0 <= j < |qs| && 0 <= i < |keys| && Matches(keys[i], qs[j], partial) && d in PostingsOf(idx, keys[i])
    decreases |qs|
  {
    if qs != [] {
      var prefix := qs[..|qs| - 1];
      ScanQueryDocuments(values, idx, keys, prefix, partial, d);
      ScanWordsDocuments(ScanQuery(values, idx, keys, prefix, partial), idx, keys, qs[|qs| - 1], partial, d);
      if exists j, i :: 0 <= j < |qs| && 0 <= i < |keys| && Matches(keys[i], qs[j], partial) && d in PostingsOf(idx, keys[i]) {
        var j, i :| 0 <= j < |qs| && 0 <= i < |keys| && Matches(keys[i], qs[j], partial) && d in PostingsOf(idx, keys[i]);
        if j < |prefix| {
          assert prefix[j] == qs[j];
        }
      }
      forall j | 0 <= j < |prefix| ensures prefix[j] == qs[j] {
      }
    }
  }

  /** A document gets a count exactly when some index word matching some query word occurs in it. */
  lemma EvaluateDocuments(idx: Index, query: set<string>, partial: bool, d: string)
    ensures d in Evaluate(idx, query, partial)
      <==> exists q, w :: q in query && w in idx && Matches(w, q, partial) && d in idx[w]
  {
    var keys, qs := SortedSeq(idx.Keys), SortedSeq(query);
    ScanQueryDocuments(map[], idx, keys, qs, partial, d);
    if exists q, w :: q in query && w in idx && Matches(w, q, partial) && d in idx[w] {
      var q, w :| q in query && w in idx && Matches(w, q, partial) && d in idx[w];
      var j :| 0 <= j < |qs| && qs[j] == q;
      var i :| 0 <= i < |keys| && keys[i] == w;
      assert Matches(keys[i], qs[j], partial) && d in PostingsOf(idx, keys[i]);
    }
  }

  lemma {:induction false} ScanWordsPositive(values: Counts, idx: Index, keys: seq<string>, q: string, partial: bool)
    requires AllPositive(values) && NonEmptyLists(idx)
    ensures AllPositive(ScanWords(values, idx, keys, q, partial))
    decreases |keys|
  {
    if keys != [] {
      var prefix := keys[..|keys| - 1];
      ScanWordsPositive(values, idx, prefix, q, partial);
      var previous := ScanWords(values, idx, prefix, q, partial);
      var docs := PostingsOf(idx, keys[|keys| - 1]);
      var next := AddPostings(previous, docs);
      forall d | d in next ensures next[d] >= 1 {
        AddPostingsSpec(previous, docs, d);
      }
    }
  }

  lemma {:induction false} ScanQueryPositive(values: Counts, idx: Index, keys: seq<string>, qs: seq<string>, partial: bool)
    requires AllPositive(values) && NonEmptyLists(idx)
    ensures AllPositive(ScanQuery(values, idx, keys, qs, partial))
    decreases |qs|
  {
    if qs != [] {
      ScanQueryPositive(values, idx, keys, qs[..|qs| - 1], partial);
      ScanWordsPositive(ScanQuery(values, idx, keys, qs[..|qs| - 1], partial), idx, keys, qs[|qs| - 1], partial);
    }
  }

  /** Over an index with no empty position list, every stored count is at least one. */
  lemma EvaluatePositive(idx: Index, query: set<string>, partial: bool)
    requires NonEmptyLists(idx)
    ensures AllPositive(Evaluate(idx, query, partial))
  {
    ScanQueryPositive(map[], idx, SortedSeq(idx.Keys), SortedSeq(query), partial);
  }

  /** Partial search finds every document exact search finds, since equality implies prefix. */
  lemma PartialFindsExact(idx: Index, query: set<string>, d: string)
    ensures d in Evaluate(idx, query, false) ==> d in Evaluate(idx, query, true)
  {
    EvaluateDocuments(idx, query, false, d);
    EvaluateDocuments(idx, query, true, d);
    if d in Evaluate(idx, query, false) {
      var q, w :| q in query && w in idx && Matches(w, q, false) && d in idx[w];
      assert Matches(w, q, true);
    }
  }

  /** What each query asks to store: its key and its counts. */
  function Requests(idx: Index, queries: seq<set<string>>, partial: bool): (r: seq<(string, Counts)>)
    ensures |r| == |queries|
    ensures forall i | 0 <= i < |queries| :: r[i] == (QueryKey(queries[i]), Evaluate(idx, queries[i], partial))
  {
    seq(|queries|, i requires 0 <= i < |queries| => (QueryKey(queries[i]), Evaluate(idx, queries[i], partial)))
  }

  /**
   * The memo after handling requests in order: a request whose key is
   * already present is skipped; otherwise its key gets its counts.
   */
  function Memoised(memo: map<string, Counts>, requests: seq<(string, Counts)>): map<string, Counts>
    decreases |requests|
  {
    if requests == [] then memo
    else
      var previous := Memoised(memo, requests[..|requests| - 1]);
      var (key, counts) := requests[|requests| - 1];
      if key in previous then previous else previous[key := counts]
  }

  lemma MemoisedStep(memo: map<string, Counts>, requests: seq<(string, Counts)>, i: int)
    requires 0 <= i < |requests|
    ensures var previous := Memoised(memo, requests[..i]);
      Memoised(memo, requests[..i + 1])
      == if requests[i].0 in previous then previous else previous[requests[i].0 := requests[i].1]
  {
    assert requests[..i + 1][..i] == requests[..i];
  }

  /** The memo's keys: the old ones and the key of every query handled. */
  lemma {:induction false} MemoisedKeys(memo: map<string, Counts>, requests: seq<(string, Counts)>)
    ensures Memoised(memo, requests).Keys == memo.Keys + (set i | 0 <= i < |requests| :: requests[i].0)
    decreases |requests|
  {
    if requests != [] {
      var prefix := requests[..|requests| - 1];
      MemoisedKeys(memo, prefix);
      var all := set i | 0 <= i < |requests| :: requests[i].0;
      var before := set i | 0 <= i < |prefix| :: prefix[i].0;
      forall k ensures k in all <==> k in before || k == requests[|requests| - 1].0 {
        if k in all {
          var i :| 0 <= i < |requests| && requests[i].0 == k;
          if i < |prefix| {
            assert prefix[i] == requests[i];
          }
        }
        if k in before {
          var i :| 0 <= i < |prefix| && prefix[i].0 == k;
          assert prefix[i] == requests[i];
        }
      }
    }
  }

  /** An entry already in the memo is never replaced. */
  lemma {:induction false} MemoisedKeeps(memo: map<string, Counts>, requests: seq<(string, Counts)>, k: string)
    requires k in memo
    ensures k in Memoised(memo, requests) && Memoised(memo, requests)[k] == memo[k]
    decreases |requests|
  {
    if requests != [] {
      MemoisedKeeps(memo, requests[..|requests| - 1], k);
    }
  }

  /**
   * A request whose key is not in the old memo and differs from every
   * earlier request's key is stored with its own counts.
   */
  lemma {:induction false} MemoisedStores(memo: map<string, Counts>, requests: seq<(string, Counts)>, i: int)
    requires 0 <= i < |requests| && requests[i].0 !in memo
    requires forall j | 0 <= j < i :: requests[j].0 != requests[i].0
    ensures requests[i].0 in Memoised(memo, requests)
    ensures Memoised(memo, requests)[requests[i].0] == requests[i].1
    decreases |requests|
  {
    var prefix := requests[..|requests| - 1];
    var key := requests[i].0;
    if i < |prefix| {
      assert prefix[i] == requests[i];
      forall j | 0 <= j < i ensures prefix[j].0 != key {
        assert prefix[j] == requests[j];
      }
      MemoisedStores(memo, prefix, i);
    } else {
      MemoisedKeys(memo, prefix);
      assert key !in Memoised(memo, prefix) by {
        forall j | 0 <= j < |prefix| ensures prefix[j].0 != key {
          assert prefix[j] == requests[j];
        }
      }
    }
  }

  /**
   * After a search every query has an entry, possibly empty; entries
   * present before are unchanged; a query whose key is new and not shared
   * with an earlier query holds its own counts.
   */
  lemma SearchSpec(memo: map<string, Counts>, idx: Index, queries: seq<set<string>>, partial: bool, i: int)
    requires 0 <= i < |queries|
    ensures var r := Memoised(memo, Requests(idx, queries, partial));
      && QueryKey(queries[i]) in r
      && (QueryKey(queries[i]) in memo ==> r[QueryKey(queries[i])] == memo[QueryKey(queries[i])])
      && ((QueryKey(queries[i]) !in memo && forall j | 0 <= j < i :: QueryKey(queries[j]) != QueryKey(queries[i]))
        ==> r[QueryKey(queries[i])] == Evaluate(idx, queries[i], partial))
  {
    var requests := Requests(idx, queries, partial);
    var key := QueryKey(queries[i]);
    assert requests[i].0 == key;
    MemoisedKeys(memo, requests);
    if key in memo {
      MemoisedKeeps(memo, requests, key);
    } else if forall j | 0 <= j < i :: QueryKey(queries[j]) != key {
      forall j | 0 <= j < i ensures requests[j].0 != key {
        assert requests[j].0 == QueryKey(queries[j]);
      }
      MemoisedStores(memo, requests, i);
    }
  }

  /** The query evaluator with its memo of query key -> document -> count. */
  class QueryReader {
    var queryCalculation: map<string, Counts>

    constructor ()
      ensures queryCalculation == map[]
    {
      queryCalculation := map[];
    }

    /** Counts one matching word's documents into `values`, one document at a time. */
    static method CountDocuments(values: Counts, docs: Postings) returns (r: Counts)
      ensures r == AddPostings(values, docs)
    {
      r := values;
      RestrictEnds(values, docs);
      var remaining := docs.Keys;
      while remaining != {}
        invariant remaining <= docs.Keys
        invariant r == AddPostings(values, Restrict(docs, docs.Keys - remaining))
        decreases remaining
      {
        var document :| document in remaining;
        ghost var done := Restrict(docs, docs.Keys - remaining);
        RestrictStep(docs, remaining, document);
        AddPostingsStep(values, done, document, docs[document]);
        r := r[document := CountOf(r, document) + |docs[document]|];
        remaining := remaining - {document};
      }
    }

    /** One index word against one query word: its documents are counted when it matches. */
    static method CountMatch(values: Counts, index: InvertedIndex, stem: string, queryWord: string, partial: bool) returns (r: Counts)
      requires index.Valid() && stem in index.index
      ensures r == if Matches(stem, queryWord, partial) then AddPostings(values, PostingsOf(index.index, stem)) else values
    {
      r := values;
      if Matches(stem, queryWord, partial) {
        var docs := index.Get(stem).GetOr(map[]);
        assert docs == PostingsOf(index.index, stem);
        r := CountDocuments(r, docs);
      }
    }

    /** Scans the sorted index words for one query word, counting the documents of each match. */
    static method ScanIndex(values: Counts, index: InvertedIndex, queryWord: string, partial: bool) returns (r: Counts)
      requires index.Valid()
      ensures r == ScanWords(values, index.index, SortedSeq(index.index.Keys), queryWord, partial)
    {
      r := values;
      var keys := index.GetSortedKeys();
      for k := 0 to |keys|
        invariant r == ScanWords(values, index.index, keys[..k], queryWord, partial)
      {
        ScanWordsStep(values, index.index, keys, k, queryWord, partial);
        r := CountMatch(r, index, keys[k], queryWord, partial);
      }
      assert keys[..|keys|] == keys;
    }

    /** The counts of one query: every query word in ascending order against every index word. */
    static method EvaluateQuery(index: InvertedIndex, query: set<string>, partial: bool) returns (values: Counts)
      requires index.Valid()
      ensures values == Evaluate(index.index, query, partial)
    {
      values := map[];
      var words := SortedSeq(query);
      ghost var keys := SortedSeq(index.index.Keys);
      for j := 0 to |words|
        invariant values == ScanQuery(map[], index.index, keys, words[..j], partial)
      {
        ScanQueryStep(map[], index.index, keys, words, j, partial);
        values := ScanIndex(values, index, words[j], partial);
      }
      assert words[..|words|] == words;
    }

    /** `search`: evaluates each query not memoised yet and stores its counts under its key. */
    method Search(index: InvertedIndex, queries: seq<set<string>>, partial: bool)
      requires index.Valid()
      modifies this
      ensures queryCalculation == Memoised(old(queryCalculation), Requests(index.index, queries, partial))
    {
      ghost var requests := Requests(index.index, queries, partial);
      for i := 0 to |queries|
        invariant queryCalculation == Memoised(old(queryCalculation), requests[..i])
      {
        MemoisedStep(old(queryCalculation), requests, i);
        var query := queries[i];
        var key := QueryKey(query);
        assert requests[i].0 == key;
        if key in queryCalculation {
          continue;
        }
        var values := EvaluateQuery(index, query, partial);
        assert requests[i] == (key, values);
        queryCalculation := queryCalculation[key := values];
      }
      assert requests[..|queries|] == requests;
    }
  }
}
