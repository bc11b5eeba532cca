/**
 * The sequential kernel of the multithreaded index builder: merging a
 * task's private fragment into the shared index, indexing one document
 * through a fragment, and the crawl frontier's admission of links.
 *
 * Threads and locks are not modelled: each operation is one sequential
 * step, which is what the source's locking intends each to be.
 */
module MTIndex {
  import opened Strings
  import opened InvertedIndexes
  import opened WordCounts

  /** Appending one more fragment list for a document not merged yet. */
  lemma MergePostingsStep(base: Postings, done: Postings, d: string, ps: Positions)
    requires d !in done
    ensures MergePostings(base, done[d := ps]) == MergePostings(base, done)[d := PositionsOf(base, d) + ps]
  {
    var a, b := MergePostings(base, done[d := ps]), MergePostings(base, done)[d := PositionsOf(base, d) + ps];
    forall e ensures e in a <==> e in b {
      PositionsOfMerge(base, done[d := ps], e);
      PositionsOfMerge(base, done, e);
    }
    forall e | e in a ensures a[e] == b[e] {
      PositionsOfMerge(base, done[d := ps], e);
      PositionsOfMerge(base, done, e);
    }
  }

  /** A word the merged fragment does not hold keeps its shared documents. */
  lemma PostingsOfMergedAbsent(idx: Index, done: Index, w: string)
    requires w !in done
    ensures PostingsOf(Merged(idx, done), w) == PostingsOf(idx, w)
  {
    PostingsOfMerged(idx, done, w);
    MergePostingsEmpty(PostingsOf(idx, w));
  }

  /** Merging one more fragment word that was not merged yet. */
  lemma MergedStep(idx: Index, done: Index, w: string, docs: Postings)
    requires w !in done
    ensures Merged(idx, done[w := docs]) == Merged(idx, done)[w := MergePostings(PostingsOf(idx, w), docs)]
  {
    var a, b := Merged(idx, done[w := docs]), Merged(idx, done)[w := MergePostings(PostingsOf(idx, w), docs)];
    assert a.Keys == idx.Keys + done.Keys + {w};
    assert b.Keys == idx.Keys + done.Keys + {w};
    forall v | v in a ensures a[v] == b[v] {
      MergedStepAt(idx, done, w, docs, v);
    }
    SameEntries(a, b);
  }

  /** `MergedStep` for one word. */
  lemma MergedStepAt(idx: Index, done: Index, w: string, docs: Postings, v: string)
    requires w !in done && (v in idx || v in done || v == w)
    ensures Merged(idx, done[w := docs])[v] == Merged(idx, done)[w := MergePostings(PostingsOf(idx, w), docs)][v]
  {
    if v != w {
      assert PostingsOf(done[w := docs], v) == PostingsOf(done, v);
    }
  }

  /** Adding the next position of a run appends it to the (word, document) list built so far. */
  lemma AppendPositionStep(start: Index, word: string, doc: string, positions: Positions, k: nat)
    requires word in start && k < |positions|
    ensures var docs := start[word];
      WithPosition(if k == 0 then start else start[word := docs[doc := PositionsOf(docs, doc) + positions[..k]]], word, doc, positions[k])
      == start[word := docs[doc := PositionsOf(docs, doc) + positions[..k + 1]]]
  {
    var docs := start[word];
    var base := PositionsOf(docs, doc);
    assert positions[..k + 1] == positions[..k] + [positions[k]];
    if k == 0 {
      assert positions[..1] == [positions[0]];
    } else {
      var current := docs[doc := base + positions[..k]];
      var before := start[word := current];
      assert PostingsOf(before, word) == current;
      assert PositionsOf(current, doc) + [positions[k]] == base + positions[..k + 1];
      assert current[doc := base + positions[..k + 1]] == docs[doc := base + positions[..k + 1]];
    }
  }

  /** One step of merging a word's documents: the next document's list is appended. */
  lemma MergeDocumentStep(base: Postings, docs: Postings, remaining: set<string>, d: string)
    requires d in remaining && remaining <= docs.Keys
    ensures var merged := MergePostings(base, Restrict(docs, docs.Keys - remaining));
      && PositionsOf(merged, d) == PositionsOf(base, d)
      && merged[d := PositionsOf(merged, d) + docs[d]]
        == MergePostings(base, Restrict(docs, docs.Keys - (remaining - {d})))
  {
    var done := Restrict(docs, docs.Keys - remaining);
    PositionsOfMerge(base, done, d);
    MergePostingsStep(base, done, d, docs[d]);
    assert Restrict(docs, docs.Keys - (remaining - {d})) == done[d := docs[d]];
  }

  /** One loop step of the merge: the next fragment word's documents are merged. */
  lemma MergeOneMore(idx: Index, frag: Index, words: set<string>, w: string)
    requires w in words && words <= frag.Keys
    ensures var current := Merged(idx, Restrict(frag, frag.Keys - words));
      current[w := MergePostings(PostingsOf(current, w), frag[w])]
      == Merged(idx, Restrict(frag, frag.Keys - (words - {w})))
  {
    var done := Restrict(frag, frag.Keys - words);
    PostingsOfMergedAbsent(idx, done, w);
    MergedStep(idx, done, w, frag[w]);
    assert Restrict(frag, frag.Keys - (words - {w})) == done[w := frag[w]];
  }

  lemma MergedEmpty(idx: Index)
    ensures Merged(idx, map[]) == idx
  {
    var m := Merged(idx, map[]);
    assert m.Keys == idx.Keys;
    forall w | w in m ensures m[w] == idx[w] {
      MergePostingsEmpty(idx[w]);
    }
  }

  /** The frontier of the crawl: pages scheduled, URLs listed, tasks handed to the work queue. */
  datatype Frontier = Frontier(total: int, urls: seq<string>, queue: seq<string>)

  /**
   * The link-admission loop: a link is scheduled only while fewer than
   * `max` pages are scheduled and only if it is not listed yet; the loop
   * stops at the first link it examines once the budget is spent.
   */
  function Admit(max: int, f: Frontier, links: seq<string>): Frontier
    decreases |links|
  {
    if links == [] then f
    else if f.total < max then
      if links[0] !in f.urls then
        Admit(max, Frontier(f.total + 1, f.urls + [links[0]], f.queue + [links[0]]), links[1..])
      else Admit(max, f, links[1..])
    else f
  }

  /**
   * What the crawl promises: every scheduled page is listed once, was
   * handed to the work queue once, and there are at most `max` of them.
   */
  predicate Bounded(max: int, f: Frontier) {
    f.total == |f.urls| <= max && f.queue == f.urls && NoDuplicates(f.urls)
  }

  /**
   * The loop only appends: the listed URLs and the work queue grow by the
   * same admitted links, the counter by their number; each admitted link
   * comes from `links` and was not listed before; once the budget is spent
   * nothing changes.
   */
  lemma {:induction false} AdmitAppends(max: int, f: Frontier, links: seq<string>)
    ensures var r := Admit(max, f, links);
      && |f.urls| <= |r.urls| && r.urls[..|f.urls|] == f.urls
      && r.queue == f.queue + r.urls[|f.urls|..]
      && r.total == f.total + (|r.urls| - |f.urls|)
      && (forall u :: u in r.urls[|f.urls|..] ==> u in links && u !in f.urls)
      && (f.total >= max ==> r == f)
    decreases |links|
  {
    if links != [] && f.total < max {
      var link := links[0];
      if link !in f.urls {
        var g := Frontier(f.total + 1, f.urls + [link], f.queue + [link]);
        AdmitAppends(max, g, links[1..]);
        var r := Admit(max, g, links[1..]);
        assert r.urls[..|g.urls|][..|f.urls|] == f.urls;
        assert r.urls[|f.urls|..] == [link] + r.urls[|g.urls|..];
        assert r.queue == f.queue + r.urls[|f.urls|..];
      } else {
        AdmitAppends(max, f, links[1..]);
      }
    }
  }

  /** The admission loop keeps the crawl bounded and duplicate-free. */
  lemma {:induction false} AdmitKeepsBounded(max: int, f: Frontier, links: seq<string>)
    requires Bounded(max, f)
    ensures Bounded(max, Admit(max, f, links))
    decreases |links|
  {
    if links != [] && f.total < max {
      var link := links[0];
      if link !in f.urls {
        var g := Frontier(f.total + 1, f.urls + [link], f.queue + [link]);
        assert NoDuplicates(g.urls) by {
          forall i, j | 0 <= i < j < |g.urls| ensures g.urls[i] != g.urls[j] {
            if j == |f.urls| {
              assert g.urls[i] in f.urls;
            }
          }
        }
        AdmitKeepsBounded(max, g, links[1..]);
      } else {
        AdmitKeepsBounded(max, f, links[1..]);
      }
    }
  }

  /** Unless the budget ran out, every examined link ends up listed. */
  lemma {:induction false} AdmitComplete(max: int, f: Frontier, links: seq<string>)
    requires Admit(max, f, links).total < max
    ensures forall u :: u in links ==> u in Admit(max, f, links).urls
    decreases |links|
  {
    if links != [] {
      var link := links[0];
      AdmitAppends(max, f, links);
      if link !in f.urls {
        var g := Frontier(f.total + 1, f.urls + [link], f.queue + [link]);
        AdmitComplete(max, g, links[1..]);
        AdmitAppends(max, g, links[1..]);
        var r := Admit(max, g, links[1..]);
        assert r.urls[..|g.urls|][|f.urls|] == link;
      } else {
        AdmitComplete(max, f, links[1..]);
        AdmitAppends(max, f, links[1..]);
        var r := Admit(max, f, links[1..]);
        var i :| 0 <= i < |f.urls| && f.urls[i] == link;
        assert r.urls[..|f.urls|][i] == link;
      }
      forall u | u in links ensures u in Admit(max, f, links).urls {
        if u != link {
          assert u in links[1..];
        }
      }
    }
  }

  /**
   * The multithreaded index: the shared inverted index together with the
   * crawl budget, the crawl counter, the list of URLs attempted and the
   * pages handed to the work queue (`WorkQueue.execute`), in order.
   */
  class MTInvertedIndex {
    const shared: InvertedIndex
    var maxCrawl: int
    var totalCrawl: int
    var urlList: seq<string>
    var queue: seq<string>

    ghost predicate Valid()
      reads this, shared, shared.wordCount
    {
      shared.Valid()
    }

    function State(): Frontier
      reads this
    {
      Frontier(totalCrawl, urlList, queue)
    }

    constructor (maxCrawl: int)
      ensures Valid() && fresh(shared) && fresh(shared.wordCount)
      ensures shared.index == map[] && shared.wordCount.counts == map[]
      ensures this.maxCrawl == maxCrawl && State() == Frontier(0, [], [])
    {
      shared := new InvertedIndex();
      this.maxCrawl := maxCrawl;
      totalCrawl := 0;
      urlList := [];
      queue := [];
    }

    /** Appends a fragment list to the shared (word, document) list, one `add` per position. */
    method AppendPositions(word: string, doc: string, positions: Positions)
      requires Valid() && word in shared.index && positions != []
      modifies shared`index, shared.wordCount
      ensures Valid()
      ensures var docs := old(shared.index)[word];
        shared.index == old(shared.index)[word := docs[doc := PositionsOf(docs, doc) + positions]]
    {
      ghost var start := shared.index;
      ghost var docs := start[word];
      for k := 0 to |positions|
        invariant Valid()
        invariant shared.index == if k == 0 then start else start[word := docs[doc := PositionsOf(docs, doc) + positions[..k]]]
      {
        AppendPositionStep(start, word, doc, positions, k);
        shared.Add(word, doc, positions[k]);
      }
      assert positions[..|positions|] == positions;
    }

    /** One pass of the merge's document loop: the document's fragment list is appended. */
    method MergeDocument(word: string, docs: Postings, remaining: set<string>, doc: string, ghost start: Index, ghost base: Postings)
      requires Valid() && doc in remaining && remaining <= docs.Keys && docs[doc] != []
      requires shared.index == start[word := MergePostings(base, Restrict(docs, docs.Keys - remaining))]
      modifies shared`index, shared.wordCount
      ensures Valid()
      ensures shared.index == start[word := MergePostings(base, Restrict(docs, docs.Keys - (remaining - {doc})))]
    {
      ghost var merged := MergePostings(base, Restrict(docs, docs.Keys - remaining));
      MergeDocumentStep(base, docs, remaining, doc);
      AppendPositions(word, doc, docs[doc]);
      assert shared.index == start[word := merged][word := merged[doc := PositionsOf(merged, doc) + docs[doc]]];
    }

    /** Merges one fragment word's documents: `add(word)`, then every position in list order. */
    method MergeWord(word: string, docs: Postings)
      requires Valid()
      requires forall d | d in docs :: docs[d] != []
      modifies shared`index, shared.wordCount
      ensures Valid()
      ensures shared.index == old(shared.index)[word := MergePostings(PostingsOf(old(shared.index), word), docs)]
    {
      ghost var start := shared.index;
      ghost var base := PostingsOf(start, word);
      MergePostingsEmpty(base);
      shared.AddWord(word);
      assert Restrict(docs, docs.Keys - docs.Keys) == map[];
      var remaining := docs.Keys;
      while remaining != {}
        invariant Valid()
        invariant remaining <= docs.Keys
        invariant shared.index == start[word := MergePostings(base, Restrict(docs, docs.Keys - remaining))]
        decreases remaining
      {
        var doc :| doc in remaining;
        MergeDocument(word, docs, remaining, doc, start, base);
        remaining := remaining - {doc};
      }
      assert docs.Keys - remaining == docs.Keys;
      assert Restrict(docs, docs.Keys) == docs;
    }

    /**
     * `merge(fragment)`: every fragment word is added, even one with no
     * documents, and every fragment list is appended to the shared list;
     * each document's count grows by its count in the fragment.
     */
    method Merge(fragment: InvertedIndex)
      requires Valid() && fragment.Valid()
      requires fragment != shared && fragment.wordCount != shared.wordCount
      modifies shared`index, shared.wordCount
      ensures Valid()
      ensures shared.index == Merged(old(shared.index), fragment.index)
      ensures forall d :: (CountOf(shared.wordCount.counts, d)
        == CountOf(old(shared.wordCount.counts), d) + CountOf(fragment.wordCount.counts, d))
    {
      var frag := fragment.index;
      ghost var start := shared.index;
      ghost var startCounts := shared.wordCount.counts;
      ghost var fragCounts := fragment.wordCount.counts;
      assert forall d :: CountOf(startCounts, d) == TotalOf(start, d);
      assert forall d :: CountOf(fragCounts, d) == TotalOf(frag, d);
      assert NonEmptyLists(frag);
      MergedEmpty(start);
      assert Restrict(frag, frag.Keys - frag.Keys) == map[];
      var words := frag.Keys;
      while words != {}
        invariant Valid()
        invariant words <= frag.Keys
        invariant shared.index == Merged(start, Restrict(frag, frag.Keys - words))
        decreases words
      {
        var word :| word in words;
        MergeOneMore(start, frag, words, word);
        MergeWord(word, frag[word]);
        words := words - {word};
      }
      assert frag.Keys - words == frag.Keys;
      assert Restrict(frag, frag.Keys) == frag;
      MergedSpec(start, frag);
    }

    /**
     * The work of one indexing task without its I/O: the document's words
     * go into a private fragment at positions 1, 2, ..., which is then
     * merged. For a document the index does not hold yet, this is the same
     * as adding the words to the shared index directly.
     */
    method IndexDocument(words: seq<string>, document: string)
      requires Valid()
      modifies shared`index, shared.wordCount
      ensures Valid()
      ensures shared.index == Merged(old(shared.index), WithList(map[], words, document))
      ensures FreshDocument(old(shared.index), document) ==> shared.index == WithList(old(shared.index), words, document)
    {
      var fragment := new InvertedIndex();
      fragment.AddList(words, document);
      Merge(fragment);
      if FreshDocument(old(shared.index), document) {
        MergeFreshFragment(old(shared.index), words, document);
      }
    }

    /** `addHtml(seed)`: the seed is handed to the work queue, counted as the first page and listed. */
    method AddHtml(seed: string)
      modifies this`totalCrawl, this`urlList, this`queue
      ensures State() == Frontier(1, old(urlList) + [seed], old(queue) + [seed])
      ensures old(State()) == Frontier(0, [], []) && maxCrawl >= 1 ==> Bounded(maxCrawl, State())
    {
      queue := queue + [seed];
      totalCrawl := 1;
      urlList := urlList + [seed];
    }

    /** The link-admission loop of one page task, run without interleaving. */
    method AdmitLinks(links: seq<string>)
      modifies this`totalCrawl, this`urlList, this`queue
      ensures State() == Admit(maxCrawl, old(State()), links)
      ensures Bounded(maxCrawl, old(State())) ==> Bounded(maxCrawl, State())
    {
      var i := 0;
      while i < |links|
        invariant 0 <= i <= |links|
        invariant Admit(maxCrawl, State(), links[i..]) == Admit(maxCrawl, old(State()), links)
      {
        var link := links[i];
        assert links[i..][1..] == links[i + 1..];
        if totalCrawl < maxCrawl {
          if link !in urlList {
            queue := queue + [link];
            totalCrawl := totalCrawl + 1;
            urlList := urlList + [link];
          }
        } else {
          break;
        }
        i := i + 1;
      }
      if Bounded(maxCrawl, old(State())) {
        AdmitKeepsBounded(maxCrawl, old(State()), links);
      }
    }
  }
}
