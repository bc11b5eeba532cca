/**
 * One search result: its score, its match count and its document, ordered
 * by descending score, then descending count, then ascending document.
 * The score, a double in the source, is a real here (NaN is excluded).
 */
module Entries {
  import opened Wrappers
  import opened Strings

  datatype Entry = Entry(score: real, count: int, document: string)

  /** `a` sorts before `b`: a higher score, or an equal score and a higher count, or both equal and an earlier document. */
  predicate Precedes(a: Entry, b: Entry) {
    || a.score > b.score
    || (a.score == b.score && a.count > b.count)
    || (a.score == b.score && a.count == b.count && Less(a.document, b.document))
  }

  /** `compareTo`: negative when `a` sorts first, zero only for equal entries. */
  function CompareTo(a: Entry, b: Entry): (r: int)
    ensures r < 0 <==> Precedes(a, b)
    ensures r > 0 <==> Precedes(b, a)
    ensures r == 0 <==> a == b
  {
    CompareZero(a.document, b.document);
    CompareAntisymmetric(a.document, b.document);
    if a.score > b.score then -1
    else if a.score < b.score then 1
    else if a.count > b.count then -1
    else if a.count < b.count then 1
    else Compare(a.document, b.document)
  }

  /** A higher score always sorts first, whatever the counts and documents. */
  lemma ScoreFirst(a: Entry, b: Entry)
    requires a.score > b.score
    ensures CompareTo(a, b) < 0 && CompareTo(b, a) > 0
  {
  }

  /** With equal scores, a higher count sorts first. */
  lemma CountSecond(a: Entry, b: Entry)
    requires a.score == b.score && a.count > b.count
    ensures CompareTo(a, b) < 0 && CompareTo(b, a) > 0
  {
  }

  /** With equal scores and counts, the documents decide as `String.compareTo` does. */
  lemma DocumentLast(a: Entry, b: Entry)
    requires a.score == b.score && a.count == b.count
    ensures CompareTo(a, b) == Compare(a.document, b.document)
  {
  }

  /** The sign of `compareTo` flips when the entries are swapped. */
  lemma CompareToAntisymmetric(a: Entry, b: Entry)
    ensures CompareTo(a, b) < 0 <==> CompareTo(b, a) > 0
    ensures CompareTo(a, b) == 0 <==> CompareTo(b, a) == 0
  {
  }

  /** The order is transitive. */
  lemma CompareToTransitive(a: Entry, b: Entry, c: Entry)
    requires CompareTo(a, b) < 0 && CompareTo(b, c) < 0
    ensures CompareTo(a, c) < 0
  {
    if a.score == b.score && b.score == c.score && a.count == b.count && b.count == c.count {
      CompareTransitive(a.document, b.document, c.document);
    }
  }

  /** Any two distinct entries are ordered one way: `compareTo` is a total order. */
  lemma CompareToTotal(a: Entry, b: Entry)
    ensures a != b ==> CompareTo(a, b) < 0 || CompareTo(b, a) < 0
  {
  }

  /** The values of an entry's JSON object. */
  datatype JsonValue = Integer(i: int) | Number(x: real) | Text(s: string)

  /** `toMap`: the object with keys `count`, `score` and `where`. */
  function ToMap(e: Entry): (r: map<string, JsonValue>)
    ensures r.Keys == {"count", "score", "where"}
  {
    map["count" := Integer(e.count), "score" := Number(e.score), "where" := Text(e.document)]
  }

  /** Reads an entry back from its JSON object; `None` when a key is missing or of the wrong kind. */
  function FromMap(m: map<string, JsonValue>): Option<Entry> {
    if "count" in m && m["count"].Integer? && "score" in m && m["score"].Number? && "where" in m && m["where"].Text?
    then Some(Entry(m["score"].x, m["count"].i, m["where"].s))
    else None
  }

  /** The object holds exactly the entry: it reads back to the same entry. */
  lemma ToMapRoundTrip(e: Entry)
    ensures FromMap(ToMap(e)) == Some(e)
  {
  }

  /** The object's keys in `TreeMap` order. */
  lemma ToMapKeyOrder(e: Entry)
    ensures SortedSeq(ToMap(e).Keys) == ["count", "score", "where"]
  {
    var keys := ["count", "score", "where"];
    assert Less("count", "score") && Less("score", "where") && Less("count", "where");
    assert StrictlySorted(keys);
    SortedUnique(SortedSeq(ToMap(e).Keys), keys);
  }
}
