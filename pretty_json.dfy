/**
 * The pretty JSON layout: newlines between elements, two spaces per level
 * of indentation, a comma after every element but the last, and an empty
 * collection written as its brackets on two lines. The output `Writer` is
 * a character buffer that only ever grows at its end; each writer method
 * is specified by the text it appends.
 */
module PrettyJson {
  import opened Strings
  import opened Numbers
  import opened InvertedIndexes

  /** The output stream: everything written so far. */
  class Writer {
    var buffer: string

    constructor ()
      ensures buffer == []
    {
      buffer := [];
    }

    method Write(s: string)
      modifies this
      ensures buffer == old(buffer) + s
    {
      buffer := buffer + s;
    }
  }

  /** Two spaces per level, nothing for a level of zero or less. */
  function IndentText(n: int): (r: string)
    ensures |r| == if n > 0 then 2 * n else 0
    decreases n
  {
    if n <= 0 then "" else "  " + IndentText(n - 1)
  }

  /** The indentation is spaces only: `max(n, 0)` pairs of them. */
  lemma {:induction false} IndentTextSpaces(n: int)
    ensures forall i | 0 <= i < |IndentText(n)| :: IndentText(n)[i] == ' '
    decreases n
  {
    if n > 0 {
      IndentTextSpaces(n - 1);
    }
  }

  /** `writeQuote`: the indentation, then the element between double quotes, unescaped. */
  function QuoteText(element: string, n: int): string {
    IndentText(n) + "\"" + element + "\""
  }

  /**
   * A bracketed block: the opening bracket and a newline, the lines
   * separated by a comma and a newline, then a newline, the indentation and
   * the closing bracket; with no lines, only the newline, the indentation
   * and the closing bracket follow the opening one.
   */
  function BlockText(open: string, close: string, lines: seq<string>, n: int): string {
    if lines == [] then open + "\n" + IndentText(n) + close
    else open + "\n" + Join(lines, ",\n") + "\n" + IndentText(n) + close
  }

  function ArrayLines(elements: seq<int>, n: int): (r: seq<string>)
    ensures |r| == |elements|
  {
    seq(|elements|, k requires 0 <= k < |elements| => IndentText(n + 1) + IntToString(elements[k]))
  }

  /** `writeArray`: each number on its own line, one level deeper. */
  function ArrayText(elements: seq<int>, n: int): string {
    BlockText("[", "]", ArrayLines(elements, n), n)
  }

  function ObjectLines(entries: seq<(string, int)>, n: int): (r: seq<string>)
    ensures |r| == |entries|
  {
    seq(|entries|, k requires 0 <= k < |entries| => QuoteText(entries[k].0, n + 1) + ": " + IntToString(entries[k].1))
  }

  /** `writeObject`: each `"key": value` on its own line, in the map's iteration order. */
  function ObjectText(entries: seq<(string, int)>, n: int): string {
    BlockText("{", "}", ObjectLines(entries, n), n)
  }

  function NestedLines(elements: map<string, seq<int>>, keys: seq<string>, n: int): (r: seq<string>)
    ensures |r| == |keys|
  {
    seq(|keys|, k requires 0 <= k < |keys| =>
      QuoteText(keys[k], n + 1) + ": " + ArrayText(if keys[k] in elements then elements[keys[k]] else [], n + 1))
  }

  /** `writeNestedArrays`: each key with its array, keys in ascending order. */
  function NestedArraysText(elements: map<string, seq<int>>, n: int): string {
    BlockText("{", "}", NestedLines(elements, SortedSeq(elements.Keys), n), n)
  }

  function IndexLines(idx: Index, words: seq<string>, n: int): (r: seq<string>)
    ensures |r| == |words|
  {
    seq(|words|, k requires 0 <= k < |words| =>
      QuoteText(words[k], n + 1) + ": " + NestedArraysText(PostingsOf(idx, words[k]), n + 1))
  }

  /**
   * `writeDoubleNestedArrays` for the inverted index: each word with its
   * documents and their positions, words in ascending order; a non-empty
   * index ends with one more newline.
   */
  function IndexText(idx: Index, n: int): string {
    BlockText("{", "}", IndexLines(idx, SortedSeq(idx.Keys), n), n) + (if idx == map[] then "" else "\n")
  }

  /** How many times `c` occurs in `s`. */
  function Occurrences(s: string, c: char): nat {
    multiset(s)[c]
  }

  /** Joining parts free of `c` with a separator holding one `c` gives one `c` per separator. */
  lemma {:induction false} JoinOccurrences(parts: seq<string>, sep: string, c: char)
    requires Occurrences(sep, c) == 1
    requires forall i | 0 <= i < |parts| :: c !in parts[i]
    ensures Occurrences(Join(parts, sep), c) == if parts == [] then 0 else |parts| - 1
    decreases |parts|
  {
    if |parts| == 1 {
      assert multiset(parts[0])[c] == 0;
    } else if |parts| > 1 {
      var rest := Join(parts[1..], sep);
      JoinOccurrences(parts[1..], sep, c);
      assert multiset(parts[0])[c] == 0;
      calc {
        multiset(Join(parts, sep))[c];
        multiset(parts[0] + sep + rest)[c];
        (multiset(parts[0]) + multiset(sep) + multiset(rest))[c];
        multiset(sep)[c] + multiset(rest)[c];
      }
    }
  }

  lemma IntToStringChars(x: int)
    ensures forall i | 0 <= i < |IntToString(x)| :: IntToString(x)[i] == '-' || '0' <= IntToString(x)[i] <= '9'
  {
    NatToStringDigits(if x < 0 then -x else x);
  }

  lemma ArrayLinesPlain(elements: seq<int>, n: int)
    ensures forall i | 0 <= i < |elements| :: ',' !in ArrayLines(elements, n)[i] && '\n' !in ArrayLines(elements, n)[i]
  {
    forall i | 0 <= i < |elements| ensures ',' !in ArrayLines(elements, n)[i] && '\n' !in ArrayLines(elements, n)[i] {
      var indent, number := IndentText(n + 1), IntToString(elements[i]);
      IntToStringChars(elements[i]);
      IndentTextSpaces(n + 1);
      assert ',' !in indent && '\n' !in indent;
      assert ',' !in number && '\n' !in number;
      assert ArrayLines(elements, n)[i] == indent + number;
    }
  }

  lemma IndentPlain(n: int)
    ensures Occurrences(IndentText(n), ',') == 0 && Occurrences(IndentText(n), '\n') == 0
  {
    var indent := IndentText(n);
    IndentTextSpaces(n);
    assert ',' !in indent && '\n' !in indent;
  }

  /** The counts of `c` in a block whose lines, indentation and brackets hold no `c`. */
  lemma BlockOccurrences(open: string, close: string, lines: seq<string>, n: int, c: char)
    requires c !in open && c !in close
    requires Occurrences(",\n", c) == 1
    requires forall i | 0 <= i < |lines| :: c !in lines[i]
    ensures Occurrences(BlockText(open, close, lines, n), c)
      == Occurrences("\n", c) * (if lines == [] then 1 else 2) + (if lines == [] then 0 else |lines| - 1)
  {
    JoinOccurrences(lines, ",\n", c);
    IndentPlain(n);
    var indent := IndentText(n);
    assert c !in indent;
    if lines != [] {
      var joined := Join(lines, ",\n");
      assert BlockText(open, close, lines, n) == open + "\n" + joined + "\n" + indent + close;
      assert multiset(BlockText(open, close, lines, n))
        == multiset(open) + multiset("\n") + multiset(joined) + multiset("\n") + multiset(indent) + multiset(close);
    } else {
      assert multiset(BlockText(open, close, lines, n))
        == multiset(open) + multiset("\n") + multiset(indent) + multiset(close);
    }
  }

  /**
   * An array of `k` numbers has `k - 1` commas, none trailing, and `k + 1`
   * newlines; an empty one has no comma and one newline.
   */
  lemma ArrayTextShape(elements: seq<int>, n: int)
    ensures Occurrences(ArrayText(elements, n), ',') == if elements == [] then 0 else |elements| - 1
    ensures Occurrences(ArrayText(elements, n), '\n') == |elements| + 1
  {
    ArrayLinesPlain(elements, n);
    assert Occurrences(",\n", ',') == 1 && Occurrences(",\n", '\n') == 1;
    assert Occurrences("\n", ',') == 0 && Occurrences("\n", '\n') == 1;
    BlockOccurrences("[", "]", ArrayLines(elements, n), n, ',');
    BlockOccurrences("[", "]", ArrayLines(elements, n), n, '\n');
  }

  /** `writeObject` indents a key one level deeper whichever of its two branches writes it. */
  lemma ObjectKeyIndent(key: string)
    ensures IndentText(1) + QuoteText(key, 0) == QuoteText(key, 0 + 1)
  {
  }

  /**
   * The keys of a nested-arrays object appear in ascending order, whatever
   * order the map would iterate them in: the text is the one written from
   * any strictly ascending listing of the keys.
   */
  lemma NestedArraysAscending(elements: map<string, seq<int>>, keys: seq<string>, n: int)
    requires StrictlySorted(keys) && forall k :: k in keys <==> k in elements
    ensures NestedArraysText(elements, n) == BlockText("{", "}", NestedLines(elements, keys, n), n)
  {
    SortedUnique(SortedSeq(elements.Keys), keys);
  }

  /** Dropping a prefix leaves the rest. */
  lemma Suffix(head: string, end: string)
    ensures (head + end)[|head|..] == end
  {
  }

  /** An empty map is an opening brace, a newline, the indentation and a closing brace. */
  lemma NestedArraysTextEmpty(elements: map<string, seq<int>>, n: int)
    requires elements == map[]
    ensures NestedArraysText(elements, n) == "{\n" + IndentText(n) + "}"
  {
    assert SortedSeq(elements.Keys) == [];
  }

  /** The empty index is an opening brace, a newline, the indentation and a closing brace. */
  lemma IndexTextEmpty(idx: Index, n: int)
    requires idx == map[]
    ensures IndexText(idx, n) == "{\n" + IndentText(n) + "}"
  {
    assert SortedSeq(idx.Keys) == [];
  }

  /** A non-empty index is the block of its sorted words followed by a newline. */
  lemma IndexTextNonEmpty(idx: Index, n: int)
    requires idx != map[]
    ensures IndexText(idx, n) == BlockText("{", "}", IndexLines(idx, SortedSeq(idx.Keys), n), n) + "\n"
  {
  }

  /** A non-empty index ends with a newline, the indentation, the closing brace and one more newline. */
  lemma IndexTextEnds(idx: Index, n: int)
    requires idx != map[]
    ensures var t := IndexText(idx, n);
      |t| >= |IndentText(n)| + 3 && t[|t| - |IndentText(n)| - 3..] == "\n" + IndentText(n) + "}\n"
  {
    var lines := IndexLines(idx, SortedSeq(idx.Keys), n);
    SortedKeysNonEmpty(idx);
    var head := "{" + "\n" + Join(lines, ",\n");
    var end := "\n" + IndentText(n) + "}\n";
    assert IndexText(idx, n) == head + end;
    Suffix(head, end);
  }

  /** One more line of a block, with the comma rule of the source's loops. */
  lemma JoinStep(lines: seq<string>, i: int)
    requires 0 <= i < |lines|
    ensures Join(lines[..i + 1], ",\n") == if i == 0 then lines[0] else Join(lines[..i], ",\n") + ",\n" + lines[i]
  {
    if i > 0 {
      assert lines[..i + 1] == lines[..i] + [lines[i]];
      JoinSnoc(lines[..i], lines[i], ",\n");
    }
  }

  /** The text a block loop has written after `i` of its lines. */
  function PartialBlock(open: string, lines: seq<string>, i: int): string
    requires 0 <= i <= |lines|
  {
    open + "\n" + Join(lines[..i], ",\n") + (if 0 < i < |lines| then ",\n" else "")
  }

  lemma PartialBlockStep(open: string, lines: seq<string>, i: int)
    requires 0 <= i < |lines|
    ensures PartialBlock(open, lines, i) + lines[i] + (if i != |lines| - 1 then ",\n" else "") == PartialBlock(open, lines, i + 1)
  {
    JoinStep(lines, i);
    if i == 0 {
      assert lines[..0] == [];
    }
  }

  lemma PartialBlockDone(start: string, open: string, close: string, lines: seq<string>, n: int)
    requires lines != []
    ensures start + PartialBlock(open, lines, |lines|) + "\n" + IndentText(n) + close == start + BlockText(open, close, lines, n)
  {
    assert lines[..|lines|] == lines;
  }

  /** A map with an entry has a non-empty key listing. */
  lemma SortedKeysNonEmpty<V>(m: map<string, V>)
    requires m != map[]
    ensures SortedSeq(m.Keys) != []
  {
    var k :| k in m;
    assert k in SortedSeq(m.Keys);
  }

  /** `writeIndent(writer, indent)`: two spaces, `indent` times. */
  method WriteIndent(w: Writer, indent: int)
    modifies w
    ensures w.buffer == old(w.buffer) + IndentText(indent)
  {
    var remaining := indent;
    var written := 0;
    while remaining > 0
      invariant written == (if indent > 0 then indent else 0) - (if remaining > 0 then remaining else 0)
      invariant remaining <= 0 ==> written == (if indent > 0 then indent else 0)
      invariant w.buffer == old(w.buffer) + IndentText(written)
      decreases remaining
    {
      ghost var before := IndentText(written);
      w.Write("  ");
      IndentTextSpaces(written);
      IndentTextSpaces(written + 1);
      assert before + "  " == IndentText(written + 1);
      remaining := remaining - 1;
      written := written + 1;
    }
  }

  /** `writeIndent(element, writer, indent)`. */
  method WriteIndented(w: Writer, element: string, indent: int)
    modifies w
    ensures w.buffer == old(w.buffer) + IndentText(indent) + element
  {
    WriteIndent(w, indent);
    w.Write(element);
  }

  /** `writeQuote`. */
  method WriteQuote(w: Writer, element: string, indent: int)
    modifies w
    ensures w.buffer == old(w.buffer) + QuoteText(element, indent)
  {
    WriteIndent(w, indent);
    w.Write("\"");
    w.Write(element);
    w.Write("\"");
  }

  lemma Associative(a: string, b: string, c: string, d: string)
    ensures a + b + c + d == a + (b + c + d)
  {
  }

  lemma PartialBlockStart(open: string, lines: seq<string>)
    ensures PartialBlock(open, lines, 0) == open + "\n"
  {
    assert lines[..0] == [];
  }

  /** One pass of `writeArray`'s loop: a number on its line, and a comma unless it is the last. */
  method WriteArrayLine(w: Writer, elements: seq<int>, index: int, indent: int)
    requires 0 <= index < |elements|
    modifies w
    ensures w.buffer == old(w.buffer) + ArrayLines(elements, indent)[index] + (if index != |elements| - 1 then ",\n" else "")
  {
    WriteIndented(w, IntToString(elements[index]), indent + 1);
    if index != |elements| - 1 {
      w.Write(",\n");
    }
  }

  /** `writeArray`: the numbers in the collection's iteration order. */
  method WriteArray(w: Writer, elements: seq<int>, indent: int)
    modifies w
    ensures w.buffer == old(w.buffer) + ArrayText(elements, indent)
  {
    ghost var start := w.buffer;
    ghost var lines := ArrayLines(elements, indent);
    w.Write("[\n");
    if elements != [] {
      PartialBlockStart("[", lines);
      var index := 0;
      while index < |elements|
        invariant 0 <= index <= |elements|
        invariant w.buffer == start + PartialBlock("[", lines, index)
      {
        ghost var written := PartialBlock("[", lines, index);
        ghost var comma := if index != |elements| - 1 then ",\n" else "";
        WriteArrayLine(w, elements, index, indent);
        Associative(start, written, lines[index], comma);
        PartialBlockStep("[", lines, index);
        index := index + 1;
      }
      w.Write("\n");
      WriteIndented(w, "]", indent);
      PartialBlockDone(start, "[", "]", lines, indent);
    } else {
      WriteIndented(w, "]", indent);
    }
  }

  /** One pass of `writeObject`'s loop; at indentation zero the key's extra level is written separately. */
  method WriteObjectLine(w: Writer, entries: seq<(string, int)>, index: int, indent: int)
    requires 0 <= index < |entries|
    modifies w
    ensures w.buffer == old(w.buffer) + ObjectLines(entries, indent)[index] + (if index != |entries| - 1 then ",\n" else "")
  {
    ghost var start := w.buffer;
    var (key, value) := entries[index];
    ghost var quote, number := QuoteText(key, indent + 1), IntToString(value);
    if indent == 0 {
      WriteIndent(w, 1);
      WriteQuote(w, key, indent);
      ObjectKeyIndent(key);
      assert w.buffer == start + quote;
    } else {
      WriteQuote(w, key, indent + 1);
    }
    w.Write(": ");
    WriteIndented(w, IntToString(value), 0);
    assert IndentText(0) == "";
    Associative(start, quote, ": ", number);
    assert ObjectLines(entries, indent)[index] == quote + ": " + number;
    if index != |entries| - 1 {
      w.Write(",\n");
    }
  }

  /** `writeObject`: the entries in the map's iteration order, given here as a sequence. */
  method WriteObject(w: Writer, entries: seq<(string, int)>, indent: int)
    modifies w
    ensures w.buffer == old(w.buffer) + ObjectText(entries, indent)
  {
    ghost var start := w.buffer;
    ghost var lines := ObjectLines(entries, indent);
    if entries == [] {
      w.Write("{\n");
      WriteIndented(w, "}", indent);
    } else {
      WriteIndented(w, "{", 0);
      w.Write("\n");
      PartialBlockStart("{", lines);
      var index := 0;
      while index < |entries|
        invariant 0 <= index <= |entries|
        invariant w.buffer == start + PartialBlock("{", lines, index)
      {
        ghost var written := PartialBlock("{", lines, index);
        ghost var comma := if index != |entries| - 1 then ",\n" else "";
        WriteObjectLine(w, entries, index, indent);
        Associative(start, written, lines[index], comma);
        PartialBlockStep("{", lines, index);
        index := index + 1;
      }
      w.Write("\n");
      WriteIndented(w, "}", indent);
      PartialBlockDone(start, "{", "}", lines, indent);
    }
  }

  /** One pass of `writeNestedArrays`'s loop: a key, then its array one level deeper. */
  method WriteNestedLine(w: Writer, elements: map<string, seq<int>>, sorted: seq<string>, index: int, indent: int)
    requires 0 <= index < |sorted| && sorted[index] in elements
    modifies w
    ensures w.buffer == old(w.buffer) + NestedLines(elements, sorted, indent)[index] + (if index != |sorted| - 1 then ",\n" else "")
  {
    ghost var start := w.buffer;
    var key := sorted[index];
    ghost var quote, brackets := QuoteText(key, indent + 1), ArrayText(elements[key], indent + 1);
    WriteQuote(w, key, indent + 1);
    w.Write(": ");
    WriteArray(w, elements[key], indent + 1);
    Associative(start, quote, ": ", brackets);
    assert NestedLines(elements, sorted, indent)[index] == quote + ": " + brackets;
    if index != |sorted| - 1 {
      w.Write(",\n");
    }
  }

  /** `writeNestedArrays`: the keys are listed and sorted, then each is written with its array. */
  method WriteNestedArrays(w: Writer, elements: map<string, seq<int>>, indent: int)
    modifies w
    ensures w.buffer == old(w.buffer) + NestedArraysText(elements, indent)
  {
    if elements == map[] {
      NestedArraysTextEmpty(elements, indent);
      w.Write("{\n");
      WriteIndented(w, "}", indent);
    } else {
      var sorted := SortedSeq(elements.Keys);
      SortedKeysNonEmpty(elements);
      WriteNestedBlock(w, elements, sorted, indent);
    }
  }

  /** The loop of the nested-array writer: every key's line, with the comma rule. */
  method WriteNestedKeys(w: Writer, elements: map<string, seq<int>>, sorted: seq<string>, indent: int, ghost start: string)
    requires forall k | 0 <= k < |sorted| :: sorted[k] in elements
    requires w.buffer == start + PartialBlock("{", NestedLines(elements, sorted, indent), 0)
    modifies w
    ensures w.buffer == start + PartialBlock("{", NestedLines(elements, sorted, indent), |sorted|)
  {
    ghost var lines := NestedLines(elements, sorted, indent);
    var index := 0;
    while index < |sorted|
      invariant 0 <= index <= |sorted|
      invariant w.buffer == start + PartialBlock("{", lines, index)
    {
      ghost var written := PartialBlock("{", lines, index);
      ghost var comma := if index != |sorted| - 1 then ",\n" else "";
      WriteNestedLine(w, elements, sorted, index, indent);
      Associative(start, written, lines[index], comma);
      PartialBlockStep("{", lines, index);
      index := index + 1;
    }
  }

  /** A non-empty map as a block: the opening brace, every key's line, the closing brace. */
  method WriteNestedBlock(w: Writer, elements: map<string, seq<int>>, sorted: seq<string>, indent: int)
    requires sorted != [] && forall k | 0 <= k < |sorted| :: sorted[k] in elements
    modifies w
    ensures w.buffer == old(w.buffer) + BlockText("{", "}", NestedLines(elements, sorted, indent), indent)
  {
    ghost var start := w.buffer;
    ghost var lines := NestedLines(elements, sorted, indent);
    WriteIndented(w, "{\n", 0);
    PartialBlockStart("{", lines);
    WriteNestedKeys(w, elements, sorted, indent, start);
    w.Write("\n");
    WriteIndented(w, "}", indent);
    PartialBlockDone(start, "{", "}", lines, indent);
  }

  /** One pass of the index writer's loop: a word, then its documents one level deeper. */
  method WriteIndexLine(w: Writer, idx: Index, words: seq<string>, index: int, indent: int)
    requires 0 <= index < |words| && words[index] in idx
    modifies w
    ensures w.buffer == old(w.buffer) + IndexLines(idx, words, indent)[index] + (if index != |words| - 1 then ",\n" else "")
  {
    var word := words[index];
    WriteQuote(w, word, indent + 1);
    w.Write(": ");
    WriteNestedArrays(w, idx[word], indent + 1);
    if index != |words| - 1 {
      w.Write(",\n");
    }
  }

  /** The loop of the index writer: every word's line, with the comma rule. */
  method WriteIndexWords(w: Writer, idx: Index, words: seq<string>, indent: int, ghost start: string)
    requires forall k | 0 <= k < |words| :: words[k] in idx
    requires w.buffer == start + PartialBlock("{", IndexLines(idx, words, indent), 0)
    modifies w
    ensures w.buffer == start + PartialBlock("{", IndexLines(idx, words, indent), |words|)
  {
    ghost var lines := IndexLines(idx, words, indent);
    var index := 0;
    while index < |words|
      invariant 0 <= index <= |words|
      invariant w.buffer == start + PartialBlock("{", lines, index)
    {
      ghost var written := PartialBlock("{", lines, index);
      ghost var comma := if index != |words| - 1 then ",\n" else "";
      WriteIndexLine(w, idx, words, index, indent);
      Associative(start, written, lines[index], comma);
      PartialBlockStep("{", lines, index);
      index := index + 1;
    }
  }

  /** A non-empty index as a block: the opening brace, every word's line, the closing brace. */
  method WriteIndexBlock(w: Writer, idx: Index, words: seq<string>, indent: int)
    requires words != [] && forall k | 0 <= k < |words| :: words[k] in idx
    modifies w
    ensures w.buffer == old(w.buffer) + BlockText("{", "}", IndexLines(idx, words, indent), indent)
  {
    ghost var start := w.buffer;
    ghost var lines := IndexLines(idx, words, indent);
    WriteIndented(w, "{\n", 0);
    PartialBlockStart("{", lines);
    WriteIndexWords(w, idx, words, indent, start);
    w.Write("\n");
    WriteIndented(w, "}", indent);
    PartialBlockDone(start, "{", "}", lines, indent);
  }

  /** `writeDoubleNestedArrays` for the inverted index: words in sorted order, a final newline when not empty. */
  method WriteIndex(w: Writer, idx: Index, indent: int)
    modifies w
    ensures w.buffer == old(w.buffer) + IndexText(idx, indent)
  {
    if idx == map[] {
      IndexTextEmpty(idx, indent);
      w.Write("{\n");
      WriteIndented(w, "}", indent);
    } else {
      var words := SortedSeq(idx.Keys);
      SortedKeysNonEmpty(idx);
      IndexTextNonEmpty(idx, indent);
      WriteIndexBlock(w, idx, words, indent);
      w.Write("\n");
    }
  }

}
