# Search engine core, modelled in Dafny

This project models the sequential core of a small Java search engine. The
engine builds an inverted index. The index maps each stemmed word to the
documents it occurs in, and each document to the 1-based positions of the
word. Beside the index it keeps a per-document word count. A multithreaded
builder indexes each page in a private fragment and merges that fragment into
the shared index. A crawl loop admits links up to a page budget. A query
reader scores queries by exact or prefix matching and memoises the results
under a canonical query key. Search results are ordered by a comparator. A
command-line parser turns arguments into flag/value pairs. A pretty JSON
writer lays out arrays, objects and the index. Two regular-expression
cleaners strip HTML tags and comments.

Layout, one module per source file:

| file | module | form |
|---|---|---|
| `inverted_index.dfy` | `InvertedIndexes` | the index as a value (`Index`), plus the class `InvertedIndex` whose methods update it in place |
| `word_count.dfy` | `WordCounts` | the count table as a value, plus the class `WordCount` |
| `mt_inverted_index.dfy` | `MTIndex` | the class `MTInvertedIndex` with merge and link-admission loops; `Admit` specifies the crawl loop |
| `query_reader.dfy` | `Queries` | query keys, matching and counting as functions; the class `QueryReader` with the `search` loops |
| `entry.dfy` | `Entries` | the result entry and its comparator (pure) |
| `argument_parser.dfy` | `Arguments` | the flag classifier and parse function, plus the class `ArgumentParser` |
| `pretty_json.dfy` | `PrettyJson` | a `Writer` buffer; each writer method is proved to append the text that a layout function describes |
| `html_cleaner.dfy` | `HtmlCleaner` | the two cleaners as left-to-right scanning functions |
| `strings.dfy`, `numbers.dfy`, `wrappers.dfy` | `Strings`, `Numbers`, `Wrappers` | `String.compareTo`, sorting a key set, joining; `Integer.toString`/`parseInt`, `Character.isDigit`/`isWhitespace`; `Option` |

Java `null` is modelled as `None`. An exception that the source lets escape
is also modelled as `None`. Maps that the source iterates in hash order are
given as inputs, either as a sequence or as a map whose key order does not
matter to the result.

## Model

All source paths are under `src/main/java/edu/usfca/cs272/`. They are written in full in the table.

| member | source | states |
|---|---|---|
| WordCounts.IncrementedSpec | src/main/java/edu/usfca/cs272/WordCount.java:37-51 | `increment(doc)` creates an absent document with count 1, adds exactly 1 to a present one, touches no other document, adds only `doc` as a key, and keeps every count at least 1 |
| WordCounts.IncrementedAllCounts | src/main/java/edu/usfca/cs272/WordCount.java:37-51 | starting from the empty table, a document is a key iff it was incremented, its count is the number of times it was, and every count is at least 1 |
| WordCounts.WordCount.constructor | src/main/java/edu/usfca/cs272/WordCount.java:27-30 | the table starts empty |
| WordCounts.WordCount.Increment | src/main/java/edu/usfca/cs272/WordCount.java:37-51 | the new table is `Incremented(old table, doc)`; all counts stay positive |
| WordCounts.WordCount.GetWordCount | src/main/java/edu/usfca/cs272/WordCount.java:56-59 | returns exactly the stored table, all of whose counts are at least 1 |
| InvertedIndexes.WithWordSpec | src/main/java/edu/usfca/cs272/InvertedIndex.java:140-143 | `add(word)` leaves an existing word's documents untouched, gives a new word an empty map, is idempotent, and adds only `word` as a key |
| InvertedIndexes.WithWordTotal | src/main/java/edu/usfca/cs272/InvertedIndex.java:140-143 | `add(word)` changes no document's position total |
| InvertedIndexes.WithPositionSpec | src/main/java/edu/usfca/cs272/InvertedIndex.java:152-168 | `add(word, doc, pos)` appends `pos` to the (word, doc) list and creates missing entries; every other word and document entry is unchanged; `doc`'s position total grows by exactly 1 and other totals stay the same |
| InvertedIndexes.ExtendsSteps | src/main/java/edu/usfca/cs272/InvertedIndex.java:140-168 | neither `add` removes a word, a document entry or a position |
| InvertedIndexes.ExtendsTransitive | src/main/java/edu/usfca/cs272/InvertedIndex.java:140-209 | "nothing removed" composes over any run of operations |
| InvertedIndexes.NonEmptyListsSteps | src/main/java/edu/usfca/cs272/InvertedIndex.java:140-168 | no operation leaves an empty position list |
| InvertedIndexes.UpdateWordTotal | src/main/java/edu/usfca/cs272/InvertedIndex.java:152-168 | replacing one word's document map changes a document's total by the change in that word's list |
| InvertedIndexes.OccurrencesSpec | src/main/java/edu/usfca/cs272/InvertedIndex.java:176-187 | the 1-based positions of a word in a list are strictly increasing, are exactly the `k` with `list[k-1] == word`, and there are as many as the word's multiplicity |
| InvertedIndexes.WithListTotal | src/main/java/edu/usfca/cs272/InvertedIndex.java:176-187 | `add(list, doc)` adds exactly `|list|` to `doc`'s total and nothing to other documents |
| InvertedIndexes.WithListExtends | src/main/java/edu/usfca/cs272/InvertedIndex.java:176-187 | `add(list, doc)` removes nothing and leaves no empty list |
| InvertedIndexes.WithListFresh | src/main/java/edu/usfca/cs272/InvertedIndex.java:176-187 | for a new document, the keys become the old words plus the list's words; each listed word's list for `doc` is exactly its occurrence positions; unlisted words are unchanged |
| InvertedIndexes.WithListFreshPositions | src/main/java/edu/usfca/cs272/InvertedIndex.java:176-187 | a new document's positions lie in 1..\|list\|, each word's list is strictly increasing, and the document's total becomes \|list\| |
| InvertedIndexes.InvertedIndex.constructor | src/main/java/edu/usfca/cs272/InvertedIndex.java:36-40 | an empty index with an empty count table, satisfying the invariant that counts equal position totals |
| InvertedIndexes.InvertedIndex.AddWord | src/main/java/edu/usfca/cs272/InvertedIndex.java:140-143 | the index becomes `WithWord(old, word)`; the invariant is kept |
| InvertedIndexes.InvertedIndex.Add | src/main/java/edu/usfca/cs272/InvertedIndex.java:152-168 | the index becomes `WithPosition(old, word, doc, pos)` and the counts `Incremented(old, doc)`, so each count stays equal to its document's position total |
| InvertedIndexes.InvertedIndex.AddList | src/main/java/edu/usfca/cs272/InvertedIndex.java:176-187 | the loop gives `list[i]` position `i + 1`; the index becomes `WithList(old, list, doc)` and `doc`'s count grows by \|list\| |
| InvertedIndexes.InvertedIndex.Get | src/main/java/edu/usfca/cs272/InvertedIndex.java:114-123 | `None` (null) exactly when the word is absent; otherwise the word's document map, with no empty lists |
| InvertedIndexes.InvertedIndex.Has | src/main/java/edu/usfca/cs272/InvertedIndex.java:217-221 | key membership |
| InvertedIndexes.InvertedIndex.HasDocument | src/main/java/edu/usfca/cs272/InvertedIndex.java:231-235 | requires the word to be present (the source dereferences `get(word)`); true iff the document is under the word |
| InvertedIndexes.InvertedIndex.Size | src/main/java/edu/usfca/cs272/InvertedIndex.java:92-95 | the number of words |
| InvertedIndexes.InvertedIndex.SizeOf | src/main/java/edu/usfca/cs272/InvertedIndex.java:103-106 | requires the word to be present; the number of its documents |
| InvertedIndexes.InvertedIndex.View | src/main/java/edu/usfca/cs272/InvertedIndex.java:130-133 | exactly the words |
| InvertedIndexes.InvertedIndex.GetSortedKeys | src/main/java/edu/usfca/cs272/InvertedIndex.java:77-85 | every word exactly once, strictly ascending, and nothing else |
| InvertedIndexes.InvertedIndex.GetWordCount | src/main/java/edu/usfca/cs272/InvertedIndex.java:67-70 | each count equals the document's total number of positions; a document has an entry iff that total is positive |
| InvertedIndexes.MergedSpec | src/main/java/edu/usfca/cs272/MTInvertedIndex.java:180-217 | after a merge the words are both key sets, fragment words without documents included; each (word, doc) list is the shared list followed by the fragment list; each document's total is the sum of both totals; nothing is removed |
| InvertedIndexes.PositionsOfMerge | src/main/java/edu/usfca/cs272/MTInvertedIndex.java:202-215 | merging one word's documents: a document is present iff it is in either map, and its list is the shared list followed by the fragment list |
| InvertedIndexes.MergeCommutes | src/main/java/edu/usfca/cs272/MTInvertedIndex.java:180-217 | merging two fragments about disjoint documents gives the same index in either order |
| InvertedIndexes.MergePostingsTwice | src/main/java/edu/usfca/cs272/MTInvertedIndex.java:202-215 | merging twice appends both fragment lists, in merge order |
| InvertedIndexes.MergeFreshFragment | src/main/java/edu/usfca/cs272/MTInvertedIndex.java:308-328 | indexing a new document in a private fragment and merging it gives the same index as adding its words directly |
| MTIndex.MergedEmpty | src/main/java/edu/usfca/cs272/MTInvertedIndex.java:180-217 | merging an empty fragment changes nothing |
| MTIndex.MTInvertedIndex.constructor | src/main/java/edu/usfca/cs272/MTInvertedIndex.java:53-59 | an empty shared index, the given budget, a crawl count of 0 and no listed or queued URLs |
| MTIndex.MTInvertedIndex.MergeWord | src/main/java/edu/usfca/cs272/MTInvertedIndex.java:189-216 | for one fragment word: adds the word, then appends each document's positions one `add` at a time; the word's map becomes the merge of old and fragment maps, and nothing else changes |
| MTIndex.MTInvertedIndex.Merge | src/main/java/edu/usfca/cs272/MTInvertedIndex.java:180-217 | the shared index becomes `Merged(old, fragment)` and each document's count grows by its fragment count |
| MTIndex.MTInvertedIndex.IndexDocument | src/main/java/edu/usfca/cs272/MTInvertedIndex.java:320-328 | a fresh fragment is filled with `add(list, url)` and merged; for a new document the result equals adding the list directly |
| MTIndex.MTInvertedIndex.AddHtml | src/main/java/edu/usfca/cs272/MTInvertedIndex.java:110-122 | the seed is queued, the crawl count becomes 1 and the seed is listed; from a fresh builder with a budget of at least 1 the crawl is bounded |
| MTIndex.AdmitAppends | src/main/java/edu/usfca/cs272/MTInvertedIndex.java:266-307 | the loop only appends: listed URLs and the queue grow by the same admitted links; the count grows by their number; each admitted link comes from the page and was not listed; with the budget spent nothing changes |
| MTIndex.AdmitKeepsBounded | src/main/java/edu/usfca/cs272/MTInvertedIndex.java:266-307 | from a bounded state (count = number listed ≤ budget, queue = list, no duplicates) the loop keeps the state bounded |
| MTIndex.AdmitComplete | src/main/java/edu/usfca/cs272/MTInvertedIndex.java:266-307 | if the budget was not reached, every link of the page ends up listed |
| MTIndex.MTInvertedIndex.AdmitLinks | src/main/java/edu/usfca/cs272/MTInvertedIndex.java:266-307 | the `while` loop with its `break` leaves the state `Admit(budget, old state, links)` and keeps it bounded |
| Queries.Matching | src/main/java/edu/usfca/cs272/QueryReader.java:119-122 | the index words matching a query word: equal in exact mode; in partial mode the pattern `(?m)^q.*` matches the whole word |
| Queries.WithoutSetPunctuation | src/main/java/edu/usfca/cs272/QueryReader.java:95-98 | removing commas and brackets leaves none and never lengthens the text |
| Queries.QueryKeyIsSortedWords | src/main/java/edu/usfca/cs272/QueryReader.java:95-98 | for words free of commas and brackets, the key is the sorted, duplicate-free words joined by single spaces |
| Queries.AddPostingsSpec | src/main/java/edu/usfca/cs272/QueryReader.java:128-135 | counting one word's documents adds each document's list length and creates entries only for its documents |
| Queries.EvaluateCount | src/main/java/edu/usfca/cs272/QueryReader.java:112-138 | a query's count for a document is the sum, over query words and matching index words, of the document's list length |
| Queries.ExactSingleWord | src/main/java/edu/usfca/cs272/QueryReader.java:122-135 | an exact one-word query counts exactly that word's positions in each document |
| Queries.EvaluateDocuments | src/main/java/edu/usfca/cs272/QueryReader.java:122-135 | a document gets an entry iff some index word matching some query word occurs in it |
| Queries.EvaluatePositive | src/main/java/edu/usfca/cs272/QueryReader.java:128-135 | over an index without empty lists, every stored count is at least 1 |
| Queries.PartialFindsExact | src/main/java/edu/usfca/cs272/QueryReader.java:122 | every document found in exact mode is found in partial mode |
| Queries.MemoisedKeys | src/main/java/edu/usfca/cs272/QueryReader.java:92-110 | after a search the memo's keys are the old keys plus every query's key |
| Queries.MemoisedKeeps | src/main/java/edu/usfca/cs272/QueryReader.java:101-104 | an entry already in the memo is never replaced |
| Queries.MemoisedStores | src/main/java/edu/usfca/cs272/QueryReader.java:101-110 | a query whose key is new, and not shared with an earlier query, stores its own counts |
| Queries.SearchSpec | src/main/java/edu/usfca/cs272/QueryReader.java:92-139 | after `search` every query's key is present; old entries are unchanged; a first-seen key holds `Evaluate` of its query |
| Queries.QueryReader.constructor | src/main/java/edu/usfca/cs272/QueryReader.java:34-37 | the memo starts empty |
| Queries.QueryReader.CountDocuments | src/main/java/edu/usfca/cs272/QueryReader.java:128-135 | the document loop yields `AddPostings(values, docs)` whatever the iteration order |
| Queries.QueryReader.ScanIndex | src/main/java/edu/usfca/cs272/QueryReader.java:116-136 | the loop over sorted index words yields `ScanWords` for the query word |
| Queries.QueryReader.EvaluateQuery | src/main/java/edu/usfca/cs272/QueryReader.java:113-137 | the loop over the query's words yields `Evaluate(index, query, partial)` |
| Queries.QueryReader.Search | src/main/java/edu/usfca/cs272/QueryReader.java:89-140 | the memo becomes `Memoised(old memo, requests)`: skip a known key, else store the query's counts |
| Entries.CompareTo | src/main/java/edu/usfca/cs272/Entry.java:40-61 | negative iff `a` precedes `b` (higher score, then higher count, then earlier document); positive iff `b` precedes `a`; zero iff the entries are equal |
| Entries.ScoreFirst | src/main/java/edu/usfca/cs272/Entry.java:42-49 | a higher score always sorts first |
| Entries.CountSecond | src/main/java/edu/usfca/cs272/Entry.java:50-57 | with equal scores, a higher count sorts first |
| Entries.DocumentLast | src/main/java/edu/usfca/cs272/Entry.java:60 | with equal score and count, the result is `String.compareTo` of the documents |
| Entries.CompareToAntisymmetric | src/main/java/edu/usfca/cs272/Entry.java:40-61 | swapping the arguments flips the sign |
| Entries.CompareToTransitive | src/main/java/edu/usfca/cs272/Entry.java:40-61 | the order is transitive |
| Entries.CompareToTotal | src/main/java/edu/usfca/cs272/Entry.java:40-61 | any two distinct entries are ordered one way |
| Entries.ToMap | src/main/java/edu/usfca/cs272/Entry.java:94-99 | the object has exactly the keys `count`, `score` and `where` |
| Entries.ToMapRoundTrip | src/main/java/edu/usfca/cs272/Entry.java:94-122 | the object maps the keys to count, score and document: it reads back to the same entry |
| Entries.ToMapKeyOrder | src/main/java/edu/usfca/cs272/Entry.java:96 | the `TreeMap` lists its keys as `count`, `score`, `where` |
| Strings.CompareZero | src/main/java/edu/usfca/cs272/Entry.java:60 | `String.compareTo` is zero iff the strings are equal |
| Strings.CompareAntisymmetric | src/main/java/edu/usfca/cs272/Entry.java:60 | `String.compareTo` flips sign when the arguments are swapped |
| Strings.LessIsStrictTotalOrder | src/main/java/edu/usfca/cs272/InvertedIndex.java:82 | string order, used by every sort, is a strict total order |
| Strings.SortedSeq | src/main/java/edu/usfca/cs272/InvertedIndex.java:77-85 | sorting a key set lists each key once, strictly ascending, and nothing else |
| Strings.SortedUnique | src/main/java/edu/usfca/cs272/PrettyJsonWriter.java:528-531 | a set has only one strictly ascending listing, so any sorted listing of the keys is the one written |
| Numbers.IsDigitBelowArabic | src/main/java/edu/usfca/cs272/ArgumentParser.java:56-75 | below U+0660, `Character.isDigit` holds exactly for `0`-`9` |
| Numbers.ParseIntToString | src/main/java/edu/usfca/cs272/ArgumentParser.java:264-283 | `Integer.parseInt` reads back any 32-bit value that `Integer.toString` wrote |
| Arguments.IsFlagExamples | src/main/java/edu/usfca/cs272/ArgumentParser.java:42-45 | `-hello` and `-@world` are flags; `-10` and `- hello` are not |
| Arguments.ParseKeys | src/main/java/edu/usfca/cs272/ArgumentParser.java:96-113 | parsing adds exactly the flags in the arguments; values never become keys |
| Arguments.ParseUntouched | src/main/java/edu/usfca/cs272/ArgumentParser.java:96-113 | a flag that does not occur keeps its old mapping or stays absent |
| Arguments.ParseLastWins | src/main/java/edu/usfca/cs272/ArgumentParser.java:96-113 | a flag maps to what follows its last occurrence: the next argument if it is a value, otherwise nothing |
| Arguments.NumFlagsCountsDistinctFlags | src/main/java/edu/usfca/cs272/ArgumentParser.java:120-124 | after parsing into an empty parser, `numFlags` is the number of distinct flags in the arguments |
| Arguments.ParseExample | src/main/java/edu/usfca/cs272/ArgumentParser.java:319-331 | the demonstration arguments parse to {-max=false, -min=-10, -verbose=null, -f=output.txt, -@debug=null} |
| Arguments.ArgumentParser.constructor | src/main/java/edu/usfca/cs272/ArgumentParser.java:23-26 | no flags |
| Arguments.ArgumentParser.FromArgs | src/main/java/edu/usfca/cs272/ArgumentParser.java:35-39 | the flags of parsing `args` into an empty parser |
| Arguments.ArgumentParser.Parse | src/main/java/edu/usfca/cs272/ArgumentParser.java:96-113 | the index loop skips a consumed value; the flags become `ParseFrom(old flags, args, 0)` |
| Arguments.ArgumentParser.NumFlags | src/main/java/edu/usfca/cs272/ArgumentParser.java:120-124 | the number of distinct flags held |
| Arguments.ArgumentParser.HasFlag | src/main/java/edu/usfca/cs272/ArgumentParser.java:132-137 | key membership |
| Arguments.ArgumentParser.HasValue | src/main/java/edu/usfca/cs272/ArgumentParser.java:145-156 | false iff the flag is absent or maps to null; implies `hasFlag` |
| Arguments.ArgumentParser.GetString | src/main/java/edu/usfca/cs272/ArgumentParser.java:187-197 | the value when the flag has one, otherwise null |
| Arguments.ArgumentParser.GetStringOr | src/main/java/edu/usfca/cs272/ArgumentParser.java:167-177 | a present value is returned with the map unchanged; otherwise `backup` (null included) is stored under the flag and returned |
| Arguments.ArgumentParser.GetIntegerOr | src/main/java/edu/usfca/cs272/ArgumentParser.java:264-283 | `backup` without a value; the parsed value when it parses; 0 when it does not; any 32-bit value written by `toString` reads back |
| Arguments.ArgumentParser.GetIntegerOrBackup | src/main/java/edu/usfca/cs272/ArgumentParser.java:252-263 | the documented `getInteger(flag, backup)`: the result differs from `backup` only when the flag's value parses, and then it is the parsed value |
| Arguments.GetIntegerOrIgnoresBackup | src/main/java/edu/usfca/cs272/ArgumentParser.java:264-283 | with `-threads` mapped to `many` and backup 5, the code returns 0 where the documentation promises 5 |
| Arguments.ArgumentParser.GetInteger | src/main/java/edu/usfca/cs272/ArgumentParser.java:296-306 | 0 without a value; otherwise `parseInt` of the value, `None` for its exception; any result is a 32-bit value |
| PrettyJson.IndentText | src/main/java/edu/usfca/cs272/PrettyJsonWriter.java:33-38 | two characters per level, none for a level ≤ 0 |
| PrettyJson.IndentTextSpaces | src/main/java/edu/usfca/cs272/PrettyJsonWriter.java:33-38 | the indentation is spaces only |
| PrettyJson.WriteIndent | src/main/java/edu/usfca/cs272/PrettyJsonWriter.java:33-38 | the `while (indent-- > 0)` loop appends exactly `IndentText(indent)` |
| PrettyJson.WriteIndented | src/main/java/edu/usfca/cs272/PrettyJsonWriter.java:48-52 | appends the indentation and then the element |
| PrettyJson.WriteQuote | src/main/java/edu/usfca/cs272/PrettyJsonWriter.java:63-69 | appends the indentation and the element between double quotes, unescaped |
| PrettyJson.ArrayTextShape | src/main/java/edu/usfca/cs272/PrettyJsonWriter.java:85-114 | an array of n numbers has n-1 commas (none when empty, none trailing) and n+1 newlines |
| PrettyJson.WriteArray | src/main/java/edu/usfca/cs272/PrettyJsonWriter.java:85-114 | appends `ArrayText`: `[`, newline, each number one level deeper joined by `,\n`, newline, indentation and `]`; an empty array is `[`, newline, indentation, `]` |
| PrettyJson.ObjectKeyIndent | src/main/java/edu/usfca/cs272/PrettyJsonWriter.java:272-281 | at indentation 0 the separate one-level indent plus the key equals the key quoted one level deeper |
| PrettyJson.WriteObject | src/main/java/edu/usfca/cs272/PrettyJsonWriter.java:252-304 | appends `ObjectText`: `"key": value` lines one level deeper in iteration order, with the same comma and empty-map rules |
| PrettyJson.NestedArraysAscending | src/main/java/edu/usfca/cs272/PrettyJsonWriter.java:525-534 | any strictly ascending listing of the keys gives the written text, whatever the map's order |
| PrettyJson.WriteNestedArrays | src/main/java/edu/usfca/cs272/PrettyJsonWriter.java:509-557 | appends `NestedArraysText`: each key, in ascending order, with its array one level deeper |
| PrettyJson.IndexTextEmpty | src/main/java/edu/usfca/cs272/PrettyJsonWriter.java:364-368 | the empty index is `{`, newline, indentation, `}` with no final newline |
| PrettyJson.IndexTextEnds | src/main/java/edu/usfca/cs272/PrettyJsonWriter.java:398-401 | a non-empty index ends with a newline, the indentation, `}` and one more newline |
| PrettyJson.WriteIndex | src/main/java/edu/usfca/cs272/PrettyJsonWriter.java:355-403 | appends `IndexText`: each word in ascending order with its documents' arrays one level deeper |
| HtmlCleaner.StripTags | src/main/java/edu/usfca/cs272/HtmlCleaner.java:40-48 | the output is a subsequence of the input and never longer |
| HtmlCleaner.TagEndFinds | src/main/java/edu/usfca/cs272/HtmlCleaner.java:46 | the scan removes a span at a position exactly when `<[^><]+>` matches there |
| HtmlCleaner.StripTagsUnchanged | src/main/java/edu/usfca/cs272/HtmlCleaner.java:40-48 | the text comes back unchanged iff no tag occurs in it |
| HtmlCleaner.NoOpenAngleUnchanged | src/main/java/edu/usfca/cs272/HtmlCleaner.java:46-47 | text without `<` comes back unchanged |
| HtmlCleaner.StripTagsExample | src/main/java/edu/usfca/cs272/HtmlCleaner.java:29-30 | `A<b>B</b>C` becomes `ABC` |
| HtmlCleaner.StripTagsNotIdempotent | src/main/java/edu/usfca/cs272/HtmlCleaner.java:40-48 | one pass can expose a new tag: `<<b>a>` becomes `<a>`, which a second pass empties |
| HtmlCleaner.StripComments | src/main/java/edu/usfca/cs272/HtmlCleaner.java:102-112 | the output is a subsequence of the input and never longer |
| HtmlCleaner.CommentEndFinds | src/main/java/edu/usfca/cs272/HtmlCleaner.java:110 | the scan removes a span at a position exactly when `<!--` starts there and a `-->` follows |
| HtmlCleaner.StripCommentsUnchanged | src/main/java/edu/usfca/cs272/HtmlCleaner.java:102-112 | the text comes back unchanged iff no terminated comment occurs in it |
| HtmlCleaner.UnterminatedUnchanged | src/main/java/edu/usfca/cs272/HtmlCleaner.java:110-111 | text with no `-->`, or with no `<!--`, comes back unchanged, so an unterminated `<!--` stays |
| HtmlCleaner.StripCommentsExample | src/main/java/edu/usfca/cs272/HtmlCleaner.java:78-82 | `A<!-- B -->C` becomes `AC` |
| HtmlCleaner.StripCommentsNewlineExample | src/main/java/edu/usfca/cs272/HtmlCleaner.java:84-91 | a comment spanning a newline goes as a whole: the second example also becomes `AC` |
| HtmlCleaner.StripCommentsLazy | src/main/java/edu/usfca/cs272/HtmlCleaner.java:110 | `.*?` is lazy: a comment ends at its nearest `-->`, and a later `-->` stays |

## Left out

- Concurrency: `ReadWriteLock`, `WorkQueue`, `ThreadSafeIndexedSet` and `MTQueryReader` are not modelled. The builder's merge and crawl loop are modelled as single-threaded steps.
- The race in `HtmlTask.run` is not modelled. The check `total_crawl < max_crawl` and the list lookup happen under the read lock, and the update under a separate write lock, so two threads can schedule the same URL or overrun the budget. `addHtml` also submits the seed before it sets `total_crawl` and lists the seed. The sequential model runs the seed's task after that initialisation.
- Static-field aliasing is not modelled. In the source the index maps and the query memo are `static`, and every constructor resets them. A per-task fragment therefore aliases the shared index. The model gives each object its own state, which is what the merge design evidently intends.
- `getKeys`, called by `merge`, is not in the source shown. It is taken to be the index's key set.
- The `add(List<Path>)` overloads, `Task` (file reading), `printJson` methods, `QueryReader.clean`, Driver, FileFinder and SearchEngineServer are file, network or UI code.
- WordCleaner is not part of this model. Page text reaches the builder as an already-stemmed word list (`IndexDocument`). Queries reach `search` as sets of stems.
- HtmlFetcher and LinkFinder are not part of this model. The links of a page are an input of `AdmitLinks`. URLs are strings.
- `stripEntities` (a foreign unescaping call), `stripElement`, `stripBlockElements` and `stripHtml` are not modelled. The case-insensitive lazy patterns of the last three are outside this model.
- `writeMap` is not modelled, and neither is the query-results overload of `writeDoubleNestedArrays`, because both format doubles with `%.8f`. `writeNestedObjects` prints to standard output and is also not modelled. The `Path` and `String`-returning overloads are I/O wrappers of the modelled writers. `toString` is not modelled.
- Entry getters are the datatype's fields, and its constructor is the datatype constructor. Scores are `real`, so NaN and double rounding are not modelled.
- Java `int` overflow is not modelled in counts, positions or `total_crawl`.
- `Strings.Compare`: it compares Unicode scalar values, while Java compares UTF-16 code units. The two differ only for characters outside the Basic Multilingual Plane.
- `Queries.Matches`: partial matching treats the query word as literal text. Regular-expression metacharacters in a query word are not interpreted.
- `Queries.QueryReader.Search`: the source puts the empty result map into the memo before counting, and the model stores it after counting. The final memo is the same.
- `PrettyJson.WriteObject`: a map's iteration order is an input sequence of entries. For a `HashMap` that order is not specified by the source.
- `MTIndex.MTInvertedIndex.Merge`: the fragment's words and documents are visited in an order the model picks. The result does not depend on that order.
- `Numbers.IsWhitespace` and `Numbers.IsDigit`: both follow Java's definitions for the Basic Multilingual Plane digit ranges and whitespace list. Supplementary-plane digits are not modelled.

## Findings

| source | as written | input that shows it | evidently intended | confidence | as-written member | corrected member |
|---|---|---|---|---|---|---|
| src/main/java/edu/usfca/cs272/ArgumentParser.java:264-283 | `getInteger(flag, backup)` catches the `NumberFormatException` and returns 0 | `-threads` mapped to `many`, backup 5: returns 0 | return `backup` when the value does not parse, as the method's documentation (lines 252-263) says | high; not executed | Arguments.GetIntegerOrIgnoresBackup | Arguments.ArgumentParser.GetIntegerOrBackup |
