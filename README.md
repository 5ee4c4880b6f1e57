# Search server, modelled in Dafny

This project models the core of a small full-text search engine: a
`SearchServer` class that stores documents with a rating and a status. It
keeps two indexes of them, word → (document → term frequency) and
document → (word → term frequency). It parses raw queries into plus and
minus words and ranks documents by TF-IDF, either sequentially or in four
parts ("parallel"), keeping the top five. It also reports which query
words one document matches.

Modules follow the source's structure:

- `StringProcessing`: `SplitIntoWords` and `MakeUniqueNonEmptyStrings`.
- `Words`: word validity, stop words and `SplitIntoWordsNoStop`.
- `Documents`: `Document`, `DocumentStatus` and the stored `DocumentData`.
- `Index`: the two indexes and what `AddDocument` and the removals do to
  them, on values; `ComputeAverageRating`.
- `Ordering`: the order `std::set`/`std::map` visit keys in,
  lexicographic string order, `std::sort` and `std::unique`.
- `QueryParser`: `ParseQueryWord` and `ParseQuery`.
- `Ranking`: `FindAllDocuments` (sequential and in four parts), the sort
  comparator and `FindTopDocuments` on a parsed query.
- `Matcher`: the steps of `MatchDocument`.
- `SearchServer`: the class, with `map`/`set` fields that its methods update.

Exceptions are results. `Error` is `InvalidArgument` (`std::invalid_argument`),
`OutOfRange` (`std::out_of_range` from `.at`) or `Terminated`. `Terminated`
is an exception that escapes an algorithm run under an execution policy,
which calls `std::terminate`.

The class keeps two invariants:

- `Consistent()` holds after every operation. The ids are the documents'
  keys, every forward entry belongs to a stored document, every inverted
  posting is a forward posting, and stop words are never indexed.
- `Valid()` adds the converse: the two indexes are transposes. The policy
  `RemoveDocument` and `AddDocument` keep it. The plain `RemoveDocument`
  breaks it (see Findings).

The source's `log`-based inverse document frequency is a parameter
`idf: (int, int) -> real`, applied to the document count and the row size.
Relevances are `real`.

Where the documented behaviour and the code disagree, the model follows the
code:

- Text is cut at every single space, so runs of spaces give empty tokens.
- The plain `RemoveDocument` erases the removed document's words' whole
  rows.
- `MatchDocument` looks the id up in the forward index, so a stored
  document whose words were all stop words makes it throw.
- A word may be both a plus and a minus word of one query.

## Model

| member | source | states |
|---|---|---|
| StringProcessing.Find | string_processing.cpp:59 | None exactly when the character is absent; otherwise the first index holding it |
| StringProcessing.SplitShape | string_processing.cpp:57-68 | splitting yields at least one token and no token holds a space |
| StringProcessing.SplitEmpty | string_processing.cpp:57-68 | the empty text splits into one empty token |
| StringProcessing.SplitCount | string_processing.cpp:58-67 | there is one token more than there are spaces |
| StringProcessing.JoinSplit | string_processing.cpp:53-71 | joining the tokens with single spaces restores the text |
| StringProcessing.SplitJoin | string_processing.cpp:53-71 | a non-empty list of space-free tokens is what splitting its join gives back |
| StringProcessing.SplitCons | string_processing.cpp:53-71 | a space-free word followed by a space is the first token, and the rest splits on its own |
| StringProcessing.SplitIntoWords | string_processing.cpp:53-71 | the loop that finds a space and drops the prefix returns Split(text) |
| StringProcessing.MakeUniqueNonEmptyStrings | string_processing.h:24-34 | no empty string in the result; every non-empty input is in it; everything in it was an input |
| StringProcessing.NonEmptyStringsIdempotent | string_processing.h:27-33 | building the set again from its own elements gives the same set |
| Words.WithoutStopWords | Search_server.cpp:126-128 | the kept tokens are exactly the tokens that are not stop words |
| Words.CountWithoutStopWords | Search_server.cpp:126-128 | dropping stop words keeps every occurrence of every other word |
| Words.CountPositive | Search_server.cpp:38-42 | a word occurs a positive number of times exactly when it is present |
| Words.SplitIntoWordsNoStop | Search_server.cpp:120-132 | invalid_argument exactly when some token holds a control character; otherwise the tokens that are not stop words, in order |
| Index.PartialFrequenciesAt | Search_server.cpp:38-42 | after the loop, each word's cell holds its occurrence count times 1/N, and only the words seen have cells |
| Index.PartialFrequenciesComplete | Search_server.cpp:38-42 | adding 1/N once per occurrence gives the term frequencies occurrences/N |
| Index.AddedFrequencies | Search_server.cpp:38-42 | after an add, the document's cell in each of its words' rows is occurrences/N, and no other row holds it |
| Index.InsertColumnKeepsTranspose | Search_server.cpp:38-42 | adding a new document's column keeps both halves of the transpose |
| Index.InsertColumnStep | Search_server.cpp:40 | one `+=` on the inverted index is one step of building the column |
| Index.InsertEmptyColumn | Search_server.cpp:37-42 | a document without words leaves the inverted index as it was |
| Index.EraseColumnKeepsTranspose | Search_server.h:320-327 | erasing a document from its words' rows and dropping its forward entry keeps both halves of the transpose |
| Index.EraseFromRowsKeepsOthers | Search_server.h:320-324 | erasing a document from rows leaves every other document's postings and rows as they were |
| Index.EraseFromRowsStep | Search_server.h:322 | erasing the document from one more row is one more step of the removal |
| Index.AddThenEraseRestoresPostings | Search_server.h:320-324 | adding a document and erasing it again restores every posting |
| Index.EraseRowsKeepsInvertedWithinForward | Search_server.cpp:100-104 | dropping whole rows keeps every remaining inverted posting a forward posting |
| Index.TruncatedDiv | Search_server.cpp:142 | C++ division: the remainder has the sign of the dividend and is smaller than the divisor |
| Index.ComputeAverageRating | Search_server.cpp:134-143 | 0 for no ratings; otherwise the sum over the count, truncated toward zero |
| Ordering.StrLessIrreflexive | Search_server.h:119-120 | no string precedes itself |
| Ordering.StrLessTransitive | Search_server.h:119-120 | lexicographic order is transitive |
| Ordering.StrLessTotal | Search_server.h:119-120 | of two different strings one precedes the other |
| Ordering.EmptyStringIsLeast | Search_server.h:355 | "" precedes every non-empty string |
| Ordering.NothingBeforeEmpty | Search_server.h:358-360 | nothing precedes "" |
| Ordering.StrLessAsymmetric | Search_server.h:355 | lexicographic order never holds both ways, as std::sort asks of its comparator |
| Ordering.SortedIds | Search_server.cpp:23-29 | the ids in ascending order, each once, exactly the set's elements |
| Ordering.SortedWords | Search_server.h:119-120 | the words in ascending order, each once, exactly the set's elements |
| Ordering.SortBy | Search_server.h:157-166 | an in-place sort: a permutation with no neighbour pair out of order |
| Ordering.Dedup | Search_server.h:356 | never longer than its input and ends with the same element |
| Ordering.DedupElements | Search_server.h:356-357 | dropping adjacent duplicates keeps the same elements |
| Ordering.DedupSortedIncreasing | Search_server.h:355-357 | dropping adjacent duplicates from a sorted sequence makes it strictly increasing |
| Ordering.Unique | Search_server.h:356-357 | std::unique in place: the prefix it returns is the input with adjacent duplicates dropped |
| QueryParser.ParseQueryWord | Search_server.cpp:145-160 | a parsed word is a valid query term that spells the token back, and is marked stop exactly when it is a stop word |
| QueryParser.ParseQueryWordRoundTrip | Search_server.cpp:145-160 | every spelling of a term, with or without '-', parses back to that term and sign |
| QueryParser.ParseQueryWordRejects | Search_server.cpp:145-160 | a token is rejected exactly when no term spells it: empty, bare '-', "--x" or a control character |
| QueryParser.ParsedQueryWords | Search_server.cpp:162-176 | plus words are the non-stop terms given bare, minus words the non-stop terms given behind '-' |
| QueryParser.PlusAndMinusMayOverlap | Search_server.cpp:162-176 | "w -w" puts w in both sets |
| QueryParser.ParseQuery | Search_server.cpp:162-176 | the parsing loop returns the query the text denotes, or invalid_argument at a rejected token |
| Ranking.RanksBeforeMeaning | Search_server.h:157-166 | higher relevance first; within 1e-6, higher rating first |
| Ranking.RanksBeforeAsymmetric | Search_server.h:157-166 | the comparator never holds both ways |
| Ranking.RanksBeforeCycles | Search_server.h:159-160 | the tie rule is not transitive: a ties with b and b with c but not a with c, and the three rank in a circle |
| Ranking.RelevanceRemove | Search_server.h:216-228 | relevance does not depend on the order the plus words are visited in |
| Ranking.RelevanceOutsideRows | Search_server.h:220-225 | words whose rows miss the document add nothing to its relevance |
| Ranking.AllDocumentsUnique | Search_server.h:238-243 | the search result is fully determined by the query and the index |
| Ranking.SomeSelected | Search_server.h:214-243 | a result is non-empty exactly when some document is selected |
| Ranking.NoPlusWordsNoDocuments | Search_server.h:216-237 | a query without plus words finds nothing |
| Ranking.AddRow | Search_server.h:220-225 | one row's pass adds tf·idf to exactly the ids the filter accepts |
| Ranking.AccumulateWord | Search_server.h:218-226 | one plus word adds its row's admitted ids with their terms |
| Ranking.AccumulatedStep | Search_server.h:216-228 | one more plus word keeps the accumulator equal to the sum over the words done |
| Ranking.AccumulateWords | Search_server.h:278-291 | a part of the plus words adds exactly their terms |
| Ranking.EraseMinusWords | Search_server.h:229-237 | the ids of every minus row leave the accumulator and nothing else changes |
| Ranking.EraseIds | Search_server.h:232-234 | erasing each id of a row leaves exactly the other ids, with their values |
| Ranking.MinusIds | Search_server.h:251-264 | the ids of the minus rows, exactly |
| Ranking.ToDocuments | Search_server.h:238-243 | the accumulator in ascending id order, each with its stored rating |
| Ranking.AccumulatedIsAll | Search_server.h:238-243 | the finished accumulator read out is the search result |
| Ranking.FindAllDocuments | Search_server.h:211-244 | every selected document once, ascending by id, with its relevance and rating, and nothing else |
| Ranking.PartsCover | Search_server.h:268-275 | the four parts tile the plus words: the last ends at the end |
| Ranking.AsWrittenPartBoundsOverrun | Search_server.h:274-275 | the loop header's bounds match the parts, but after the last part it steps past the end once there are at least four words |
| Ranking.FindAllDocumentsParallel | Search_server.h:247-305 | minus ids first, then four parts: the same result as the sequential search |
| Ranking.ExcludedAreMinus | Search_server.h:284-286 | skipping the minus ids while accumulating selects what erasing them afterwards does |
| Ranking.NotBeforeTransitive | Search_server.h:157-166 | where ties are transitive among three documents, "not ranked before" is transitive |
| Ranking.TiesTransitiveIsStrictWeak | Search_server.h:157-166 | candidates whose ties are transitive are ordered by RanksBefore as a strict weak order, the comparator std::sort demands |
| Ranking.StrictWeakWithoutTransitiveTies | Search_server.h:159-165 | three documents whose ties are not transitive on which RanksBefore is still a strict order, so transitive ties are sufficient for a defined sort but not necessary |
| Ranking.AdjacentOrderedIsOrdered | Search_server.h:157-166 | where RanksBefore is a strict weak order, no neighbour pair out of order means no pair out of order |
| Ranking.TopDocuments | Search_server.h:157-170 | min(5, n) of the candidates, as a sub-multiset, all of them when n ≤ 5; the start of a permutation of all candidates with no neighbour pair out of order; where RanksBefore is a strict weak order on the candidates (in particular where ties are transitive), none left out ranks before one kept |
| Ranking.SortedPrefixIsTop | Search_server.h:168-170 | where RanksBefore is a strict weak order, none of the rest of a permutation with no neighbour pair out of order ranks before its first k |
| Ranking.SortedPrefixNoneBetter | Search_server.h:157-170 | the start of a sorted permutation of the candidates is a top-k wherever RanksBefore is a strict weak order on them |
| Ranking.FindTopDocuments | Search_server.h:150-202 | at most 5 found documents, each once, with relevance and rating; the start of a permutation of all found documents with no neighbour pair out of order; all of them when fewer; where ties among the found relevances are transitive, none left out ranks before one returned |
| Ranking.TopOfAll | Search_server.h:150-202 | sorting and truncating the search result gives the top documents |
| Matcher.WalkMinusWords | Search_server.h:339-345 | terminates exactly when a minus word without a row comes before every minus row holding the document; otherwise excluded exactly when some minus row holds it |
| Matcher.CollectPlusWords | Search_server.h:346-357 | terminates exactly when a plus word has no row; otherwise strictly increasing, the matched words plus "" exactly when some word did not match, empty only without plus words |
| Matcher.NotAllMatched | Search_server.h:346-353 | fewer words are copied than there are plus words exactly when one did not match |
| Matcher.PlusWordsNonEmpty | Search_server.cpp:155-159 | plus words are never empty strings |
| Matcher.EmptyComesFirst | Search_server.h:358-360 | in an ascending list "" can only stand first, and only once |
| Matcher.MatchIndexed | Search_server.h:330-362 | each outcome of MatchDocument, in the order the code meets them |
| Matcher.MatchMeansSelected | Search_server.h:339-361 | a successful match lists a word exactly when the unfiltered search would find the document |
| Matcher.StopWordQueryIsEmpty | Search_server.cpp:162-176 | a query of one stop word has neither plus nor minus words |
| Matcher.StopWordQueryMatch | Search_server.h:358 | as written, such a query makes MatchDocument throw out_of_range; with the guard it matches nothing |
| SearchServer.StatusIsSelects | Search_server.cpp:50-54 | the status filter selects exactly the documents with that status that the query's words select |
| SearchServer.AddKeepsConsistent | Search_server.cpp:31-45 | storing a new document keeps the invariant and the transpose |
| SearchServer.PlainRemoveLosesPostings | Search_server.cpp:100-102 | erasing whole rows loses the postings of every other document sharing a word |
| SearchServer.PlainRemoveExample | Search_server.cpp:100-102 | two documents sharing "cat": transposed before, not after |
| SearchServer.SearchServer.Default | Search_server.h:27 | no stop words and nothing stored |
| SearchServer.SearchServer.FromStopWords | Search_server.h:141-148 | a server with the given checked stop words and nothing stored |
| SearchServer.SearchServer.Create | Search_server.h:141-148 | invalid_argument exactly when a stop word holds a control character; otherwise the distinct non-empty strings become the stop words and the inverted index, the forward index, the store and the ids are all empty |
| SearchServer.SearchServer.CreateFromText | Search_server.cpp:17-21 | invalid_argument exactly when a token holds a control character; otherwise the stop words are the non-empty space-separated tokens of the text and all four containers are empty |
| SearchServer.SearchServer.GetDocumentCount | Search_server.cpp:75-77 | the number of stored ids |
| SearchServer.SearchServer.DocumentIds | Search_server.cpp:23-29 | the stored ids in ascending order |
| SearchServer.SearchServer.AddDocument | Search_server.cpp:31-45 | invalid_argument, with nothing changed, exactly for a negative or known id or an invalid word; otherwise the document is stored with its average rating, the count rises by one, both indexes gain its term frequencies, and the invariants hold |
| SearchServer.SearchServer.IndexWords | Search_server.cpp:38-42 | the loop fills both indexes with the term frequencies, leaving them untouched for no words |
| SearchServer.SearchServer.GetWordFrequencies | Search_server.cpp:84-90 | empty for an unknown id, out_of_range for a stored document without words, else the forward entry, which on transposed indexes is exactly the document's postings |
| SearchServer.SearchServer.RemoveDocument | Search_server.cpp:92-105 | no-op for an unknown id; otherwise the document leaves the store, then out_of_range without a forward entry, else its words' whole rows and its forward entry go |
| SearchServer.SearchServer.RemoveDocumentByPolicy | Search_server.h:307-328 | no-op for an unknown id; out_of_range without a forward entry; termination when a forward word has no row; it succeeds exactly otherwise, and then the document is erased from its words' rows and from the store, keeping the transpose |
| SearchServer.SearchServer.EraseRows | Search_server.h:320-324 | the inverted index with the id erased from the row of each given word; nothing else changes |
| SearchServer.RemoveKeepsConsistent | Search_server.h:320-327 | erasing a stored document from its rows and from the other three containers keeps the invariant and the transpose |
| SearchServer.SearchServer.FindTopDocuments | Search_server.h:150-202 | invalid_argument exactly when the query does not parse; otherwise the top documents for it, as Ranking.FindTopDocuments states them |
| SearchServer.SearchServer.FindTopDocumentsByStatus | Search_server.cpp:50-65 | the same, among the documents with the given status |
| SearchServer.SearchServer.FindTopDocumentsActual | Search_server.cpp:47-73 | the same, among the actual documents |
| SearchServer.SearchServer.MatchDocument | Search_server.h:330-362 | out_of_range without a forward entry, invalid_argument for a bad query, the minus walk's outcome, termination for a plus word without a row, out_of_range without plus words, else the matched words ascending with the status |
| SearchServer.SearchServer.MatchDocumentChecked | Search_server.h:358-360 | as MatchDocument, except that a query without plus words matches no word |

## Left out

- Concurrency. `ConcurrentMap` (concurrent_map.h is not part of this model),
  `std::async`, futures and the execution policies of `for_each`,
  `transform`, `any_of`, `copy_if`, `sort` and `unique` are modelled by
  their sequential meaning.
- Matcher.WalkMinusWords: the model visits the minus words in ascending
  order for every execution policy. Under `std::execution::par`, `any_of`
  may visit them in any order, so when one minus word has no row and
  another minus row holds the document, the parallel outcome can differ.
- SearchServer.SearchServer.RemoveDocumentByPolicy: a forward word without a
  row ends the process once some rows were already changed. The model
  checks for that word before changing anything, because the state after
  `std::terminate` is never seen. The same holds for the `Terminated`
  outcomes of the matcher.
- Floating point. `log` in the inverse document frequency is the parameter
  `idf` (Search_server.cpp:178-180). `double` sums are exact `real` sums, so
  the sequential and parallel searches agree exactly.
- SearchServer.SearchServer.IndexWords: for a document without words the
  source divides by zero, getting infinity. The model uses 0 instead. The
  loop never runs in that case, so nothing is stored either way.
- 32-bit `int`: ratings, their sum and document ids are unbounded integers,
  and overflow of the rating sum is not modelled. A negative id is handled
  as the source does: it is rejected by AddDocument and ignored by the
  removals.
- Text is a sequence of Dafny `char`s, not bytes. In the source `char` is
  signed, so bytes from 0x80 fail the `c >= '\0'` test and are valid. A
  code point above ' ' is valid in the model too, so the same words are
  rejected.
- C++ lifetimes. The forward index keys are `string_view`s into the
  caller's text. `GetWordFrequencies` returns a reference to a local map for
  an unknown id, which dangles. The model returns values.
- log_duration.h (timing output) and process_queries.cpp (batch queries
  over the ranking interface) are I/O and a thin consumer. They are not
  part of this model.
- Ordering.SortBy: `std::sort` requires a strict weak order. RanksBefore is
  not one on every set of candidates (Ranking.RanksBeforeCycles), and where
  "not ranked before" fails to be transitive among the candidates, as in
  that triple, the sorts at Search_server.h:157 and :187 are undefined in
  C++. The model gives insertion sort's outcome everywhere: a permutation
  with no neighbour pair out of order.
- Ranking.TopDocuments: it promises that nothing left out ranks before
  anything kept where RanksBefore is a strict weak order on the candidates
  (Ranking.StrictWeakOn, exactly where the C++ sort is defined). Transitive
  ties are one sufficient condition for that
  (Ranking.TiesTransitiveIsStrictWeak), not a necessary one
  (Ranking.StrictWeakWithoutTransitiveTies). Everywhere it
  promises the start of a permutation with no neighbour pair out of order.
- Ranking.FindTopDocuments: the "none better left out" conjunct of
  TopDocumentsOf is stated where ties are transitive among the found
  relevances. Its sorted-prefix conjunct holds unconditionally, and
  Ranking.SortedPrefixNoneBetter derives "none better left out" from it
  wherever RanksBefore is a strict weak order on the found documents.
- SearchServer.SearchServer.FindTopDocuments: carries the condition of
  Ranking.FindTopDocuments.
- SearchServer.SearchServer.FindTopDocumentsByStatus: carries the condition
  of Ranking.FindTopDocuments.
- SearchServer.SearchServer.FindTopDocumentsActual: carries the condition of
  Ranking.FindTopDocuments.
- `begin`/`end`: the iterators are modelled by DocumentIds, the ids in the
  order they visit them.

## Findings

| source | as written | input that shows it | evidently intended | confidence | as-written member | corrected member |
|---|---|---|---|---|---|---|
| Search_server.cpp:100-102 | the plain RemoveDocument erases the whole inverted row of every word of the removed document | documents 1 and 2 both containing "cat"; remove 1: document 2 is no longer found for "cat" | erase only the removed id from those rows, as the policy version does | not executed | SearchServer.PlainRemoveLosesPostings | SearchServer.SearchServer.RemoveDocumentByPolicy |
| Search_server.h:358 | `matched_words.at(0)` is read even when the vector is empty | a query made only of stop words (or only of minus words that miss the document): no plus words, so the vector has size 0 and `.at(0)` throws out_of_range | an empty match list with the document's status | not executed | Matcher.StopWordQueryMatch | SearchServer.SearchServer.MatchDocumentChecked |
| Search_server.h:274-275 | after the fourth part the loop header computes `next(end(), part_length)` | a query with at least four plus words: part_length ≥ 1 and the iterator is advanced past end(), which is undefined | stop after the fourth part, whose end is end() | not executed | Ranking.AsWrittenPartBoundsOverrun | Ranking.PartsCover |
