/** The search server: its stop words, its two indexes, its documents and
    their ids, and the operations on them. */
module SearchServer {
  import opened Errors
  import opened StringProcessing
  import opened Words
  import opened Documents
  import opened Ordering
  import opened QueryParser
  import opened Index
  import opened Ranking
  import opened Matcher

  /** Search_server.cpp:47-73: the filter of the status overloads. */
  function StatusIs(status: DocumentStatus): DocumentPredicate
  {
    (id: nat, documentStatus: DocumentStatus, rating: int) => documentStatus == status
  }

  /** Under the status filter a document is found exactly when it has that
      status and the query's words select it. */
  lemma StatusIsSelects(inv: InvertedIndex, docs: map<nat, DocumentData>, status: DocumentStatus, query: Query, id: nat)
    ensures Selected(inv, docs, StatusIs(status), query, id)
        <==> (&& id in docs && docs[id].status == status
              && (exists w :: w in query.plusWords && InRowOf(inv, w, id))
              && !(exists w :: w in query.minusWords && InRowOf(inv, w, id)))
  {
  }

  /** The stop words a server can hold: non-empty and valid. */
  ghost predicate ValidStopWords(stopWords: set<string>)
  {
    forall w :: w in stopWords ==> w != "" && IsValidWord(w)
  }

  /** The invariant of the server's state, on values: the ids are the
      documents' keys, every forward entry belongs to a document, every
      inverted posting is a forward posting, and no stop word is indexed. */
  ghost predicate ConsistentIndexes(stopWords: set<string>, inv: InvertedIndex, docs: map<nat, DocumentData>,
                                    ids: set<nat>, fwd: ForwardIndex)
  {
    && ValidStopWords(stopWords)
    && docs.Keys == ids
    && fwd.Keys <= ids
    && InvertedWithinForward(inv, fwd)
    && (forall w :: w in inv ==> w !in stopWords)
    && (forall id, w :: id in fwd && w in fwd[id] ==> w !in stopWords)
  }

  /** Storing a new document with words that are not stop words keeps the
      invariant, and keeps the transpose. */
  lemma AddKeepsConsistent(stopWords: set<string>, inv: InvertedIndex, docs: map<nat, DocumentData>,
                           ids: set<nat>, fwd: ForwardIndex, id: nat, words: seq<string>, data: DocumentData)
    requires ConsistentIndexes(stopWords, inv, docs, ids, fwd)
    requires id !in ids
    requires forall w :: w in words ==> w !in stopWords
    ensures |words| > 0 ==>
              ConsistentIndexes(stopWords, InsertColumn(inv, id, TermFrequencies(words)), docs[id := data], ids + {id},
                                fwd[id := TermFrequencies(words)])
    ensures |words| > 0 && ForwardWithinInverted(inv, fwd) ==>
              ForwardWithinInverted(InsertColumn(inv, id, TermFrequencies(words)), fwd[id := TermFrequencies(words)])
    ensures |words| == 0 ==> ConsistentIndexes(stopWords, inv, docs[id := data], ids + {id}, fwd)
  {
    if |words| > 0 {
      InsertColumnKeepsTranspose(inv, fwd, id, TermFrequencies(words));
    }
  }

  /** Erasing a stored document from the rows of its words and from the
      other three containers keeps the invariant, and keeps the transpose. */
  lemma RemoveKeepsConsistent(stopWords: set<string>, inv: InvertedIndex, docs: map<nat, DocumentData>,
                              ids: set<nat>, fwd: ForwardIndex, id: nat)
    requires ConsistentIndexes(stopWords, inv, docs, ids, fwd)
    requires id in fwd
    ensures ConsistentIndexes(stopWords, EraseFromRows(inv, id, fwd[id].Keys), docs - {id}, ids - {id}, fwd - {id})
    ensures ForwardWithinInverted(inv, fwd) ==> ForwardWithinInverted(EraseFromRows(inv, id, fwd[id].Keys), fwd - {id})
  {
    EraseColumnKeepsTranspose(inv, fwd, id);
  }

  /** Dropping the whole rows of a removed document's words also drops the
      postings other documents have in those rows: once another document
      shares a word, the forward index keeps a posting the inverted index
      has lost. */
  lemma PlainRemoveLosesPostings(inv: InvertedIndex, fwd: ForwardIndex, id: nat, other: nat, w: string)
    requires ForwardWithinInverted(inv, fwd)
    requires id in fwd && w in fwd[id]
    requires other != id && other in fwd && w in fwd[other]
    ensures !ForwardWithinInverted(inv - fwd[id].Keys, fwd - {id})
    ensures !InRowOf(inv - fwd[id].Keys, w, other)
  {
    var rest := fwd - {id};
    assert other in rest && w in rest[other];
    assert w !in inv - fwd[id].Keys;
  }

  /** Two documents sharing the word "cat": a transposed pair of indexes on
      which the plain removal of document 1 loses document 2's posting. */
  lemma PlainRemoveExample()
    ensures var inv := map["cat" := map[1 := 0.5, 2 := 1.0]];
            var fwd := map[1 := map["cat" := 0.5], 2 := map["cat" := 1.0]];
            && Transposed(inv, fwd)
            && !ForwardWithinInverted(inv - fwd[1].Keys, fwd - {1})
  {
    var inv := map["cat" := map[1 := 0.5, 2 := 1.0]];
    var fwd := map[1 := map["cat" := 0.5], 2 := map["cat" := 1.0]];
    PlainRemoveLosesPostings(inv, fwd, 1, 2, "cat");
  }

  class SearchServer {
    const stopWords: set<string>
    var wordToDocumentFreqs: InvertedIndex
    var documents: map<nat, DocumentData>
    var documentIds: set<nat>
    var documentToWordFreqs: ForwardIndex

    /** What every operation keeps: the ids are the documents' keys, every
        forward entry belongs to a document, every inverted posting is a
        forward posting, and no stop word is indexed. */
    ghost predicate Consistent()
      reads this
    {
      ConsistentIndexes(stopWords, wordToDocumentFreqs, documents, documentIds, documentToWordFreqs)
    }

    /** Consistent, and the two indexes are transposes of each other: what
        every operation except the plain RemoveDocument keeps. */
    ghost predicate Valid()
      reads this
    {
      Consistent() && ForwardWithinInverted(wordToDocumentFreqs, documentToWordFreqs)
    }

    /** Search_server.h:27: no stop words, nothing stored. */
    constructor Default()
      ensures stopWords == {}
      ensures wordToDocumentFreqs == map[] && documents == map[] && documentIds == {} && documentToWordFreqs == map[]
      ensures Valid()
    {
      stopWords := {};
      wordToDocumentFreqs := map[];
      documents := map[];
      documentIds := {};
      documentToWordFreqs := map[];
    }

    /** A server with the given, already checked, stop words. */
    constructor FromStopWords(words: set<string>)
      requires ValidStopWords(words)
      ensures stopWords == words
      ensures wordToDocumentFreqs == map[] && documents == map[] && documentIds == {} && documentToWordFreqs == map[]
      ensures Valid()
    {
      stopWords := words;
      wordToDocumentFreqs := map[];
      documents := map[];
      documentIds := {};
      documentToWordFreqs := map[];
    }

    /** Search_server.h:141-148: the stop words are the distinct non-empty
        strings of the container; invalid_argument when one of them holds a
        control character. */
    static method Create(container: seq<string>) returns (r: Result<SearchServer>)
      ensures r.Failure? <==> exists w :: w in container && !IsValidWord(w)
      ensures r.Failure? ==> r.error == InvalidArgument
      ensures r.Success? ==> fresh(r.value) && r.value.Valid()
      ensures r.Success? ==> r.value.stopWords == NonEmptyStrings(container)
      ensures r.Success? ==> && r.value.wordToDocumentFreqs == map[] && r.value.documents == map[]
                             && r.value.documentIds == {} && r.value.documentToWordFreqs == map[]
    {
      var words := MakeUniqueNonEmptyStrings(container);
      assert words == NonEmptyStrings(container);
      if exists w :: w in words && !IsValidWord(w) {
        return Failure(InvalidArgument);
      }
      var server := new SearchServer.FromStopWords(words);
      return Success(server);
    }

    /** Search_server.cpp:17-21: the stop words are the space-separated
        tokens of a text. */
    static method CreateFromText(text: string) returns (r: Result<SearchServer>)
      ensures r.Failure? <==> exists w :: w in Split(text) && !IsValidWord(w)
      ensures r.Failure? ==> r.error == InvalidArgument
      ensures r.Success? ==> fresh(r.value) && r.value.Valid()
      ensures r.Success? ==> r.value.stopWords == NonEmptyStrings(Split(text))
      ensures r.Success? ==> && r.value.wordToDocumentFreqs == map[] && r.value.documents == map[]
                             && r.value.documentIds == {} && r.value.documentToWordFreqs == map[]
    {
      var tokens := SplitIntoWords(text);
      r := Create(tokens);
    }

    /** Search_server.cpp:75-77. */
    function GetDocumentCount(): (n: nat)
      reads this
      ensures Consistent() ==> n == |documentIds|
    {
      |documents|
    }

    /** Search_server.cpp:23-29: the ids in the order begin() to end()
        visits them. */
    method DocumentIds() returns (ids: seq<nat>)
      ensures forall i, j :: 0 <= i < j < |ids| ==> ids[i] < ids[j]
      ensures forall id :: id in ids <==> id in documentIds
    {
      ids := SortedIds(documentIds);
    }

    /** Search_server.cpp:31-45. A negative or known id, or a word with a
        control character, throws invalid_argument before anything is
        written. Otherwise every non-stop word adds 1/N to its cell in both
        indexes, N being the number of non-stop words, and the document is
        stored with its average rating and status. A document with no
        non-stop words gets no forward entry. */
    method AddDocument(documentId: int, document: string, status: DocumentStatus, ratings: seq<int>)
      returns (outcome: Outcome)
      requires Consistent()
      modifies this
      ensures Consistent()
      ensures old(Valid()) ==> Valid()
      ensures outcome.Fail? <==> (|| documentId < 0 || documentId in old(documentIds)
                                  || exists w :: w in Split(document) && !IsValidWord(w))
      ensures outcome.Fail? ==> outcome.error == InvalidArgument
      ensures outcome.Fail? ==> unchanged(this)
      ensures outcome.Pass? ==>
                var id := documentId as nat;
                var words := WithoutStopWords(stopWords, Split(document));
                && documents == old(documents)[id := DocumentData(AverageRating(ratings), status)]
                && documentIds == old(documentIds) + {id}
                && GetDocumentCount() == old(GetDocumentCount()) + 1
                && (|words| == 0 ==> (&& documentToWordFreqs == old(documentToWordFreqs)
                                      && wordToDocumentFreqs == old(wordToDocumentFreqs)))
                && (|words| > 0 ==> (&& documentToWordFreqs == old(documentToWordFreqs)[id := TermFrequencies(words)]
                                     && wordToDocumentFreqs == InsertColumn(old(wordToDocumentFreqs), id, TermFrequencies(words))))
    {
      if documentId < 0 || documentId in documents {
        return Fail(InvalidArgument);
      }
      var id := documentId as nat;
      var split := SplitIntoWordsNoStop(stopWords, document);
      if split.Failure? {
        return Fail(split.error);
      }
      var words := split.value;
      ghost var inv0 := wordToDocumentFreqs;
      ghost var fwd0 := documentToWordFreqs;
      assert forall w :: w in words ==> w !in stopWords;
      IndexWords(id, words);
      AddKeepsConsistent(stopWords, inv0, documents, documentIds, fwd0, id, words,
                         DocumentData(AverageRating(ratings), status));
      var rating := ComputeAverageRating(ratings);
      documents := documents[id := DocumentData(rating, status)];
      documentIds := documentIds + {id};
      return Pass;
    }
  
    /** Search_server.cpp:38-42: add 1/N to the cell of document id and
        each of its words in both indexes, once per occurrence. */
    method IndexWords(id: nat, words: seq<string>)
      requires id !in documentToWordFreqs
      requires forall w :: w in wordToDocumentFreqs ==> id !in wordToDocumentFreqs[w]
      modifies this
      ensures |words| == 0 ==> (&& documentToWordFreqs == old(documentToWordFreqs)
                                && wordToDocumentFreqs == old(wordToDocumentFreqs))
      ensures |words| > 0 ==> (&& documentToWordFreqs == old(documentToWordFreqs)[id := TermFrequencies(words)]
                               && wordToDocumentFreqs == InsertColumn(old(wordToDocumentFreqs), id, TermFrequencies(words)))
      ensures documents == old(documents) && documentIds == old(documentIds)
    {
      var invWordCount := if |words| == 0 then 0.0 else 1.0 / |words| as real;
      ghost var inv0 := wordToDocumentFreqs;
      ghost var fwd0 := documentToWordFreqs;
      for k := 0 to |words|
        invariant wordToDocumentFreqs == InsertColumn(inv0, id, PartialFrequencies(words[..k], invWordCount))
        invariant k == 0 ==> documentToWordFreqs == fwd0
        invariant k > 0 ==> documentToWordFreqs == fwd0[id := PartialFrequencies(words[..k], invWordCount)]
        invariant documents == old(documents) && documentIds == old(documentIds)
      {
        var word := words[k];
        var row: map<nat, real> := RowOf(wordToDocumentFreqs, word);
        var cell := if id in row then row[id] else 0.0;
        var entry: map<string, real> := if id in documentToWordFreqs then documentToWordFreqs[id] else map[];
        var value := if word in entry then entry[word] else 0.0;
        InvertedWordStep(inv0, id, words, k, invWordCount, wordToDocumentFreqs, row, cell);
        ForwardWordStep(fwd0, id, words, k, invWordCount, documentToWordFreqs, entry, value);
        wordToDocumentFreqs := wordToDocumentFreqs[word := row[id := cell + invWordCount]];
        documentToWordFreqs := documentToWordFreqs[id := entry[word := value + invWordCount]];
      }
      assert words[..|words|] == words;
      if |words| > 0 {
        PartialFrequenciesComplete(words);
      } else {
        InsertEmptyColumn(inv0, id);
      }
    }
  
    /** Search_server.cpp:84-90: the forward entry of a stored document; an
        empty map for an id that is not stored; out_of_range from `.at` for
        a stored document without a forward entry. On transposed indexes the
        entry says exactly which rows hold the document, with the same
        frequencies. */
    function GetWordFrequencies(documentId: int): (r: Result<map<string, real>>)
      reads this
      ensures (documentId < 0 || documentId !in documentIds) ==> r == Success(map[])
      ensures documentId >= 0 && documentId in documentIds ==> (r.Failure? <==> documentId !in documentToWordFreqs)
      ensures r.Failure? ==> r.error == OutOfRange
      ensures Valid() && documentId >= 0 && r.Success? ==>
                forall w :: (&& (w in r.value <==> InRowOf(wordToDocumentFreqs, w, documentId as nat))
                             && (w in r.value ==> r.value[w] == wordToDocumentFreqs[w][documentId as nat]))
    {
      if documentId < 0 || documentId !in documentIds then Success(map[])
      else if documentId !in documentToWordFreqs then Failure(OutOfRange)
      else Success(documentToWordFreqs[documentId])
    }

    /** Search_server.cpp:92-105. An unknown id is ignored. Otherwise the
        document and its id are erased first; `.at` then throws out_of_range
        when it has no forward entry; else every row of its words is erased
        outright, and with it the forward entry. */
    method RemoveDocument(documentId: int) returns (outcome: Outcome)
      requires Consistent()
      modifies this
      ensures Consistent()
      ensures (documentId < 0 || documentId !in old(documentIds)) ==> outcome == Pass && unchanged(this)
      ensures documentId >= 0 && documentId in old(documentIds) ==>
                var id := documentId as nat;
                && documents == old(documents) - {id}
                && documentIds == old(documentIds) - {id}
                && (outcome.Fail? <==> id !in old(documentToWordFreqs))
                && (outcome.Fail? ==> (&& outcome.error == OutOfRange
                                       && wordToDocumentFreqs == old(wordToDocumentFreqs)
                                       && documentToWordFreqs == old(documentToWordFreqs)))
                && (outcome.Pass? ==> (&& wordToDocumentFreqs == old(wordToDocumentFreqs) - old(documentToWordFreqs)[id].Keys
                                       && documentToWordFreqs == old(documentToWordFreqs) - {id}))
    {
      if documentId < 0 || documentId !in documentIds {
        return Pass;
      }
      var id := documentId as nat;
      documents := documents - {id};
      documentIds := documentIds - {id};
      if id !in documentToWordFreqs {
        return Fail(OutOfRange);
      }
      var words := SortedWords(documentToWordFreqs[id].Keys);
      ghost var inv0 := wordToDocumentFreqs;
      for k := 0 to |words|
        invariant forall w :: w in wordToDocumentFreqs <==> w in inv0 && w !in words[..k]
        invariant forall w :: w in wordToDocumentFreqs ==> wordToDocumentFreqs[w] == inv0[w]
        invariant documents == old(documents) - {id} && documentIds == old(documentIds) - {id}
        invariant documentToWordFreqs == old(documentToWordFreqs)
      {
        assert words[..k + 1] == words[..k] + [words[k]];
        wordToDocumentFreqs := wordToDocumentFreqs - {words[k]};
      }
      assert words[..|words|] == words;
      assert wordToDocumentFreqs == inv0 - documentToWordFreqs[id].Keys;
      EraseRowsKeepsInvertedWithinForward(inv0, documentToWordFreqs, id);
      documentToWordFreqs := documentToWordFreqs - {id};
      return Pass;
    }

    /** Search_server.h:307-328. An unknown id is ignored. `.at` throws
        out_of_range, before anything changes, for a stored document without
        a forward entry. Otherwise id is erased from the row of each of its
        words (a word without a row lets `.at` throw inside the policy's
        for_each, which ends the process), and then from the ids, the
        documents and the forward index. The execution policy does not
        change the result. */
    method RemoveDocumentByPolicy(policy: ExecutionPolicy, documentId: int) returns (outcome: Outcome)
      requires Consistent()
      modifies this
      ensures Consistent()
      ensures old(Valid()) ==> Valid()
      ensures old(Valid()) ==> outcome != Fail(Terminated)
      ensures (documentId < 0 || documentId !in old(documentIds)) ==> outcome == Pass && unchanged(this)
      ensures outcome.Fail? ==> unchanged(this)
      ensures documentId >= 0 && documentId in old(documentIds) ==>
                var id := documentId as nat;
                && (outcome == Fail(OutOfRange) <==> id !in old(documentToWordFreqs))
                && (outcome == Fail(Terminated) <==> (&& id in old(documentToWordFreqs)
                                                      && exists w :: w in old(documentToWordFreqs)[id] && w !in old(wordToDocumentFreqs)))
                && (outcome.Pass? <==> (&& id in old(documentToWordFreqs)
                                        && forall w :: w in old(documentToWordFreqs)[id] ==> w in old(wordToDocumentFreqs)))
                && (outcome.Pass? ==> (&& wordToDocumentFreqs == EraseFromRows(old(wordToDocumentFreqs), id, old(documentToWordFreqs)[id].Keys)
                                       && documentToWordFreqs == old(documentToWordFreqs) - {id}
                                       && documents == old(documents) - {id}
                                       && documentIds == old(documentIds) - {id}))
    {
      if documentId < 0 || documentId !in documentIds {
        return Pass;
      }
      var id := documentId as nat;
      if id !in documentToWordFreqs {
        return Fail(OutOfRange);
      }
      if exists w :: w in documentToWordFreqs[id] && w !in wordToDocumentFreqs {
        return Fail(Terminated);
      }
      RemoveKeepsConsistent(stopWords, wordToDocumentFreqs, documents, documentIds, documentToWordFreqs, id);
      EraseRows(id, documentToWordFreqs[id].Keys);
      documentIds := documentIds - {id};
      documents := documents - {id};
      documentToWordFreqs := documentToWordFreqs - {id};
      return Pass;
    }

    /** Search_server.h:320-324: erase id from the row of each of the
        given words, one word at a time. */
    method EraseRows(id: nat, erase: set<string>)
      requires erase <= wordToDocumentFreqs.Keys
      modifies this
      ensures wordToDocumentFreqs == EraseFromRows(old(wordToDocumentFreqs), id, erase)
      ensures unchanged(this`documents, this`documentIds, this`documentToWordFreqs)
    {
      var words := SortedWords(erase);
      ghost var inv0 := wordToDocumentFreqs;
      ghost var erased: set<string> := {};
      for k := 0 to |words|
        invariant forall x :: x in erased <==> x in words[..k]
        invariant wordToDocumentFreqs == EraseFromRows(inv0, id, erased)
        invariant unchanged(this`documents, this`documentIds, this`documentToWordFreqs)
      {
        var word := words[k];
        assert words[..k + 1] == words[..k] + [word];
        EraseFromRowsStep(inv0, id, erased, word);
        wordToDocumentFreqs := wordToDocumentFreqs[word := wordToDocumentFreqs[word] - {id}];
        erased := erased + {word};
      }
      assert words[..|words|] == words;
      assert erased == erase;
    }

    /** Search_server.h:150-202: parse the raw query (invalid_argument on a
        rejected token), then rank the documents the filter accepts. */
    method FindTopDocuments(policy: ExecutionPolicy, rawQuery: string, pred: DocumentPredicate, idf: Idf)
      returns (r: Result<seq<Document>>)
      requires Consistent()
      ensures r.Failure? <==> ParsedQuery(stopWords, rawQuery).Failure?
      ensures r.Failure? ==> r.error == InvalidArgument
      ensures r.Success? ==>
                TopDocumentsOf(r.value, wordToDocumentFreqs, documents, pred, idf, ParsedQuery(stopWords, rawQuery).value)
    {
      var query := ParseQuery(stopWords, rawQuery);
      if query.Failure? {
        return Failure(InvalidArgument);
      }
      assert RowIdsKnown(wordToDocumentFreqs, documents);
      var top := Ranking.FindTopDocuments(wordToDocumentFreqs, documents, pred, idf, query.value, policy);
      return Success(top);
    }

    /** Search_server.cpp:50-65: rank the documents with the given status. */
    method FindTopDocumentsByStatus(policy: ExecutionPolicy, rawQuery: string, status: DocumentStatus, idf: Idf)
      returns (r: Result<seq<Document>>)
      requires Consistent()
      ensures r.Failure? <==> ParsedQuery(stopWords, rawQuery).Failure?
      ensures r.Failure? ==> r.error == InvalidArgument
      ensures r.Success? ==>
                TopDocumentsOf(r.value, wordToDocumentFreqs, documents, StatusIs(status), idf,
                               ParsedQuery(stopWords, rawQuery).value)
    {
      r := FindTopDocuments(policy, rawQuery, StatusIs(status), idf);
    }

    /** Search_server.cpp:47-49 and 67-73: rank the actual documents. */
    method FindTopDocumentsActual(policy: ExecutionPolicy, rawQuery: string, idf: Idf)
      returns (r: Result<seq<Document>>)
      requires Consistent()
      ensures r.Failure? <==> ParsedQuery(stopWords, rawQuery).Failure?
      ensures r.Failure? ==> r.error == InvalidArgument
      ensures r.Success? ==>
                TopDocumentsOf(r.value, wordToDocumentFreqs, documents, StatusIs(Actual), idf,
                               ParsedQuery(stopWords, rawQuery).value)
    {
      r := FindTopDocumentsByStatus(policy, rawQuery, Actual, idf);
    }

    /** Search_server.h:330-362 and Search_server.cpp:79-82, as written:
        the leading "" is looked for with `.at(0)`, so a query without plus
        words fails with out_of_range. */
    method MatchDocument(policy: ExecutionPolicy, rawQuery: string, documentId: int)
      returns (r: Result<(seq<string>, DocumentStatus)>)
      requires Consistent()
      ensures MatchOutcome(r, stopWords, wordToDocumentFreqs, documents, documentToWordFreqs, rawQuery, documentId, false)
    {
      r := MatchIndexed(stopWords, wordToDocumentFreqs, documents, documentToWordFreqs, rawQuery, documentId, false);
    }

    /** MatchDocument with the emptiness check before the leading "" is
        looked for: a query without plus words matches no word. */
    method MatchDocumentChecked(policy: ExecutionPolicy, rawQuery: string, documentId: int)
      returns (r: Result<(seq<string>, DocumentStatus)>)
      requires Consistent()
      ensures MatchOutcome(r, stopWords, wordToDocumentFreqs, documents, documentToWordFreqs, rawQuery, documentId, true)
    {
      r := MatchIndexed(stopWords, wordToDocumentFreqs, documents, documentToWordFreqs, rawQuery, documentId, true);
    }
  }
}
