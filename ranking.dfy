/** Relevance ranking: which documents a parsed query selects, with what
    relevance, how the sequential and the parallel search collect them, and
    how the best few are picked. The inverse document frequency (a
    logarithm in the engine) is a parameter `idf` of (document count, row
    size); all arithmetic is on reals. */
module Ranking {
  import opened Documents
  import opened Ordering
  import opened QueryParser
  import opened Index

  /** Search_server.h:21-22. */
  const MaxResultDocumentCount: nat := 5
  const Epsilon: real := 0.000001

  /** The filter a search applies to each candidate: (id, status, rating). */
  type DocumentPredicate = (nat, DocumentStatus, int) -> bool

  /** The inverse document frequency of a word, given the number of stored
      documents and the number of documents in the word's row. */
  type Idf = (int, int) -> real

  function Abs(x: real): real
  {
    if x < 0.0 then -x else x
  }

  /** The order FindTopDocuments sorts by: relevance descending, with
      relevances less than Epsilon apart counted as tied and the tie
      broken by rating descending. */
  predicate RanksBefore(lhs: Document, rhs: Document)
  {
    if Abs(lhs.relevance - rhs.relevance) < Epsilon then lhs.rating > rhs.rating
    else lhs.relevance > rhs.relevance
  }

  /** What RanksBefore means, stated without the absolute value. */
  lemma RanksBeforeMeaning(lhs: Document, rhs: Document)
    ensures RanksBefore(lhs, rhs)
        <==> (|| lhs.relevance >= rhs.relevance + Epsilon
              || (rhs.relevance - Epsilon < lhs.relevance < rhs.relevance + Epsilon && lhs.rating > rhs.rating))
  {
  }

  lemma RanksBeforeAsymmetric()
    ensures Asymmetric(RanksBefore)
  {
  }

  /** Relevances less than Epsilon apart, which RanksBefore counts as a tie. */
  predicate Tied(x: Document, y: Document)
  {
    Abs(x.relevance - y.relevance) < Epsilon
  }

  /** The tie rule is not transitive, so RanksBefore can run in a circle and
      is no strict weak order: each of a, b, c ranks before the next, a ties
      with b and b with c, but a does not tie with c. */
  lemma RanksBeforeCycles()
    ensures var a := Document(1, 0.0, 2);
            var b := Document(2, 0.0000006, 1);
            var c := Document(3, 0.0000012, 0);
            && RanksBefore(a, b) && RanksBefore(b, c) && RanksBefore(c, a)
            && Tied(a, b) && Tied(b, c) && !Tied(a, c)
  {
  }

  /** Every id of every row is a stored document: what the engine relies
      on when it looks a candidate up with documents_.at. */
  ghost predicate RowIdsKnown(inv: InvertedIndex, docs: map<nat, DocumentData>)
  {
    forall w, id :: w in inv && id in inv[w] ==> id in docs
  }

  predicate InRowOf(inv: InvertedIndex, w: string, id: nat)
  {
    w in inv && id in inv[w]
  }

  /** The candidate is stored and the search's filter accepts it. */
  predicate Passes(docs: map<nat, DocumentData>, pred: DocumentPredicate, id: nat)
  {
    id in docs && pred(id, docs[id].status, docs[id].rating)
  }

  /** What word w adds to the relevance of document id: its term frequency
      times the word's inverse document frequency, nothing when id is not
      in the word's row. */
  function Term(inv: InvertedIndex, docCount: nat, idf: Idf, w: string, id: nat): real
  {
    if InRowOf(inv, w, id) then inv[w][id] * idf(docCount, |inv[w]|) else 0.0
  }

  /** The relevance of document id for a set of words: the sum of their
      terms, in no particular order. */
  ghost function Relevance(inv: InvertedIndex, docCount: nat, idf: Idf, words: set<string>, id: nat): real
    decreases words
  {
    if words == {} then 0.0
    else
      var w :| w in words;
      Term(inv, docCount, idf, w, id) + Relevance(inv, docCount, idf, words - {w}, id)
  }

  /** The sum does not depend on the word the definition happens to pick. */
  lemma {:induction false} RelevanceRemove(inv: InvertedIndex, docCount: nat, idf: Idf, words: set<string>, x: string, id: nat)
    requires x in words
    ensures Relevance(inv, docCount, idf, words, id)
         == Term(inv, docCount, idf, x, id) + Relevance(inv, docCount, idf, words - {x}, id)
    decreases words
  {
    var w :| w in words && Relevance(inv, docCount, idf, words, id)
                           == Term(inv, docCount, idf, w, id) + Relevance(inv, docCount, idf, words - {w}, id);
    if w != x {
      RelevanceRemove(inv, docCount, idf, words - {w}, x, id);
      RelevanceRemove(inv, docCount, idf, words - {x}, w, id);
      assert words - {w} - {x} == words - {x} - {w};
    }
  }

  /** Words whose rows miss the document add nothing. */
  lemma {:induction false} RelevanceOutsideRows(inv: InvertedIndex, docCount: nat, idf: Idf, words: set<string>, id: nat)
    requires forall w :: w in words ==> !InRowOf(inv, w, id)
    ensures Relevance(inv, docCount, idf, words, id) == 0.0
    decreases words
  {
    if words != {} {
      var w :| w in words && Relevance(inv, docCount, idf, words, id)
                             == Term(inv, docCount, idf, w, id) + Relevance(inv, docCount, idf, words - {w}, id);
      RelevanceOutsideRows(inv, docCount, idf, words - {w}, id);
      assert Term(inv, docCount, idf, w, id) == 0.0;
    }
  }

  /** Search_server.h:214-237: a document is found when the filter accepts
      it, some plus word's row holds it and no minus word's row does. */
  predicate Selected(inv: InvertedIndex, docs: map<nat, DocumentData>, pred: DocumentPredicate, query: Query, id: nat)
  {
    Passes(docs, pred, id)
    && (exists w :: w in query.plusWords && InRowOf(inv, w, id))
    && !(exists w :: w in query.minusWords && InRowOf(inv, w, id))
  }

  /** The search result a found document becomes. */
  ghost function Ranked(inv: InvertedIndex, docs: map<nat, DocumentData>, idf: Idf, query: Query, id: nat): Document
    requires id in docs
  {
    Document(id, Relevance(inv, |docs|, idf, query.plusWords, id), docs[id].rating)
  }

  /** d is the search result of a found document. */
  ghost predicate Found(d: Document, inv: InvertedIndex, docs: map<nat, DocumentData>, pred: DocumentPredicate,
                        idf: Idf, query: Query)
  {
    d.id >= 0 && Selected(inv, docs, pred, query, d.id as nat) && d == Ranked(inv, docs, idf, query, d.id as nat)
  }

  /** What FindAllDocuments returns: every found document exactly once, in
      ascending id order, with its relevance and stored rating. */
  ghost predicate AllDocuments(r: seq<Document>, inv: InvertedIndex, docs: map<nat, DocumentData>,
                               pred: DocumentPredicate, idf: Idf, query: Query)
  {
    (forall i, j :: 0 <= i < j < |r| ==> r[i].id < r[j].id)
    && (forall i :: 0 <= i < |r| ==> Found(r[i], inv, docs, pred, idf, query))
    && (forall id: nat :: Selected(inv, docs, pred, query, id) ==> exists i :: 0 <= i < |r| && r[i].id == id)
  }

  /** The result is determined by the query and the index: any two
      sequences that both meet AllDocuments are equal. This is what makes
      the parallel search interchangeable with the sequential one. */
  lemma AllDocumentsUnique(r1: seq<Document>, r2: seq<Document>, inv: InvertedIndex, docs: map<nat, DocumentData>,
                           pred: DocumentPredicate, idf: Idf, query: Query)
    requires AllDocuments(r1, inv, docs, pred, idf, query)
    requires AllDocuments(r2, inv, docs, pred, idf, query)
    ensures r1 == r2
  {
    forall x | x in r1
      ensures x in r2
    {
      var i :| 0 <= i < |r1| && r1[i] == x;
      var j :| 0 <= j < |r2| && r2[j].id == x.id;
    }
    forall x | x in r2
      ensures x in r1
    {
      var j :| 0 <= j < |r2| && r2[j] == x;
      var i :| 0 <= i < |r1| && r1[i].id == x.id;
    }
    SameIncreasing(r1, r2);
  }

  /** Two sequences with the same elements, both strictly increasing by id,
      are equal. */
  lemma {:induction false} SameIncreasing(a: seq<Document>, b: seq<Document>)
    requires forall i, j :: 0 <= i < j < |a| ==> a[i].id < a[j].id
    requires forall i, j :: 0 <= i < j < |b| ==> b[i].id < b[j].id
    requires forall x :: x in a <==> x in b
    ensures a == b
  {
    if |a| > 0 {
      assert a[0] in a;
    }
    if |b| > 0 {
      assert b[0] in b;
    }
    if |a| > 0 && |b| > 0 {
      HeadIsLeast(a);
      HeadIsLeast(b);
      assert a[0] == b[0];
      assert a == [a[0]] + a[1..] && b == [b[0]] + b[1..];
      forall x
        ensures x in a[1..] <==> x in b[1..]
      {
        if x in a[1..] {
          assert x in b && x != b[0];
        }
        if x in b[1..] {
          assert x in a && x != a[0];
        }
      }
      SameIncreasing(a[1..], b[1..]);
    }
  }

  /** In a sequence strictly increasing by id, the head has the smallest id
      and every later element a larger one. */
  lemma HeadIsLeast(a: seq<Document>)
    requires |a| > 0
    requires forall i, j :: 0 <= i < j < |a| ==> a[i].id < a[j].id
    ensures forall x :: x in a ==> a[0].id <= x.id
    ensures forall x :: x in a[1..] ==> a[0].id < x.id
  {
  }

  /** A non-empty result holds some found document. */
  lemma SomeSelected(r: seq<Document>, inv: InvertedIndex, docs: map<nat, DocumentData>,
                     pred: DocumentPredicate, idf: Idf, query: Query)
    requires AllDocuments(r, inv, docs, pred, idf, query)
    ensures r != [] <==> exists id: nat :: Selected(inv, docs, pred, query, id)
  {
    if r != [] {
      assert Selected(inv, docs, pred, query, r[0].id as nat);
    }
  }

  /** Only plus words add candidates, so a query without plus words finds
      nothing. */
  lemma NoPlusWordsNoDocuments(r: seq<Document>, inv: InvertedIndex, docs: map<nat, DocumentData>,
                               pred: DocumentPredicate, idf: Idf, query: Query)
    requires AllDocuments(r, inv, docs, pred, idf, query)
    requires query.plusWords == {}
    ensures r == []
  {
    SomeSelected(r, inv, docs, pred, idf, query);
  }

  /** The filter accepts the candidate and it is not among the excluded ids. */
  predicate Admitted(docs: map<nat, DocumentData>, pred: DocumentPredicate, excluded: set<nat>, id: nat)
  {
    Passes(docs, pred, id) && id !in excluded
  }

  /** The candidates accumulated so far: the admitted ids some word of
      `done` has a posting for, each with the sum of those words' terms. */
  ghost predicate Accumulated(accum: map<nat, real>, inv: InvertedIndex, docs: map<nat, DocumentData>,
                              pred: DocumentPredicate, idf: Idf, done: set<string>, excluded: set<nat>)
  {
    (forall id :: id in accum <==> Admitted(docs, pred, excluded, id) && exists w :: w in done && InRowOf(inv, w, id))
    && (forall id :: id in accum ==> accum[id] == Relevance(inv, |docs|, idf, done, id))
  }

  /** The value an id starts a pass with: its accumulated relevance, or
      the 0 that operator[] creates. */
  function Base(accum: map<nat, real>, id: nat): real
  {
    if id in accum then accum[id] else 0.0
  }

  /** What a pass over a row has added to id once the ids in `seen` are
      done: c times the term frequency, when id is among them and admitted. */
  function Gain(row: map<nat, real>, c: real, docs: map<nat, DocumentData>, pred: DocumentPredicate,
                excluded: set<nat>, seen: set<nat>, id: nat): real
  {
    if id in seen && id in row && Admitted(docs, pred, excluded, id) then row[id] * c else 0.0
  }

  /** The state of a pass over a row once the ids in `seen` are done. */
  ghost predicate RowPassed(r: map<nat, real>, accum: map<nat, real>, row: map<nat, real>, c: real,
                            docs: map<nat, DocumentData>, pred: DocumentPredicate, excluded: set<nat>, seen: set<nat>)
  {
    (forall id :: id in r <==> id in accum || (id in seen && id in row && Admitted(docs, pred, excluded, id)))
    && (forall id :: id in r ==> r[id] == Base(accum, id) + Gain(row, c, docs, pred, excluded, seen, id))
  }

  lemma AddRowStep(r: map<nat, real>, accum: map<nat, real>, row: map<nat, real>, c: real,
                   docs: map<nat, DocumentData>, pred: DocumentPredicate, excluded: set<nat>, seen: set<nat>, id: nat)
    requires RowPassed(r, accum, row, c, docs, pred, excluded, seen)
    requires id !in seen && id in row
    ensures RowPassed(if Admitted(docs, pred, excluded, id) then r[id := Base(r, id) + row[id] * c] else r,
                      accum, row, c, docs, pred, excluded, seen + {id})
  {
    assert id in r ==> r[id] == Base(accum, id);
  }

  /** The loop of one row: each id of the row, in ascending order, that
      is admitted gets c times its term frequency added. */
  method AddRow(accum: map<nat, real>, row: map<nat, real>, c: real, docs: map<nat, DocumentData>,
                pred: DocumentPredicate, excluded: set<nat>)
    returns (r: map<nat, real>)
    ensures forall id :: id in r <==> id in accum || (id in row && Admitted(docs, pred, excluded, id))
    ensures forall id :: id in r ==> r[id] == Base(accum, id) + Gain(row, c, docs, pred, excluded, row.Keys, id)
  {
    var ids := SortedIds(row.Keys);
    r := accum;
    ghost var seen: set<nat> := {};
    for k := 0 to |ids|
      invariant forall id :: id in seen <==> exists i :: 0 <= i < k && ids[i] == id
      invariant RowPassed(r, accum, row, c, docs, pred, excluded, seen)
    {
      var id := ids[k];
      assert id !in seen;
      AddRowStep(r, accum, row, c, docs, pred, excluded, seen, id);
      if Admitted(docs, pred, excluded, id) {
        r := r[id := Base(r, id) + row[id] * c];
      }
      seen := seen + {id};
    }
    assert seen == row.Keys;
  }

  /** One plus word's pass over its row (Search_server.h:218-225 and
      280-288): every admitted id of the row gets the word's term added,
      starting from 0. */
  method AccumulateWord(accum: map<nat, real>, inv: InvertedIndex, docs: map<nat, DocumentData>,
                        pred: DocumentPredicate, idf: Idf, w: string, excluded: set<nat>)
    returns (r: map<nat, real>)
    requires w in inv
    ensures forall id :: id in r <==> id in accum || (id in inv[w] && Admitted(docs, pred, excluded, id))
    ensures forall id :: id in r ==>
              r[id] == Base(accum, id)
                       + (if id in inv[w] && Admitted(docs, pred, excluded, id) then Term(inv, |docs|, idf, w, id) else 0.0)
  {
    var inverseDocumentFreq := idf(|docs|, |inv[w]|);
    r := AddRow(accum, inv[w], inverseDocumentFreq, docs, pred, excluded);
  }

  /** Adding one more word keeps the accumulator in step with the sum. */
  lemma AccumulatedStep(accum: map<nat, real>, r: map<nat, real>, inv: InvertedIndex, docs: map<nat, DocumentData>,
                        pred: DocumentPredicate, idf: Idf, done: set<string>, excluded: set<nat>, w: string)
    requires Accumulated(accum, inv, docs, pred, idf, done, excluded)
    requires w !in done
    requires forall id :: id in r <==> id in accum || (InRowOf(inv, w, id) && Admitted(docs, pred, excluded, id))
    requires forall id :: id in r ==>
               r[id] == Base(accum, id)
                        + (if InRowOf(inv, w, id) && Admitted(docs, pred, excluded, id) then Term(inv, |docs|, idf, w, id) else 0.0)
    ensures Accumulated(r, inv, docs, pred, idf, done + {w}, excluded)
  {
    forall id | id in r
      ensures r[id] == Relevance(inv, |docs|, idf, done + {w}, id)
    {
      RelevanceRemove(inv, |docs|, idf, done + {w}, w, id);
      assert done + {w} - {w} == done;
      if id !in accum {
        RelevanceOutsideRows(inv, |docs|, idf, done, id);
      }
    }
  }

  /** The words of a sequence, as a set. */
  function WordSet(words: seq<string>): set<string>
  {
    set w | w in words
  }

  /** The plus words of one stretch, one after the other
      (Search_server.h:216-228, and one part at 278-291). */
  method AccumulateWords(accum: map<nat, real>, inv: InvertedIndex, docs: map<nat, DocumentData>,
                         pred: DocumentPredicate, idf: Idf, words: seq<string>, ghost done: set<string>, excluded: set<nat>)
    returns (r: map<nat, real>)
    requires Accumulated(accum, inv, docs, pred, idf, done, excluded)
    requires forall i, j :: 0 <= i < j < |words| ==> words[i] != words[j]
    requires forall i :: 0 <= i < |words| ==> words[i] !in done
    ensures Accumulated(r, inv, docs, pred, idf, done + WordSet(words), excluded)
  {
    r := accum;
    ghost var now := done;
    for k := 0 to |words|
      invariant forall w :: w in now <==> w in done || exists i :: 0 <= i < k && words[i] == w
      invariant Accumulated(r, inv, docs, pred, idf, now, excluded)
    {
      var word := words[k];
      assert word !in now;
      if word in inv {
        var next := AccumulateWord(r, inv, docs, pred, idf, word, excluded);
        AccumulatedStep(r, next, inv, docs, pred, idf, now, excluded, word);
        r := next;
      } else {
        AccumulatedStep(r, r, inv, docs, pred, idf, now, excluded, word);
      }
      now := now + {word};
    }
    assert now == done + WordSet(words);
  }

  /** Erase every id of every minus word's row from the accumulator
      (Search_server.h:229-237). */
  method EraseMinusWords(accum: map<nat, real>, inv: InvertedIndex, words: seq<string>) returns (r: map<nat, real>)
    ensures forall id :: id in r <==> id in accum && !(exists w :: w in words && InRowOf(inv, w, id))
    ensures forall id :: id in r ==> r[id] == accum[id]
  {
    r := accum;
    for k := 0 to |words|
      invariant forall id :: id in r <==> id in accum && !(exists i :: 0 <= i < k && InRowOf(inv, words[i], id))
      invariant forall id :: id in r ==> r[id] == accum[id]
    {
      ghost var before := r;
      if words[k] in inv {
        var ids := SortedIds(inv[words[k]].Keys);
        r := EraseIds(r, ids);
      }
      forall id
        ensures id in r <==> id in accum && !(exists i :: 0 <= i < k + 1 && InRowOf(inv, words[i], id))
      {
        assert id in r <==> id in before && !InRowOf(inv, words[k], id);
      }
    }
  }

  /** The inner loop of Search_server.h:233-235: erase each id of a row. */
  method EraseIds(accum: map<nat, real>, ids: seq<nat>) returns (r: map<nat, real>)
    ensures forall id :: id in r <==> id in accum && id !in ids
    ensures forall id :: id in r ==> r[id] == accum[id]
  {
    r := accum;
    for j := 0 to |ids|
      invariant forall id :: id in r <==> id in accum && id !in ids[..j]
      invariant forall id :: id in r ==> r[id] == accum[id]
    {
      assert ids[..j + 1] == ids[..j] + [ids[j]];
      r := r - {ids[j]};
    }
    assert ids[..|ids|] == ids;
  }

  /** The ids of every minus word's row (Search_server.h:249-264). */
  method MinusIds(inv: InvertedIndex, words: seq<string>) returns (ids: set<nat>)
    ensures forall id :: id in ids <==> exists w :: w in words && InRowOf(inv, w, id)
  {
    ids := {};
    for k := 0 to |words|
      invariant forall id :: id in ids <==> exists i :: 0 <= i < k && InRowOf(inv, words[i], id)
    {
      if words[k] in inv {
        var rowIds := SortedIds(inv[words[k]].Keys);
        for j := 0 to |rowIds|
          invariant forall id :: id in ids <==> ((exists i :: 0 <= i < k && InRowOf(inv, words[i], id))
                                              || (exists i :: 0 <= i < j && rowIds[i] == id))
        {
          ids := ids + {rowIds[j]};
        }
      }
    }
  }

  /** d is the entry of the accumulator for its id, with the stored rating. */
  predicate FromAccumulator(d: Document, accum: map<nat, real>, docs: map<nat, DocumentData>)
    requires accum.Keys <= docs.Keys
  {
    d.id >= 0 && d.id as nat in accum && d == Document(d.id, accum[d.id as nat], docs[d.id as nat].rating)
  }

  /** The accumulator read out in ascending id order, each entry with the
      document's stored rating (Search_server.h:238-241 and 300-303). */
  method ToDocuments(accum: map<nat, real>, docs: map<nat, DocumentData>) returns (r: seq<Document>)
    requires accum.Keys <= docs.Keys
    ensures forall i, j :: 0 <= i < j < |r| ==> r[i].id < r[j].id
    ensures forall i :: 0 <= i < |r| ==> FromAccumulator(r[i], accum, docs)
    ensures forall id :: id in accum ==> exists i :: 0 <= i < |r| && r[i].id == id
  {
    var ids := SortedIds(accum.Keys);
    r := [];
    for k := 0 to |ids|
      invariant |r| == k
      invariant forall i :: 0 <= i < k ==> r[i] == Document(ids[i], accum[ids[i]], docs[ids[i]].rating)
    {
      r := r + [Document(ids[k], accum[ids[k]], docs[ids[k]].rating)];
    }
    forall id | id in accum
      ensures exists i :: 0 <= i < |r| && r[i].id == id
    {
      var i :| 0 <= i < |ids| && ids[i] == id;
      assert r[i].id == id;
    }
  }

  /** From the finished accumulator to the search result. */
  lemma AccumulatedIsAll(accum: map<nat, real>, r: seq<Document>, inv: InvertedIndex, docs: map<nat, DocumentData>,
                         pred: DocumentPredicate, idf: Idf, query: Query)
    requires forall id :: id in accum <==> Selected(inv, docs, pred, query, id)
    requires forall id :: id in accum ==> accum[id] == Relevance(inv, |docs|, idf, query.plusWords, id)
    requires accum.Keys <= docs.Keys
    requires forall i, j :: 0 <= i < j < |r| ==> r[i].id < r[j].id
    requires forall i :: 0 <= i < |r| ==> FromAccumulator(r[i], accum, docs)
    requires forall id :: id in accum ==> exists i :: 0 <= i < |r| && r[i].id == id
    ensures AllDocuments(r, inv, docs, pred, idf, query)
  {
  }

  /** Search_server.h:211-244: accumulate the plus words' terms, then erase
      the ids of the minus words' rows, then read out by ascending id. */
  method FindAllDocuments(inv: InvertedIndex, docs: map<nat, DocumentData>, pred: DocumentPredicate, idf: Idf, query: Query)
    returns (r: seq<Document>)
    requires RowIdsKnown(inv, docs)
    ensures AllDocuments(r, inv, docs, pred, idf, query)
  {
    var plus := SortedWords(query.plusWords);
    var accum := AccumulateWords(map[], inv, docs, pred, idf, plus, {}, {});
    assert {} + WordSet(plus) == query.plusWords;
    var minus := SortedWords(query.minusWords);
    accum := EraseMinusWords(accum, inv, minus);
    r := ToDocuments(accum, docs);
    AccumulatedIsAll(accum, r, inv, docs, pred, idf, query);
  }

  /** Search_server.h:268: the plus words are split into this many parts. */
  const PartCount: nat := 4

  /** Where part i of n words begins: parts 0 to 2 hold n / 4 words each,
      the last part runs to the end. */
  function PartBegin(n: nat, i: nat): nat
    requires i < PartCount
  {
    i * (n / PartCount)
  }

  function PartEnd(n: nat, i: nat): nat
    requires i < PartCount
  {
    if i == PartCount - 1 then n else (i + 1) * (n / PartCount)
  }

  /** The parts tile the words: they start at 0, each starts where the one
      before ends, the last ends at n, and none is reversed or overruns. */
  lemma PartsCover(n: nat)
    ensures PartBegin(n, 0) == 0 && PartEnd(n, PartCount - 1) == n
    ensures forall i :: 0 < i < PartCount ==> PartBegin(n, i) == PartEnd(n, i - 1)
    ensures forall i :: 0 <= i < PartCount ==> PartBegin(n, i) <= PartEnd(n, i) <= n
  {
    var l := n / PartCount;
    assert PartBegin(n, 3) == 3 * l;
    assert 4 * l <= n;
  }

  /** Part boundaries as the loop header of Search_server.h:274-275 computes
      them: before iteration i when i < 4, and once more after the last
      iteration (i == 4), where it advances part_end by n / 4 from end(). */
  function AsWrittenPartBounds(n: nat, i: nat): (bounds: (nat, nat))
    requires i <= PartCount
  {
    if i == 0 then (0, n / PartCount)
    else
      var previous := AsWrittenPartBounds(n, i - 1);
      (previous.1, if i == PartCount - 1 then n else previous.1 + n / PartCount)
  }

  /** The as-written bounds are the parts for the four iterations that run,
      but after the last one the iterator is moved n / 4 positions beyond
      end(), which std::next does not allow, as soon as there are 4 or more
      plus words. */
  lemma {:induction false} AsWrittenPartBoundsOverrun(n: nat)
    ensures forall i :: 0 <= i < PartCount ==> AsWrittenPartBounds(n, i) == (PartBegin(n, i), PartEnd(n, i))
    ensures n >= PartCount ==> AsWrittenPartBounds(n, PartCount).1 > n
  {
    var l := n / PartCount;
    assert AsWrittenPartBounds(n, 1) == (l, 2 * l);
    assert AsWrittenPartBounds(n, 2) == (2 * l, 3 * l);
    assert AsWrittenPartBounds(n, 3) == (3 * l, n);
    assert AsWrittenPartBounds(n, 4) == (n, n + l);
  }

  /** The words of one part of distinct words are distinct, new, and
      extend the words before the part to the words up to its end. */
  lemma PartWords(words: seq<string>, b: nat, e: nat)
    requires b <= e <= |words|
    requires forall i, j :: 0 <= i < j < |words| ==> words[i] != words[j]
    ensures forall i, j :: 0 <= i < j < |words[b..e]| ==> words[b..e][i] != words[b..e][j]
    ensures forall k :: 0 <= k < |words[b..e]| ==> words[b..e][k] !in WordSet(words[..b])
    ensures WordSet(words[..b]) + WordSet(words[b..e]) == WordSet(words[..e])
  {
    forall k | 0 <= k < e - b
      ensures words[b..e][k] !in WordSet(words[..b])
    {
      assert forall j :: 0 <= j < b ==> words[..b][j] != words[b + k];
    }
    assert words[..e] == words[..b] + words[b..e];
  }

  /** The next part starts where this one ends and is n / 4 long, except
      that the last one ends at n. */
  lemma PartAdvance(n: nat, i: nat)
    requires i + 1 < PartCount
    ensures PartBegin(n, i + 1) == PartEnd(n, i)
    ensures PartEnd(n, i + 1) == if i + 1 == PartCount - 1 then n else PartEnd(n, i) + n / PartCount
  {
  }

  /** Search_server.h:249-305 in its sequential meaning: collect the ids of
      the minus words' rows first, then accumulate the plus words part by
      part, skipping those ids, then read out by ascending id. The part
      bounds are only advanced while another part follows. */
  method FindAllDocumentsParallel(inv: InvertedIndex, docs: map<nat, DocumentData>, pred: DocumentPredicate, idf: Idf, query: Query)
    returns (r: seq<Document>)
    requires RowIdsKnown(inv, docs)
    ensures AllDocuments(r, inv, docs, pred, idf, query)
  {
    var minus := SortedWords(query.minusWords);
    var minusIds := MinusIds(inv, minus);
    assert forall id :: id in minusIds <==> exists w :: w in query.minusWords && InRowOf(inv, w, id);

    var plus := SortedWords(query.plusWords);
    var partLength := |plus| / PartCount;
    var partBegin := 0;
    var partEnd := partLength;
    PartsCover(|plus|);
    var accum: map<nat, real> := map[];
    ghost var done: set<string> := {};
    for i := 0 to PartCount
      invariant i < PartCount ==> partBegin == PartBegin(|plus|, i) && partEnd == PartEnd(|plus|, i)
      invariant i == PartCount ==> partEnd == |plus|
      invariant done == WordSet(plus[..(if i < PartCount then partBegin else |plus|)])
      invariant Accumulated(accum, inv, docs, pred, idf, done, minusIds)
    {
      var part := plus[partBegin..partEnd];
      PartWords(plus, partBegin, partEnd);
      accum := AccumulateWords(accum, inv, docs, pred, idf, part, done, minusIds);
      done := done + WordSet(part);
      if i + 1 < PartCount {
        PartAdvance(|plus|, i);
        partBegin := partEnd;
        partEnd := if i + 1 == PartCount - 1 then |plus| else partBegin + partLength;
      }
    }
    assert plus[..|plus|] == plus;
    assert done == query.plusWords;
    ExcludedAreMinus(accum, inv, docs, pred, idf, query, minusIds);
    r := ToDocuments(accum, docs);
    AccumulatedIsAll(accum, r, inv, docs, pred, idf, query);
  }

  /** Leaving out the minus ids while accumulating selects what erasing
      them afterwards does. */
  lemma ExcludedAreMinus(accum: map<nat, real>, inv: InvertedIndex, docs: map<nat, DocumentData>,
                         pred: DocumentPredicate, idf: Idf, query: Query, minusIds: set<nat>)
    requires Accumulated(accum, inv, docs, pred, idf, query.plusWords, minusIds)
    requires forall id :: id in minusIds <==> exists w :: w in query.minusWords && InRowOf(inv, w, id)
    ensures forall id :: id in accum <==> Selected(inv, docs, pred, query, id)
    ensures forall id :: id in accum ==> accum[id] == Relevance(inv, |docs|, idf, query.plusWords, id)
    ensures accum.Keys <= docs.Keys
  {
  }

  /** Ties are transitive among the documents of s, so that they fall into
      bands less than Epsilon wide, each tied throughout and none tied with
      another. Relevances that are equal or at least Epsilon apart are one
      such case. Among such documents RanksBefore is a strict weak order. */
  ghost predicate TiesTransitive(s: seq<Document>)
  {
    forall x, y, z :: x in s && y in s && z in s && Tied(x, y) && Tied(y, z) ==> Tied(x, z)
  }

  /** Where ties are transitive, "not ranked before" is transitive. */
  lemma NotBeforeTransitive(a: Document, b: Document, c: Document)
    requires Tied(a, b) && Tied(b, c) ==> Tied(a, c)
    requires Tied(b, a) && Tied(a, c) ==> Tied(b, c)
    requires Tied(a, c) && Tied(c, b) ==> Tied(a, b)
    requires !RanksBefore(b, a) && !RanksBefore(c, b)
    ensures !RanksBefore(c, a)
  {
  }

  /** "Not ranked before" is transitive among the documents of s. With the
      asymmetry of RanksBefore this makes it a strict weak order on them,
      which is what std::sort demands of its comparator. */
  ghost predicate StrictWeakOn(s: seq<Document>)
  {
    forall x, y, z :: x in s && y in s && z in s && !RanksBefore(y, x) && !RanksBefore(z, y) ==> !RanksBefore(z, x)
  }

  /** Transitive ties are one case where RanksBefore is a strict weak order. */
  lemma TiesTransitiveIsStrictWeak(s: seq<Document>)
    requires TiesTransitive(s)
    ensures StrictWeakOn(s)
  {
    forall x, y, z | x in s && y in s && z in s && !RanksBefore(y, x) && !RanksBefore(z, y)
      ensures !RanksBefore(z, x)
    {
      NotBeforeTransitive(x, y, z);
    }
  }

  /** Transitive ties are not needed: here a ties with b and b with c but
      not a with c, yet c, b, a is a strict order on the three. */
  lemma StrictWeakWithoutTransitiveTies()
    ensures var a := Document(1, 0.0, 1);
            var b := Document(2, 0.0000006, 3);
            var c := Document(3, 0.0000012, 5);
            && StrictWeakOn([a, b, c]) && !TiesTransitive([a, b, c])
            && RanksBefore(c, b) && RanksBefore(b, a) && RanksBefore(c, a)
  {
    var a := Document(1, 0.0, 1);
    var b := Document(2, 0.0000006, 3);
    var c := Document(3, 0.0000012, 5);
    assert Tied(a, b) && Tied(b, c) && !Tied(a, c);
    assert RanksBefore(c, b) && RanksBefore(b, a) && RanksBefore(c, a);
    assert !RanksBefore(a, b) && !RanksBefore(b, c) && !RanksBefore(a, c);
    assert !RanksBefore(a, a) && !RanksBefore(b, b) && !RanksBefore(c, c);
  }

  /** Where RanksBefore is a strict weak order, a sequence with no neighbour
      pair out of order has no pair out of order at all. */
  lemma {:induction false} AdjacentOrderedIsOrdered(s: seq<Document>)
    requires StrictWeakOn(s)
    requires AdjacentOrdered(s, RanksBefore)
    ensures forall i, j :: 0 <= i < j < |s| ==> !RanksBefore(s[j], s[i])
  {
    if |s| > 1 {
      var t := s[..|s| - 1];
      assert StrictWeakOn(t);
      assert AdjacentOrdered(t, RanksBefore);
      AdjacentOrderedIsOrdered(t);
      var last := |s| - 1;
      forall i | 0 <= i < last
        ensures !RanksBefore(s[last], s[i])
      {
        if i < last - 1 {
          assert !RanksBefore(t[last - 1], t[i]);
          assert s[i] in s && s[last - 1] in s && s[last] in s;
        }
      }
    }
  }

  /** r is the start of a permutation of all with no neighbour pair out of
      order by RanksBefore. */
  ghost predicate SortedPrefix(r: seq<Document>, all: seq<Document>)
  {
    exists rest: seq<Document> :: multiset(r + rest) == multiset(all) && AdjacentOrdered(r + rest, RanksBefore)
  }

  /** Search_server.h:157-170: sort by RanksBefore and keep the first
      MaxResultDocumentCount. The result is the start of a permutation of
      all with no neighbour pair out of order; where RanksBefore is a strict
      weak order on the candidates (transitive ties are one such case),
      nothing left out ranks before anything kept. */
  method TopDocuments(all: seq<Document>) returns (r: seq<Document>)
    ensures |r| == if |all| > MaxResultDocumentCount then MaxResultDocumentCount else |all|
    ensures multiset(r) <= multiset(all)
    ensures |all| <= MaxResultDocumentCount ==> multiset(r) == multiset(all)
    ensures AdjacentOrdered(r, RanksBefore)
    ensures SortedPrefix(r, all)
    ensures StrictWeakOn(all) ==> forall x, y :: x in r && y in multiset(all) - multiset(r) ==> !RanksBefore(y, x)
    ensures TiesTransitive(all) ==> forall x, y :: x in r && y in multiset(all) - multiset(r) ==> !RanksBefore(y, x)
  {
    var matched := new Document[|all|](i requires 0 <= i < |all| => all[i]);
    assert matched[..] == all;
    RanksBeforeAsymmetric();
    SortBy(matched, RanksBefore);
    ghost var sorted := matched[..];
    var k := if matched.Length > MaxResultDocumentCount then MaxResultDocumentCount else matched.Length;
    r := matched[..k];
    assert sorted == r + sorted[k..];
    assert multiset(r + sorted[k..]) == multiset(all) && AdjacentOrdered(r + sorted[k..], RanksBefore);
    SortedPrefixNoneBetter(r, all);
    if TiesTransitive(all) {
      TiesTransitiveIsStrictWeak(all);
    }
  }

  /** Where RanksBefore is a strict weak order on the candidates, the start
      of a permutation with no neighbour pair out of order is a top-k: no
      candidate left out ranks before one kept. */
  lemma SortedPrefixNoneBetter(r: seq<Document>, all: seq<Document>)
    requires SortedPrefix(r, all)
    ensures StrictWeakOn(all) ==> forall x, y :: x in r && y in multiset(all) - multiset(r) ==> !RanksBefore(y, x)
  {
    if StrictWeakOn(all) {
      var rest :| multiset(r + rest) == multiset(all) && AdjacentOrdered(r + rest, RanksBefore);
      SortedPrefixIsTop(r + rest, |r|, all);
      assert (r + rest)[..|r|] == r;
    }
  }

  /** Where RanksBefore is a strict weak order, the first k of a sequence
      with no neighbour pair out of order beat every other element. */
  lemma SortedPrefixIsTop(sorted: seq<Document>, k: nat, all: seq<Document>)
    requires k <= |sorted|
    requires multiset(sorted) == multiset(all)
    requires AdjacentOrdered(sorted, RanksBefore)
    requires StrictWeakOn(all)
    ensures forall x, y :: x in sorted[..k] && y in multiset(all) - multiset(sorted[..k]) ==> !RanksBefore(y, x)
  {
    PermutedStrictWeak(sorted, all);
    AdjacentOrderedIsOrdered(sorted);
    assert sorted == sorted[..k] + sorted[k..];
    forall x, y | x in sorted[..k] && y in multiset(all) - multiset(sorted[..k])
      ensures !RanksBefore(y, x)
    {
      var i :| 0 <= i < k && sorted[i] == x;
      assert y in multiset(sorted[k..]);
      var j :| k <= j < |sorted| && sorted[j] == y;
    }
  }

  /** A strict weak order depends only on which documents there are. */
  lemma PermutedStrictWeak(s: seq<Document>, t: seq<Document>)
    requires multiset(s) == multiset(t)
    requires StrictWeakOn(t)
    ensures StrictWeakOn(s)
  {
    forall x, y, z | x in s && y in s && z in s && !RanksBefore(y, x) && !RanksBefore(z, y)
      ensures !RanksBefore(z, x)
    {
      assert x in multiset(t) && y in multiset(t) && z in multiset(t);
    }
  }

  /** The two ways a search can be run. */
  datatype ExecutionPolicy = Sequenced | Parallel

  /** Ties are transitive among the relevances of the found documents. */
  ghost predicate RelevanceTiesTransitive(inv: InvertedIndex, docs: map<nat, DocumentData>, pred: DocumentPredicate,
                                          idf: Idf, query: Query)
  {
    forall id1: nat, id2: nat, id3: nat ::
      Selected(inv, docs, pred, query, id1) && Selected(inv, docs, pred, query, id2) && Selected(inv, docs, pred, query, id3) ==>
      var r1 := Relevance(inv, |docs|, idf, query.plusWords, id1);
      var r2 := Relevance(inv, |docs|, idf, query.plusWords, id2);
      var r3 := Relevance(inv, |docs|, idf, query.plusWords, id3);
      Abs(r1 - r2) < Epsilon && Abs(r2 - r3) < Epsilon ==> Abs(r1 - r3) < Epsilon
  }

  /** What FindTopDocuments returns for a parsed query: at most
      MaxResultDocumentCount found documents, each once, with its relevance
      and rating; the start of a permutation of all found documents with no
      neighbour pair out of order; all of them when there are fewer; and,
      where ties are transitive, no document left out ranks before one
      returned. */
  ghost predicate TopDocumentsOf(r: seq<Document>, inv: InvertedIndex, docs: map<nat, DocumentData>,
                                 pred: DocumentPredicate, idf: Idf, query: Query)
  {
    |r| <= MaxResultDocumentCount
    && FoundOnce(r, inv, docs, pred, idf, query)
    && AdjacentOrdered(r, RanksBefore)
    && (exists all :: AllDocuments(all, inv, docs, pred, idf, query) && SortedPrefix(r, all))
    && (|r| < MaxResultDocumentCount ==> ReturnsAllFound(r, inv, docs, pred, query))
    && (RelevanceTiesTransitive(inv, docs, pred, idf, query) ==> NoneBetterLeftOut(r, inv, docs, pred, idf, query))
  }

  /** Every document of r is a found one, and no id occurs twice. */
  ghost predicate FoundOnce(r: seq<Document>, inv: InvertedIndex, docs: map<nat, DocumentData>,
                            pred: DocumentPredicate, idf: Idf, query: Query)
  {
    && (forall i :: 0 <= i < |r| ==> Found(r[i], inv, docs, pred, idf, query))
    && (forall i, j :: 0 <= i < j < |r| ==> r[i].id != r[j].id)
  }

  /** Every found document is in r. */
  ghost predicate ReturnsAllFound(r: seq<Document>, inv: InvertedIndex, docs: map<nat, DocumentData>,
                                  pred: DocumentPredicate, query: Query)
  {
    forall id: nat :: Selected(inv, docs, pred, query, id) ==> exists i :: 0 <= i < |r| && r[i].id == id
  }

  /** No found document missing from r ranks before one in r. */
  ghost predicate NoneBetterLeftOut(r: seq<Document>, inv: InvertedIndex, docs: map<nat, DocumentData>,
                                    pred: DocumentPredicate, idf: Idf, query: Query)
  {
    forall id: nat, i :: Selected(inv, docs, pred, query, id) && 0 <= i < |r| && (forall j :: 0 <= j < |r| ==> r[j].id != id)
      ==> !RanksBefore(Ranked(inv, docs, idf, query, id), r[i])
  }

  /** Search_server.h:150-202 after the parse: find with the chosen
      policy, then keep the best. */
  method FindTopDocuments(inv: InvertedIndex, docs: map<nat, DocumentData>, pred: DocumentPredicate, idf: Idf,
                          query: Query, policy: ExecutionPolicy)
    returns (r: seq<Document>)
    requires RowIdsKnown(inv, docs)
    ensures TopDocumentsOf(r, inv, docs, pred, idf, query)
  {
    var all;
    if policy == Sequenced {
      all := FindAllDocuments(inv, docs, pred, idf, query);
    } else {
      all := FindAllDocumentsParallel(inv, docs, pred, idf, query);
    }
    r := TopDocuments(all);
    TopOfAll(all, r, inv, docs, pred, idf, query);
  }

  /** From the properties of the sort and the truncation to those of the
      search result. */
  lemma TopOfAll(all: seq<Document>, r: seq<Document>, inv: InvertedIndex, docs: map<nat, DocumentData>,
                 pred: DocumentPredicate, idf: Idf, query: Query)
    requires AllDocuments(all, inv, docs, pred, idf, query)
    requires |r| == if |all| > MaxResultDocumentCount then MaxResultDocumentCount else |all|
    requires multiset(r) <= multiset(all)
    requires |all| <= MaxResultDocumentCount ==> multiset(r) == multiset(all)
    requires AdjacentOrdered(r, RanksBefore)
    requires SortedPrefix(r, all)
    requires TiesTransitive(all) ==> forall x, y :: x in r && y in multiset(all) - multiset(r) ==> !RanksBefore(y, x)
    ensures TopDocumentsOf(r, inv, docs, pred, idf, query)
  {
    assert AllDocuments(all, inv, docs, pred, idf, query) && SortedPrefix(r, all);
    TopFoundOnce(all, r, inv, docs, pred, idf, query);
    if |r| < MaxResultDocumentCount {
      TopComplete(all, r, inv, docs, pred, idf, query);
    }
    TopOutranksRest(all, r, inv, docs, pred, idf, query);
  }

  /** A sub-multiset of the documents found holds found documents, each
      id once. */
  lemma TopFoundOnce(all: seq<Document>, r: seq<Document>, inv: InvertedIndex, docs: map<nat, DocumentData>,
                     pred: DocumentPredicate, idf: Idf, query: Query)
    requires AllDocuments(all, inv, docs, pred, idf, query)
    requires multiset(r) <= multiset(all)
    ensures FoundOnce(r, inv, docs, pred, idf, query)
  {
    SubElements(all, r);
    TopElements(all, r, inv, docs, pred, idf, query);
    TopDistinct(all, r);
  }

  /** Every returned document is a found one. */
  lemma TopElements(all: seq<Document>, r: seq<Document>, inv: InvertedIndex, docs: map<nat, DocumentData>,
                    pred: DocumentPredicate, idf: Idf, query: Query)
    requires AllDocuments(all, inv, docs, pred, idf, query)
    requires forall x :: x in r ==> x in all
    ensures forall i :: 0 <= i < |r| ==> Found(r[i], inv, docs, pred, idf, query)
  {
    forall i | 0 <= i < |r|
      ensures Found(r[i], inv, docs, pred, idf, query)
    {
      assert r[i] in all;
      var k :| 0 <= k < |all| && all[k] == r[i];
    }
  }

  lemma SubElements(all: seq<Document>, r: seq<Document>)
    requires multiset(r) <= multiset(all)
    ensures forall x :: x in r ==> x in all
  {
    forall x | x in r
      ensures x in all
    {
      assert x in multiset(r);
    }
  }

  /** When nothing was cut off, every found document is returned. */
  lemma TopComplete(all: seq<Document>, r: seq<Document>, inv: InvertedIndex, docs: map<nat, DocumentData>,
                    pred: DocumentPredicate, idf: Idf, query: Query)
    requires AllDocuments(all, inv, docs, pred, idf, query)
    requires multiset(r) == multiset(all)
    ensures ReturnsAllFound(r, inv, docs, pred, query)
  {
    forall id: nat | Selected(inv, docs, pred, query, id)
      ensures exists i :: 0 <= i < |r| && r[i].id == id
    {
      var k :| 0 <= k < |all| && all[k].id == id;
      assert all[k] in multiset(r);
    }
  }

  /** Transitive ties among the found documents are transitive ties in the
      search result. */
  lemma AllTiesTransitive(all: seq<Document>, inv: InvertedIndex, docs: map<nat, DocumentData>,
                          pred: DocumentPredicate, idf: Idf, query: Query)
    requires forall i :: 0 <= i < |all| ==> Found(all[i], inv, docs, pred, idf, query)
    requires RelevanceTiesTransitive(inv, docs, pred, idf, query)
    ensures TiesTransitive(all)
  {
    forall x, y, z | x in all && y in all && z in all && Tied(x, y) && Tied(y, z)
      ensures Tied(x, z)
    {
      FoundIn(all, x, inv, docs, pred, idf, query);
      FoundIn(all, y, inv, docs, pred, idf, query);
      FoundIn(all, z, inv, docs, pred, idf, query);
      FoundTiesTransitive(x.id as nat, y.id as nat, z.id as nat, inv, docs, pred, idf, query);
    }
  }

  lemma FoundIn(all: seq<Document>, x: Document, inv: InvertedIndex, docs: map<nat, DocumentData>,
                pred: DocumentPredicate, idf: Idf, query: Query)
    requires forall i :: 0 <= i < |all| ==> Found(all[i], inv, docs, pred, idf, query)
    requires x in all
    ensures x.id >= 0 && Selected(inv, docs, pred, query, x.id as nat)
    ensures x.relevance == Relevance(inv, |docs|, idf, query.plusWords, x.id as nat)
  {
    var i :| 0 <= i < |all| && all[i] == x;
  }

  /** One instance of RelevanceTiesTransitive. */
  lemma FoundTiesTransitive(id1: nat, id2: nat, id3: nat, inv: InvertedIndex, docs: map<nat, DocumentData>,
                            pred: DocumentPredicate, idf: Idf, query: Query)
    requires RelevanceTiesTransitive(inv, docs, pred, idf, query)
    requires Selected(inv, docs, pred, query, id1) && Selected(inv, docs, pred, query, id2) && Selected(inv, docs, pred, query, id3)
    ensures var r1 := Relevance(inv, |docs|, idf, query.plusWords, id1);
            var r2 := Relevance(inv, |docs|, idf, query.plusWords, id2);
            var r3 := Relevance(inv, |docs|, idf, query.plusWords, id3);
            Abs(r1 - r2) < Epsilon && Abs(r2 - r3) < Epsilon ==> Abs(r1 - r3) < Epsilon
  {
  }

  /** A sub-multiset of a sequence made of the documents of distinct ids
      holds each id once. */
  lemma TopDistinct(all: seq<Document>, r: seq<Document>)
    requires forall i, j :: 0 <= i < j < |all| ==> all[i].id < all[j].id
    requires forall i :: 0 <= i < |all| ==> all[i].id >= 0 && all[i] == Document(all[i].id, all[i].relevance, all[i].rating)
    requires multiset(r) <= multiset(all)
    requires forall x, y :: x in all && y in all && x.id == y.id ==> x == y
    ensures forall i, j :: 0 <= i < j < |r| ==> r[i].id != r[j].id
  {
    forall i, j | 0 <= i < j < |r|
      ensures r[i].id != r[j].id
    {
      assert r[i] in multiset(r) && r[j] in multiset(r);
      if r[i].id == r[j].id {
        DuplicateCounts(r, i, j);
        DistinctCounts(all, r[i]);
      }
    }
  }

  /** Where ties are transitive among the found documents, none better is
      left out. */
  lemma TopOutranksRest(all: seq<Document>, r: seq<Document>, inv: InvertedIndex, docs: map<nat, DocumentData>,
                     pred: DocumentPredicate, idf: Idf, query: Query)
    requires AllDocuments(all, inv, docs, pred, idf, query)
    requires TiesTransitive(all) ==> forall x, y :: x in r && y in multiset(all) - multiset(r) ==> !RanksBefore(y, x)
    ensures RelevanceTiesTransitive(inv, docs, pred, idf, query) ==> NoneBetterLeftOut(r, inv, docs, pred, idf, query)
  {
    if RelevanceTiesTransitive(inv, docs, pred, idf, query) {
      AllTiesTransitive(all, inv, docs, pred, idf, query);
      forall id: nat, i | Selected(inv, docs, pred, query, id) && 0 <= i < |r| && (forall j :: 0 <= j < |r| ==> r[j].id != id)
        ensures !RanksBefore(Ranked(inv, docs, idf, query, id), r[i])
      {
        var k :| 0 <= k < |all| && all[k].id == id;
        assert all[k] !in r;
        assert all[k] in multiset(all) - multiset(r);
        assert r[i] in r;
      }
    }
  }

  /** An element at two positions occurs at least twice. */
  lemma DuplicateCounts(s: seq<Document>, i: nat, j: nat)
    requires i < j < |s| && s[i] == s[j]
    ensures multiset(s)[s[i]] >= 2
  {
    assert s == s[..j] + [s[j]] + s[j + 1..];
    assert s[i] in s[..j];
  }

  /** In a sequence strictly increasing by id, no element occurs twice. */
  lemma {:induction false} DistinctCounts(s: seq<Document>, x: Document)
    requires forall i, j :: 0 <= i < j < |s| ==> s[i].id < s[j].id
    ensures multiset(s)[x] <= 1
  {
    if |s| > 0 {
      var t := s[..|s| - 1];
      assert s == t + [s[|s| - 1]];
      DistinctCounts(t, x);
      if x == s[|s| - 1] {
        assert x !in t;
      }
    }
  }
}
