/** The document store's two coupled maps, described as values: the
    inverted index (word -> id -> term frequency) and the forward index
    (id -> word -> term frequency), what AddDocument does to them, what each
    RemoveDocument does to them, and the average rating. */
module Index {
  import opened Words

  type InvertedIndex = map<string, map<nat, real>>
  type ForwardIndex = map<nat, map<string, real>>

  /** Every posting of the inverted index is also a posting of the forward
      index, with the same frequency. */
  ghost predicate InvertedWithinForward(inv: InvertedIndex, fwd: ForwardIndex)
  {
    forall w, id :: w in inv && id in inv[w] ==> id in fwd && w in fwd[id] && fwd[id][w] == inv[w][id]
  }

  /** Every posting of the forward index is also a posting of the inverted
      index, with the same frequency. */
  ghost predicate ForwardWithinInverted(inv: InvertedIndex, fwd: ForwardIndex)
  {
    forall id, w :: id in fwd && w in fwd[id] ==> w in inv && id in inv[w] && inv[w][id] == fwd[id][w]
  }

  /** The two indexes are transposes of each other. */
  ghost predicate Transposed(inv: InvertedIndex, fwd: ForwardIndex)
  {
    InvertedWithinForward(inv, fwd) && ForwardWithinInverted(inv, fwd)
  }

  /** The row of w, empty when w has none (what operator[] creates). */
  function RowOf(inv: InvertedIndex, w: string): map<nat, real>
  {
    if w in inv then inv[w] else map[]
  }

  /** The term frequency of every word of a document: its occurrences over
      the number of words. */
  function TermFrequencies(words: seq<string>): map<string, real>
  {
    map w | w in words :: Count(words, w) as real / |words| as real
  }

  /** The inverted index with the column of document id filled in from tf. */
  function InsertColumn(inv: InvertedIndex, id: nat, tf: map<string, real>): InvertedIndex
  {
    map w | w in inv.Keys + tf.Keys :: if w in tf then RowOf(inv, w)[id := tf[w]] else inv[w]
  }

  /** The inverted index with id erased from the rows of the given words
      (the rows themselves stay, possibly empty). */
  function EraseFromRows(inv: InvertedIndex, id: nat, words: set<string>): InvertedIndex
  {
    map w | w in inv :: if w in words then inv[w] - {id} else inv[w]
  }

  /** The forward entry AddDocument has built after walking the given
      words: c added to a word's cell, created at 0, once per occurrence. */
  function PartialFrequencies(words: seq<string>, c: real): map<string, real>
  {
    if |words| == 0 then map[]
    else
      var p := PartialFrequencies(words[..|words| - 1], c);
      var x := words[|words| - 1];
      p[x := (if x in p then p[x] else 0.0) + c]
  }

  /** c added k times to 0. */
  function Repeated(k: nat, c: real): real
  {
    if k == 0 then 0.0 else Repeated(k - 1, c) + c
  }

  lemma {:induction false} RepeatedIsProduct(k: nat, c: real)
    ensures Repeated(k, c) == k as real * c
  {
    if k > 0 {
      RepeatedIsProduct(k - 1, c);
      AddOneTimes((k - 1) as real, c);
    }
  }

  lemma AddOneTimes(k: real, c: real)
    ensures (k + 1.0) * c == k * c + c
  {
  }

  /** Each word's cell holds c added once per occurrence. */
  lemma {:induction false} PartialFrequenciesAt(words: seq<string>, c: real, w: string)
    ensures w in PartialFrequencies(words, c) <==> w in words
    ensures w in words ==> PartialFrequencies(words, c)[w] == Repeated(Count(words, w), c)
  {
    if |words| > 0 {
      var init := words[..|words| - 1];
      var x := words[|words| - 1];
      assert words == init + [x];
      PartialFrequenciesAt(init, c, w);
      CountAppend(init, x, w);
      CountPositive(init, w);
    }
  }

  /** Having added 1/N once per occurrence, the frequencies are the term
      frequencies. */
  lemma PartialFrequenciesComplete(words: seq<string>)
    requires |words| > 0
    ensures PartialFrequencies(words, 1.0 / |words| as real) == TermFrequencies(words)
  {
    var n := |words| as real;
    var lhs := PartialFrequencies(words, 1.0 / n);
    var rhs := TermFrequencies(words);
    forall w
      ensures w in lhs <==> w in rhs
    {
      PartialFrequenciesAt(words, 1.0 / n, w);
    }
    assert lhs.Keys == rhs.Keys;
    forall w | w in lhs
      ensures lhs[w] == rhs[w]
    {
      PartialFrequenciesAt(words, 1.0 / n, w);
      RepeatedReciprocal(Count(words, w), |words|);
    }
  }

  lemma RepeatedReciprocal(k: nat, n: nat)
    requires n > 0
    ensures Repeated(k, 1.0 / n as real) == k as real / n as real
  {
    RepeatedIsProduct(k, 1.0 / n as real);
    TimesReciprocal(k as real, n as real);
  }

  lemma TimesReciprocal(k: real, n: real)
    requires n > 0.0
    ensures k * (1.0 / n) == k / n
  {
  }

  /** The row of one word after inserting a column. */
  lemma InsertColumnAt(inv: InvertedIndex, id: nat, tf: map<string, real>, w: string)
    ensures w in InsertColumn(inv, id, tf) <==> w in inv || w in tf
    ensures RowOf(InsertColumn(inv, id, tf), w) == if w in tf then RowOf(inv, w)[id := tf[w]] else RowOf(inv, w)
  {
  }

  /** Filling in one more cell of a column whose document has no posting
      elsewhere. */
  lemma InsertColumnStep(inv: InvertedIndex, id: nat, p: map<string, real>, x: string, v: real)
    requires forall w :: w in inv ==> id !in inv[w]
    ensures InsertColumn(inv, id, p[x := v])
         == InsertColumn(inv, id, p)[x := RowOf(InsertColumn(inv, id, p), x)[id := v]]
  {
    var base := InsertColumn(inv, id, p);
    var lhs := InsertColumn(inv, id, p[x := v]);
    var rhs := base[x := RowOf(base, x)[id := v]];
    InsertColumnAt(inv, id, p, x);
    InsertColumnAt(inv, id, p[x := v], x);
    assert lhs.Keys == rhs.Keys;
    forall w | w in lhs
      ensures lhs[w] == rhs[w]
    {
      if w == x {
        if x in p {
          assert RowOf(inv, x)[id := p[x]][id := v] == RowOf(inv, x)[id := v];
        }
      } else {
        InsertColumnAt(inv, id, p, w);
        InsertColumnAt(inv, id, p[x := v], w);
      }
    }
  }

  /** The cell that operator[] reads before adding to it. */
  lemma InsertColumnCell(inv: InvertedIndex, id: nat, p: map<string, real>, x: string)
    requires forall w :: w in inv ==> id !in inv[w]
    ensures id in RowOf(InsertColumn(inv, id, p), x) <==> x in p
    ensures x in p ==> RowOf(InsertColumn(inv, id, p), x)[id] == p[x]
  {
  }

  /** One more word adds c to its partial frequency, or starts it at c. */
  lemma PartialFrequenciesStep(words: seq<string>, k: nat, c: real)
    requires k < |words|
    ensures var p := PartialFrequencies(words[..k], c);
            PartialFrequencies(words[..k + 1], c) == p[words[k] := (if words[k] in p then p[words[k]] else 0.0) + c]
  {
    assert words[..k + 1][..k] == words[..k];
  }

  /** One occurrence of the k-th word, added to the inverted index the way
      operator[] does, extends the column by that word. */
  lemma InvertedWordStep(inv0: InvertedIndex, id: nat, words: seq<string>, k: nat, c: real,
                         inv: InvertedIndex, row: map<nat, real>, cell: real)
    requires k < |words|
    requires forall w :: w in inv0 ==> id !in inv0[w]
    requires inv == InsertColumn(inv0, id, PartialFrequencies(words[..k], c))
    requires row == RowOf(inv, words[k]) && cell == (if id in row then row[id] else 0.0)
    ensures inv[words[k] := row[id := cell + c]] == InsertColumn(inv0, id, PartialFrequencies(words[..k + 1], c))
  {
    var p := PartialFrequencies(words[..k], c);
    PartialFrequenciesStep(words, k, c);
    InsertColumnCell(inv0, id, p, words[k]);
    assert cell == if words[k] in p then p[words[k]] else 0.0;
    assert PartialFrequencies(words[..k + 1], c) == p[words[k] := cell + c];
    InsertColumnStep(inv0, id, p, words[k], cell + c);
  }

  /** The same occurrence added to the forward entry of the document. */
  lemma ForwardWordStep(fwd0: ForwardIndex, id: nat, words: seq<string>, k: nat, c: real,
                        fwd: ForwardIndex, entry: map<string, real>, value: real)
    requires k < |words|
    requires k == 0 ==> fwd == fwd0
    requires k > 0 ==> fwd == fwd0[id := PartialFrequencies(words[..k], c)]
    requires id !in fwd0
    requires entry == (if id in fwd then fwd[id] else map[])
    requires value == (if words[k] in entry then entry[words[k]] else 0.0)
    ensures fwd[id := entry[words[k] := value + c]] == fwd0[id := PartialFrequencies(words[..k + 1], c)]
  {
    PartialFrequenciesStep(words, k, c);
    assert entry == PartialFrequencies(words[..k], c) by {
      assert k == 0 ==> words[..k] == [];
    }
  }

  /** Adding the column of a document that has no entry keeps the indexes
      transposed, and keeps the weaker half on its own. */
  lemma InsertColumnKeepsTranspose(inv: InvertedIndex, fwd: ForwardIndex, id: nat, tf: map<string, real>)
    requires InvertedWithinForward(inv, fwd)
    requires id !in fwd
    ensures InvertedWithinForward(InsertColumn(inv, id, tf), fwd[id := tf])
    ensures ForwardWithinInverted(inv, fwd) ==> ForwardWithinInverted(InsertColumn(inv, id, tf), fwd[id := tf])
  {
    var inv' := InsertColumn(inv, id, tf);
    var fwd' := fwd[id := tf];
    forall w, d | w in inv' && d in inv'[w]
      ensures d in fwd' && w in fwd'[d] && fwd'[d][w] == inv'[w][d]
    {
      if d != id {
        assert w in inv && d in inv[w];
      }
    }
  }

  /** A document without words adds no column. */
  lemma InsertEmptyColumn(inv: InvertedIndex, id: nat)
    ensures InsertColumn(inv, id, map[]) == inv
  {
  }

  /** Erasing a document from the rows of its own words, and dropping its
      forward entry, keeps the indexes transposed, and keeps the weaker
      half on its own. */
  lemma EraseColumnKeepsTranspose(inv: InvertedIndex, fwd: ForwardIndex, id: nat)
    requires InvertedWithinForward(inv, fwd)
    requires id in fwd
    ensures InvertedWithinForward(EraseFromRows(inv, id, fwd[id].Keys), fwd - {id})
    ensures ForwardWithinInverted(inv, fwd) ==> ForwardWithinInverted(EraseFromRows(inv, id, fwd[id].Keys), fwd - {id})
  {
  }

  /** Erasing id from some rows touches no posting of another document. */
  lemma EraseFromRowsKeepsOthers(inv: InvertedIndex, id: nat, words: set<string>, w: string, d: nat)
    requires d != id
    ensures w in EraseFromRows(inv, id, words) <==> w in inv
    ensures (w in EraseFromRows(inv, id, words) && d in EraseFromRows(inv, id, words)[w]) <==> (w in inv && d in inv[w])
    ensures w in inv && d in inv[w] ==> EraseFromRows(inv, id, words)[w][d] == inv[w][d]
    ensures w in EraseFromRows(inv, id, words) && w in words ==> id !in EraseFromRows(inv, id, words)[w]
  {
  }

  /** After a document of N words is added, the cell of each of its words,
      in the word's row, is the word's occurrences over N, and no other row
      holds the document. */
  lemma AddedFrequencies(inv: InvertedIndex, id: nat, words: seq<string>)
    requires |words| > 0
    requires forall w :: w in inv ==> id !in inv[w]
    ensures forall w :: w in words ==> (&& w in InsertColumn(inv, id, TermFrequencies(words))
                                       && id in InsertColumn(inv, id, TermFrequencies(words))[w]
                                       && InsertColumn(inv, id, TermFrequencies(words))[w][id]
                                          == Count(words, w) as real / |words| as real)
    ensures forall w :: id in RowOf(InsertColumn(inv, id, TermFrequencies(words)), w) ==> w in words
  {
  }

  /** Adding a document and then erasing it from the rows of its words
      leaves exactly the postings there were before; only the rows the
      addition created stay behind, empty. */
  lemma AddThenEraseRestoresPostings(inv: InvertedIndex, id: nat, tf: map<string, real>, w: string, d: nat)
    requires forall x :: x in inv ==> id !in inv[x]
    ensures d in RowOf(EraseFromRows(InsertColumn(inv, id, tf), id, tf.Keys), w) <==> d in RowOf(inv, w)
    ensures d in RowOf(inv, w) ==> EraseFromRows(InsertColumn(inv, id, tf), id, tf.Keys)[w][d] == inv[w][d]
  {
  }

  /** Erasing id from one more row is one more step of EraseFromRows. */
  lemma EraseFromRowsStep(inv: InvertedIndex, id: nat, erased: set<string>, x: string)
    requires x in inv
    ensures EraseFromRows(inv, id, erased)[x := inv[x] - {id}] == EraseFromRows(inv, id, erased + {x})
  {
  }

  /** Dropping the whole rows of a document's words, with its forward entry,
      leaves no posting the forward index does not have. */
  lemma EraseRowsKeepsInvertedWithinForward(inv: InvertedIndex, fwd: ForwardIndex, id: nat)
    requires InvertedWithinForward(inv, fwd)
    requires id in fwd
    ensures InvertedWithinForward(inv - fwd[id].Keys, fwd - {id})
  {
  }

  function Sum(ratings: seq<int>): int
  {
    if |ratings| == 0 then 0 else Sum(ratings[..|ratings| - 1]) + ratings[|ratings| - 1]
  }

  /** C++ integer division of a by a positive n: the quotient truncated
      toward zero, not rounded down as Dafny's / does. */
  function TruncatedDiv(a: int, n: int): (q: int)
    requires n > 0
    ensures 0 <= a ==> 0 <= a - q * n < n
    ensures a < 0 ==> -n < a - q * n <= 0
  {
    if a >= 0 then a / n else -((-a) / n)
  }

  /** The rating a new document gets: 0 for no ratings, otherwise their sum
      divided by their count with C++ truncation. */
  function AverageRating(ratings: seq<int>): int
  {
    if |ratings| == 0 then 0 else TruncatedDiv(Sum(ratings), |ratings|)
  }

  /** Search_server.cpp ComputeAverageRating. */
  method ComputeAverageRating(ratings: seq<int>) returns (r: int)
    ensures |ratings| == 0 ==> r == 0
    ensures |ratings| > 0 && Sum(ratings) >= 0 ==> r * |ratings| <= Sum(ratings) < (r + 1) * |ratings|
    ensures |ratings| > 0 && Sum(ratings) < 0 ==> (r - 1) * |ratings| < Sum(ratings) <= r * |ratings|
    ensures r == AverageRating(ratings)
  {
    if |ratings| == 0 {
      return 0;
    }
    var ratingSum := 0;
    for i := 0 to |ratings|
      invariant ratingSum == Sum(ratings[..i])
    {
      assert ratings[..i + 1][..i] == ratings[..i];
      ratingSum := ratingSum + ratings[i];
    }
    assert ratings[..|ratings|] == ratings;
    r := TruncatedDiv(ratingSum, |ratings|);
  }
}
