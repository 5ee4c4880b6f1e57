/** The document matcher: which of a query's words a document matches,
    with each way MatchDocument can fail. */
module Matcher {
  import opened Errors
  import opened StringProcessing
  import opened Documents
  import opened Ordering
  import opened QueryParser
  import opened Index
  import opened Ranking

  /** Some minus word's row holds the document: the query excludes it. */
  predicate Excluded(inv: InvertedIndex, minusWords: set<string>, id: nat)
  {
    exists w :: w in minusWords && InRowOf(inv, w, id)
  }

  /** Walking the minus words in ascending order, a word that has no row
      (so that `.at` throws) comes before every word whose row holds the
      document (so that any_of would have stopped). */
  ghost predicate MinusWalkFails(inv: InvertedIndex, minusWords: set<string>, id: nat)
  {
    exists w :: w in minusWords && w !in inv && forall u :: u in minusWords && InRowOf(inv, u, id) ==> StrLess(w, u)
  }

  /** The plus words whose row holds the document. */
  ghost function MatchedWords(inv: InvertedIndex, plusWords: set<string>, id: nat): set<string>
  {
    set w | w in plusWords && InRowOf(inv, w, id)
  }

  /** Search_server.h:339-343: any_of over the minus words in ascending
      order, asking each word's row (with `.at`) whether it holds the
      document. Success(true) means excluded. */
  method WalkMinusWords(inv: InvertedIndex, minusWords: set<string>, id: nat) returns (r: Result<bool>)
    ensures r.Failure? <==> MinusWalkFails(inv, minusWords, id)
    ensures r.Failure? ==> r.error == Terminated
    ensures r.Success? ==> (r.value <==> Excluded(inv, minusWords, id))
  {
    var words := SortedWords(minusWords);
    for k := 0 to |words|
      invariant forall j :: 0 <= j < k ==> words[j] in inv && id !in inv[words[j]]
    {
      if words[k] !in inv {
        forall u | u in minusWords && InRowOf(inv, u, id)
          ensures StrLess(words[k], u)
        {
          var j :| 0 <= j < |words| && words[j] == u;
          assert k < j;
        }
        return Failure(Terminated);
      }
      if id in inv[words[k]] {
        forall w | w in minusWords && w !in inv
          ensures !(forall u :: u in minusWords && InRowOf(inv, u, id) ==> StrLess(w, u))
        {
          var j :| 0 <= j < |words| && words[j] == w;
          assert k < j;
          StrLessAsymmetric();
          assert StrLess(words[k], w);
        }
        assert words[k] in minusWords && InRowOf(inv, words[k], id);
        return Success(true);
      }
    }
    assert forall w :: w in minusWords ==> w in words;
    return Success(false);
  }

  /** What the padded vector holds after copy_if: the matched words of
      plus[..k], then "" in every other place. */
  ghost predicate Padded(a: seq<string>, count: nat, inv: InvertedIndex, plus: seq<string>, k: nat, id: nat)
    requires count <= |a| && k <= |plus|
  {
    && (forall j :: 0 <= j < count ==> a[j] in plus[..k] && InRowOf(inv, a[j], id))
    && (forall j :: 0 <= j < k && InRowOf(inv, plus[j], id) ==> plus[j] in a[..count])
    && (forall j :: count <= j < |a| ==> a[j] == "")
  }

  /** Search_server.h:346-357: copy_if the plus words whose row (found with
      `.at`) holds the document into a vector of |plus words| empty
      strings, sort it, and drop adjacent duplicates. What is left is in
      ascending order, holds exactly the matched words, holds "" exactly
      when some plus word did not match, and is empty only for a query
      without plus words. */
  method CollectPlusWords(inv: InvertedIndex, plusWords: set<string>, id: nat) returns (r: Result<seq<string>>)
    requires forall w :: w in plusWords ==> w != ""
    ensures r.Failure? <==> exists w :: w in plusWords && w !in inv
    ensures r.Failure? ==> r.error == Terminated
    ensures r.Success? ==> StrictlyIncreasing(r.value)
    ensures r.Success? ==> (|r.value| == 0 <==> plusWords == {})
    ensures r.Success? ==> forall w :: w != "" ==> (w in r.value <==> w in MatchedWords(inv, plusWords, id))
    ensures r.Success? ==> ("" in r.value <==> exists w :: w in plusWords && !InRowOf(inv, w, id))
  {
    var plus := SortedWords(plusWords);
    var matched := new string[|plus|](_ => "");
    var ok, count := CopyMatched(inv, plus, id, matched);
    if !ok {
      var j :| 0 <= j < |plus| && plus[j] !in inv;
      assert plus[j] in plusWords;
      return Failure(Terminated);
    }
    SortedSize(plus, plusWords);
    ghost var filled := matched[..];
    PaddedContents(inv, plus, plusWords, id, filled, count);
    StrLessAsymmetric();
    SortBy(matched, StrLess);
    ghost var sorted := matched[..];
    var n := Unique(matched);
    SortedUniqueFacts(filled, sorted);
    return Success(matched[..n]);
  }

  /** A sequence holding exactly the elements of a set is empty exactly
      when the set is. */
  lemma SortedSize(s: seq<string>, elements: set<string>)
    requires forall w :: w in s <==> w in elements
    ensures |s| == 0 <==> elements == {}
  {
    if |s| > 0 {
      assert s[0] in elements;
    }
  }

  /** Sorting and then cutting runs of equal neighbours leaves the same
      elements, strictly increasing, and nothing only from nothing. */
  lemma SortedUniqueFacts(filled: seq<string>, sorted: seq<string>)
    requires multiset(sorted) == multiset(filled)
    requires AdjacentOrdered(sorted, StrLess)
    ensures StrictlyIncreasing(Dedup(sorted))
    ensures forall w :: w in Dedup(sorted) <==> w in filled
    ensures |Dedup(sorted)| == 0 <==> |filled| == 0
  {
    assert forall w :: w in sorted <==> w in filled by {
      assert forall w :: w in sorted <==> w in multiset(sorted);
      assert forall w :: w in filled <==> w in multiset(filled);
    }
    assert |sorted| == |filled| by {
      assert |multiset(sorted)| == |multiset(filled)|;
    }
    DedupElements(sorted);
    DedupSortedIncreasing(sorted);
    AdjacentIncreasingIsIncreasing(Dedup(sorted));
  }

  /** Search_server.h:347-353: copy_if into the padded vector, with `.at`
      throwing for a plus word that has no row. */
  method CopyMatched(inv: InvertedIndex, plus: seq<string>, id: nat, matched: array<string>)
    returns (ok: bool, count: nat)
    requires matched.Length == |plus|
    requires forall j :: 0 <= j < matched.Length ==> matched[j] == ""
    requires forall i, j :: 0 <= i < j < |plus| ==> plus[i] != plus[j]
    modifies matched
    ensures ok <==> forall j :: 0 <= j < |plus| ==> plus[j] in inv
    ensures ok ==> count <= |plus| && Padded(matched[..], count, inv, plus, |plus|, id)
    ensures ok ==> forall i, j :: 0 <= i < j < count ==> matched[i] != matched[j]
  {
    count := 0;
    for k := 0 to |plus|
      invariant count <= k
      invariant forall j :: 0 <= j < k ==> plus[j] in inv
      invariant Padded(matched[..], count, inv, plus, k, id)
      invariant forall i, j :: 0 <= i < j < count ==> matched[i] != matched[j]
    {
      if plus[k] !in inv {
        return false, count;
      }
      ghost var before := matched[..];
      PaddedStep(before, count, inv, plus, k, id);
      if id in inv[plus[k]] {
        matched[count] := plus[k];
        assert matched[..] == before[count := plus[k]];
        count := count + 1;
      }
    }
    return true, count;
  }

  /** The first n elements are pairwise different. */
  ghost predicate DistinctPrefix(a: seq<string>, n: nat)
    requires n <= |a|
  {
    forall i, j :: 0 <= i < j < n ==> a[i] != a[j]
  }

  /** One more plus word: a matched word fills the next empty slot, which
      keeps the copies distinct; an unmatched one changes nothing. */
  lemma PaddedStep(a: seq<string>, count: nat, inv: InvertedIndex, plus: seq<string>, k: nat, id: nat)
    requires |a| == |plus| && count <= k < |plus|
    requires Padded(a, count, inv, plus, k, id)
    requires forall i, j :: 0 <= i < j < count ==> a[i] != a[j]
    requires forall i, j :: 0 <= i < j < |plus| ==> plus[i] != plus[j]
    requires plus[k] in inv
    ensures InRowOf(inv, plus[k], id) ==>
              && Padded(a[count := plus[k]], count + 1, inv, plus, k + 1, id)
              && DistinctPrefix(a[count := plus[k]], count + 1)
    ensures !InRowOf(inv, plus[k], id) ==> Padded(a, count, inv, plus, k + 1, id)
  {
    assert plus[..k + 1] == plus[..k] + [plus[k]];
    if InRowOf(inv, plus[k], id) {
      var b := a[count := plus[k]];
      assert b[..count + 1] == a[..count] + [plus[k]];
      forall j | 0 <= j < count
        ensures a[j] != plus[k]
      {
        var i :| 0 <= i < k && plus[..k][i] == a[j];
      }
    }
  }

  /** What the padded vector holds, as sets: the matched words, and ""
      exactly when some plus word did not match. */
  lemma PaddedContents(inv: InvertedIndex, plus: seq<string>, plusWords: set<string>, id: nat,
                       filled: seq<string>, count: nat)
    requires forall w :: w in plus <==> w in plusWords
    requires forall w :: w in plusWords ==> w != ""
    requires forall i, j :: 0 <= i < j < |plus| ==> plus[i] != plus[j]
    requires |filled| == |plus| && count <= |plus|
    requires Padded(filled, count, inv, plus, |plus|, id)
    requires forall i, j :: 0 <= i < j < count ==> filled[i] != filled[j]
    ensures forall w :: w != "" ==> (w in filled <==> w in MatchedWords(inv, plusWords, id))
    ensures "" in filled <==> exists w :: w in plusWords && !InRowOf(inv, w, id)
  {
    assert plus[..|plus|] == plus;
    assert forall j :: 0 <= j < count ==> filled[j] != "";
    assert count < |plus| ==> filled[count] == "";
    assert "" in filled ==> count < |plus| by {
      if "" in filled {
        var j :| 0 <= j < |filled| && filled[j] == "";
      }
    }
    NotAllMatched(inv, plus, plusWords, id, filled, count);
  }

  /** Fewer words were copied than there are plus words exactly when some
      plus word's row misses the document. */
  lemma NotAllMatched(inv: InvertedIndex, plus: seq<string>, plusWords: set<string>, id: nat,
                      filled: seq<string>, count: nat)
    requires forall w :: w in plus <==> w in plusWords
    requires forall i, j :: 0 <= i < j < |plus| ==> plus[i] != plus[j]
    requires |filled| == |plus| && count <= |plus|
    requires Padded(filled, count, inv, plus, |plus|, id)
    requires plus[..|plus|] == plus
    requires forall i, j :: 0 <= i < j < count ==> filled[i] != filled[j]
    ensures count < |plus| <==> exists w :: w in plusWords && !InRowOf(inv, w, id)
  {
    var hits := set j | 0 <= j < |plus| && InRowOf(inv, plus[j], id) :: plus[j];
    var copied := set j | 0 <= j < count :: filled[j];
    assert hits == copied;
    DistinctCard(filled[..count]);
    assert |copied| == count by {
      assert copied == set x | x in filled[..count];
    }
    if count < |plus| {
      DistinctCard(plus);
      assert (set x | x in plus) == plusWords;
      assert hits != plusWords;
      var w :| w in plusWords && w !in hits;
      assert !InRowOf(inv, w, id);
    } else {
      forall w | w in plusWords
        ensures InRowOf(inv, w, id)
      {
        DistinctCard(plus);
        assert (set x | x in plus) == plusWords;
        assert hits <= plusWords;
        assert |plusWords - hits| == |plusWords| - |hits|;
        assert plusWords - hits == {};
        assert w in hits;
      }
    }
  }

  /** A sequence without repeats has as many distinct elements as places. */
  lemma {:induction false} DistinctCard(s: seq<string>)
    requires forall i, j :: 0 <= i < j < |s| ==> s[i] != s[j]
    ensures |set x | x in s| == |s|
  {
    if |s| > 0 {
      var t := s[..|s| - 1];
      DistinctCard(t);
      assert (set x | x in s) == (set x | x in t) + {s[|s| - 1]};
      assert s[|s| - 1] !in t;
    }
  }

  /** What MatchDocument returns for a raw query and a document id, case by
      case in the order the code meets them (Search_server.h:330-362).
      `guarded` says whether the leading "" is only looked for when some word
      is left; without the guard a query with no plus words reads past the
      end of an empty vector. */
  ghost predicate MatchOutcome(r: Result<(seq<string>, DocumentStatus)>, stopWords: set<string>, inv: InvertedIndex,
                               docs: map<nat, DocumentData>, fwd: ForwardIndex, rawQuery: string, documentId: int,
                               guarded: bool)
  {
    if documentId < 0 || documentId !in fwd then r == Failure(OutOfRange)
    else if ParsedQuery(stopWords, rawQuery).Failure? then r == Failure(InvalidArgument)
    else
      var id := documentId as nat;
      var query := ParsedQuery(stopWords, rawQuery).value;
      if MinusWalkFails(inv, query.minusWords, id) then r == Failure(Terminated)
      else if Excluded(inv, query.minusWords, id) then id in docs && r == Success(([], docs[id].status))
      else if exists w :: w in query.plusWords && w !in inv then r == Failure(Terminated)
      else if query.plusWords == {} && !guarded then r == Failure(OutOfRange)
      else
        && id in docs
        && r.Success?
        && r.value.1 == docs[id].status
        && StrictlyIncreasing(r.value.0)
        && (forall w :: w in r.value.0 <==> w in MatchedWords(inv, query.plusWords, id))
  }

  /** A query's plus words are never empty strings. */
  lemma PlusWordsNonEmpty(stopWords: set<string>, rawQuery: string)
    requires ParsedQuery(stopWords, rawQuery).Success?
    ensures forall w :: w in ParsedQuery(stopWords, rawQuery).value.plusWords ==> w != ""
  {
    forall w | w in ParsedQuery(stopWords, rawQuery).value.plusWords
      ensures w != ""
    {
      ParsedQueryWords(stopWords, rawQuery, w);
    }
  }

  /** In an ascending sequence "" can only stand first. */
  lemma EmptyComesFirst(s: seq<string>)
    requires StrictlyIncreasing(s) && |s| > 0
    ensures "" in s ==> s[0] == ""
    ensures s[0] == "" ==> "" !in s[1..]
  {
    NothingBeforeEmpty(s[0]);
    StrLessIrreflexive("");
  }

  /** Search_server.h:330-362 over the server's state: look the document up
      in the forward index, parse, walk the minus words, collect the
      matched plus words, then drop the padding "" from the front. */
  method MatchIndexed(stopWords: set<string>, inv: InvertedIndex, docs: map<nat, DocumentData>, fwd: ForwardIndex,
                      rawQuery: string, documentId: int, guarded: bool)
    returns (r: Result<(seq<string>, DocumentStatus)>)
    requires fwd.Keys <= docs.Keys
    ensures MatchOutcome(r, stopWords, inv, docs, fwd, rawQuery, documentId, guarded)
  {
    if documentId < 0 || documentId !in fwd {
      return Failure(OutOfRange);
    }
    var id := documentId as nat;
    var query := ParseQuery(stopWords, rawQuery);
    if query.Failure? {
      return Failure(InvalidArgument);
    }
    var excluded := WalkMinusWords(inv, query.value.minusWords, id);
    if excluded.Failure? {
      return Failure(Terminated);
    }
    if excluded.value {
      return Success(([], docs[id].status));
    }
    PlusWordsNonEmpty(stopWords, rawQuery);
    var words := CollectPlusWords(inv, query.value.plusWords, id);
    if words.Failure? {
      return Failure(Terminated);
    }
    var matched := words.value;
    if guarded && |matched| == 0 {
      return Success(([], docs[id].status));
    }
    if |matched| == 0 {
      return Failure(OutOfRange);
    }
    EmptyComesFirst(matched);
    if matched[0] == "" {
      matched := matched[1..];
    }
    return Success((matched, docs[id].status));
  }

  /** Any document passes this filter. */
  function AnyDocument(): DocumentPredicate
  {
    (id: nat, status: DocumentStatus, rating: int) => true
  }

  /** A successful match lists some word exactly when the ranking, with no
      filter, would find the document for the same query. */
  lemma MatchMeansSelected(r: Result<(seq<string>, DocumentStatus)>, stopWords: set<string>, inv: InvertedIndex,
                           docs: map<nat, DocumentData>, fwd: ForwardIndex, rawQuery: string, documentId: int,
                           guarded: bool)
    requires MatchOutcome(r, stopWords, inv, docs, fwd, rawQuery, documentId, guarded)
    requires r.Success?
    ensures documentId >= 0 && ParsedQuery(stopWords, rawQuery).Success?
    ensures r.value.0 != [] <==> Selected(inv, docs, AnyDocument(), ParsedQuery(stopWords, rawQuery).value, documentId as nat)
  {
    var id := documentId as nat;
    var query := ParsedQuery(stopWords, rawQuery).value;
    if r.value.0 != [] {
      assert r.value.0[0] in r.value.0;
    }
    if Selected(inv, docs, AnyDocument(), query, id) {
      var w :| w in query.plusWords && InRowOf(inv, w, id);
      assert w in MatchedWords(inv, query.plusWords, id);
    }
  }

  /** A query made of one stop word parses to no words at all. */
  lemma StopWordQueryIsEmpty(stopWords: set<string>, w: string)
    requires IsQueryTerm(w) && ' ' !in w && w in stopWords
    ensures ParsedQuery(stopWords, w) == Success(Query({}, {}))
  {
    SplitJoin([w]);
    assert Split(w) == [w];
    ParseQueryWordRoundTrip(stopWords, w, false);
    assert !NamesTerm(stopWords, w, false) && !NamesTerm(stopWords, w, true);
    assert TermsOf(stopWords, [w], false) == {};
    assert TermsOf(stopWords, [w], true) == {};
  }

  /** As written, matching a stored document against a query of one stop
      word fails with out_of_range; with the guard it is an empty match. */
  lemma StopWordQueryMatch(r: Result<(seq<string>, DocumentStatus)>, stopWords: set<string>, inv: InvertedIndex,
                           docs: map<nat, DocumentData>, fwd: ForwardIndex, w: string, id: nat, guarded: bool)
    requires IsQueryTerm(w) && ' ' !in w && w in stopWords
    requires id in fwd
    requires MatchOutcome(r, stopWords, inv, docs, fwd, w, id, guarded)
    ensures !guarded ==> r == Failure(OutOfRange)
    ensures guarded ==> id in docs && r == Success(([], docs[id].status))
  {
    StopWordQueryIsEmpty(stopWords, w);
    var query := Query({}, {});
    assert !MinusWalkFails(inv, query.minusWords, id);
    if guarded {
      NoElementsIsEmpty(r.value.0);
    }
  }

  /** A sequence is empty exactly when nothing is in it. */
  lemma NoElementsIsEmpty(s: seq<string>)
    ensures s == [] <==> forall x :: x !in s
  {
    if s != [] {
      assert s[0] in s;
    }
  }
}
