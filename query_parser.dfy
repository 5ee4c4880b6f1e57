/** Parsing of a raw query into its plus and minus words. */
module QueryParser {
  import opened Errors
  import opened StringProcessing
  import opened Words

  /** One parsed query token: the word, whether it carried a leading '-',
      and whether it is a stop word. */
  datatype QueryWord = QueryWord(data: string, isMinus: bool, isStop: bool)

  /** The words a query asks for and the words that exclude a document. */
  datatype Query = Query(plusWords: set<string>, minusWords: set<string>)

  /** A word a query can name: non-empty, not itself starting with '-', and
      free of control characters. */
  predicate IsQueryTerm(data: string)
  {
    data != "" && data[0] != '-' && IsValidWord(data)
  }

  /** How a query spells a term: as it is for a plus word, behind a single
      '-' for a minus word. */
  function Spelling(data: string, isMinus: bool): string
  {
    if isMinus then "-" + data else data
  }

  /** Search_server.cpp ParseQueryWord. */
  function ParseQueryWord(stopWords: set<string>, text: string): (r: Result<QueryWord>)
    ensures r.Success? ==> IsQueryTerm(r.value.data)
    ensures r.Success? ==> Spelling(r.value.data, r.value.isMinus) == text
    ensures r.Success? ==> (r.value.isStop <==> r.value.data in stopWords)
    ensures r.Failure? ==> r.error == InvalidArgument
  {
    if |text| == 0 then Failure(InvalidArgument)
    else
      var isMinus := text[0] == '-';
      var word := if isMinus then text[1..] else text;
      if |word| == 0 || word[0] == '-' || !IsValidWord(word) then Failure(InvalidArgument)
      else
        assert isMinus ==> text == "-" + word;
        Success(QueryWord(word, isMinus, IsStopWord(stopWords, word)))
  }

  /** Every spelling of a term parses back to that term, with its sign. */
  lemma ParseQueryWordRoundTrip(stopWords: set<string>, data: string, isMinus: bool)
    requires IsQueryTerm(data)
    ensures ParseQueryWord(stopWords, Spelling(data, isMinus))
         == Success(QueryWord(data, isMinus, data in stopWords))
  {
    if isMinus {
      assert Spelling(data, isMinus)[1..] == data;
    }
  }

  /** A token is rejected exactly when it spells no term: the empty token,
      a bare "-", a token starting "--", and any token whose word holds a
      control character. */
  lemma ParseQueryWordRejects(stopWords: set<string>, text: string)
    ensures ParseQueryWord(stopWords, text).Failure?
        <==> forall data, isMinus :: IsQueryTerm(data) ==> Spelling(data, isMinus) != text
  {
    if ParseQueryWord(stopWords, text).Failure? {
      forall data, isMinus | IsQueryTerm(data)
        ensures Spelling(data, isMinus) != text
      {
        if Spelling(data, isMinus) == text {
          ParseQueryWordRoundTrip(stopWords, data, isMinus);
        }
      }
    }
  }

  /** The tokens that say the query word `data` with the given sign and are
      not stop words. */
  ghost predicate NamesTerm(stopWords: set<string>, token: string, isMinus: bool)
  {
    var r := ParseQueryWord(stopWords, token);
    r.Success? && !r.value.isStop && r.value.isMinus == isMinus
  }

  ghost function TermsOf(stopWords: set<string>, tokens: seq<string>, isMinus: bool): set<string>
  {
    set i | 0 <= i < |tokens| && NamesTerm(stopWords, tokens[i], isMinus) :: ParseQueryWord(stopWords, tokens[i]).value.data
  }

  /** The query a raw text denotes: invalid_argument if any token is
      rejected, otherwise the non-stop words of its tokens, split by sign. */
  ghost function ParsedQuery(stopWords: set<string>, text: string): Result<Query>
  {
    var tokens := Split(text);
    if exists i :: 0 <= i < |tokens| && ParseQueryWord(stopWords, tokens[i]).Failure? then Failure(InvalidArgument)
    else Success(Query(TermsOf(stopWords, tokens, false), TermsOf(stopWords, tokens, true)))
  }

  /** A parsed query's plus words are exactly the tokens that are non-stop
      terms, and its minus words exactly the non-stop terms some token spells
      behind a '-'. Stop words end up in neither set; nothing keeps a word
      out of both. */
  lemma {:induction false} ParsedQueryWords(stopWords: set<string>, text: string, w: string)
    requires ParsedQuery(stopWords, text).Success?
    ensures w in ParsedQuery(stopWords, text).value.plusWords
        <==> w in Split(text) && IsQueryTerm(w) && w !in stopWords
    ensures w in ParsedQuery(stopWords, text).value.minusWords
        <==> "-" + w in Split(text) && IsQueryTerm(w) && w !in stopWords
  {
    var tokens := Split(text);
    var q := ParsedQuery(stopWords, text).value;
    if w in q.plusWords {
      var i :| 0 <= i < |tokens| && NamesTerm(stopWords, tokens[i], false)
        && ParseQueryWord(stopWords, tokens[i]).value.data == w;
    }
    if w in tokens && IsQueryTerm(w) && w !in stopWords {
      var i :| 0 <= i < |tokens| && tokens[i] == w;
      ParseQueryWordRoundTrip(stopWords, w, false);
      assert NamesTerm(stopWords, tokens[i], false);
    }
    if w in q.minusWords {
      var i :| 0 <= i < |tokens| && NamesTerm(stopWords, tokens[i], true)
        && ParseQueryWord(stopWords, tokens[i]).value.data == w;
    }
    if "-" + w in tokens && IsQueryTerm(w) && w !in stopWords {
      var i :| 0 <= i < |tokens| && tokens[i] == "-" + w;
      ParseQueryWordRoundTrip(stopWords, w, true);
      assert NamesTerm(stopWords, tokens[i], true);
    }
  }

  /** The two sets need not be disjoint: "w -w" puts w in both. */
  lemma PlusAndMinusMayOverlap(stopWords: set<string>, w: string)
    requires IsQueryTerm(w) && ' ' !in w && w !in stopWords
    ensures ParsedQuery(stopWords, w + " -" + w) == Success(Query({w}, {w}))
  {
    var tokens := [w, "-" + w];
    assert Join(tokens) == w + " -" + w;
    assert ' ' !in tokens[1] by {
      assert forall i :: 1 <= i < |tokens[1]| ==> tokens[1][i] == w[i - 1];
    }
    SplitJoin(tokens);
    ParseQueryWordRoundTrip(stopWords, w, false);
    ParseQueryWordRoundTrip(stopWords, w, true);
    assert NamesTerm(stopWords, tokens[0], false) && !NamesTerm(stopWords, tokens[0], true);
    assert NamesTerm(stopWords, tokens[1], true) && !NamesTerm(stopWords, tokens[1], false);
    TermsOfSingle(stopWords, tokens, 0, false);
    TermsOfSingle(stopWords, tokens, 1, true);
  }

  /** When exactly one token names a term with the given sign, that term is
      the only one of its sign. */
  lemma TermsOfSingle(stopWords: set<string>, tokens: seq<string>, k: nat, isMinus: bool)
    requires k < |tokens|
    requires NamesTerm(stopWords, tokens[k], isMinus)
    requires forall i :: 0 <= i < |tokens| && i != k ==> !NamesTerm(stopWords, tokens[i], isMinus)
    ensures TermsOf(stopWords, tokens, isMinus) == {ParseQueryWord(stopWords, tokens[k]).value.data}
  {
  }

  lemma {:induction false} TermsOfAppend(stopWords: set<string>, tokens: seq<string>, x: string, isMinus: bool)
    requires ParseQueryWord(stopWords, x).Success?
    ensures TermsOf(stopWords, tokens + [x], isMinus)
         == TermsOf(stopWords, tokens, isMinus)
          + (if NamesTerm(stopWords, x, isMinus) then {ParseQueryWord(stopWords, x).value.data} else {})
  {
    var t := tokens + [x];
    assert forall i :: 0 <= i < |tokens| ==> t[i] == tokens[i];
    assert t[|tokens|] == x;
  }

  /** Search_server.cpp ParseQuery: parse each token in turn, letting the
      first rejected one throw, and insert every non-stop word into the plus
      or the minus set by its sign. */
  method ParseQuery(stopWords: set<string>, text: string) returns (r: Result<Query>)
    ensures r == ParsedQuery(stopWords, text)
  {
    var tokens := SplitIntoWords(text);
    var plus: set<string> := {};
    var minus: set<string> := {};
    for k := 0 to |tokens|
      invariant forall j :: 0 <= j < k ==> ParseQueryWord(stopWords, tokens[j]).Success?
      invariant plus == TermsOf(stopWords, tokens[..k], false)
      invariant minus == TermsOf(stopWords, tokens[..k], true)
    {
      var queryWord := ParseQueryWord(stopWords, tokens[k]);
      if queryWord.Failure? {
        return Failure(InvalidArgument);
      }
      assert tokens[..k + 1] == tokens[..k] + [tokens[k]];
      TermsOfAppend(stopWords, tokens[..k], tokens[k], false);
      TermsOfAppend(stopWords, tokens[..k], tokens[k], true);
      if !queryWord.value.isStop {
        if queryWord.value.isMinus {
          minus := minus + {queryWord.value.data};
        } else {
          plus := plus + {queryWord.value.data};
        }
      }
    }
    assert tokens[..|tokens|] == tokens;
    return Success(Query(plus, minus));
  }
}
