/** The word rules the engine applies to document text and stop words:
    what makes a word valid, what makes it a stop word, and the tokenizing
    of a document with stop words dropped. */
module Words {
  import opened Errors
  import opened StringProcessing

  /** A character in [0, 32): the control characters a word may not hold.
      A char of the source is signed, so bytes from 0x80 compare below '\0'
      and are not control characters; with chars as code points the same
      bytes are simply above ' '. */
  predicate IsControl(c: char)
  {
    '\0' <= c < ' '
  }

  /** Search_server.cpp IsValidWord: no control character anywhere. */
  predicate IsValidWord(word: string)
  {
    forall i | 0 <= i < |word| :: !IsControl(word[i])
  }

  predicate IsStopWord(stopWords: set<string>, word: string)
  {
    word in stopWords
  }

  /** The tokens that are not stop words, in their order. */
  function WithoutStopWords(stopWords: set<string>, tokens: seq<string>): (r: seq<string>)
    ensures forall w :: w in r <==> w in tokens && w !in stopWords
  {
    if |tokens| == 0 then []
    else
      var rest := WithoutStopWords(stopWords, tokens[1..]);
      if IsStopWord(stopWords, tokens[0]) then rest else [tokens[0]] + rest
  }

  /** Number of occurrences of w in words. */
  function Count(words: seq<string>, w: string): nat
  {
    if |words| == 0 then 0
    else (if words[0] == w then 1 else 0) + Count(words[1..], w)
  }

  lemma {:induction false} CountAppend(words: seq<string>, x: string, w: string)
    ensures Count(words + [x], w) == Count(words, w) + (if x == w then 1 else 0)
  {
    if |words| > 0 {
      assert (words + [x])[1..] == words[1..] + [x];
      CountAppend(words[1..], x, w);
    }
  }

  lemma {:induction false} CountPositive(words: seq<string>, w: string)
    ensures Count(words, w) > 0 <==> w in words
  {
    if |words| > 0 {
      CountPositive(words[1..], w);
      assert words == [words[0]] + words[1..];
    }
  }

  /** Dropping stop words keeps every occurrence of every other word. */
  lemma {:induction false} CountWithoutStopWords(stopWords: set<string>, tokens: seq<string>, w: string)
    ensures Count(WithoutStopWords(stopWords, tokens), w) == if w in stopWords then 0 else Count(tokens, w)
  {
    if |tokens| > 0 {
      CountWithoutStopWords(stopWords, tokens[1..], w);
    }
  }

  lemma {:induction false} WithoutStopWordsAppend(stopWords: set<string>, tokens: seq<string>, x: string)
    ensures WithoutStopWords(stopWords, tokens + [x])
         == WithoutStopWords(stopWords, tokens) + (if x in stopWords then [] else [x])
  {
    if |tokens| > 0 {
      assert (tokens + [x])[1..] == tokens[1..] + [x];
      WithoutStopWordsAppend(stopWords, tokens[1..], x);
    }
  }

  lemma DropStopWordsStep(stopWords: set<string>, tokens: seq<string>, k: nat)
    requires k < |tokens|
    ensures WithoutStopWords(stopWords, tokens[..k + 1])
         == WithoutStopWords(stopWords, tokens[..k]) + (if tokens[k] in stopWords then [] else [tokens[k]])
  {
    assert tokens[..k + 1] == tokens[..k] + [tokens[k]];
    WithoutStopWordsAppend(stopWords, tokens[..k], tokens[k]);
  }

  /** Search_server.cpp SplitIntoWordsNoStop: split the text, throw
      invalid_argument at the first invalid token, keep the tokens that are
      not stop words. */
  method SplitIntoWordsNoStop(stopWords: set<string>, text: string) returns (r: Result<seq<string>>)
    ensures r.Failure? <==> exists w :: w in Split(text) && !IsValidWord(w)
    ensures r.Failure? ==> r.error == InvalidArgument
    ensures r.Success? ==> r.value == WithoutStopWords(stopWords, Split(text))
  {
    var tokens := SplitIntoWords(text);
    var words: seq<string> := [];
    for k := 0 to |tokens|
      invariant forall w :: w in tokens[..k] ==> IsValidWord(w)
      invariant words == WithoutStopWords(stopWords, tokens[..k])
    {
      if !IsValidWord(tokens[k]) {
        assert tokens[k] in Split(text);
        return Failure(InvalidArgument);
      }
      assert tokens[..k + 1] == tokens[..k] + [tokens[k]];
      DropStopWordsStep(stopWords, tokens, k);
      if !IsStopWord(stopWords, tokens[k]) {
        words := words + [tokens[k]];
      }
    }
    assert tokens[..|tokens|] == tokens;
    return Success(words);
  }
}
