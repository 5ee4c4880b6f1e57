/** Tokenizer helpers: splitting text at single spaces and building the
    stop-word set from a container of strings. */
module StringProcessing {
  import opened Errors

  /** Position of the first occurrence of c in s, as string_view::find
      reports it; None plays the part of npos. */
  function Find(s: string, c: char): (r: Option<nat>)
    ensures r.None? <==> c !in s
    ensures r.Some? ==> r.value < |s| && s[r.value] == c && c !in s[..r.value]
  {
    if |s| == 0 then None
    else if s[0] == c then Some(0)
    else match Find(s[1..], c)
      case None => None
      case Some(k) =>
        assert s[1..][..k] == s[1..k + 1];
        Some(k + 1)
  }

  /** The first occurrence is the position of c that no earlier c precedes. */
  lemma FindAt(s: string, c: char, k: nat)
    requires k < |s| && s[k] == c && c !in s[..k]
    ensures Find(s, c) == Some(k)
  {
    assert c in s;
    assert forall i :: 0 <= i < k ==> s[i] == s[..k][i];
  }

  /** The tokens of s cut at every single space: the text up to the first
      space, then the tokens of what follows it. No run of spaces is
      collapsed, so empty tokens survive. */
  function Split(s: string): seq<string>
    decreases |s|
  {
    match Find(s, ' ')
    case None => [s]
    case Some(k) => [s[..k]] + Split(s[k + 1..])
  }

  /** The tokens glued back together with one space between neighbours. */
  function Join(words: seq<string>): string
  {
    if |words| == 0 then ""
    else if |words| == 1 then words[0]
    else words[0] + " " + Join(words[1..])
  }

  /** Number of occurrences of c in s. */
  function Occurrences(s: string, c: char): nat
  {
    if |s| == 0 then 0
    else (if s[0] == c then 1 else 0) + Occurrences(s[1..], c)
  }

  lemma {:induction false} OccurrencesAppend(a: string, b: string, c: char)
    ensures Occurrences(a + b, c) == Occurrences(a, c) + Occurrences(b, c)
  {
    if |a| == 0 {
      assert a + b == b;
    } else {
      assert (a + b)[1..] == a[1..] + b;
      OccurrencesAppend(a[1..], b, c);
    }
  }

  lemma {:induction false} OccurrencesAbsent(s: string, c: char)
    requires c !in s
    ensures Occurrences(s, c) == 0
  {
    if |s| > 0 {
      OccurrencesAbsent(s[1..], c);
    }
  }

  /** Splitting always yields at least one token and no token holds a space. */
  lemma {:induction false} SplitShape(s: string)
    ensures |Split(s)| >= 1
    ensures forall i :: 0 <= i < |Split(s)| ==> ' ' !in Split(s)[i]
    decreases |s|
  {
    match Find(s, ' ')
    case None =>
    case Some(k) =>
      SplitShape(s[k + 1..]);
  }

  /** The empty text is one empty token. */
  lemma SplitEmpty()
    ensures Split("") == [""]
  {
  }

  /** There is one token more than there are spaces. */
  lemma {:induction false} SplitCount(s: string)
    ensures |Split(s)| == Occurrences(s, ' ') + 1
    decreases |s|
  {
    match Find(s, ' ')
    case None =>
      OccurrencesAbsent(s, ' ');
    case Some(k) =>
      assert s == s[..k] + [' '] + s[k + 1..];
      OccurrencesAppend(s[..k] + [' '], s[k + 1..], ' ');
      OccurrencesAppend(s[..k], [' '], ' ');
      OccurrencesAbsent(s[..k], ' ');
      SplitCount(s[k + 1..]);
  }

  /** Joining the tokens with single spaces gives back the text. */
  lemma {:induction false} JoinSplit(s: string)
    ensures Join(Split(s)) == s
    decreases |s|
  {
    match Find(s, ' ')
    case None =>
    case Some(k) =>
      var rest := Split(s[k + 1..]);
      SplitShape(s[k + 1..]);
      JoinSplit(s[k + 1..]);
      assert ([s[..k]] + rest)[1..] == rest;
      assert s == s[..k] + " " + s[k + 1..];
  }

  /** A space-free word followed by a space is the first token. */
  lemma SplitCons(w: string, rest: string)
    requires ' ' !in w
    ensures Split(w + " " + rest) == [w] + Split(rest)
  {
    var s := w + " " + rest;
    assert s[|w|] == ' ' && s[..|w|] == w;
    FindAt(s, ' ', |w|);
    assert s[|w| + 1..] == rest;
  }

  /** Conversely, a non-empty list of space-free tokens is exactly what
      splitting its join returns: Split and Join are inverse. */
  lemma {:induction false} SplitJoin(words: seq<string>)
    requires |words| >= 1
    requires forall i :: 0 <= i < |words| ==> ' ' !in words[i]
    ensures Split(Join(words)) == words
  {
    if |words| == 1 {
      assert Find(words[0], ' ').None?;
    } else {
      SplitCons(words[0], Join(words[1..]));
      SplitJoin(words[1..]);
      assert words == [words[0]] + words[1..];
    }
  }

  /** Cutting the first token off the text moves it to the tokens found. */
  lemma SplitStep(found: seq<string>, s: string, k: nat)
    requires Find(s, ' ') == Some(k)
    ensures found + Split(s) == (found + [s[..k]]) + Split(s[k + 1..])
  {
    assert Split(s) == [s[..k]] + Split(s[k + 1..]);
  }

  /** A text without a space is the last token. */
  lemma SplitLast(found: seq<string>, s: string)
    requires Find(s, ' ') == None
    ensures found + Split(s) == found + [s]
  {
  }

  /** string_processing.cpp SplitIntoWords: find the next space, push the
      text before it, drop it and what precedes it, and stop once no space
      is left. */
  method SplitIntoWords(text: string) returns (result: seq<string>)
    ensures result == Split(text)
  {
    var str := text;
    result := [];
    while true
      invariant result + Split(str) == Split(text)
      decreases |str|
    {
      var space := Find(str, ' ');
      if space.None? {
        SplitLast(result, str);
        result := result + [str];
        return;
      }
      SplitStep(result, str, space.value);
      result := result + [str[..space.value]];
      str := str[space.value + 1..];
    }
  }

  /** The distinct non-empty strings of a container. */
  function NonEmptyStrings(strings: seq<string>): (r: set<string>)
  {
    set s | s in strings && s != ""
  }

  /** string_processing.h MakeUniqueNonEmptyStrings: insert every non-empty
      string of the container into a set. */
  method MakeUniqueNonEmptyStrings(strings: seq<string>) returns (r: set<string>)
    ensures "" !in r
    ensures forall s :: s in strings && s != "" ==> s in r
    ensures forall s :: s in r ==> s in strings
  {
    r := {};
    for i := 0 to |strings|
      invariant r == NonEmptyStrings(strings[..i])
    {
      assert strings[..i + 1] == strings[..i] + [strings[i]];
      if strings[i] != "" {
        r := r + {strings[i]};
      }
    }
    assert strings[..|strings|] == strings;
  }

  /** Building the set from a container that already is such a set gives
      the same set back. */
  lemma NonEmptyStringsIdempotent(strings: seq<string>, again: seq<string>)
    requires forall s :: s in again <==> s in NonEmptyStrings(strings)
    ensures NonEmptyStrings(again) == NonEmptyStrings(strings)
  {
  }
}
