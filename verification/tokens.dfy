/**
 Token-list operations used when a message's words are turned into its
 share of the word-cloud corpus: dropping stop words (Python's `filter`
 with a membership test) and joining the survivors with single spaces
 (Python's `' '.join`). `Split` is the inverse of `JoinSpaces`
 (Python's `str.split(' ')`), given so that the join can be stated by
 what it undoes rather than by how it is computed.
 */
module Tokens {

  /** Applies `f` to every element, keeping the order (Python's `list(map(f, xs))`). */
  function MapAll(f: string -> string, xs: seq<string>): (ys: seq<string>)
    ensures |ys| == |xs|
    ensures forall i :: 0 <= i < |xs| ==> ys[i] == f(xs[i])
  {
    if xs == [] then [] else [f(xs[0])] + MapAll(f, xs[1..])
  }

  /** The tokens that are not in `stopWords`, in their original order.
      Membership is exact string equality. */
  function Filter(tokens: seq<string>, stopWords: seq<string>): (kept: seq<string>)
    ensures |kept| <= |tokens|
  {
    if tokens == [] then []
    else
      var rest := Filter(tokens[1..], stopWords);
      if tokens[0] in stopWords then rest else [tokens[0]] + rest
  }

  /** No stop word survives, and every token that is not a stop word does. */
  lemma {:induction false} FilterMembership(tokens: seq<string>, stopWords: seq<string>)
    ensures forall t :: t in Filter(tokens, stopWords) <==> t in tokens && t !in stopWords
  {
    if tokens != [] {
      FilterMembership(tokens[1..], stopWords);
      assert forall t :: t in tokens <==> t == tokens[0] || t in tokens[1..];
    }
  }

  /** When every token is a stop word (or there are none), nothing survives. */
  lemma {:induction false} FilterAllStopWords(tokens: seq<string>, stopWords: seq<string>)
    requires forall t :: t in tokens ==> t in stopWords
    ensures Filter(tokens, stopWords) == []
  {
    if tokens != [] {
      assert tokens[0] in tokens;
      FilterAllStopWords(tokens[1..], stopWords);
    }
  }

  /** Every occurrence of a stop word is dropped and every occurrence of
      any other token is kept. */
  lemma {:induction false} FilterCounts(tokens: seq<string>, stopWords: seq<string>)
    ensures forall t :: multiset(Filter(tokens, stopWords))[t]
                        == if t in stopWords then 0 else multiset(tokens)[t]
  {
    if tokens != [] {
      FilterCounts(tokens[1..], stopWords);
      assert tokens == [tokens[0]] + tokens[1..];
    }
  }

  /** `a` can be obtained from `b` by deleting elements (greedy matching
      from the front, which finds an embedding whenever one exists). */
  predicate IsSubsequence(a: seq<string>, b: seq<string>)
    decreases |b|
  {
    if a == [] then true
    else if b == [] then false
    else if a[0] == b[0] then IsSubsequence(a[1..], b[1..])
    else IsSubsequence(a, b[1..])
  }

  /** The surviving tokens keep their relative order. */
  lemma {:induction false} FilterIsSubsequence(tokens: seq<string>, stopWords: seq<string>)
    ensures IsSubsequence(Filter(tokens, stopWords), tokens)
  {
    if tokens != [] {
      FilterIsSubsequence(tokens[1..], stopWords);
      FilterMembership(tokens[1..], stopWords);
    }
  }

  /** A stop-word-free subsequence of `tokens` is never longer than what `Filter` keeps. */
  lemma {:induction false} StopFreeSubsequenceBound(a: seq<string>, tokens: seq<string>, stopWords: seq<string>)
    requires IsSubsequence(a, tokens)
    requires forall t :: t in a ==> t !in stopWords
    ensures |a| <= |Filter(tokens, stopWords)|
  {
    if a != [] {
      if a[0] == tokens[0] {
        StopFreeSubsequenceBound(a[1..], tokens[1..], stopWords);
      } else {
        StopFreeSubsequenceBound(a, tokens[1..], stopWords);
      }
    }
  }

  /** A stop-word-free subsequence of `tokens` as long as `Filter`'s result is that result. */
  lemma {:induction false} FilterUniqueByLength(a: seq<string>, tokens: seq<string>, stopWords: seq<string>)
    requires IsSubsequence(a, tokens)
    requires forall t :: t in a ==> t !in stopWords
    requires |a| == |Filter(tokens, stopWords)|
    ensures a == Filter(tokens, stopWords)
  {
    if a != [] {
      if tokens[0] in stopWords {
        assert a[0] != tokens[0];
        FilterUniqueByLength(a, tokens[1..], stopWords);
      } else if a[0] == tokens[0] {
        FilterUniqueByLength(a[1..], tokens[1..], stopWords);
      } else {
        StopFreeSubsequenceBound(a, tokens[1..], stopWords);
        assert false;
      }
    }
  }

  /** `Filter` is the only order-preserving selection from `tokens` that
      drops every stop word and keeps every other token occurrence. */
  lemma FilterIsUnique(a: seq<string>, tokens: seq<string>, stopWords: seq<string>)
    requires IsSubsequence(a, tokens)
    requires forall t :: multiset(a)[t] == if t in stopWords then 0 else multiset(tokens)[t]
    ensures a == Filter(tokens, stopWords)
  {
    var kept := Filter(tokens, stopWords);
    FilterCounts(tokens, stopWords);
    assert multiset(a) == multiset(kept);
    assert |a| == |multiset(a)| == |multiset(kept)| == |kept|;
    forall t | t in a ensures t !in stopWords {
      assert multiset(a)[t] > 0;
    }
    FilterUniqueByLength(a, tokens, stopWords);
  }

  /** The number of characters in all the words together. */
  function TotalLength(words: seq<string>): nat
  {
    if words == [] then 0 else |words[0]| + TotalLength(words[1..])
  }

  /** Python's `' '.join(words)`: the words with one space between neighbours. */
  function JoinSpaces(words: seq<string>): (s: string)
    ensures |s| == if words == [] then 0 else TotalLength(words) + |words| - 1
  {
    if words == [] then ""
    else if |words| == 1 then words[0]
    else words[0] + " " + JoinSpaces(words[1..])
  }

  /** Python's `s.split(' ')`: the maximal space-free pieces between single
      spaces; always at least one piece, empty pieces included. */
  function Split(s: string): (pieces: seq<string>)
    ensures |pieces| >= 1
    ensures forall p :: p in pieces ==> ' ' !in p
  {
    if s == [] then [""]
    else if s[0] == ' ' then [""] + Split(s[1..])
    else
      var rest := Split(s[1..]);
      assert rest[0] in rest;
      [[s[0]] + rest[0]] + rest[1..]
  }

  /** Joining the pieces of a split gives back the string. */
  lemma {:induction false} JoinSplit(s: string)
    ensures JoinSpaces(Split(s)) == s
  {
    if s != [] {
      JoinSplit(s[1..]);
      var rest := Split(s[1..]);
      if s[0] != ' ' && |rest| > 1 {
        assert JoinSpaces(rest) == rest[0] + " " + JoinSpaces(rest[1..]);
        assert [s[0]] + s[1..] == s;
      }
    }
  }

  /** Splitting a space-free word followed by more text. */
  lemma {:induction false} SplitAfterWord(w: string, t: string)
    requires ' ' !in w
    ensures Split(w + t) == [w + Split(t)[0]] + Split(t)[1..]
  {
    if w != [] {
      SplitAfterWord(w[1..], t);
      assert (w + t)[1..] == w[1..] + t;
      assert [w[0]] + (w[1..] + Split(t)[0]) == w + Split(t)[0];
    } else {
      var pieces := Split(t);
      assert w + t == t && w + pieces[0] == pieces[0];
      assert pieces == [pieces[0]] + pieces[1..];
    }
  }

  /** Splitting a join of space-free words gives back the words. */
  lemma {:induction false} SplitJoin(words: seq<string>)
    requires words != []
    requires forall w :: w in words ==> ' ' !in w
    ensures Split(JoinSpaces(words)) == words
  {
    if |words| == 1 {
      SplitAfterWord(words[0], "");
      assert words[0] + "" == words[0];
    } else {
      var tail := JoinSpaces(words[1..]);
      SplitJoin(words[1..]);
      SplitAfterWord(words[0], " " + tail);
      assert (" " + tail)[1..] == tail;
      assert words[0] + " " + tail == words[0] + (" " + tail);
      assert Split(" " + tail) == [""] + words[1..];
      assert words[0] + "" == words[0];
    }
  }
}
