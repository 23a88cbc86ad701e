/**
 The word-cloud corpus builder of the Telegram chat statistics tool
 (src/chat_statistics/stats.py). A `ChatStatistics` object holds the
 exported message list and the prepared stop-word list; `GenerateCorpus`
 walks the messages in order and accumulates, for every message whose
 `text` is a plain string, its stop-word-free tokens joined by single
 spaces. The external tokenizer, `str.strip` and the text normalizer are
 parameters: the model fixes only how their results are used.
 */
module ChatStatistics {
  import opened Tokens

  datatype Option<+T> = None | Some(value: T)

  datatype Result<+T, +E> = Ok(value: T) | Err(error: E)

  /** One element of a composite `text` value in a Telegram export: a bare
      string, or an entity record (link, mention, bold, ...) with its text. */
  datatype Fragment = Literal(s: string) | Entity(kind: string, text: string)

  /** The `text` value of a message: a JSON string, or any other JSON value
      (in practice a list of fragments), which the corpus builder skips. */
  datatype TextField = Plain(s: string) | Composite(parts: seq<Fragment>)

  /** A message record; `text` is `None` when the record has no `text` key.
      The other keys (id, sender, reply link) are not read by the corpus builder. */
  datatype Message = Message(text: Option<TextField>)

  /** Why corpus building stopped: the message at `index` has no `text` key
      (looking it up raises `KeyError`). */
  datatype CorpusError = MissingText(index: nat)

  /** The tokenizer: from a message's text to its words. */
  type Tokenizer = string -> seq<string>

  predicate HasPlainText(m: Message) {
    m.text.Some? && m.text.value.Plain?
  }

  /** What one message appends to the corpus. */
  function Contribution(m: Message, stopWords: seq<string>, tokenize: Tokenizer): string {
    if HasPlainText(m) then JoinSpaces(Filter(tokenize(m.text.value.s), stopWords)) else ""
  }

  /** The messages whose text is a plain string, in log order. */
  function PlainMessages(messages: seq<Message>): seq<Message>
  {
    if messages == [] then []
    else if HasPlainText(messages[0]) then [messages[0]] + PlainMessages(messages[1..])
    else PlainMessages(messages[1..])
  }

  /** The corpus built from `messages`: each contribution appended, in log order. */
  function Corpus(messages: seq<Message>, stopWords: seq<string>, tokenize: Tokenizer): (corpus: string)
    ensures PlainMessages(messages) == [] ==> corpus == ""
  {
    if messages == [] then ""
    else Contribution(messages[0], stopWords, tokenize) + Corpus(messages[1..], stopWords, tokenize)
  }

  /** `PlainMessages` keeps exactly the plain-text messages. */
  lemma {:induction false} PlainMessagesSelects(messages: seq<Message>)
    ensures forall m :: m in PlainMessages(messages) <==> m in messages && HasPlainText(m)
  {
    if messages != [] {
      PlainMessagesSelects(messages[1..]);
      assert forall m :: m in messages <==> m == messages[0] || m in messages[1..];
    }
  }

  /** An empty log gives the empty corpus. */
  lemma CorpusOfEmptyLog(stopWords: seq<string>, tokenize: Tokenizer)
    ensures Corpus([], stopWords, tokenize) == ""
  {
  }

  /** The corpus of two consecutive parts of a log is the two corpora run together. */
  lemma {:induction false} CorpusConcat(a: seq<Message>, b: seq<Message>, stopWords: seq<string>, tokenize: Tokenizer)
    ensures Corpus(a + b, stopWords, tokenize) == Corpus(a, stopWords, tokenize) + Corpus(b, stopWords, tokenize)
  {
    if a == [] {
      assert a + b == b;
    } else {
      assert (a + b)[1..] == a[1..] + b;
      CorpusConcat(a[1..], b, stopWords, tokenize);
    }
  }

  /** Appending a message appends its contribution, with no separator. */
  lemma CorpusAppend(messages: seq<Message>, m: Message, stopWords: seq<string>, tokenize: Tokenizer)
    ensures Corpus(messages + [m], stopWords, tokenize)
            == Corpus(messages, stopWords, tokenize) + Contribution(m, stopWords, tokenize)
  {
    CorpusConcat(messages, [m], stopWords, tokenize);
    assert Corpus([m], stopWords, tokenize) == Contribution(m, stopWords, tokenize) + "";
  }

  /** The corpus of the first `i + 1` messages extends that of the first `i`. */
  lemma CorpusStep(messages: seq<Message>, i: nat, stopWords: seq<string>, tokenize: Tokenizer)
    requires i < |messages|
    ensures Corpus(messages[..i + 1], stopWords, tokenize)
            == Corpus(messages[..i], stopWords, tokenize) + Contribution(messages[i], stopWords, tokenize)
  {
    assert messages[..i + 1] == messages[..i] + [messages[i]];
    CorpusAppend(messages[..i], messages[i], stopWords, tokenize);
  }

  /** Only messages with plain-string text contribute: dropping all the
      others leaves the corpus unchanged. */
  lemma {:induction false} OnlyPlainTextContributes(messages: seq<Message>, stopWords: seq<string>, tokenize: Tokenizer)
    ensures Corpus(messages, stopWords, tokenize) == Corpus(PlainMessages(messages), stopWords, tokenize)
  {
    if messages != [] {
      var head, tail := messages[0], messages[1..];
      OnlyPlainTextContributes(tail, stopWords, tokenize);
      assert Corpus(messages, stopWords, tokenize)
             == Contribution(head, stopWords, tokenize) + Corpus(PlainMessages(tail), stopWords, tokenize);
      if HasPlainText(head) {
        var kept := [head] + PlainMessages(tail);
        assert kept[0] == head && kept[1..] == PlainMessages(tail);
      } else {
        assert Contribution(head, stopWords, tokenize) == "";
      }
    }
  }

  /** A message whose text is a list of fragments leaves the corpus as it was. */
  lemma CompositeAddsNothing(messages: seq<Message>, m: Message, stopWords: seq<string>, tokenize: Tokenizer)
    requires m.text.Some? && m.text.value.Composite?
    ensures Corpus(messages + [m], stopWords, tokenize) == Corpus(messages, stopWords, tokenize)
  {
    CorpusAppend(messages, m, stopWords, tokenize);
    assert Corpus(messages, stopWords, tokenize) + "" == Corpus(messages, stopWords, tokenize);
  }

  /** A plain message whose words are all stop words (or that has no words)
      contributes the empty string; otherwise, for a tokenizer that yields
      space-free words, splitting its contribution at spaces gives back exactly
      its surviving words: no stop word, every other word, in order. */
  lemma PlainContributionWords(m: Message, stopWords: seq<string>, tokenize: Tokenizer)
    requires HasPlainText(m)
    ensures var words := tokenize(m.text.value.s);
            (forall w :: w in words ==> w in stopWords) ==> Contribution(m, stopWords, tokenize) == ""
    ensures var words := tokenize(m.text.value.s);
            var kept := Filter(words, stopWords);
            kept != [] && (forall w :: w in words ==> ' ' !in w) ==>
              Split(Contribution(m, stopWords, tokenize)) == kept
  {
    var words := tokenize(m.text.value.s);
    var kept := Filter(words, stopWords);
    if forall w :: w in words ==> w in stopWords {
      FilterAllStopWords(words, stopWords);
    }
    FilterMembership(words, stopWords);
    if kept != [] && (forall w :: w in words ==> ' ' !in w) {
      SplitJoin(kept);
    }
  }

  /** The stop word "the" is dropped from "the cat sat" and the rest is kept. */
  lemma StopWordExample(tokenize: Tokenizer)
    requires tokenize("the cat sat") == ["the", "cat", "sat"]
    ensures Contribution(Message(Some(Plain("the cat sat"))), ["the"], tokenize) == "cat sat"
  {
    assert Filter(["the", "cat", "sat"], ["the"]) == ["cat", "sat"] by {
      assert ["the", "cat", "sat"][1..] == ["cat", "sat"];
      assert ["cat", "sat"][1..] == ["sat"];
    }
  }

  class ChatStatistics {
    /** The exported message list (`chat_data['messages']`). */
    var chatMessages: seq<Message>
    /** The stop words, each line stripped and then normalized. */
    var stopWords: seq<string>

    /** Takes the already-loaded message list and stop-word file lines; reading
        the files is not modelled. */
    constructor (messages: seq<Message>, stopWordLines: seq<string>,
                 strip: string -> string, normalize: string -> string)
      ensures chatMessages == messages
      ensures |stopWords| == |stopWordLines|
      ensures forall i :: 0 <= i < |stopWordLines| ==> stopWords[i] == normalize(strip(stopWordLines[i]))
    {
      chatMessages := messages;
      stopWords := stopWordLines;
      new;
      stopWords := MapAll(strip, stopWords);
      stopWords := MapAll(normalize, stopWords);
    }

    /** The text handed to the word cloud, before normalization and
        right-to-left reshaping: the corpus of all messages, or the index of
        the first message without a `text` key. */
    method GenerateCorpus(tokenize: Tokenizer) returns (r: Result<string, CorpusError>)
      ensures r.Ok? <==> forall i :: 0 <= i < |chatMessages| ==> chatMessages[i].text.Some?
      ensures r.Ok? ==> r.value == Corpus(chatMessages, stopWords, tokenize)
      ensures r.Err? ==> var k := r.error.index;
                         k < |chatMessages| && chatMessages[k].text.None?
                         && forall j :: 0 <= j < k ==> chatMessages[j].text.Some?
    {
      var messages, stops := chatMessages, stopWords;
      var textContent := "";
      var i := 0;
      while i < |messages| && messages[i].text.Some?
        invariant 0 <= i <= |messages|
        invariant textContent == Corpus(messages[..i], stops, tokenize)
        invariant forall j :: 0 <= j < i ==> messages[j].text.Some?
      {
        var msg := messages[i];
        ghost var before := textContent;
        if msg.text.value.Plain? {
          var tokens := tokenize(msg.text.value.s);
          tokens := Filter(tokens, stops);
          textContent := textContent + JoinSpaces(tokens);
        }
        assert textContent == before + Contribution(msg, stops, tokenize);
        CorpusStep(messages, i, stops, tokenize);
        i := i + 1;
      }
      if i < |messages| {
        return Err(MissingText(i));
      }
      assert messages[..i] == messages;
      return Ok(textContent);
    }

    /** Building the corpus twice from an unchanged object gives identical results. */
    method GenerateCorpusTwice(tokenize: Tokenizer) returns (first: Result<string, CorpusError>, second: Result<string, CorpusError>)
      ensures first == second
    {
      first := GenerateCorpus(tokenize);
      second := GenerateCorpus(tokenize);
    }
  }
}
