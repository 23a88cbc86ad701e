# Telegram chat statistics: the word-cloud corpus builder

This project models, in Dafny, the part of the chat statistics tool that
builds the text for its word cloud. `ChatStatistics.generate_word_cloud`
walks the exported message list in order. It keeps only the messages whose
`text` value is a plain string; Telegram stores formatted messages as a list
of fragments, and those are skipped. Each kept message is tokenized, every
token that appears in the stop-word list is dropped, and the survivors are
joined with single spaces. Each message's piece is appended to one
accumulating string, with nothing between messages. The stop-word list comes
from the constructor: each line of the stop-word file is stripped and then
normalized, in that order.

Files:

- `tokens.dfy` (module `Tokens`): stop-word filtering (`Filter`) and joining
  with single spaces (`JoinSpaces`). `Split`, which behaves like Python's
  `str.split(' ')`, is the inverse of `JoinSpaces`. `MapAll` applies a
  function to every element of a list.
- `chat_statistics.dfy` (module `ChatStatistics`): the message data model.
  `Contribution` is one message's piece and `Corpus` is the whole
  accumulated text; the lemmas about them follow. The class `ChatStatistics`
  has a constructor (stop-word preparation) and the method `GenerateCorpus`,
  the accumulation loop, which is proved equal to `Corpus`.

The tokenizer (`hazm.word_tokenize`), `str.strip` and the normalizer are
external code. They are parameters of type `string -> string` or
`string -> seq<string>`, and the model relies on nothing about them beyond
what each lemma requires.

Two details of the code's own behaviour that the model keeps:

- A message without a `text` key is not skipped: `msg['text']` raises
  `KeyError`, which aborts the whole word-cloud run. `GenerateCorpus`
  therefore returns `Err(MissingText(k))`, where `k` is the first message
  with no `text` key.
- The stop words are a list, not a set. Membership is exact string
  equality, so duplicates in the list change nothing.

## Model

| member | source | states |
|---|---|---|
| `ChatStatistics.ChatStatistics.GenerateCorpus` | src/chat_statistics/stats.py:43-48 | The loop returns `Ok` exactly when every message has a `text` key, and then its value equals `Corpus` of the whole log. Otherwise it returns `Err` at the first message without `text`. The loop invariant says the accumulator equals `Corpus` of the messages processed so far. |
| `ChatStatistics.ChatStatistics.GenerateCorpusTwice` | src/chat_statistics/stats.py:43-48 | Building the corpus twice from the same object gives identical results: the output depends only on the messages, the stop words and the tokenizer. |
| `ChatStatistics.ChatStatistics.constructor` | src/chat_statistics/stats.py:32-34 | The stop-word list has one entry per line of the file. Entry `i` is `normalize(strip(line i))`: stripping comes first, then normalizing. The message list is stored unchanged. |
| `ChatStatistics.CorpusOfEmptyLog` | src/chat_statistics/stats.py:43 | An empty message list gives the empty corpus, because the accumulator starts as `''`. |
| `ChatStatistics.CorpusAppend` | src/chat_statistics/stats.py:43-48 | Adding a message to the end of the log appends exactly that message's contribution to the corpus, with no separator. |
| `ChatStatistics.CorpusConcat` | src/chat_statistics/stats.py:43-48 | The corpus of a log made of two parts is the two parts' corpora concatenated, in log order. |
| `ChatStatistics.OnlyPlainTextContributes` | src/chat_statistics/stats.py:44-45 | Removing every message whose text is not a plain string leaves the corpus unchanged. |
| `ChatStatistics.PlainMessagesSelects` | src/chat_statistics/stats.py:45 | The plain-message selection keeps a message exactly when it is in the log and its text is a plain string. |
| `ChatStatistics.CompositeAddsNothing` | src/chat_statistics/stats.py:45 | Appending a message whose text is a list of fragments leaves the corpus exactly as it was. |
| `ChatStatistics.Contribution` | src/chat_statistics/stats.py:45-48 | One message's piece of the corpus: for plain-string text, its tokens with the stop words removed, joined by single spaces; otherwise nothing. Its properties are stated by `PlainContributionWords`, `CompositeAddsNothing` and `StopWordExample`. |
| `ChatStatistics.Corpus` | src/chat_statistics/stats.py:43-48 | The accumulated text: the messages' contributions concatenated in log order. Its contract says a log with no plain-text message gives the empty corpus; `CorpusAppend`, `CorpusConcat` and `OnlyPlainTextContributes` state the rest, and `GenerateCorpus` is proved equal to it. |
| `ChatStatistics.PlainContributionWords` | src/chat_statistics/stats.py:46-48 | A plain message whose tokens are all stop words, or that has no tokens, contributes `""`. Otherwise, if no token contains a space, splitting its contribution at spaces gives back exactly the filtered tokens. |
| `ChatStatistics.StopWordExample` | src/chat_statistics/stats.py:46-48 | With stop word "the" and message "the cat sat", the contribution is "cat sat". |
| `Tokens.Filter` | src/chat_statistics/stats.py:47 | `list(filter(lambda item: item not in stop_words, tokens))`. Its contract says the result is never longer than the input; `FilterMembership`, `FilterCounts`, `FilterAllStopWords`, `FilterIsSubsequence` and `FilterIsUnique` state what it keeps. |
| `Tokens.FilterMembership` | src/chat_statistics/stats.py:47 | A token survives the filter exactly when the tokenizer produced it and it is not in the stop-word list. |
| `Tokens.FilterCounts` | src/chat_statistics/stats.py:47 | Every occurrence of a stop word is dropped. Every occurrence of any other token is kept, so each such token appears as many times as in the tokenizer output. |
| `Tokens.FilterAllStopWords` | src/chat_statistics/stats.py:47 | If every token is a stop word, or there are no tokens, nothing survives. |
| `Tokens.FilterIsSubsequence` | src/chat_statistics/stats.py:46-47 | The surviving tokens are a subsequence of the tokenizer output: their relative order is kept. |
| `Tokens.FilterIsUnique` | src/chat_statistics/stats.py:47 | The filter's result is the only order-preserving selection from the tokens that drops every stop word and keeps every other occurrence. |
| `Tokens.JoinSpaces` | src/chat_statistics/stats.py:48 | `' '.join(words)`. Its contract gives the length: the words' total length plus one space between each pair of neighbours, and 0 for no words. `JoinSplit` and `SplitJoin` show that splitting at spaces undoes it. |
| `Tokens.JoinSplit` | src/chat_statistics/stats.py:48 | Joining the pieces of a string split at single spaces gives back the string. |
| `Tokens.SplitJoin` | src/chat_statistics/stats.py:48 | For a non-empty list of words that contain no spaces, splitting the space-joined string gives back the words. |
| `Tokens.MapAll` | src/chat_statistics/stats.py:33-34 | `list(map(f, xs))` keeps the length and applies `f` to each element in position. |

## Left out

- Loading the chat JSON and reading the stop-word file (stats.py:26-27, 32) are file I/O. The constructor receives the message list and the lines of the file. A missing top-level `messages` key is not modelled.
- `hazm.word_tokenize` is external code and is a parameter. `str.strip` (whose result depends on Unicode whitespace classes) and `Normalizer.normalize` are parameters too. Only the order in which they are applied is modelled.
- Normalizing the finished corpus, `arabic_reshaper.reshape` and `bidi.get_display` (stats.py:50-55) are external text shaping. `GenerateCorpus` returns the text as it stands before these steps.
- `WordCloud`, `matplotlib` and writing `wordcloud.png` (stats.py:58-67) are rendering and file output.
- Logging, the `__main__` driver and the module-level `print` (stats.py:25, 31, 42, 57, 68-72) are plumbing.
- A `text` value of some other JSON type (number, null, object) is skipped like a list. The model represents every non-string value as `Composite`.
- Message fields other than `text` (id, sender, reply link) are not read by this code. They are not part of `Message`.
- Question detection, reply attribution and the top-N ranking of responders do not appear in `src/chat_statistics/stats.py`. They are not part of this model.
- ChatStatistics.PlainContributionWords: the split-back statement holds only for a tokenizer whose tokens contain no space character. Without that condition, joined tokens cannot be told apart.
