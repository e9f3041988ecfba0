# Chatbot matching engine, modelled in Dafny

This project models the matching engine of the Streamlit chatbot demo, the
`ChatBot` class in `chatbot_app.py`. The engine has two parts:

- the **normaliser** (`process_input`). It lower-cases the text and tokenises
  it. It keeps the alphanumeric tokens that are not English stop words and
  lemmatises each one. It returns the tokens and the lower-cased text.
- the **responder** (`get_response`). It records the turn in `memory`. The
  context keeps at most three turns and evicts the oldest. If the whole
  lower-cased input is a farewell word, it answers with a farewell. Otherwise
  it scores every knowledge-base entry by token overlap with the input, plus a
  bonus for earlier turns that mention the question. It answers with the best
  candidate, or with a fallback phrase when no entry matches.

Files:

- `normalizer.dfy`, module `Normalizer`: the library routines (`Toolkit`),
  the token filter and `ProcessInput`.
- `matching.dfy`, module `Matching`: token sets, match count, context bonus,
  the list of candidates, the loop that builds it, and Python's order on
  `(score, response)` tuples with the greatest-candidate selection.
- `chatbot.dfy`, module `Bot`: the bounded memory, the decision of a turn
  (`Decide`), and the `ChatBot` class with its `GetResponse` method.

How the source maps onto Dafny:

- **Library routines.** `str.lower`, NLTK's `word_tokenize`, `str.isalnum`,
  `WordNetLemmatizer.lemmatize` and the stop-word set are the fields of the
  datatype `Normalizer.Toolkit`, which the constructor receives. The model
  assumes nothing about them, so every property holds for any tokeniser,
  lemmatiser and stop-word list.
- **`memory` dictionary.** It is the datatype `Bot.Memory`, held in the
  field `ChatBot.memory`. `GetResponse` reassigns that field step by step,
  as the source assigns its keys and calls `append` and `pop(0)`.
- **`responses` dictionary.** It is the sequence of its items in insertion
  order. The order does not change the result, because the winning
  candidate is unique (`BestIsUnique`).
- **`random.choice`.** It is a nondeterministic pick (`:|`) from the list.
  The pure function `Decide` returns `Farewell`, `Answer(text)` or
  `Fallback`. `Realises` then says which strings a draw may produce for each.
- **Score.** The source scores `match_count + 0.5 * context_bonus`. The model
  uses the integer `2 * match_count + context_bonus`. `ScoreAgreesWithSource`
  proves it orders and ties entries the same way as the real-valued score.
- **Sort.** `matches.sort(reverse=True); matches[0]` returns the greatest
  `(score, response)` tuple. The model finds it with one scan (`Strongest`),
  which is specified by the recursive `Top`. Python compares strings
  lexicographically by code point, so `StrLess` spells that order out
  (Dafny's own `<` on strings means "proper prefix").
- **The loop.** The loop over the dictionary items is the method
  `CollectMatches`, which `GetResponse` calls. Keeping the two apart keeps
  each proof small.

The model follows the code in three places where one might expect otherwise:

- Question tokens are `set(word_tokenize(question.lower()))`
  (chatbot_app.py:48). They are neither stop-word filtered nor lemmatised.
- Context turns are token lists, not sets.
- The random source is a plain nondeterministic choice, not an injected
  generator.

## Model

| member | source | states |
|---|---|---|
| `Normalizer.LemmatizeKept` | chatbot_app.py:31-32 | the comprehension never returns more tokens than it was given |
| `Normalizer.LemmatizeKeptMembers` | chatbot_app.py:31-32 | every output token is the lemma of an input token that is alphanumeric and not a stop word; every such input token has its lemma in the output; the output is empty exactly when no input token passes the filter |
| `Normalizer.LemmatizeKeptConcat` | chatbot_app.py:31-32 | the output for `a + b` is the output for `a` followed by the output for `b`: tokens are handled one at a time, left to right, duplicates kept |
| `Normalizer.LemmatizeKeptSingle` | chatbot_app.py:31-32 | one token contributes its lemma when it passes the filter and nothing otherwise; with the concatenation lemma this fixes the whole output |
| `Normalizer.ProcessInput` | chatbot_app.py:29-33 | the second component is the lower-cased text; every returned token is the lemma of a kept token of the tokenised lower-cased text and every kept token's lemma is returned; the token list is empty exactly when no token is kept |
| `Matching.TokenSet` | chatbot_app.py:49 | `set(tokens)` holds exactly the tokens of the list |
| `Matching.QuestionTokens` | chatbot_app.py:48 | the question's token set holds exactly the tokeniser's output on the lower-cased question, unfiltered and not lemmatised |
| `Matching.MatchCount` | chatbot_app.py:48-51 | the match count is at most the number of question tokens, and it is zero exactly when no input token is in the question |
| `Matching.MatchCountExtend` | chatbot_app.py:49-50 | appending a token raises the match count by exactly one when the token is in the question and new to the input, and leaves it unchanged otherwise |
| `Matching.ContextBonus` | chatbot_app.py:52-53 | the bonus is at most the number of earlier turns; it is 0 exactly when no earlier turn shares a token with the question, and it equals the number of earlier turns exactly when all do |
| `Matching.ContextBonusConcat` | chatbot_app.py:52-53 | the bonus is additive over the earlier turns: one 0-or-1 term per turn |
| `Matching.EmptyTurnAddsNoBonus` | chatbot_app.py:52-53 | an earlier turn with no tokens contributes nothing to the bonus |
| `Matching.Prior` | chatbot_app.py:52 | `context[:-1]` is the context without its newest turn, and empty for an empty context |
| `Matching.ContextBonusAtMostTwo` | chatbot_app.py:40-41 | with at most three turns of context, the bonus of any entry is 0, 1 or 2 |
| `Matching.ScoreAgreesWithSource` | chatbot_app.py:54 | `2 * match_count + context_bonus` compares and ties exactly like the source's `match_count + 0.5 * context_bonus` |
| `Matching.Candidates` | chatbot_app.py:46-54 | every entry of `matches` is the scored form of a knowledge-base entry with a positive match count, every such entry is in `matches`, and an empty token list gives no candidates |
| `Matching.CandidatesStep` | chatbot_app.py:47-54 | one more round of the loop appends the scored entry when it matches and nothing otherwise |
| `Matching.CollectMatches` | chatbot_app.py:46-54 | the loop over the dictionary items builds exactly the list of candidates, in item order |
| `Matching.StrLessIrreflexive` | chatbot_app.py:57 | no string is below itself in Python's string order |
| `Matching.StrLessTransitive` | chatbot_app.py:57 | Python's string order is transitive |
| `Matching.StrLessTotal` | chatbot_app.py:57 | any two different strings are ordered one way or the other |
| `Matching.KeyLessTransitive` | chatbot_app.py:57 | the order on `(score, response)` tuples is transitive |
| `Matching.KeyLessStrictTotal` | chatbot_app.py:57 | the tuple order is irreflexive, and any two different candidates are ordered |
| `Matching.BestIsUnique` | chatbot_app.py:57-58 | at most one candidate is greatest, so ties on the score resolve to one response |
| `Matching.Top` | chatbot_app.py:57-58 | the first element of the list sorted in descending order is a candidate that no other candidate exceeds |
| `Matching.Strongest` | chatbot_app.py:56-58 | the scan returns the greatest candidate under the `(score, response)` order, the same one as `Top` |
| `Bot.Remember` | chatbot_app.py:39-41 | after the update the context grows by one until it holds three turns and then keeps its length; its last turn is the new tokens; the turns before it are the newest of the old context, in order, with only the oldest evicted |
| `Bot.RememberRecent` | chatbot_app.py:39-41 | one update moves the window of the three most recent turns along by one turn |
| `Bot.ContextHoldsMostRecentTurns` | chatbot_app.py:39-41 | after any sequence of turns from an empty memory, the context is exactly the last three turns (all of them if fewer), oldest first |
| `Bot.Decide` | chatbot_app.py:43-63 | the turn is a farewell exactly when the lower-cased input is "bye", "exit" or "quit"; it is a fallback exactly when it is not a farewell and there are no candidates; an answer is the response of a matching entry and of the greatest candidate; an empty token list never gives an answer |
| `Bot.FarewellWhateverTheMemory` | chatbot_app.py:43-44 | for a farewell input, the decision does not depend on the context or on the tokens |
| `Bot.AnswerIsGreatest` | chatbot_app.py:54-58 | the answer belongs to a candidate that every other candidate is below, by score or, on equal score, by response string |
| `Bot.ChatBot.constructor` | chatbot_app.py:14-27 | a new bot has an empty last input, empty last tokens and an empty context, and keeps the given name and library routines |
| `Bot.ChatBot.EveryReplyIsNonEmpty` | chatbot_app.py:20-27 | every farewell phrase, fallback phrase and knowledge-base answer is a non-empty string |
| `Bot.ChatBot.ReplyIsKnown` | chatbot_app.py:43-63 | any reply that realises a decision is a farewell phrase, a fallback phrase or a value of the knowledge base |
| `Bot.ChatBot.GetResponse` | chatbot_app.py:35-63 | afterwards `last_input` is the input and `last_tokens` its tokens, on every branch; the context is the old one updated by `Remember` and stays within three turns; the reply realises `Decide` on the updated memory; a farewell input gives a farewell phrase; every reply is a farewell phrase, a fallback phrase or a knowledge-base answer, and is non-empty |

## Left out

- The Streamlit page (lines 65-87): title, transcript, form, session state and rerun. It is presentation, not matching.
- The NLTK data path setup (lines 9-11). It is bootstrap configuration.
- The internals of `word_tokenize`, `WordNetLemmatizer`, the stop-word corpus, `str.isalnum` and `str.lower`. They are foreign library code; the model takes them as arbitrary given functions and a given set.
- The uniform distribution of `random.choice`. Only membership of the pick in its list is modelled.
- Floating-point scoring. Scores are the order-equivalent integers `2 * match_count + context_bonus`.
- The initial greeting (line 70). It is drawn in the page code; the model keeps the `greetings` list but does not draw from it.
- `list.sort` as an in-place sort. Only its first element is read, so the model selects the greatest element instead of sorting.
