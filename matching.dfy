/** The scoring half of ChatBot.get_response: how a knowledge-base entry is
    scored against the current turn and the earlier turns of the context, which
    entries become candidates, and which candidate wins. */
module Matching {
  import opened Normalizer

  /** One item of the knowledge-base dictionary: a question and its answer. */
  datatype Entry = Entry(question: string, response: string)

  /** One element of the list of matches. The source scores an entry as
      `match_count + 0.5 * context_bonus`; the model keeps twice that,
      `2 * match_count + context_bonus`, which orders entries the same way. */
  datatype Candidate = Candidate(score: nat, response: string)

  /** `set(tokens)`. */
  function TokenSet(tokens: seq<string>): (s: set<string>)
    ensures forall t :: t in s <==> t in tokens
  {
    set t | t in tokens
  }

  /** `set(word_tokenize(question.lower()))`: the question is tokenised only,
      neither filtered for stop words nor lemmatised. */
  function QuestionTokens(tk: Toolkit, question: string): (s: set<string>)
    ensures forall t :: t in s <==> t in tk.tokenize(tk.lower(question))
  {
    TokenSet(tk.tokenize(tk.lower(question)))
  }

  /** `len(question_tokens & set(tokens))`: duplicates in the input count once. */
  function MatchCount(questionTokens: set<string>, tokens: seq<string>): (n: nat)
    ensures n <= |questionTokens|
    ensures n == 0 <==> forall t :: t in tokens ==> t !in questionTokens
  {
    var shared := questionTokens * TokenSet(tokens);
    assert |questionTokens| == |shared| + |questionTokens - shared| by {
      assert questionTokens == shared + (questionTokens - shared);
    }
    assert forall t :: t in tokens && t in questionTokens ==> t in shared;
    |shared|
  }

  /** Adding one more input token raises the match count of a question by
      exactly one when the token is in the question and new to the input, and
      leaves it unchanged otherwise. */
  lemma MatchCountExtend(questionTokens: set<string>, tokens: seq<string>, t: string)
    ensures MatchCount(questionTokens, tokens + [t]) ==
            if t in questionTokens && t !in tokens then MatchCount(questionTokens, tokens) + 1
            else MatchCount(questionTokens, tokens)
  {
    var before := questionTokens * TokenSet(tokens);
    var after := questionTokens * TokenSet(tokens + [t]);
    if t in questionTokens && t !in tokens {
      assert after == before + {t};
    } else {
      assert after == before;
    }
  }

  /** `any(t in question_tokens for t in past_tokens)`. */
  predicate Overlaps(questionTokens: set<string>, past: seq<string>)
  {
    exists t :: t in past && t in questionTokens
  }

  /** `sum(1 for past in prior if Overlaps(question_tokens, past))`: the number
      of earlier turns that share at least one token with the question. */
  function ContextBonus(questionTokens: set<string>, prior: seq<seq<string>>): (b: nat)
    ensures b <= |prior|
    ensures b == 0 <==> forall p :: p in prior ==> !Overlaps(questionTokens, p)
    ensures b == |prior| <==> forall p :: p in prior ==> Overlaps(questionTokens, p)
  {
    if prior == [] then 0
    else
      assert forall p :: p in prior <==> p == prior[0] || p in prior[1..];
      (if Overlaps(questionTokens, prior[0]) then 1 else 0) + ContextBonus(questionTokens, prior[1..])
  }

  /** The bonus is a sum over the earlier turns, one term per turn. */
  lemma {:induction false} ContextBonusConcat(questionTokens: set<string>, a: seq<seq<string>>, b: seq<seq<string>>)
    ensures ContextBonus(questionTokens, a + b) == ContextBonus(questionTokens, a) + ContextBonus(questionTokens, b)
  {
    if a == [] {
      assert a + b == b;
    } else {
      assert (a + b)[0] == a[0];
      assert (a + b)[1..] == a[1..] + b;
      ContextBonusConcat(questionTokens, a[1..], b);
    }
  }

  /** An earlier turn with no tokens adds nothing to the bonus. */
  lemma EmptyTurnAddsNoBonus(questionTokens: set<string>, a: seq<seq<string>>, b: seq<seq<string>>)
    ensures ContextBonus(questionTokens, a + [[]] + b) == ContextBonus(questionTokens, a + b)
  {
    ContextBonusConcat(questionTokens, a + [[]], b);
    ContextBonusConcat(questionTokens, a, [[]]);
    ContextBonusConcat(questionTokens, a, b);
    assert !Overlaps(questionTokens, []);
  }

  /** `context[:-1]`: every turn of the context except the newest one. */
  function Prior(context: seq<seq<string>>): (r: seq<seq<string>>)
    ensures |context| > 0 ==> |r| == |context| - 1 && context == r + [context[|context| - 1]]
    ensures |context| == 0 ==> r == []
  {
    if |context| == 0 then [] else context[..|context| - 1]
  }

  /** With a context of at most three turns the bonus is 0, 1 or 2. */
  lemma ContextBonusAtMostTwo(questionTokens: set<string>, context: seq<seq<string>>)
    requires |context| <= 3
    ensures ContextBonus(questionTokens, Prior(context)) <= 2
  {
  }

  /** Twice the source's score, as an integer. */
  function Score(matchCount: nat, contextBonus: nat): nat
  {
    2 * matchCount + contextBonus
  }

  /** The source's score, `match_count + context_bonus * 0.5`. */
  function SourceScore(matchCount: nat, contextBonus: nat): real
  {
    matchCount as real + contextBonus as real * 0.5
  }

  /** The integer score orders and ties entries exactly as the source's score. */
  lemma ScoreAgreesWithSource(m1: nat, b1: nat, m2: nat, b2: nat)
    ensures Score(m1, b1) < Score(m2, b2) <==> SourceScore(m1, b1) < SourceScore(m2, b2)
    ensures Score(m1, b1) == Score(m2, b2) <==> SourceScore(m1, b1) == SourceScore(m2, b2)
  {
  }

  /** An entry is a candidate when its question shares a token with the input. */
  predicate IsMatch(tk: Toolkit, e: Entry, tokens: seq<string>)
  {
    MatchCount(QuestionTokens(tk, e.question), tokens) > 0
  }

  /** The element the loop appends for entry `e`. */
  function Scored(tk: Toolkit, e: Entry, tokens: seq<string>, prior: seq<seq<string>>): Candidate
  {
    var questionTokens := QuestionTokens(tk, e.question);
    Candidate(Score(MatchCount(questionTokens, tokens), ContextBonus(questionTokens, prior)), e.response)
  }

  /** The list `matches` after the loop has run over `entries`, in order. */
  function Candidates(tk: Toolkit, entries: seq<Entry>, tokens: seq<string>, prior: seq<seq<string>>): (cs: seq<Candidate>)
    ensures |cs| <= |entries|
    ensures forall c :: c in cs ==>
              exists e :: e in entries && IsMatch(tk, e, tokens) && c == Scored(tk, e, tokens, prior)
    ensures forall e :: e in entries && IsMatch(tk, e, tokens) ==> Scored(tk, e, tokens, prior) in cs
    ensures tokens == [] ==> cs == []
    decreases |entries|
  {
    if entries == [] then []
    else
      var init, last := entries[..|entries| - 1], entries[|entries| - 1];
      assert forall e :: e in entries <==> e in init || e == last by {
        assert entries == init + [last];
      }
      Candidates(tk, init, tokens, prior) + (if IsMatch(tk, last, tokens) then [Scored(tk, last, tokens, prior)] else [])
  }

  /** One more round of the loop over the entries appends at most one element. */
  lemma CandidatesStep(tk: Toolkit, entries: seq<Entry>, i: nat, tokens: seq<string>, prior: seq<seq<string>>)
    requires i < |entries|
    ensures Candidates(tk, entries[..i + 1], tokens, prior) ==
            Candidates(tk, entries[..i], tokens, prior) +
            (if IsMatch(tk, entries[i], tokens) then [Scored(tk, entries[i], tokens, prior)] else [])
  {
    assert entries[..i + 1][..i] == entries[..i];
  }

  /** The loop of get_response over the dictionary items: for each entry
      whose question shares a token with the input, append its score and
      answer to `matches`. */
  method CollectMatches(tk: Toolkit, entries: seq<Entry>, tokens: seq<string>, prior: seq<seq<string>>)
    returns (matches: seq<Candidate>)
    ensures matches == Candidates(tk, entries, tokens, prior)
  {
    matches := [];
    for i := 0 to |entries|
      invariant matches == Candidates(tk, entries[..i], tokens, prior)
    {
      var e := entries[i];
      var questionTokens := QuestionTokens(tk, e.question);
      var inputTokens := TokenSet(tokens);
      var matchCount := |questionTokens * inputTokens|;
      CandidatesStep(tk, entries, i, tokens, prior);
      if matchCount > 0 {
        var contextBonus := ContextBonus(questionTokens, prior);
        matches := matches + [Candidate(Score(matchCount, contextBonus), e.response)];
      }
    }
    assert entries[..|entries|] == entries;
  }

  /** Python's `<` on str: lexicographic order on code points, a proper prefix
      being smaller. (Dafny's own `<` on strings means "proper prefix".) */
  predicate StrLess(a: string, b: string)
  {
    if a == [] then b != []
    else if b == [] then false
    else if a[0] != b[0] then a[0] < b[0]
    else StrLess(a[1..], b[1..])
  }

  lemma {:induction false} StrLessIrreflexive(a: string)
    ensures !StrLess(a, a)
  {
    if a != [] {
      StrLessIrreflexive(a[1..]);
    }
  }

  lemma {:induction false} StrLessTransitive(a: string, b: string, c: string)
    requires StrLess(a, b) && StrLess(b, c)
    ensures StrLess(a, c)
  {
    if a != [] && b != [] && c != [] && a[0] == b[0] && b[0] == c[0] {
      StrLessTransitive(a[1..], b[1..], c[1..]);
    }
  }

  lemma {:induction false} StrLessTotal(a: string, b: string)
    ensures a == b || StrLess(a, b) || StrLess(b, a)
  {
    if a != [] && b != [] && a[0] == b[0] {
      StrLessTotal(a[1..], b[1..]);
      if a[1..] == b[1..] {
        assert a == [a[0]] + a[1..] && b == [b[0]] + b[1..];
      }
    }
  }

  /** The order of the `(score, response)` tuples that the source sorts. */
  predicate KeyLess(c: Candidate, d: Candidate)
  {
    c.score < d.score || (c.score == d.score && StrLess(c.response, d.response))
  }

  lemma KeyLessTransitive(c: Candidate, d: Candidate, e: Candidate)
    requires KeyLess(c, d) && KeyLess(d, e)
    ensures KeyLess(c, e)
  {
    if c.score == d.score && d.score == e.score {
      StrLessTransitive(c.response, d.response, e.response);
    }
  }

  /** Two different candidates are always ordered one way or the other, and
      no candidate is below itself. */
  lemma KeyLessStrictTotal(c: Candidate, d: Candidate)
    ensures !KeyLess(c, c)
    ensures c == d || KeyLess(c, d) || KeyLess(d, c)
  {
    StrLessIrreflexive(c.response);
    StrLessTotal(c.response, d.response);
  }

  /** `c` comes first once `cs` is sorted in descending order. */
  predicate IsBest(c: Candidate, cs: seq<Candidate>)
  {
    c in cs && forall d :: d in cs ==> !KeyLess(c, d)
  }

  /** The first element after sorting is well defined: at most one candidate
      is best, so ties on the score go to the greatest response string. */
  lemma BestIsUnique(c: Candidate, d: Candidate, cs: seq<Candidate>)
    requires IsBest(c, cs) && IsBest(d, cs)
    ensures c == d
  {
    KeyLessStrictTotal(c, d);
  }

  /** `sorted(cs, reverse=True)[0]`, as a function: the greatest candidate. */
  function Top(cs: seq<Candidate>): (r: Candidate)
    requires cs != []
    ensures IsBest(r, cs)
  {
    if |cs| == 1 then
      KeyLessStrictTotal(cs[0], cs[0]);
      cs[0]
    else
      var rest := Top(cs[1..]);
      assert forall d :: d in cs <==> d == cs[0] || d in cs[1..];
      if KeyLess(rest, cs[0]) then
        assert forall d :: d in cs[1..] ==> !KeyLess(cs[0], d) by {
          forall d | d in cs[1..] ensures !KeyLess(cs[0], d) {
            if KeyLess(cs[0], d) {
              KeyLessTransitive(rest, cs[0], d);
            }
          }
        }
        KeyLessStrictTotal(cs[0], cs[0]);
        cs[0]
      else
        rest
  }

  /** `matches.sort(reverse=True); matches[0]`: only the first element of the
      sorted list is read, so the model scans once for the greatest element. */
  method Strongest(cs: seq<Candidate>) returns (best: Candidate)
    requires cs != []
    ensures IsBest(best, cs)
    ensures best == Top(cs)
  {
    best := cs[0];
    KeyLessStrictTotal(best, best);
    for i := 1 to |cs|
      invariant IsBest(best, cs[..i])
    {
      assert forall d :: d in cs[..i + 1] <==> d in cs[..i] || d == cs[i] by {
        assert cs[..i + 1] == cs[..i] + [cs[i]];
      }
      if KeyLess(best, cs[i]) {
        var previous := best;
        best := cs[i];
        forall d | d in cs[..i] ensures !KeyLess(best, d) {
          if KeyLess(best, d) {
            KeyLessTransitive(previous, best, d);
          }
        }
        KeyLessStrictTotal(best, best);
      }
    }
    assert cs[..|cs|] == cs;
    BestIsUnique(best, Top(cs), cs);
  }
}
