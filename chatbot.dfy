/** ChatBot: the stateful responder. Each turn it normalises the input, records
    it in a memory bounded to the three most recent turns, and answers with a
    farewell, the best-scoring knowledge-base answer, or a fallback phrase. */
module Bot {
  import opened Normalizer
  import opened Matching

  /** How many recent turns the context keeps. */
  const ContextCapacity: nat := 3

  /** Inputs that end the conversation, compared with the whole lower-cased text. */
  const FarewellWords: seq<string> := ["bye", "exit", "quit"]

  /** The two phrases used when no entry matches. */
  const FallbackReplies: seq<string> :=
    ["Interesting! Tell me more.", "I don\U{2019}t have an answer for that yet. Try something else!"]

  /** The `memory` dictionary: the last input, its tokens, and the context. */
  datatype Memory = Memory(lastInput: string, lastTokens: seq<string>, context: seq<seq<string>>)

  /** `context.append(tokens)`, then `context.pop(0)` when it holds more than
      three turns. */
  function Remember(context: seq<seq<string>>, tokens: seq<string>): (r: seq<seq<string>>)
    ensures |r| == if |context| < ContextCapacity then |context| + 1 else |context|
    ensures |context| <= ContextCapacity ==> |r| <= ContextCapacity
    ensures r[|r| - 1] == tokens
    ensures r[..|r| - 1] == context[|context| + 1 - |r|..]
  {
    var appended := context + [tokens];
    if |appended| > ContextCapacity then appended[1..] else appended
  }

  /** The context after the given turns, starting from an empty memory. */
  function ContextAfter(turns: seq<seq<string>>): seq<seq<string>>
  {
    if turns == [] then [] else Remember(ContextAfter(turns[..|turns| - 1]), turns[|turns| - 1])
  }

  /** The last `n` elements of `turns` (all of them when there are fewer). */
  function MostRecent(turns: seq<seq<string>>, n: nat): seq<seq<string>>
  {
    if |turns| <= n then turns else turns[|turns| - n..]
  }

  /** However many turns there have been, the context holds exactly the three
      most recent ones, oldest first. */
  lemma {:induction false} ContextHoldsMostRecentTurns(turns: seq<seq<string>>)
    ensures ContextAfter(turns) == MostRecent(turns, ContextCapacity)
  {
    if turns != [] {
      var init, last := turns[..|turns| - 1], turns[|turns| - 1];
      ContextHoldsMostRecentTurns(init);
      assert turns == init + [last];
      RememberRecent(init, last);
    }
  }

  /** One turn moves the window of the most recent turns along by one. */
  lemma RememberRecent(init: seq<seq<string>>, last: seq<string>)
    ensures Remember(MostRecent(init, ContextCapacity), last) == MostRecent(init + [last], ContextCapacity)
  {
    var turns := init + [last];
    var n := |turns|;
    if |init| >= ContextCapacity {
      var before := init[|init| - ContextCapacity..];
      assert (before + [last])[1..] == turns[n - ContextCapacity..];
    }
  }

  /** What the turn decides, before any random choice: a farewell, a specific
      answer, or a fallback. */
  datatype Reply = Farewell | Answer(text: string) | Fallback

  /** The decision of get_response for the turn whose normalised input is
      `(tokens, lowered)`, with `context` the context already updated. */
  function Decide(tk: Toolkit, entries: seq<Entry>, context: seq<seq<string>>,
                  tokens: seq<string>, lowered: string): (r: Reply)
    ensures r == Farewell <==> lowered in FarewellWords
    ensures r == Fallback <==>
              lowered !in FarewellWords && Candidates(tk, entries, tokens, Prior(context)) == []
    ensures r.Answer? ==> exists e :: e in entries && IsMatch(tk, e, tokens) && r.text == e.response
    ensures forall c :: r.Answer? && IsBest(c, Candidates(tk, entries, tokens, Prior(context))) ==>
              r.text == c.response
    ensures tokens == [] ==> !r.Answer?
  {
    if lowered in FarewellWords then Farewell
    else
      var cs := Candidates(tk, entries, tokens, Prior(context));
      if cs == [] then Fallback
      else
        var best := Top(cs);
        assert forall c :: IsBest(c, cs) ==> c == best by {
          forall c | IsBest(c, cs) ensures c == best {
            BestIsUnique(c, best, cs);
          }
        }
        Answer(best.response)
  }

  /** A farewell hangs only on the lower-cased text, never on the memory. */
  lemma FarewellWhateverTheMemory(tk: Toolkit, entries: seq<Entry>,
                                  context1: seq<seq<string>>, context2: seq<seq<string>>,
                                  tokens1: seq<string>, tokens2: seq<string>, lowered: string)
    requires lowered in FarewellWords
    ensures Decide(tk, entries, context1, tokens1, lowered) == Decide(tk, entries, context2, tokens2, lowered)
  {
  }

  /** An answer is the response of the greatest candidate under the order of
      `(score, response)`: no other candidate scores higher, and one that
      scores the same has a smaller response string. */
  lemma AnswerIsGreatest(tk: Toolkit, entries: seq<Entry>, context: seq<seq<string>>,
                         tokens: seq<string>, lowered: string)
    ensures var reply := Decide(tk, entries, context, tokens, lowered);
            var cs := Candidates(tk, entries, tokens, Prior(context));
            reply.Answer? ==>
              exists c :: c in cs && c.response == reply.text &&
                forall d :: d in cs && d != c ==>
                  d.score < c.score || (d.score == c.score && StrLess(d.response, c.response))
  {
    var reply := Decide(tk, entries, context, tokens, lowered);
    if reply.Answer? {
      var cs := Candidates(tk, entries, tokens, Prior(context));
      var c := Top(cs);
      forall d | d in cs && d != c
        ensures d.score < c.score || (d.score == c.score && StrLess(d.response, c.response))
      {
        KeyLessStrictTotal(c, d);
      }
    }
  }

  /** How one random draw realises a decision: any farewell phrase, any
      fallback phrase, or exactly the chosen answer. */
  predicate Realises(r: string, reply: Reply, farewells: seq<string>)
  {
    match reply
    case Farewell => r in farewells
    case Fallback => r in FallbackReplies
    case Answer(text) => r == text
  }

  class ChatBot {
    const name: string
    const tk: Toolkit
    const greetings: seq<string> := ["Hello!", "Hi there!", "Hey!", "Greetings!"]
    const farewells: seq<string> := ["Goodbye!", "See you later!", "Bye!", "Take care!"]
    /** The `responses` dictionary, as its items in insertion order. */
    const responses: seq<Entry> := [
      Entry("what is your name", "I am a simple chatbot."),
      Entry("what is the chemical symbol for water", "The chemical symbol for water is H2O."),
      Entry("what is the chemical symbol for gold", "The chemical symbol for gold is Au."),
      Entry("what is the largest mammal", "The blue whale is the largest mammal.")
    ]
    var memory: Memory

    /** The context never holds more than three turns. */
    ghost predicate Valid()
      reads this
    {
      |memory.context| <= ContextCapacity
    }

    /** `__init__`: the library routines are handed in ready to use. */
    constructor (name: string, tk: Toolkit)
      ensures Valid()
      ensures this.name == name && this.tk == tk
      ensures memory == Memory("", [], [])
    {
      this.name := name;
      this.tk := tk;
      memory := Memory("", [], []);
    }

    /** Every reply the bot can give: a farewell, a knowledge-base answer or a
        fallback phrase; none of them is empty. */
    lemma EveryReplyIsNonEmpty(r: string)
      requires r in farewells || r in FallbackReplies || exists e :: e in responses && r == e.response
      ensures r != []
    {
    }

    /** Whatever the decision, a reply that realises it is a farewell phrase,
        a fallback phrase or a value of the knowledge base. */
    lemma ReplyIsKnown(r: string, context: seq<seq<string>>, tokens: seq<string>, lowered: string)
      requires Realises(r, Decide(tk, responses, context, tokens, lowered), farewells)
      ensures r in farewells || r in FallbackReplies || exists e :: e in responses && r == e.response
    {
    }

    /** get_response. */
    method GetResponse(userInput: string) returns (r: string)
      requires Valid()
      modifies this
      ensures Valid()
      ensures memory.lastInput == userInput
      ensures memory.lastTokens == ProcessInput(tk, userInput).0
      ensures memory.context == Remember(old(memory.context), memory.lastTokens)
      ensures Realises(r, Decide(tk, responses, memory.context, memory.lastTokens, tk.lower(userInput)), farewells)
      ensures tk.lower(userInput) in FarewellWords ==> r in farewells
      ensures r in farewells || r in FallbackReplies || exists e :: e in responses && r == e.response
      ensures r != []
    {
      var (tokens, rawInput) := ProcessInput(tk, userInput);
      memory := memory.(lastInput := userInput);
      memory := memory.(lastTokens := tokens);
      memory := memory.(context := memory.context + [tokens]);
      if |memory.context| > ContextCapacity {
        memory := memory.(context := memory.context[1..]);
      }
      assert memory.context == Remember(old(memory.context), tokens);
      ghost var reply := Decide(tk, responses, memory.context, tokens, rawInput);

      if rawInput in FarewellWords {
        assert farewells[0] in farewells;
        r :| r in farewells;
        assert Realises(r, reply, farewells);
      } else {
        var matches := CollectMatches(tk, responses, tokens, Prior(memory.context));
        if matches != [] {
          var best := Strongest(matches);
          r := best.response;
        } else {
          assert FallbackReplies[0] in FallbackReplies;
          r :| r in FallbackReplies;
        }
        assert Realises(r, reply, farewells);
      }
      ReplyIsKnown(r, memory.context, tokens, rawInput);
      EveryReplyIsNonEmpty(r);
    }
  }
}
