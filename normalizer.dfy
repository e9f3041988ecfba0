/** The normaliser of the chatbot (ChatBot.process_input): lower-case the text,
    split it into word tokens, keep the tokens that are alphanumeric and not
    stop words, and reduce each kept token to its lemma. */
module Normalizer {

  /** The library routines the normaliser relies on, taken as given functions:
      `lower` is str.lower, `tokenize` is NLTK's word_tokenize, `isAlnum` is
      str.isalnum, `lemmatize` is WordNetLemmatizer.lemmatize, and `stopWords`
      is the English stop-word list loaded once when the bot is built. */
  datatype Toolkit = Toolkit(
    lower: string -> string,
    tokenize: string -> seq<string>,
    isAlnum: string -> bool,
    lemmatize: string -> string,
    stopWords: set<string>)

  /** The filter of the list comprehension: not a stop word and alphanumeric. */
  predicate Kept(tk: Toolkit, token: string)
  {
    token !in tk.stopWords && tk.isAlnum(token)
  }

  /** The list comprehension `[lemmatize(t) for t in tokens if Kept(t)]`. */
  function LemmatizeKept(tk: Toolkit, tokens: seq<string>): (r: seq<string>)
    ensures |r| <= |tokens|
  {
    if tokens == [] then []
    else if Kept(tk, tokens[0]) then [tk.lemmatize(tokens[0])] + LemmatizeKept(tk, tokens[1..])
    else LemmatizeKept(tk, tokens[1..])
  }

  /** The comprehension works token by token, left to right: the output for a
      concatenation is the concatenation of the outputs. Together with the
      one-token case this fixes the output, order and duplicates included. */
  lemma {:induction false} LemmatizeKeptConcat(tk: Toolkit, a: seq<string>, b: seq<string>)
    ensures LemmatizeKept(tk, a + b) == LemmatizeKept(tk, a) + LemmatizeKept(tk, b)
  {
    if a == [] {
      assert a + b == b;
    } else {
      assert (a + b)[0] == a[0];
      assert (a + b)[1..] == a[1..] + b;
      LemmatizeKeptConcat(tk, a[1..], b);
    }
  }

  /** Every output token is the lemma of a kept input token, every kept input
      token has its lemma in the output, and the output is empty exactly when
      no input token is kept. */
  lemma {:induction false} LemmatizeKeptMembers(tk: Toolkit, tokens: seq<string>)
    ensures forall x :: x in LemmatizeKept(tk, tokens) ==>
              exists t :: t in tokens && Kept(tk, t) && x == tk.lemmatize(t)
    ensures forall t :: t in tokens && Kept(tk, t) ==> tk.lemmatize(t) in LemmatizeKept(tk, tokens)
    ensures LemmatizeKept(tk, tokens) == [] <==> forall t :: t in tokens ==> !Kept(tk, t)
  {
    if tokens != [] {
      LemmatizeKeptMembers(tk, tokens[1..]);
      assert forall t :: t in tokens <==> t == tokens[0] || t in tokens[1..];
    }
  }

  /** What a single token contributes: its lemma when it passes the filter,
      nothing otherwise. */
  lemma LemmatizeKeptSingle(tk: Toolkit, t: string)
    ensures LemmatizeKept(tk, [t]) == (if Kept(tk, t) then [tk.lemmatize(t)] else [])
  {
    assert [t][1..] == [];
  }

  /** process_input: the kept, lemmatised tokens of the lower-cased text, and
      the lower-cased text itself. */
  function ProcessInput(tk: Toolkit, text: string): (r: (seq<string>, string))
    ensures r.1 == tk.lower(text)
    ensures |r.0| <= |tk.tokenize(r.1)|
    ensures forall x :: x in r.0 ==>
              exists t :: t in tk.tokenize(tk.lower(text)) && Kept(tk, t) && x == tk.lemmatize(t)
    ensures forall t :: t in tk.tokenize(tk.lower(text)) && Kept(tk, t) ==> tk.lemmatize(t) in r.0
    ensures r.0 == [] <==> forall t :: t in tk.tokenize(tk.lower(text)) ==> !Kept(tk, t)
  {
    LemmatizeKeptMembers(tk, tk.tokenize(tk.lower(text)));
    var lowered := tk.lower(text);
    (LemmatizeKept(tk, tk.tokenize(lowered)), lowered)
  }
}
