/**
 Term vectors: one natural-number count per vocabulary term. Entry vectors
 count an entry's keywords, the query vector counts the tokens of the user's
 message; both are built by the same loop, which looks each term up with
 `indexOf` and bumps the count at that position.
 */
module Vectors {
  import opened Text
  import opened Faq
  import Tokenizer

  /** The first position of `t` in the vocabulary, or -1 when it is absent. */
  function IndexOf(vocabulary: seq<string>, t: string): (idx: int)
    ensures -1 <= idx < |vocabulary|
    ensures idx == -1 <==> t !in vocabulary
    ensures idx >= 0 ==> vocabulary[idx] == t && t !in vocabulary[..idx]
  {
    if |vocabulary| == 0 then -1
    else if vocabulary[0] == t then 0
    else
      var k := IndexOf(vocabulary[1..], t);
      assert k >= 0 ==> vocabulary[..k + 1] == [vocabulary[0]] + vocabulary[1..][..k];
      if k == -1 then -1 else k + 1
  }

  /** The vector of `n` zero counts. */
  function Zeros(n: nat): (v: seq<nat>)
    ensures |v| == n && forall j :: 0 <= j < n ==> v[j] == 0
  {
    seq(n, _ => 0)
  }

  /**
   The counting loop shared by entry and query vectors: start from zeros and,
   for each term in order, add one at its `indexOf` position when it has one.
   */
  function Encode(terms: seq<string>, vocabulary: seq<string>): (vec: seq<nat>)
    ensures |vec| == |vocabulary|
  {
    if |terms| == 0 then Zeros(|vocabulary|)
    else
      var vec := Encode(terms[..|terms| - 1], vocabulary);
      var idx := IndexOf(vocabulary, terms[|terms| - 1]);
      if idx == -1 then vec else vec[idx := vec[idx] + 1]
  }

  /**
   Over a vocabulary without repeats, component `j` is the number of
   occurrences of `vocabulary[j]` among the terms.
   */
  lemma {:induction false} EncodeCounts(terms: seq<string>, vocabulary: seq<string>)
    requires Distinct(vocabulary)
    ensures forall j :: 0 <= j < |vocabulary| ==>
      Encode(terms, vocabulary)[j] == multiset(terms)[vocabulary[j]]
  {
    if |terms| > 0 {
      var init, t := terms[..|terms| - 1], terms[|terms| - 1];
      EncodeCounts(init, vocabulary);
      assert terms == init + [t];
      assert multiset(terms) == multiset(init) + multiset{t};
      var idx := IndexOf(vocabulary, t);
      forall j | 0 <= j < |vocabulary|
        ensures Encode(terms, vocabulary)[j] == multiset(terms)[vocabulary[j]]
      {
        if idx == j {
          assert vocabulary[j] == t;
        } else {
          assert idx >= 0 ==> vocabulary[idx] != vocabulary[j];
        }
      }
    }
  }

  /** Terms outside the vocabulary leave every component at zero. */
  lemma {:induction false} EncodeUnknownIsZero(terms: seq<string>, vocabulary: seq<string>)
    requires forall t :: t in terms ==> t !in vocabulary
    ensures forall j :: 0 <= j < |vocabulary| ==> Encode(terms, vocabulary)[j] == 0
  {
    if |terms| > 0 {
      var init := terms[..|terms| - 1];
      assert forall t :: t in init ==> t in terms;
      EncodeUnknownIsZero(init, vocabulary);
      assert terms[|terms| - 1] in terms;
    }
  }

  /** The sum of a vector's components. */
  function Total(v: seq<nat>): nat {
    if |v| == 0 then 0 else Total(v[..|v| - 1]) + v[|v| - 1]
  }

  /** The terms that the vocabulary knows, in order. */
  function Known(terms: seq<string>, vocabulary: seq<string>): (r: seq<string>)
    ensures forall t :: t in r <==> t in terms && t in vocabulary
  {
    if |terms| == 0 then []
    else
      var init, t := terms[..|terms| - 1], terms[|terms| - 1];
      assert forall u :: u in terms <==> u in init || u == t;
      if t in vocabulary then Known(init, vocabulary) + [t] else Known(init, vocabulary)
  }

  lemma {:induction false} TotalBump(v: seq<nat>, i: nat)
    requires i < |v|
    ensures Total(v[i := v[i] + 1]) == Total(v) + 1
  {
    var w := v[i := v[i] + 1];
    if i < |v| - 1 {
      assert w[..|w| - 1] == v[..|v| - 1][i := v[i] + 1];
      TotalBump(v[..|v| - 1], i);
    } else {
      assert w[..|w| - 1] == v[..|v| - 1];
    }
  }

  lemma {:induction false} TotalZeros(n: nat)
    ensures Total(Zeros(n)) == 0
  {
    if n > 0 {
      assert Zeros(n)[..n - 1] == Zeros(n - 1);
      TotalZeros(n - 1);
    }
  }

  /** Every known term adds exactly one to the vector, and nothing else does. */
  lemma {:induction false} EncodeTotal(terms: seq<string>, vocabulary: seq<string>)
    ensures Total(Encode(terms, vocabulary)) == |Known(terms, vocabulary)|
  {
    if |terms| == 0 {
      TotalZeros(|vocabulary|);
    } else {
      EncodeTotal(terms[..|terms| - 1], vocabulary);
      EncodeStep(terms, vocabulary);
    }
  }

  /** The last term adds one to the total exactly when the vocabulary knows it. */
  lemma EncodeStep(terms: seq<string>, vocabulary: seq<string>)
    requires |terms| > 0
    ensures var init := terms[..|terms| - 1];
      Total(Encode(terms, vocabulary)) - Total(Encode(init, vocabulary))
      == |Known(terms, vocabulary)| - |Known(init, vocabulary)|
  {
    var init, t := terms[..|terms| - 1], terms[|terms| - 1];
    var prev := Encode(init, vocabulary);
    var idx := IndexOf(vocabulary, t);
    if idx != -1 {
      TotalBump(prev, idx);
    }
  }

  /** The counts of the message's tokens over the vocabulary. */
  function QueryVector(vocabulary: seq<string>, text: string): (vec: seq<nat>)
    ensures |vec| == |vocabulary|
    ensures Distinct(vocabulary) ==> forall j :: 0 <= j < |vocabulary| ==>
      vec[j] == multiset(Tokenizer.Tokenize(text))[vocabulary[j]]
  {
    var tokens := Tokenizer.Tokenize(text);
    assert Distinct(vocabulary) ==> forall j :: 0 <= j < |vocabulary| ==>
      Encode(tokens, vocabulary)[j] == multiset(tokens)[vocabulary[j]] by {
      if Distinct(vocabulary) {
        EncodeCounts(tokens, vocabulary);
      }
    }
    Encode(tokens, vocabulary)
  }

  /** A message none of whose tokens is in the vocabulary encodes to all zeros. */
  lemma QueryVectorUnknown(vocabulary: seq<string>, text: string)
    requires forall t :: t in Tokenizer.Tokenize(text) ==> t !in vocabulary
    ensures forall j :: 0 <= j < |vocabulary| ==> QueryVector(vocabulary, text)[j] == 0
  {
    EncodeUnknownIsZero(Tokenizer.Tokenize(text), vocabulary);
  }

  /** The vector stored for one entry at load time: the counts of its keywords. */
  function EntryVector(vocabulary: seq<string>, entry: Entry): (vec: seq<nat>)
    ensures |vec| == |vocabulary|
    ensures Distinct(vocabulary) ==> forall j :: 0 <= j < |vocabulary| ==>
      vec[j] == multiset(entry.keywords)[vocabulary[j]]
  {
    assert Distinct(vocabulary) ==> forall j :: 0 <= j < |vocabulary| ==>
      Encode(entry.keywords, vocabulary)[j] == multiset(entry.keywords)[vocabulary[j]] by {
      if Distinct(vocabulary) {
        EncodeCounts(entry.keywords, vocabulary);
      }
    }
    Encode(entry.keywords, vocabulary)
  }
}
