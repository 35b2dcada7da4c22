/**
 Worked queries against a knowledge base of one item, the fees question with
 keywords `fees` and `admission`: a message that shares a keyword with the
 item is answered with it, a message that shares none is deflected.
 */
module Scenarios {
  import opened Text
  import opened Faq
  import opened Tokenizer
  import opened TokenLaws
  import opened Vectors
  import opened Cosine
  import opened Engine
  import Vocabulary

  const FeesEntry := Entry("What are the fees?", "Fees are 50000.", ["fees", "admission"])

  lemma FeesVocabulary()
    ensures Vocabulary.Build([FeesEntry]) == ["admission", "fees"]
  {
    var entries := [FeesEntry];
    assert Faq.AllKeywords(entries) == ["fees", "admission"] by {
      assert entries[..0] == [];
    }
    var ks := ["fees", "admission"];
    assert ks[..1] == ["fees"] && ks[..1][..0] == [];
    assert Vocabulary.SortDistinct(["fees"]) == ["fees"];
    assert Precedes("admission", "fees");
  }

  /** The one-entry vocabulary has no repeats. */
  lemma FeesVocabularyDistinct()
    ensures Distinct(["admission", "fees"])
  {
    var v := ["admission", "fees"];
    assert v[0] != v[1] by {
      assert |v[0]| != |v[1]|;
    }
  }

  /** A query vector is pinned down by the token counts of the vocabulary's terms. */
  lemma QueryVectorFromCounts(vocabulary: seq<string>, text: string, counts: seq<nat>)
    requires Distinct(vocabulary) && |counts| == |vocabulary|
    requires forall j :: 0 <= j < |vocabulary| ==> multiset(Tokenize(text))[vocabulary[j]] == counts[j]
    ensures QueryVector(vocabulary, text) == counts
  {
  }

  /** Any message with one "fees" token and no "admission" token has the query vector (0, 1). */
  lemma FeesQueryVector(text: string)
    requires multiset(Tokenize(text))["admission"] == 0 && multiset(Tokenize(text))["fees"] == 1
    ensures QueryVector(["admission", "fees"], text) == [0, 1]
  {
    FeesVocabularyDistinct();
    QueryVectorFromCounts(["admission", "fees"], text, [0, 1]);
  }

  lemma FeesEntryVector()
    ensures EntryVector(["admission", "fees"], FeesEntry) == [1, 1]
  {
    assert multiset(FeesEntry.keywords)["admission"] == 1 && multiset(FeesEntry.keywords)["fees"] == 1;
  }

  lemma FeesCosine()
    ensures CosineSimilarity([0, 1], [1, 1]) == Score(1, 2)
  {
    assert [0, 1][..1] == [0] && [1, 1][..1] == [1];
    assert Dot([0, 1], [1, 1]) == 1 && Norm2([0, 1]) == 1 && Norm2([1, 1]) == 2;
  }

  lemma FeesContext()
    ensures Load([FeesEntry]) == Context([FeesEntry], ["admission", "fees"], [[1, 1]])
  {
    FeesVocabulary();
    FeesEntryVector();
  }

  /** The context loaded from the fees entry alone. */
  function FeesLoaded(): (ctx: Context)
    ensures ctx == Load([FeesEntry]) && ctx.Consistent()
    ensures ctx.vocabulary == ["admission", "fees"] && ctx.entryVectors == [[1, 1]]
    ensures ctx.entries == [FeesEntry]
  {
    FeesContext();
    Context([FeesEntry], ["admission", "fees"], [[1, 1]])
  }

  /** Scoring against the fees context compares with its one entry vector. */
  lemma FeesScores(text: string)
    ensures Scores(FeesLoaded(), text) == [CosineSimilarity(QueryVector(["admission", "fees"], text), [1, 1])]
  {
  }

  /** With one entry, a score at or above the floor selects that entry. */
  lemma SelectSingle(e: Entry, s: Score, pick: nat)
    requires s.Squared() >= Threshold && pick < |Deflections|
    ensures SelectAnswer([e], [s], pick) == MatchResult(e.answer, e.question, s)
  {
    assert IsFirstBest([s], 0);
  }

  /** A message with a token is not blank. */
  lemma TokenMeansNotBlank(text: string, t: string)
    requires t in Tokenize(text)
    ensures !IsBlank(text)
  {
  }

  /**
   Against the fees entry, a message with one "fees" token and no
   "admission" token has the query vector (0, 1) and the entry the vector
   (1, 1), so the cosine is 1/sqrt(2), above the floor, and the entry's
   answer is the reply.
   */
  lemma FeesQueryMatches(text: string, pick: nat)
    requires multiset(Tokenize(text))["admission"] == 0 && multiset(Tokenize(text))["fees"] == 1
    requires pick < |Deflections|
    ensures GetBestAnswer(FeesLoaded(), text, pick) == MatchResult(FeesEntry.answer, FeesEntry.question, Score(1, 2))
  {
    FeesQueryVector(text);
    FeesCosine();
    FeesScores(text);
    TokenMeansNotBlank(text, "fees");
    SelectSingle(FeesEntry, Score(1, 2), pick);
  }

  lemma NoFeesKeyword(text: string)
    requires "admission" !in Tokenize(text) && "fees" !in Tokenize(text)
    ensures forall t :: t in Tokenize(text) ==> t !in ["admission", "fees"]
  {
    forall t | t in Tokenize(text) ensures t !in ["admission", "fees"] {
      assert t != "admission" && t != "fees";
    }
  }

  /**
   A message with some tokens but neither keyword among them has an all-zero vector,
   every score is 0 and the reply is a deflection with confidence 0.
   */
  lemma WeatherQueryIsUnclear(text: string, pick: nat)
    requires Tokenize(text) != []
    requires "admission" !in Tokenize(text) && "fees" !in Tokenize(text)
    requires pick < |Deflections|
    ensures GetBestAnswer(FeesLoaded(), text, pick)
         == MatchResult(Deflections[pick], "unclear", Zero)
  {
    NoFeesKeyword(text);
    TokenMeansNotBlank(text, Tokenize(text)[0]);
    NoSharedTermIsUnclear(FeesLoaded(), text, pick);
  }

  /** The one-word message "fees" is answered from the fees entry. */
  lemma FeesWordMatches(pick: nat)
    requires pick < |Deflections|
    ensures GetBestAnswer(Load([FeesEntry]), "fees", pick)
         == MatchResult("Fees are 50000.", "What are the fees?", Score(1, 2))
  {
    TokenizeWord("fees");
    SingleTokenCounts("fees", "admission");
    FeesQueryMatches("fees", pick);
  }

  /** The one-word message "weather" is deflected with confidence 0. */
  lemma WeatherWordIsUnclear(pick: nat)
    requires pick < |Deflections|
    ensures GetBestAnswer(Load([FeesEntry]), "weather", pick) == MatchResult(Deflections[pick], "unclear", Zero)
  {
    TokenizeWord("weather");
    SingleTokenCounts("weather", "admission");
    SingleTokenCounts("weather", "fees");
    WeatherQueryIsUnclear("weather", pick);
  }

  /** The token list `[w]` holds `w` once and no other word. */
  lemma SingleTokenCounts(w: string, other: string)
    requires |w| != |other|
    ensures multiset([w])[w] == 1 && multiset([w])[other] == 0 && other !in [w]
  {
  }
}
