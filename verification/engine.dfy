/**
 The match selector: the loaded knowledge base as an immutable context, the
 scan that keeps the best-scoring entry, and `getBestAnswer` with its three
 outcomes (empty input, unclear, matched).
 */
module Engine {
  import opened Text
  import opened Faq
  import Vocabulary
  import opened Vectors
  import opened Cosine
  import Tokenizer

  /**
   What `buildTFIDF` leaves in the globals `FAQ`, `vocabulary` and
   `tfidfVectors`, held as one value instead.
   */
  datatype Context = Context(entries: seq<Entry>, vocabulary: seq<string>, entryVectors: seq<seq<nat>>) {

    /** One vector per entry, each as long as the vocabulary: what scoring relies on. */
    predicate Consistent() {
      && |entryVectors| == |entries|
      && forall i :: 0 <= i < |entryVectors| ==> |entryVectors[i]| == |vocabulary|
    }
  }

  /** Loading a knowledge base: its vocabulary, and one keyword-count vector per entry. */
  function Load(entries: seq<Entry>): (ctx: Context)
    ensures ctx.Consistent() && ctx.entries == entries
    ensures Vocabulary.StrictlySorted(ctx.vocabulary)
    ensures forall w :: w in ctx.vocabulary <==> IsKeyword(entries, w)
    ensures forall i, j :: 0 <= i < |entries| && 0 <= j < |ctx.vocabulary| ==>
      ctx.entryVectors[i][j] == multiset(entries[i].keywords)[ctx.vocabulary[j]]
  {
    var vocabulary := Vocabulary.Build(entries);
    Vocabulary.StrictlySortedIsDistinct(vocabulary);
    var vectors := seq(|entries|, i requires 0 <= i < |entries| => EntryVector(vocabulary, entries[i]));
    Context(entries, vocabulary, vectors)
  }

  /** The state before the FAQ has loaded (or after the load failed) is the context of no entries. */
  lemma LoadNothing()
    ensures Load([]) == Context([], [], [])
  {
    assert Vocabulary.Build([]) == [];
  }

  /** The query's score against every entry vector, in entry order. */
  function Scores(ctx: Context, msg: string): (scores: seq<Score>)
    requires ctx.Consistent()
    ensures |scores| == |ctx.entries|
  {
    var query := QueryVector(ctx.vocabulary, msg);
    seq(|ctx.entryVectors|, i requires 0 <= i < |ctx.entryVectors| =>
      CosineSimilarity(query, ctx.entryVectors[i]))
  }

  /**
   `k` is the first position holding the highest score, and that score is
   above zero: everything before it scores strictly less, nothing after it
   scores more.
   */
  predicate IsFirstBest(scores: seq<Score>, k: int) {
    && 0 <= k < |scores|
    && scores[k].Squared() > 0.0
    && (forall j :: 0 <= j < k ==> scores[j].Squared() < scores[k].Squared())
    && (forall j :: k < j < |scores| ==> scores[j].Squared() <= scores[k].Squared())
  }

  /** At most one position is the first best. */
  lemma FirstBestUnique(scores: seq<Score>, k1: int, k2: int)
    requires IsFirstBest(scores, k1) && IsFirstBest(scores, k2)
    ensures k1 == k2
  {
  }

  /** `bestScore` and `bestIndex` as the scan leaves them. */
  datatype Best = Best(score: Score, index: int)

  /**
   The `forEach` over the entry vectors: starting from `bestScore = 0` and
   `bestIndex = -1`, a score replaces the best only if strictly greater.
   The index stays -1 exactly when no score is above zero; otherwise it is
   the first best position.
   */
  function Scan(scores: seq<Score>): (b: Best)
    ensures b.index == -1 <==> forall j :: 0 <= j < |scores| ==> scores[j].Squared() == 0.0
    ensures b.index == -1 ==> b.score == Zero
    ensures b.index != -1 ==> IsFirstBest(scores, b.index) && b.score == scores[b.index]
  {
    if |scores| == 0 then Best(Zero, -1)
    else
      var init := scores[..|scores| - 1];
      var prev := Scan(init);
      var last := scores[|scores| - 1];
      if last.Squared() > prev.score.Squared() then Best(last, |scores| - 1) else prev
  }

  /** The reply for a blank message or an empty knowledge base. */
  const EmptyReply := "Please ask me something about the college! Try asking about fees, admissions, courses, placements, etc."

  /** The canned replies for a message that matches nothing well enough. */
  const Deflections: seq<string> := [
    "I'm not sure about that. Try asking: What are the fees? When does admission start? What courses are available?",
    "Hmm, that's outside my knowledge base. Ask me about admissions, courses, fees, facilities, or placements!",
    "I didn't quite understand. Try rephrasing your question. What would you like to know about KPMIM?"
  ]

  /** The confidence floor 0.05, squared: scores are compared as squares. */
  const Threshold: real := 0.0025

  /** The reply, the intent (the matched question, or "unclear" or "empty") and the confidence. */
  datatype MatchResult = MatchResult(reply: string, intent: string, confidence: Score)

  /**
   The end of `getBestAnswer`, given the scores of a non-blank message:
   - if every score is under the floor, one of the deflections, intent
     "unclear" and the highest score (0 if none is above zero) as confidence;
   - otherwise the answer and question of the first best entry, with its score.
   */
  function SelectAnswer(entries: seq<Entry>, scores: seq<Score>, pick: nat): (r: MatchResult)
    requires |scores| == |entries| && pick < |Deflections|
    ensures (forall j :: 0 <= j < |scores| ==> scores[j].Squared() < Threshold) ==>
      && r.reply == Deflections[pick] && r.intent == "unclear"
      && (r.confidence == Zero || r.confidence in scores)
      && forall j :: 0 <= j < |scores| ==> scores[j].Squared() <= r.confidence.Squared()
    ensures forall k :: IsFirstBest(scores, k) && scores[k].Squared() >= Threshold ==>
      r == MatchResult(entries[k].answer, entries[k].question, scores[k])
  {
    var best := Scan(scores);
    assert forall k :: IsFirstBest(scores, k) ==> k == best.index by {
      forall k | IsFirstBest(scores, k) ensures k == best.index {
        FirstBestUnique(scores, k, best.index);
      }
    }
    if best.score.Squared() < Threshold then
      MatchResult(Deflections[pick], "unclear", best.score)
    else
      MatchResult(entries[best.index].answer, entries[best.index].question, best.score)
  }

  /**
   If some score reaches the floor the answer is a match: a first best
   entry exists and its answer is the reply.
   */
  lemma MatchWhenAboveFloor(entries: seq<Entry>, scores: seq<Score>, pick: nat, j: nat)
    requires |scores| == |entries| && pick < |Deflections|
    requires j < |scores| && scores[j].Squared() >= Threshold
    ensures exists k :: (IsFirstBest(scores, k) &&
      SelectAnswer(entries, scores, pick) == MatchResult(entries[k].answer, entries[k].question, scores[k]))
  {
    var best := Scan(scores);
    assert best.index != -1;
    assert scores[best.index].Squared() >= scores[j].Squared();
  }

  /**
   When no entry scores above zero (`bestIndex` stays -1) the reply is the
   picked deflection and the confidence is exactly 0.
   */
  lemma NothingScoredIsUnclear(entries: seq<Entry>, scores: seq<Score>, pick: nat)
    requires |scores| == |entries| && pick < |Deflections|
    requires forall j :: 0 <= j < |scores| ==> scores[j].Squared() == 0.0
    ensures SelectAnswer(entries, scores, pick) == MatchResult(Deflections[pick], "unclear", Zero)
  {
    assert Scan(scores).index == -1;
  }

  /**
   `getBestAnswer(msg)`, with the random choice among the deflections given
   as `pick` (the value of `Math.floor(Math.random() * 3)`). A blank message
   or an empty knowledge base gets the fixed reply, intent "empty" and
   confidence 0 without any scoring; any other message is scored against
   every entry and answered by `SelectAnswer`.
   */
  function GetBestAnswer(ctx: Context, msg: string, pick: nat): (r: MatchResult)
    requires ctx.Consistent()
    requires pick < |Deflections|
    ensures IsBlank(msg) || |ctx.entries| == 0 ==>
      r == MatchResult(EmptyReply, "empty", Zero)
    ensures !IsBlank(msg) && |ctx.entries| > 0 ==>
      r == SelectAnswer(ctx.entries, Scores(ctx, msg), pick)
  {
    TrimEmptyIffBlank(msg);
    if Trim(msg) == [] || |ctx.entries| == 0 then
      MatchResult(EmptyReply, "empty", Zero)
    else
      SelectAnswer(ctx.entries, Scores(ctx, msg), pick)
  }

  /**
   A non-blank message none of whose tokens is in the vocabulary scores 0
   against every entry, so it is deflected with confidence 0.
   */
  lemma NoSharedTermIsUnclear(ctx: Context, msg: string, pick: nat)
    requires ctx.Consistent() && pick < |Deflections|
    requires !IsBlank(msg) && |ctx.entries| > 0
    requires forall t :: t in Tokenizer.Tokenize(msg) ==> t !in ctx.vocabulary
    ensures GetBestAnswer(ctx, msg, pick) == MatchResult(Deflections[pick], "unclear", Zero)
  {
    var query := QueryVector(ctx.vocabulary, msg);
    QueryVectorUnknown(ctx.vocabulary, msg);
    assert IsZero(query);
    var scores := Scores(ctx, msg);
    forall j | 0 <= j < |scores| ensures scores[j].Squared() == 0.0 {
      assert scores[j] == CosineSimilarity(query, ctx.entryVectors[j]);
    }
    NothingScoredIsUnclear(ctx.entries, scores, pick);
  }

  /** Only the deflection text depends on the random pick. */
  lemma PickOnlyChoosesDeflection(ctx: Context, msg: string, p1: nat, p2: nat)
    requires ctx.Consistent() && p1 < |Deflections| && p2 < |Deflections|
    ensures GetBestAnswer(ctx, msg, p1).intent == GetBestAnswer(ctx, msg, p2).intent
    ensures GetBestAnswer(ctx, msg, p1).confidence == GetBestAnswer(ctx, msg, p2).confidence
    ensures GetBestAnswer(ctx, msg, p1) != GetBestAnswer(ctx, msg, p2) ==>
      GetBestAnswer(ctx, msg, p1).intent == "unclear"
  {
  }
}
