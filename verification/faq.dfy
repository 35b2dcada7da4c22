/**
 The knowledge base: FAQ items with a question, an answer and the keywords
 that the retrieval engine matches against.
 */
module Faq {

  /** One FAQ item as loaded from `faq.json`. */
  datatype Entry = Entry(question: string, answer: string, keywords: seq<string>)

  /** `w` is a keyword of some entry. */
  predicate IsKeyword(entries: seq<Entry>, w: string) {
    exists i :: 0 <= i < |entries| && w in entries[i].keywords
  }

  /** Every entry's keywords, in the order the two nested `forEach` loops visit them. */
  function AllKeywords(entries: seq<Entry>): (ks: seq<string>)
    ensures forall w :: w in ks <==> IsKeyword(entries, w)
  {
    if |entries| == 0 then []
    else
      var init := entries[..|entries| - 1];
      var ks := AllKeywords(init) + entries[|entries| - 1].keywords;
      assert forall w :: IsKeyword(init, w) ==> IsKeyword(entries, w) by {
        forall w | IsKeyword(init, w) ensures IsKeyword(entries, w) {
          var i :| 0 <= i < |init| && w in init[i].keywords;
          assert entries[i] == init[i];
        }
      }
      ks
  }
}
