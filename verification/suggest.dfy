/**
 The auto-suggest filter run on every keystroke: FAQ items whose lower-cased
 question contains the typed text, or one of whose keywords contains it, at
 most four of them, in FAQ order.
 */
module Suggest {
  import opened Text
  import opened Faq

  /** The most suggestions shown at once. */
  const MaxSuggestions: nat := 4

  /** The typed text occurs in the lower-cased question or in one of the keywords. */
  predicate Matches(entry: Entry, text: string) {
    || Contains(LowerString(entry.question), text)
    || exists k :: k in entry.keywords && Contains(k, text)
  }

  /** The matching entries, in their original order. */
  function MatchingEntries(entries: seq<Entry>, text: string): (r: seq<Entry>)
    ensures |r| <= |entries|
    ensures forall e :: e in r <==> e in entries && Matches(e, text)
  {
    if |entries| == 0 then []
    else
      var rest := MatchingEntries(entries[1..], text);
      assert forall e :: e in entries <==> e == entries[0] || e in entries[1..];
      if Matches(entries[0], text) then [entries[0]] + rest else rest
  }

  /** Filtering a concatenation filters each part on its own and keeps them in order. */
  lemma {:induction false} MatchingAppend(a: seq<Entry>, b: seq<Entry>, text: string)
    ensures MatchingEntries(a + b, text) == MatchingEntries(a, text) + MatchingEntries(b, text)
  {
    if |a| == 0 {
      assert a + b == b;
    } else {
      var e, rest := a[0], a[1..];
      assert a == [e] + rest && a + b == [e] + (rest + b);
      MatchingAppend(rest, b, text);
      if Matches(e, text) {
        MatchingKeep(e, rest + b, text);
        MatchingKeep(e, rest, text);
      } else {
        MatchingDrop(e, rest + b, text);
        MatchingDrop(e, rest, text);
      }
    }
  }

  /** A leading entry that matches is kept in front of the filtered rest. */
  lemma MatchingKeep(e: Entry, rest: seq<Entry>, text: string)
    requires Matches(e, text)
    ensures MatchingEntries([e] + rest, text) == [e] + MatchingEntries(rest, text)
  {
    assert ([e] + rest)[1..] == rest;
  }

  /** A leading entry that does not match is dropped. */
  lemma MatchingDrop(e: Entry, rest: seq<Entry>, text: string)
    requires !Matches(e, text)
    ensures MatchingEntries([e] + rest, text) == MatchingEntries(rest, text)
  {
    assert ([e] + rest)[1..] == rest;
  }

  /** A single entry is kept exactly when it matches. */
  lemma MatchingOne(e: Entry, text: string)
    ensures MatchingEntries([e], text) == if Matches(e, text) then [e] else []
  {
    assert [e][1..] == [];
  }

  /**
   The suggestions for the input box's current value: nothing when, after
   lower-casing and trimming, it is shorter than two UTF-16 code units (the
   length JavaScript measures); otherwise the first four matching entries.
   */
  function Suggestions(entries: seq<Entry>, input: string): (r: seq<Entry>)
    ensures |r| <= MaxSuggestions
    ensures Utf16Length(Trim(LowerString(input))) < 2 ==> r == []
    ensures Utf16Length(Trim(LowerString(input))) >= 2 ==>
      var matches := MatchingEntries(entries, Trim(LowerString(input)));
      && r <= matches
      && (|matches| <= MaxSuggestions ==> r == matches)
      && (|matches| > MaxSuggestions ==> |r| == MaxSuggestions)
    ensures forall e :: e in r ==> e in entries && Matches(e, Trim(LowerString(input)))
  {
    var text := Trim(LowerString(input));
    if Utf16Length(text) < 2 then []
    else
      var matches := MatchingEntries(entries, text);
      var r := if |matches| <= MaxSuggestions then matches else matches[..MaxSuggestions];
      assert forall e :: e in r ==> e in matches;
      r
  }

  /** With at most four matches, every matching entry is suggested. */
  lemma FewMatchesAllShown(entries: seq<Entry>, input: string, e: Entry)
    requires Utf16Length(Trim(LowerString(input))) >= 2
    requires |MatchingEntries(entries, Trim(LowerString(input)))| <= MaxSuggestions
    requires e in entries && Matches(e, Trim(LowerString(input)))
    ensures e in Suggestions(entries, input)
  {
  }
}
