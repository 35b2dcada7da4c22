/**
 The tokenizer of `script.js`: lower-case the text, turn every character that
 is neither a word character nor white space into a space, split on runs of
 white space and drop the pieces of length one or less.
 */
module Tokenizer {
  import opened Text

  /**
   One character after lower-casing and punctuation removal: word characters
   are lowered, white space is kept and anything else becomes a space.
   */
  function CleanChar(c: char): (d: char)
    ensures IsSpace(d) || IsLowerWordChar(d)
    ensures IsWordChar(c) ==> d == Lower(c)
    ensures IsSpace(c) ==> d == c
    ensures !IsWordChar(c) && !IsSpace(c) ==> d == ' '
  {
    var l := Lower(c);
    if IsWordChar(l) || IsSpace(l) then l else ' '
  }

  /** The text after lower-casing and punctuation removal. */
  function Normalize(text: string): (r: string)
    ensures |r| == |text|
    ensures forall i :: 0 <= i < |r| ==> r[i] == CleanChar(text[i])
  {
    seq(|text|, i requires 0 <= i < |text| => CleanChar(text[i]))
  }

  /** Index of the first white-space character of `s`, or `|s|` if none. */
  function FirstSpace(s: string): (i: nat)
    ensures i <= |s|
    ensures forall k :: 0 <= k < i ==> !IsSpace(s[k])
    ensures i < |s| ==> IsSpace(s[i])
  {
    if |s| == 0 || IsSpace(s[0]) then 0 else 1 + FirstSpace(s[1..])
  }

  /** End of the run of white space that starts at `i`. */
  function RunEnd(s: string, i: nat): (j: nat)
    requires i <= |s|
    ensures i <= j <= |s|
    ensures forall k :: i <= k < j ==> IsSpace(s[k])
    ensures j < |s| ==> !IsSpace(s[j])
    decreases |s| - i
  {
    if i < |s| && IsSpace(s[i]) then RunEnd(s, i + 1) else i
  }

  /**
   `split(/\s+/)`: the pieces between maximal runs of white space, including
   the empty piece before a leading run and after a trailing one.
   */
  function Split(s: string): (parts: seq<string>)
    ensures |parts| >= 1
    ensures forall p, c :: p in parts && c in p ==> c in s && !IsSpace(c)
    ensures IsBlank(s) ==> forall p :: p in parts ==> p == []
    decreases |s|
  {
    var i := FirstSpace(s);
    if i == |s| then [s]
    else
      var j := RunEnd(s, i);
      [s[..i]] + Split(s[j..])
  }

  /**
   The words longer than one character, in their original order and with
   their repeats: the length filter applied to the split pieces.
   */
  function KeepLong(words: seq<string>): (r: seq<string>)
    ensures forall w :: w in r <==> w in words && |w| > 1
    ensures (forall w :: w in words ==> |w| <= 1) ==> r == []
  {
    if |words| == 0 then []
    else if |words[0]| > 1 then [words[0]] + KeepLong(words[1..])
    else KeepLong(words[1..])
  }

  /** The tokens of a message, in the order they occur, repeats included. */
  function Tokenize(text: string): (tokens: seq<string>)
    ensures forall t :: t in tokens ==> |t| >= 2
    ensures forall t, c :: t in tokens && c in t ==> IsLowerWordChar(c)
    ensures IsBlank(text) ==> tokens == []
  {
    KeepLong(Split(Normalize(text)))
  }

  lemma KeepLongCons(w: string, rest: seq<string>)
    ensures KeepLong([w] + rest) == if |w| > 1 then [w] + KeepLong(rest) else KeepLong(rest)
  {
    assert ([w] + rest)[1..] == rest;
  }

  /** The first piece of text with white space ends at it; the rest starts after the run. */
  lemma SplitUnfold(s: string, i: nat, j: nat)
    requires i == FirstSpace(s) && i < |s| && j == RunEnd(s, i)
    ensures Split(s) == [s[..i]] + Split(s[j..])
  {
  }

  lemma SplitWhole(s: string)
    requires FirstSpace(s) == |s|
    ensures Split(s) == [s]
  {
  }

  /** A piece without white space is split into itself. */
  lemma {:induction false} SplitWord(s: string)
    requires forall i :: 0 <= i < |s| ==> !IsSpace(s[i])
    ensures Split(s) == [s]
  {
    FirstSpaceNone(s);
  }

  lemma {:induction false} FirstSpaceNone(s: string)
    requires forall i :: 0 <= i < |s| ==> !IsSpace(s[i])
    ensures FirstSpace(s) == |s|
  {
    if |s| > 0 {
      FirstSpaceNone(s[1..]);
    }
  }

  /** One step of `Split`: a word, then a run of white space, then the rest of the text. */
  lemma SplitStep(s: string, i: nat, j: nat, word: string, tail: string)
    requires i < j <= |s| && |word| == i && |tail| == |s| - j
    requires forall k :: 0 <= k < i ==> s[k] == word[k] && !IsSpace(s[k])
    requires forall k :: i <= k < j ==> IsSpace(s[k])
    requires j < |s| ==> !IsSpace(s[j])
    requires forall k :: 0 <= k < |tail| ==> s[j + k] == tail[k]
    ensures Split(s) == [word] + Split(tail)
  {
    FirstSpaceAt(s, i);
    RunEndAt(s, i, j);
    assert s[..i] == word;
    assert s[j..] == tail;
  }

  lemma {:induction false} FirstSpaceAt(s: string, i: nat)
    requires i < |s| && IsSpace(s[i])
    requires forall k :: 0 <= k < i ==> !IsSpace(s[k])
    ensures FirstSpace(s) == i
  {
    if i > 0 {
      FirstSpaceAt(s[1..], i - 1);
    }
  }

  lemma {:induction false} RunEndAt(s: string, i: nat, j: nat)
    requires i <= j <= |s|
    requires forall k :: i <= k < j ==> IsSpace(s[k])
    requires j < |s| ==> !IsSpace(s[j])
    ensures RunEnd(s, i) == j
    decreases j - i
  {
    if i < j {
      RunEndAt(s, i + 1, j);
    }
  }
}
