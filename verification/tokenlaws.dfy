/**
 Laws of the tokenizer: how splitting and filtering behave on concatenated
 text. Splitting keeps every character that is not white space; a
 white-space character separates tokens; the length filter distributes over
 concatenation. The samples at the end apply them to concrete messages.
 */
module TokenLaws {
  import opened Text
  import opened Tokenizer

  /** The characters of `s` that are not white space, in order. */
  function NonSpace(s: string): string {
    if |s| == 0 then []
    else if IsSpace(s[0]) then NonSpace(s[1..])
    else [s[0]] + NonSpace(s[1..])
  }

  /** The pieces written one after the other. */
  function Concat(parts: seq<string>): string {
    if |parts| == 0 then [] else parts[0] + Concat(parts[1..])
  }

  lemma {:induction false} NonSpaceOfWord(s: string)
    requires forall k :: 0 <= k < |s| ==> !IsSpace(s[k])
    ensures NonSpace(s) == s
  {
    if |s| > 0 {
      NonSpaceOfWord(s[1..]);
      assert s == [s[0]] + s[1..];
    }
  }

  /** Splitting loses no character and adds none: only white space goes. */
  lemma {:induction false} SplitKeepsWords(s: string)
    ensures Concat(Split(s)) == NonSpace(s)
    decreases |s|
  {
    var i := FirstSpace(s);
    if i == |s| {
      SplitWhole(s);
      NonSpaceOfWord(s);
      ConcatCons(s, []);
    } else {
      var j := RunEnd(s, i);
      SplitKeepsWords(s[j..]);
      ConcatStep(s, i, j);
      NonSpaceStep(s, i, j);
    }
  }

  lemma ConcatCons(w: string, rest: seq<string>)
    ensures Concat([w] + rest) == w + Concat(rest)
  {
    assert ([w] + rest)[1..] == rest;
  }

  /** The pieces of text with white space: its first word, then the pieces after the run. */
  lemma ConcatStep(s: string, i: nat, j: nat)
    requires i == FirstSpace(s) && i < |s| && j == RunEnd(s, i)
    ensures Concat(Split(s)) == s[..i] + Concat(Split(s[j..]))
  {
    SplitUnfold(s, i, j);
    ConcatCons(s[..i], Split(s[j..]));
  }

  /** A word followed by a run of white space keeps only the word. */
  lemma NonSpaceStep(s: string, i: nat, j: nat)
    requires i <= j <= |s|
    requires forall k :: 0 <= k < i ==> !IsSpace(s[k])
    requires forall k :: i <= k < j ==> IsSpace(s[k])
    ensures NonSpace(s) == s[..i] + NonSpace(s[j..])
  {
    NonSpaceWord(s, i);
    NonSpaceRun(s, i, j);
  }

  /** A leading word is kept whole. */
  lemma {:induction false} NonSpaceWord(s: string, i: nat)
    requires i <= |s|
    requires forall k :: 0 <= k < i ==> !IsSpace(s[k])
    ensures NonSpace(s) == s[..i] + NonSpace(s[i..])
  {
    if i > 0 {
      var t := s[1..];
      NonSpaceWord(t, i - 1);
      assert t[i - 1..] == s[i..];
      TakeSucc(s, i - 1);
      ConsAppend(s[0], t[..i - 1], NonSpace(s[i..]));
    }
  }

  /** A run of white space contributes nothing. */
  lemma {:induction false} NonSpaceRun(s: string, i: nat, j: nat)
    requires i <= j <= |s|
    requires forall k :: i <= k < j ==> IsSpace(s[k])
    ensures NonSpace(s[i..]) == NonSpace(s[j..])
    decreases j - i
  {
    if i < j {
      assert s[i..][0] == s[i] && s[i..][1..] == s[i + 1..];
      NonSpaceRun(s, i + 1, j);
    }
  }

  /** The length filter distributes over concatenation: it never looks at a word's neighbours. */
  lemma {:induction false} KeepLongAppend(a: seq<string>, b: seq<string>)
    ensures KeepLong(a + b) == KeepLong(a) + KeepLong(b)
  {
    if |a| == 0 {
      assert a + b == b;
    } else {
      var w, rest := a[0], a[1..];
      HeadTail(a, b);
      KeepLongAppend(rest, b);
      if |w| > 1 {
        KeepLongKeep(w, rest + b);
        KeepLongKeep(w, rest);
        ConsAppend(w, KeepLong(rest), KeepLong(b));
      } else {
        KeepLongDrop(w, rest + b);
        KeepLongDrop(w, rest);
      }
    }
  }

  lemma HeadTail<T>(a: seq<T>, b: seq<T>)
    requires |a| > 0
    ensures a == [a[0]] + a[1..] && a + b == [a[0]] + (a[1..] + b)
  {
  }

  lemma KeepLongKeep(w: string, rest: seq<string>)
    requires |w| > 1
    ensures KeepLong([w] + rest) == [w] + KeepLong(rest)
  {
    assert ([w] + rest)[1..] == rest;
  }

  lemma KeepLongDrop(w: string, rest: seq<string>)
    requires |w| <= 1
    ensures KeepLong([w] + rest) == KeepLong(rest)
  {
    assert ([w] + rest)[1..] == rest;
  }

  /** The pieces that are not empty, in order. */
  function NonEmpty(parts: seq<string>): (r: seq<string>)
    ensures |r| <= |parts|
  {
    if |parts| == 0 then []
    else if |parts[0]| == 0 then NonEmpty(parts[1..])
    else [parts[0]] + NonEmpty(parts[1..])
  }

  lemma NonEmptySkip(p: string, rest: seq<string>)
    requires |p| == 0
    ensures NonEmpty([p] + rest) == NonEmpty(rest)
  {
    assert ([p] + rest)[1..] == rest;
  }

  lemma NonEmptyKeep(p: string, rest: seq<string>)
    requires |p| > 0
    ensures NonEmpty([p] + rest) == [p] + NonEmpty(rest)
  {
    assert ([p] + rest)[1..] == rest;
  }

  lemma {:induction false} NonEmptyAppend(a: seq<string>, b: seq<string>)
    ensures NonEmpty(a + b) == NonEmpty(a) + NonEmpty(b)
  {
    if |a| == 0 {
      assert a + b == b;
    } else {
      HeadTail(a, b);
      NonEmptyAppend(a[1..], b);
      if |a[0]| == 0 {
        NonEmptySkip(a[0], a[1..] + b);
        NonEmptySkip(a[0], a[1..]);
      } else {
        NonEmptyKeep(a[0], a[1..] + b);
        NonEmptyKeep(a[0], a[1..]);
        ConsAppend(a[0], NonEmpty(a[1..]), NonEmpty(b));
      }
    }
  }

  /** Dropping the empty pieces first does not change what the length filter keeps. */
  lemma {:induction false} KeepLongNonEmpty(parts: seq<string>)
    ensures KeepLong(NonEmpty(parts)) == KeepLong(parts)
  {
    if |parts| > 0 {
      assert parts == [parts[0]] + parts[1..];
      KeepLongCons(parts[0], parts[1..]);
      KeepLongNonEmpty(parts[1..]);
      if |parts[0]| == 0 {
        NonEmptySkip(parts[0], parts[1..]);
      } else {
        NonEmptyKeep(parts[0], parts[1..]);
        KeepLongCons(parts[0], NonEmpty(parts[1..]));
      }
    }
  }

  /**
   A word, then a non-empty run of white space, then text that does not start
   with white space: the word is the first piece and the text is split on its
   own. With `SplitWord` this fixes where the pieces end: exactly at the runs
   of white space.
   */
  lemma SplitAfterRun(w: string, run: string, t: string)
    requires forall k :: 0 <= k < |w| ==> !IsSpace(w[k])
    requires |run| > 0 && IsBlank(run)
    requires |t| > 0 ==> !IsSpace(t[0])
    ensures Split(w + run + t) == [w] + Split(t)
  {
    SplitStep(w + run + t, |w|, |w| + |run|, w, t);
  }

  /** The first piece is the text up to its first white-space character. */
  lemma SplitHead(s: string)
    ensures Split(s)[0] == s[..FirstSpace(s)]
  {
  }

  /** A first character that is not white space joins the first piece of the rest. */
  lemma SplitFirstWordChar(s: string)
    requires |s| > 0 && !IsSpace(s[0])
    ensures Split(s) == [[s[0]] + Split(s[1..])[0]] + Split(s[1..])[1..]
  {
    var t := s[1..];
    var k := FirstSpace(t);
    if k < |t| {
      SplitFirstWordRun(s, k, RunEnd(t, k));
    } else {
      SplitFirstWordWhole(s);
    }
  }

  lemma SplitFirstWordRun(s: string, k: nat, j: nat)
    requires |s| > 0 && !IsSpace(s[0])
    requires k == FirstSpace(s[1..]) && k < |s| - 1 && j == RunEnd(s[1..], k)
    ensures Split(s) == [[s[0]] + Split(s[1..])[0]] + Split(s[1..])[1..]
  {
    assert Split(s) == [s[..k + 1]] + Split(s[j + 1..]) by {
      FirstSpaceTail(s);
      RunEndTail(s, k);
      SplitUnfold(s, k + 1, j + 1);
    }
    assert Split(s[1..]) == [s[1..][..k]] + Split(s[1..][j..]) by {
      SplitUnfold(s[1..], k, j);
    }
    JoinFirstPiece(s, k, j, Split(s), Split(s[1..]), Split(s[1..][j..]));
  }

  lemma SplitFirstWordWhole(s: string)
    requires |s| > 0 && !IsSpace(s[0]) && FirstSpace(s[1..]) == |s| - 1
    ensures Split(s) == [[s[0]] + Split(s[1..])[0]] + Split(s[1..])[1..]
  {
    FirstSpaceTail(s);
    SplitWhole(s[1..]);
    SplitWhole(s);
    assert s == [s[0]] + s[1..];
  }

  lemma FirstSpaceTail(s: string)
    requires |s| > 0 && !IsSpace(s[0])
    ensures FirstSpace(s) == 1 + FirstSpace(s[1..])
  {
  }

  lemma RunEndTail(s: string, k: nat)
    requires 0 < |s| && k <= |s| - 1
    ensures RunEnd(s, k + 1) == 1 + RunEnd(s[1..], k)
  {
    RunEndAt(s, k + 1, RunEnd(s[1..], k) + 1);
  }

  /** The sequence algebra behind `SplitFirstWordRun`, away from `Split` itself. */
  lemma JoinFirstPiece(s: string, k: nat, j: nat, ps: seq<string>, pt: seq<string>, rest: seq<string>)
    requires 0 < |s| && k < j <= |s| - 1
    requires ps == [s[..k + 1]] + Split(s[j + 1..])
    requires pt == [s[1..][..k]] + rest
    requires rest == Split(s[1..][j..])
    ensures ps == [[s[0]] + pt[0]] + pt[1..]
  {
    assert s[j + 1..] == s[1..][j..];
    TakeSucc(s, k);
  }

  lemma TakeSucc(s: string, k: nat)
    requires k < |s|
    ensures s[..k + 1] == [s[0]] + s[1..][..k]
  {
    var l, r := s[..k + 1], [s[0]] + s[1..][..k];
    assert |l| == |r|;
    forall i | 0 <= i < |l| ensures l[i] == r[i] {
      if i > 0 {
        assert r[i] == s[1..][i - 1];
      }
    }
  }

  /** A leading white-space character adds only an empty piece. */
  lemma SplitFirstSpace(s: string)
    requires |s| > 0 && IsSpace(s[0])
    ensures NonEmpty(Split(s)) == NonEmpty(Split(s[1..]))
  {
    var t := s[1..];
    var j := RunEnd(t, 0);
    assert Split(s) == [[]] + Split(t[j..]) by {
      RunEndTail(s, 0);
      SplitUnfold(s, 0, j + 1);
      assert s[j + 1..] == t[j..];
    }
    NonEmptySkip([], Split(t[j..]));
    if j > 0 {
      SplitUnfold(t, 0, j);
    } else {
      assert t[j..] == t;
    }
  }

  /** A white-space character ends the first piece of the text before it. */
  lemma FirstSpaceBeforeSpace(x: string, c: char, y: string)
    requires IsSpace(c)
    ensures (x + [c] + y)[..FirstSpace(x + [c] + y)] == x[..FirstSpace(x)]
  {
    var s := x + [c] + y;
    var i := FirstSpace(x);
    FirstSpaceAt(s, i);
    assert s[..i] == x[..i];
  }

  /**
   Splitting at one white-space character: apart from empty pieces, the text
   before it and the text after it are split on their own.
   */
  lemma {:induction false} SplitAtSpace(x: string, c: char, y: string)
    requires IsSpace(c)
    ensures NonEmpty(Split(x + [c] + y)) == NonEmpty(Split(x)) + NonEmpty(Split(y))
    decreases |x|
  {
    var s := x + [c] + y;
    if |x| == 0 {
      assert s[0] == c && s[1..] == y;
      SplitFirstSpace(s);
      SplitWhole(x);
      NonEmptySkip(x, []);
    } else {
      DropAround(x, c, y);
      SplitAtSpace(x[1..], c, y);
      if IsSpace(x[0]) {
        SplitFirstSpace(s);
        SplitFirstSpace(x);
      } else {
        SplitAfterWordChar(x, c, y);
      }
    }
  }

  /** The step of `SplitAtSpace` for a first character that is not white space. */
  lemma SplitAfterWordChar(x: string, c: char, y: string)
    requires |x| > 0 && !IsSpace(x[0]) && IsSpace(c)
    requires NonEmpty(Split(x[1..] + [c] + y)) == NonEmpty(Split(x[1..])) + NonEmpty(Split(y))
    ensures NonEmpty(Split(x + [c] + y)) == NonEmpty(Split(x)) + NonEmpty(Split(y))
  {
    var s := x + [c] + y;
    DropAround(x, c, y);
    SplitTailsAgree(x[1..], c, y);
    SplitFirstWordChar(s);
    SplitFirstWordChar(x);
    FirstPieceLaw(x[0], Split(s), Split(s[1..]), Split(x), Split(x[1..]), NonEmpty(Split(y)));
  }

  /** The sequence algebra behind `SplitAfterWordChar`, away from `Split` itself. */
  lemma FirstPieceLaw(d: char, ps: seq<string>, pt: seq<string>, qs: seq<string>, qt: seq<string>, tail: seq<string>)
    requires |pt| > 0 && |qt| > 0
    requires ps == [[d] + pt[0]] + pt[1..] && qs == [[d] + qt[0]] + qt[1..]
    requires pt[0] == qt[0] && NonEmpty(pt[1..]) == NonEmpty(qt[1..]) + tail
    ensures NonEmpty(ps) == NonEmpty(qs) + tail
  {
    NonEmptyPrefix([d] + qt[0], pt[1..], qt[1..], tail);
  }

  /**
   The text before a white-space character and the text running on past it
   share their first piece; after it, they differ by the pieces of the rest.
   */
  lemma SplitTailsAgree(x: string, c: char, y: string)
    requires IsSpace(c)
    requires NonEmpty(Split(x + [c] + y)) == NonEmpty(Split(x)) + NonEmpty(Split(y))
    ensures Split(x + [c] + y)[0] == Split(x)[0]
    ensures NonEmpty(Split(x + [c] + y)[1..]) == NonEmpty(Split(x)[1..]) + NonEmpty(Split(y))
  {
    var long, short := Split(x + [c] + y), Split(x);
    SplitHead(x + [c] + y);
    SplitHead(x);
    FirstSpaceBeforeSpace(x, c, y);
    assert long == [short[0]] + long[1..] && short == [short[0]] + short[1..];
    NonEmptyCancel(short[0], long[1..], short[1..], NonEmpty(Split(y)));
  }

  lemma DropAround(x: string, c: char, y: string)
    requires |x| > 0
    ensures (x + [c] + y)[0] == x[0] && (x + [c] + y)[1..] == x[1..] + [c] + y
  {
  }

  /** A common non-empty first piece can be put on both sides. */
  lemma NonEmptyPrefix(h: string, a: seq<string>, b: seq<string>, tail: seq<string>)
    requires |h| > 0 && NonEmpty(a) == NonEmpty(b) + tail
    ensures NonEmpty([h] + a) == NonEmpty([h] + b) + tail
  {
    NonEmptyKeep(h, a);
    NonEmptyKeep(h, b);
    ConsAppend(h, NonEmpty(b), tail);
  }

  /** A common first piece can be taken off both sides. */
  lemma NonEmptyCancel(h: string, a: seq<string>, b: seq<string>, tail: seq<string>)
    requires NonEmpty([h] + a) == NonEmpty([h] + b) + tail
    ensures NonEmpty(a) == NonEmpty(b) + tail
  {
    if |h| == 0 {
      NonEmptySkip(h, a);
      NonEmptySkip(h, b);
    } else {
      NonEmptyKeep(h, a);
      NonEmptyKeep(h, b);
      ConsCancel(h, NonEmpty(a), NonEmpty(b), tail);
    }
  }

  lemma ConsAppend<T>(h: T, x: seq<T>, tail: seq<T>)
    ensures [h] + (x + tail) == [h] + x + tail
  {
  }

  lemma ConsCancel<T>(h: T, x: seq<T>, y: seq<T>, tail: seq<T>)
    requires [h] + x == [h] + y + tail
    ensures x == y + tail
  {
    assert x == ([h] + x)[1..];
    assert y + tail == ([h] + y + tail)[1..];
  }

  /** Normalisation works character by character, so it distributes over concatenation. */
  lemma NormalizeAroundSpace(a: string, c: char, b: string)
    requires IsSpace(c)
    ensures Normalize(a + [c] + b) == Normalize(a) + [c] + Normalize(b)
  {
    var l, r := Normalize(a + [c] + b), Normalize(a) + [c] + Normalize(b);
    forall i | 0 <= i < |l| ensures l[i] == r[i] {
      if i < |a| {
        assert (a + [c] + b)[i] == a[i];
      } else if i > |a| {
        assert (a + [c] + b)[i] == b[i - |a| - 1];
      }
    }
  }

  /**
   A white-space character separates tokens: the tokens of the text around it
   are the tokens before it followed by the tokens after it.
   */
  lemma TokenizeAtSpace(a: string, c: char, b: string)
    requires IsSpace(c)
    ensures Tokenize(a + [c] + b) == Tokenize(a) + Tokenize(b)
  {
    var na, nb := Normalize(a), Normalize(b);
    NormalizeAroundSpace(a, c, b);
    SplitAtSpace(na, c, nb);
    KeepLongNonEmpty(Split(na + [c] + nb));
    KeepLongNonEmpty(Split(na));
    KeepLongNonEmpty(Split(nb));
    KeepLongAppend(NonEmpty(Split(na)), NonEmpty(Split(nb)));
  }

  /** An ASCII letter of either case. */
  predicate IsLetter(c: char) {
    ('a' <= c <= 'z') || ('A' <= c <= 'Z')
  }

  /**
   A word of two or more ASCII letters followed by punctuation (characters
   that are neither word characters nor white space) is one token: the word,
   lower-cased.
   */
  lemma TokenizeWordPunct(w: string, p: string)
    requires |w| > 1 && forall i :: 0 <= i < |w| ==> IsLetter(w[i])
    requires forall i :: 0 <= i < |p| ==> !IsWordChar(p[i]) && !IsSpace(p[i])
    ensures Tokenize(w + p) == [LowerString(w)]
  {
    var lw := LowerString(w);
    var run := seq(|p|, i => ' ');
    var n := Normalize(w + p);
    assert n == lw + run by {
      forall i | 0 <= i < |n| ensures n[i] == (lw + run)[i] {
        if i < |w| {
          assert (w + p)[i] == w[i];
        } else {
          assert (w + p)[i] == p[i - |w|];
        }
      }
    }
    assert forall i :: 0 <= i < |lw| ==> 'a' <= lw[i] <= 'z';
    if |p| == 0 {
      assert n == lw;
      SplitWord(lw);
    } else {
      assert n == lw + run + [];
      SplitAfterRun(lw, run, []);
      assert Split([]) == [[]];
    }
    KeepLongCons(lw, Split(n)[1..]);
  }

  /** A word of two or more lower-case ASCII letters is its own only token. */
  lemma TokenizeWord(w: string)
    requires |w| > 1 && forall i :: 0 <= i < |w| ==> 'a' <= w[i] <= 'z'
    ensures Tokenize(w) == [w]
  {
    assert w + [] == w;
    assert LowerString(w) == w;
    TokenizeWordPunct(w, []);
  }

  /** Two punctuated words separated by one white-space character are two tokens, in order. */
  lemma TokenizeTwoWordPunct(w1: string, p1: string, c: char, w2: string, p2: string)
    requires |w1| > 1 && forall i :: 0 <= i < |w1| ==> IsLetter(w1[i])
    requires forall i :: 0 <= i < |p1| ==> !IsWordChar(p1[i]) && !IsSpace(p1[i])
    requires IsSpace(c)
    requires |w2| > 1 && forall i :: 0 <= i < |w2| ==> IsLetter(w2[i])
    requires forall i :: 0 <= i < |p2| ==> !IsWordChar(p2[i]) && !IsSpace(p2[i])
    ensures Tokenize(w1 + p1 + [c] + (w2 + p2)) == [LowerString(w1), LowerString(w2)]
  {
    TokenizeAtSpace(w1 + p1, c, w2 + p2);
    TokenizeWordPunct(w1, p1);
    TokenizeWordPunct(w2, p2);
  }

  /** The tokenizer on a sample word: the capital is lowered and the punctuation goes. */
  lemma TokenizeExample()
    ensures Tokenize("Fees?") == ["fees"]
  {
    SampleFacts();
    TokenizeWordPunct("Fees", "?");
  }

  /** The two-word sample: each word is lowered, the punctuation goes and the order is kept. */
  lemma TokenizeTwoWords()
    ensures Tokenize("Fees? Admission!!") == ["fees", "admission"]
  {
    SampleFacts();
    TokenizeTwoWordPunct("Fees", "?", ' ', "Admission", "!!");
  }

  /** The character facts about the samples that the two lemmas above rest on. */
  lemma SampleFacts()
    ensures "Fees?" == "Fees" + "?"
    ensures "Fees? Admission!!" == "Fees" + "?" + [' '] + ("Admission" + "!!")
    ensures forall i :: 0 <= i < |"Fees"| ==> IsLetter("Fees"[i])
    ensures forall i :: 0 <= i < |"Admission"| ==> IsLetter("Admission"[i])
    ensures !IsWordChar('?') && !IsSpace('?') && !IsWordChar('!') && !IsSpace('!') && IsSpace(' ')
    ensures LowerString("Fees") == "fees" && LowerString("Admission") == "admission"
  {
  }
}
