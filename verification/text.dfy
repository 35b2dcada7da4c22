/**
 Character classes, case mapping, trimming, substring search and the string
 order used by the chat bot's retrieval engine.

 The character classes follow the JavaScript regular-expression classes the
 engine uses: `\w` (ASCII letters, digits and underscore, as in a regular
 expression without the `u` flag) and `\s` (the ECMAScript white-space and
 line-terminator characters, which are also what `String.prototype.trim`
 removes). Case mapping covers the ASCII letters only.
 */
module Text {

  /** `\w`: an ASCII letter, an ASCII digit or the underscore. */
  predicate IsWordChar(c: char) {
    ('a' <= c <= 'z') || ('A' <= c <= 'Z') || ('0' <= c <= '9') || c == '_'
  }

  /** A `\w` character that lower-casing leaves unchanged. */
  predicate IsLowerWordChar(c: char) {
    IsWordChar(c) && !('A' <= c <= 'Z')
  }

  /** `\s`: the ECMAScript WhiteSpace and LineTerminator characters. */
  predicate IsSpace(c: char) {
    || c == ' ' || c == '\t' || c == '\n' || c == '\r'
    || c == '\U{0B}' || c == '\U{0C}' || c == '\U{A0}' || c == '\U{1680}'
    || ('\U{2000}' <= c <= '\U{200A}')
    || c == '\U{2028}' || c == '\U{2029}' || c == '\U{202F}' || c == '\U{205F}'
    || c == '\U{3000}' || c == '\U{FEFF}'
  }

  /** Every character of `s` is white space (the empty string included). */
  predicate IsBlank(s: string) {
    forall i :: 0 <= i < |s| ==> IsSpace(s[i])
  }

  /** `toLowerCase` on one character, restricted to ASCII. */
  function Lower(c: char): (d: char)
    ensures 'A' <= c <= 'Z' ==> 'a' <= d <= 'z' && d as int == c as int + 32
    ensures !('A' <= c <= 'Z') ==> d == c
  {
    if 'A' <= c <= 'Z' then (c as int + 32) as char else c
  }

  /** `toLowerCase` on a string, character by character. */
  function LowerString(s: string): (r: string)
    ensures |r| == |s|
    ensures forall i :: 0 <= i < |s| ==> r[i] == Lower(s[i])
  {
    seq(|s|, i requires 0 <= i < |s| => Lower(s[i]))
  }

  /**
   The length JavaScript reports for a string: its number of UTF-16 code
   units, where a character outside the Basic Multilingual Plane takes two.
   */
  function Utf16Length(s: string): (n: nat)
    ensures |s| <= n <= 2 * |s|
    ensures n == |s| <==> forall i :: 0 <= i < |s| ==> s[i] as int < 0x1_0000
  {
    if |s| == 0 then 0
    else
      assert forall i :: 1 <= i < |s| ==> s[i] == s[1..][i - 1];
      (if s[0] as int < 0x1_0000 then 1 else 2) + Utf16Length(s[1..])
  }

  /**
   The code units of a concatenation are those of its parts; with the
   one-character values above this fixes the count of every string.
   */
  lemma {:induction false} Utf16LengthAppend(a: string, b: string)
    ensures Utf16Length(a + b) == Utf16Length(a) + Utf16Length(b)
  {
    if |a| == 0 {
      assert a + b == b;
    } else {
      assert (a + b)[1..] == a[1..] + b;
      Utf16LengthAppend(a[1..], b);
    }
  }

  /**
   A string is shorter than two code units exactly when it is empty or a
   single character of the Basic Multilingual Plane.
   */
  lemma Utf16ShortIff(s: string)
    ensures Utf16Length(s) < 2 <==> |s| == 0 || (|s| == 1 && s[0] as int < 0x1_0000)
  {
    if |s| == 1 {
      assert s[1..] == [];
    }
  }

  /** Removes leading white space (the first half of `trim`). */
  function TrimStart(s: string): (r: string)
    ensures |r| <= |s| && r == s[|s| - |r|..]
    ensures forall i :: 0 <= i < |s| - |r| ==> IsSpace(s[i])
    ensures |r| > 0 ==> !IsSpace(r[0])
  {
    if |s| > 0 && IsSpace(s[0]) then TrimStart(s[1..]) else s
  }

  /** Removes trailing white space (the second half of `trim`). */
  function TrimEnd(s: string): (r: string)
    ensures |r| <= |s| && r == s[..|r|]
    ensures forall i :: |r| <= i < |s| ==> IsSpace(s[i])
    ensures |r| > 0 ==> !IsSpace(r[|r| - 1])
  {
    if |s| > 0 && IsSpace(s[|s| - 1]) then TrimEnd(s[..|s| - 1]) else s
  }

  /** Removes white space from both ends. */
  function Trim(s: string): string {
    TrimEnd(TrimStart(s))
  }

  /** A message trims to the empty string exactly when it is blank. */
  lemma TrimEmptyIffBlank(s: string)
    ensures Trim(s) == [] <==> IsBlank(s)
  {
    var t := TrimStart(s);
    if Trim(s) == [] {
      assert |t| == 0;
    } else {
      var r := Trim(s);
      assert r[0] == t[0] == s[|s| - |t|];
    }
  }

  /** Substring search: `needle` occurs in `hay` at some offset. */
  predicate Contains(hay: string, needle: string) {
    needle <= hay || (|hay| > 0 && Contains(hay[1..], needle))
  }

  /** `needle` occurs in `hay` at offset `k`. */
  predicate OccursAt(hay: string, needle: string, k: nat) {
    k + |needle| <= |hay| && hay[k..k + |needle|] == needle
  }

  /** `Contains` finds an occurrence exactly when one exists at some offset. */
  lemma {:induction false} ContainsIffOccurs(hay: string, needle: string)
    ensures Contains(hay, needle) <==> exists k: nat :: OccursAt(hay, needle, k)
  {
    if needle <= hay {
      assert OccursAt(hay, needle, 0);
    } else if |hay| == 0 {
      forall k: nat ensures !OccursAt(hay, needle, k) {
      }
    } else {
      ContainsIffOccurs(hay[1..], needle);
      if Contains(hay[1..], needle) {
        var k: nat :| OccursAt(hay[1..], needle, k);
        assert hay[1..][k..k + |needle|] == hay[k + 1..k + 1 + |needle|];
        assert OccursAt(hay, needle, k + 1);
      } else {
        forall k: nat | k > 0 && k + |needle| <= |hay|
          ensures !OccursAt(hay, needle, k)
        {
          assert hay[1..][k - 1..k - 1 + |needle|] == hay[k..k + |needle|];
          assert !OccursAt(hay[1..], needle, k - 1);
        }
      }
    }
  }

  /**
   The default order of `Array.prototype.sort` on strings: lexicographic by
   character, a proper prefix sorting first.
   */
  predicate Precedes(a: string, b: string)
    decreases |a|
  {
    if |a| == 0 then |b| > 0
    else if |b| == 0 then false
    else if a[0] == b[0] then Precedes(a[1..], b[1..])
    else a[0] < b[0]
  }

  lemma PrecedesIrreflexive(a: string)
    ensures !Precedes(a, a)
  {
  }

  lemma {:induction false} PrecedesTransitive(a: string, b: string, c: string)
    requires Precedes(a, b) && Precedes(b, c)
    ensures Precedes(a, c)
    decreases |a|
  {
    if |a| > 0 && a[0] == b[0] && b[0] == c[0] {
      PrecedesTransitive(a[1..], b[1..], c[1..]);
    }
  }

  lemma {:induction false} PrecedesTotal(a: string, b: string)
    requires a != b
    ensures Precedes(a, b) || Precedes(b, a)
    decreases |a|
  {
    if |a| > 0 && |b| > 0 && a[0] == b[0] {
      assert a == [a[0]] + a[1..] && b == [b[0]] + b[1..];
      PrecedesTotal(a[1..], b[1..]);
    }
  }

  lemma {:induction false} PrecedesAsymmetric(a: string, b: string)
    requires Precedes(a, b)
    ensures !Precedes(b, a)
    decreases |a|
  {
    if |a| > 0 && |b| > 0 && a[0] == b[0] {
      PrecedesAsymmetric(a[1..], b[1..]);
    }
  }

  /** No element occurs twice. */
  predicate Distinct<T(==)>(s: seq<T>) {
    forall i, j :: 0 <= i < j < |s| ==> s[i] != s[j]
  }
}
