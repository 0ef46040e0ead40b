/**
 * ASCII case folding, the part of JavaScript's `String.prototype.toLowerCase`
 * that the menu search relies on. Only the 26 letters 'A'..'Z' are folded;
 * every other character is left as it is.
 */
module Ascii {

  /** True for the upper-case ASCII letters. */
  predicate IsUpper(c: char) {
    'A' <= c <= 'Z'
  }

  /** Folds one character to lower case. */
  function LowerChar(c: char): (r: char)
    ensures !IsUpper(r)
    ensures r != c <==> IsUpper(c)
    ensures IsUpper(c) ==> 'a' <= r <= 'z' && r as int - c as int == 'a' as int - 'A' as int
  {
    if IsUpper(c) then (c as int - 'A' as int + 'a' as int) as char else c
  }

  /** Folds a whole string, character by character. */
  function ToLower(s: string): (r: string)
    ensures |r| == |s|
    ensures forall i :: 0 <= i < |s| ==> r[i] == LowerChar(s[i])
  {
    if s == [] then [] else [LowerChar(s[0])] + ToLower(s[1..])
  }

  /** `a` and `b` are the same character, or the upper- and lower-case forms of one ASCII letter. */
  predicate SameLetterUpToCase(a: char, b: char) {
    a == b
    || ('A' <= a <= 'Z' && b as int == a as int + 32)
    || ('A' <= b <= 'Z' && a as int == b as int + 32)
  }

  /** `a` and `b` spell the same text up to the case of their ASCII letters. */
  predicate SameUpToCase(a: string, b: string) {
    |a| == |b| && forall i :: 0 <= i < |a| ==> SameLetterUpToCase(a[i], b[i])
  }

  /** Two characters fold to the same character exactly when they are case variants of each other. */
  lemma SameLetterIffSameLower(a: char, b: char)
    ensures SameLetterUpToCase(a, b) <==> LowerChar(a) == LowerChar(b)
  {
    if IsUpper(a) && !IsUpper(b) {
      assert LowerChar(a) as int == a as int + 32;
    } else if IsUpper(b) && !IsUpper(a) {
      assert LowerChar(b) as int == b as int + 32;
    }
  }

  /** Two strings fold to the same string exactly when they are case variants of each other. */
  lemma SameUpToCaseIffSameLower(a: string, b: string)
    ensures SameUpToCase(a, b) <==> ToLower(a) == ToLower(b)
  {
    forall i | 0 <= i < |a| && i < |b|
      ensures SameLetterUpToCase(a[i], b[i]) <==> ToLower(a)[i] == ToLower(b)[i]
    {
      SameLetterIffSameLower(a[i], b[i]);
    }
    if ToLower(a) == ToLower(b) {
      assert forall i :: 0 <= i < |a| ==> ToLower(a)[i] == ToLower(b)[i];
    }
    if SameUpToCase(a, b) {
      assert forall i :: 0 <= i < |a| ==> ToLower(a)[i] == ToLower(b)[i];
    }
  }

  /** Folding twice is folding once. */
  lemma ToLowerIdempotent(s: string)
    ensures ToLower(ToLower(s)) == ToLower(s)
  {
    assert forall i :: 0 <= i < |s| ==> ToLower(ToLower(s))[i] == ToLower(s)[i];
  }

  /** Folding distributes over concatenation. */
  lemma ToLowerAppend(a: string, b: string)
    ensures ToLower(a + b) == ToLower(a) + ToLower(b)
  {
    assert forall i :: 0 <= i < |a + b| ==> ToLower(a + b)[i] == (ToLower(a) + ToLower(b))[i];
  }

  /** Folding keeps a prefix a prefix. */
  lemma ToLowerPrefix(p: string, s: string)
    requires p <= s
    ensures ToLower(p) <= ToLower(s)
  {
    assert s == p + s[|p|..];
    ToLowerAppend(p, s[|p|..]);
  }

  /** Folding commutes with taking a slice. */
  lemma ToLowerSlice(s: string, i: nat, j: nat)
    requires i <= j <= |s|
    ensures ToLower(s)[i..j] == ToLower(s[i..j])
  {
    var lhs, rhs := ToLower(s)[i..j], ToLower(s[i..j]);
    assert |lhs| == |rhs| == j - i;
    forall k | 0 <= k < j - i
      ensures lhs[k] == rhs[k]
    {
      assert lhs[k] == LowerChar(s[i + k]) == rhs[k];
    }
  }
}
