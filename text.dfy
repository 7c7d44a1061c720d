/**
 * The two string operations the roster's rules rest on: Java's `String.trim().isEmpty()`
 * test for blank names and `String.equalsIgnoreCase` for discipline names.
 */
module Text {

  /** Java's trim() drops every leading and trailing character at or below U+0020. */
  predicate IsTrimmed(c: char) {
    c <= ' '
  }

  function TrimStart(s: string): string {
    if |s| > 0 && IsTrimmed(s[0]) then TrimStart(s[1..]) else s
  }

  function TrimEnd(s: string): string {
    if |s| > 0 && IsTrimmed(s[|s| - 1]) then TrimEnd(s[..|s| - 1]) else s
  }

  function Trim(s: string): string {
    TrimEnd(TrimStart(s))
  }

  /** `name == null || name.trim().isEmpty()`; a null reference is treated as blank. */
  predicate IsBlank(s: string) {
    Trim(s) == []
  }

  predicate AllTrimmed(s: string) {
    forall i :: 0 <= i < |s| ==> IsTrimmed(s[i])
  }

  lemma {:induction false} TrimStartEmptyIff(s: string)
    ensures TrimStart(s) == [] <==> AllTrimmed(s)
    ensures TrimStart(s) != [] ==> !IsTrimmed(TrimStart(s)[0])
    decreases |s|
  {
    if |s| > 0 && IsTrimmed(s[0]) {
      TrimStartEmptyIff(s[1..]);
      assert AllTrimmed(s) <==> AllTrimmed(s[1..]) by {
        if AllTrimmed(s[1..]) {
          forall i | 0 <= i < |s| ensures IsTrimmed(s[i]) {
            if i > 0 { assert s[i] == s[1..][i - 1]; }
          }
        }
      }
    }
  }

  lemma {:induction false} TrimEndEmptyIff(s: string)
    ensures TrimEnd(s) == [] <==> AllTrimmed(s)
    decreases |s|
  {
    if |s| > 0 && IsTrimmed(s[|s| - 1]) {
      var init := s[..|s| - 1];
      TrimEndEmptyIff(init);
      assert AllTrimmed(s) <==> AllTrimmed(init) by {
        if AllTrimmed(init) {
          forall i | 0 <= i < |s| ensures IsTrimmed(s[i]) {
            if i < |s| - 1 { assert s[i] == init[i]; }
          }
        }
      }
    }
  }

  /** A name is blank exactly when every one of its characters is one that trim() removes. */
  lemma BlankIffAllTrimmed(s: string)
    ensures IsBlank(s) <==> AllTrimmed(s)
  {
    TrimStartEmptyIff(s);
    var t := TrimStart(s);
    TrimEndEmptyIff(t);
    if t != [] {
      assert !IsTrimmed(t[0]);
      assert !AllTrimmed(t);
    }
  }

  /** Java's Character.toUpperCase and toLowerCase, restricted to the ASCII letters. */
  function ToUpper(c: char): char {
    if 'a' <= c <= 'z' then (c as int - 32) as char else c
  }

  function ToLower(c: char): char {
    if 'A' <= c <= 'Z' then (c as int + 32) as char else c
  }

  /** The per-character test of String.regionMatches(true, ...), which equalsIgnoreCase uses. */
  predicate CharsMatchIgnoringCase(a: char, b: char) {
    a == b || ToUpper(a) == ToUpper(b) || ToLower(ToUpper(a)) == ToLower(ToUpper(b))
  }

  /** `a.equalsIgnoreCase(b)`: same length and every pair of characters matches ignoring case. */
  predicate EqualsIgnoreCase(a: string, b: string) {
    |a| == |b| && forall i :: 0 <= i < |a| ==> CharsMatchIgnoringCase(a[i], b[i])
  }

  /** The case-folded form of a string, the reference definition for EqualsIgnoreCase. */
  function Fold(s: string): (r: string) {
    seq(|s|, i requires 0 <= i < |s| => ToLower(s[i]))
  }

  lemma CharsMatchIffFold(a: char, b: char)
    ensures CharsMatchIgnoringCase(a, b) <==> ToLower(a) == ToLower(b)
  {
  }

  /** Two names match ignoring case exactly when their folded forms are equal. */
  lemma EqualsIgnoreCaseIffFold(a: string, b: string)
    ensures EqualsIgnoreCase(a, b) <==> Fold(a) == Fold(b)
  {
    if Fold(a) == Fold(b) {
      assert |a| == |b|;
      forall i | 0 <= i < |a| ensures CharsMatchIgnoringCase(a[i], b[i]) {
        assert Fold(a)[i] == Fold(b)[i];
        CharsMatchIffFold(a[i], b[i]);
      }
    }
    if EqualsIgnoreCase(a, b) {
      forall i | 0 <= i < |a| ensures Fold(a)[i] == Fold(b)[i] {
        CharsMatchIffFold(a[i], b[i]);
      }
    }
  }

  lemma EqualsIgnoreCaseSymmetric(a: string, b: string)
    ensures EqualsIgnoreCase(a, b) <==> EqualsIgnoreCase(b, a)
  {
    EqualsIgnoreCaseIffFold(a, b);
    EqualsIgnoreCaseIffFold(b, a);
  }

  lemma EqualsIgnoreCaseTransitive(a: string, b: string, c: string)
    requires EqualsIgnoreCase(a, b) && EqualsIgnoreCase(b, c)
    ensures EqualsIgnoreCase(a, c)
  {
    EqualsIgnoreCaseIffFold(a, b);
    EqualsIgnoreCaseIffFold(b, c);
    EqualsIgnoreCaseIffFold(a, c);
  }
}
