/**
 * The java.lang.String operations the core relies on: toLowerCase,
 * toUpperCase, trim, equalsIgnoreCase and contains. Case mapping is that of
 * the ASCII letters; every other character maps to itself.
 */
module Strings {

  /** Character.toLowerCase on ASCII. */
  function LowerChar(c: char): char {
    if 'A' <= c <= 'Z' then (c as int + 32) as char else c
  }

  /** Character.toUpperCase on ASCII. */
  function UpperChar(c: char): char {
    if 'a' <= c <= 'z' then (c as int - 32) as char else c
  }

  /** String.toLowerCase: every character mapped on its own, length kept. */
  function ToLower(s: string): (r: string)
    ensures |r| == |s|
    ensures forall i :: 0 <= i < |s| ==> r[i] == LowerChar(s[i])
  {
    if s == [] then [] else [LowerChar(s[0])] + ToLower(s[1..])
  }

  /** String.toUpperCase: every character mapped on its own, length kept. */
  function ToUpper(s: string): (r: string)
    ensures |r| == |s|
    ensures forall i :: 0 <= i < |s| ==> r[i] == UpperChar(s[i])
  {
    if s == [] then [] else [UpperChar(s[0])] + ToUpper(s[1..])
  }

  /** The characters String.trim removes: every code point up to U+0020. */
  predicate IsTrimmable(c: char) {
    c <= ' '
  }

  /** Neither end of s is a trimmable character. */
  predicate IsTrimmed(s: string) {
    s == [] || (!IsTrimmable(s[0]) && !IsTrimmable(s[|s| - 1]))
  }

  /** Drops the trimmable characters at the front. */
  function TrimStart(s: string): (r: string)
    ensures |r| <= |s| && r == s[|s| - |r|..]
    ensures r == [] || !IsTrimmable(r[0])
    ensures forall i :: 0 <= i < |s| - |r| ==> IsTrimmable(s[i])
  {
    if s != [] && IsTrimmable(s[0]) then TrimStart(s[1..]) else s
  }

  /** Drops the trimmable characters at the back. */
  function TrimEnd(s: string): (r: string)
    ensures |r| <= |s| && r == s[..|r|]
    ensures r == [] || !IsTrimmable(r[|r| - 1])
    ensures forall i :: |r| <= i < |s| ==> IsTrimmable(s[i])
  {
    if s != [] && IsTrimmable(s[|s| - 1]) then TrimEnd(s[..|s| - 1]) else s
  }

  /**
   * r is what remains of s once the characters before lo and after
   * lo + |r|, all of them trimmable, are cut off.
   */
  predicate SliceAfterTrimming(s: string, r: string, lo: nat) {
    && lo + |r| <= |s|
    && r == s[lo..lo + |r|]
    && (forall i :: 0 <= i < lo ==> IsTrimmable(s[i]))
    && (forall i :: lo + |r| <= i < |s| ==> IsTrimmable(s[i]))
  }

  /**
   * String.trim: the slice of s left once the trimmable characters at both
   * ends are cut off; it neither starts nor ends with one.
   */
  function Trim(s: string): (r: string)
    ensures IsTrimmed(r)
    ensures exists lo: nat | lo <= |s| :: SliceAfterTrimming(s, r, lo)
  {
    var front := TrimStart(s);
    var r := TrimEnd(front);
    assert r == s[|s| - |front|..][..|r|];
    assert SliceAfterTrimming(s, r, |s| - |front|);
    r
  }

  /** Trimming a string that is already trimmed changes nothing. */
  lemma TrimOfTrimmed(s: string)
    requires IsTrimmed(s)
    ensures Trim(s) == s
  {
    assert TrimStart(s) == s;
    assert TrimEnd(s) == s;
  }

  /** Trim is idempotent. */
  lemma TrimIdempotent(s: string)
    ensures Trim(Trim(s)) == Trim(s)
  {
    TrimOfTrimmed(Trim(s));
  }

  /** Case mapping neither creates nor removes trimmable characters. */
  lemma ToUpperKeepsTrimmed(s: string)
    requires IsTrimmed(s)
    ensures IsTrimmed(ToUpper(s))
  {
  }

  /** Case mapping neither creates nor removes trimmable characters. */
  lemma ToLowerKeepsTrimmed(s: string)
    requires IsTrimmed(s)
    ensures IsTrimmed(ToLower(s))
  {
  }

  /** s has no lower-case ASCII letter. */
  predicate IsUpperCase(s: string) {
    forall i :: 0 <= i < |s| ==> !('a' <= s[i] <= 'z')
  }

  /** s has no upper-case ASCII letter. */
  predicate IsLowerCase(s: string) {
    forall i :: 0 <= i < |s| ==> !('A' <= s[i] <= 'Z')
  }

  /** A string with no upper-case letter is its own lower-case form. */
  lemma ToLowerOfLowerCase(s: string)
    requires IsLowerCase(s)
    ensures ToLower(s) == s
  {
  }

  /** A string with no lower-case letter is its own upper-case form. */
  lemma ToUpperOfUpperCase(s: string)
    requires IsUpperCase(s)
    ensures ToUpper(s) == s
  {
  }

  /** t is the lower-case form of s, checked character by character. */
  lemma ToLowerPointwise(s: string, t: string)
    requires |s| == |t|
    requires forall i :: 0 <= i < |s| ==> LowerChar(s[i]) == t[i]
    ensures ToLower(s) == t
  {
  }

  /** Lower-casing distributes over concatenation. */
  lemma ToLowerAppend(a: string, b: string)
    ensures ToLower(a + b) == ToLower(a) + ToLower(b)
  {
  }

  /**
   * Character.equalsIgnoreCase as String.regionMatches applies it: equal,
   * equal once upper-cased, or equal once upper- and then lower-cased.
   */
  predicate CharEqualsIgnoreCase(a: char, b: char) {
    a == b || UpperChar(a) == UpperChar(b) || LowerChar(UpperChar(a)) == LowerChar(UpperChar(b))
  }

  /** String.equalsIgnoreCase for two non-null strings. */
  predicate EqualsIgnoreCase(a: string, b: string) {
    |a| == |b| && forall i :: 0 <= i < |a| ==> CharEqualsIgnoreCase(a[i], b[i])
  }

  /** On ASCII, Java's three-way character test is equality of lower-case forms. */
  lemma CharEqualsIgnoreCaseIffSameLower(a: char, b: char)
    ensures CharEqualsIgnoreCase(a, b) <==> LowerChar(a) == LowerChar(b)
  {
  }

  /** equalsIgnoreCase holds exactly when the two lower-case forms are equal. */
  lemma EqualsIgnoreCaseIffSameLower(a: string, b: string)
    ensures EqualsIgnoreCase(a, b) <==> ToLower(a) == ToLower(b)
  {
    if EqualsIgnoreCase(a, b) {
      forall i | 0 <= i < |a| ensures ToLower(a)[i] == ToLower(b)[i] {
        CharEqualsIgnoreCaseIffSameLower(a[i], b[i]);
      }
    }
    if ToLower(a) == ToLower(b) {
      forall i | 0 <= i < |a| ensures CharEqualsIgnoreCase(a[i], b[i]) {
        assert ToLower(a)[i] == ToLower(b)[i];
        CharEqualsIgnoreCaseIffSameLower(a[i], b[i]);
      }
    }
  }

  /** Upper-casing keeps a string equal to itself ignoring case. */
  lemma ToUpperEqualsIgnoreCase(s: string)
    ensures EqualsIgnoreCase(ToUpper(s), s)
  {
  }

  /** Lower-casing keeps a string equal to itself ignoring case. */
  lemma ToLowerEqualsIgnoreCase(s: string)
    ensures EqualsIgnoreCase(ToLower(s), s)
  {
    forall i | 0 <= i < |s| ensures CharEqualsIgnoreCase(ToLower(s)[i], s[i]) {
      CharEqualsIgnoreCaseIffSameLower(ToLower(s)[i], s[i]);
    }
  }

  /** Two characters have the same upper-case form exactly when they have the same lower-case form. */
  lemma CharSameUpperIffSameLower(x: char, y: char)
    ensures UpperChar(x) == UpperChar(y) <==> LowerChar(x) == LowerChar(y)
  {
  }

  /** Two strings have the same upper-case form exactly when they have the same lower-case form. */
  lemma SameUpperIffSameLower(a: string, b: string)
    ensures ToUpper(a) == ToUpper(b) <==> ToLower(a) == ToLower(b)
  {
    if |a| == |b| {
      forall i | 0 <= i < |a| ensures ToUpper(a)[i] == ToUpper(b)[i] <==> ToLower(a)[i] == ToLower(b)[i] {
        CharSameUpperIffSameLower(a[i], b[i]);
      }
      if ToUpper(a) == ToUpper(b) {
        assert forall i :: 0 <= i < |a| ==> ToLower(a)[i] == ToLower(b)[i];
      }
      if ToLower(a) == ToLower(b) {
        assert forall i :: 0 <= i < |a| ==> ToUpper(a)[i] == ToUpper(b)[i];
      }
    }
  }

  /** equalsIgnoreCase is symmetric. */
  lemma EqualsIgnoreCaseSymmetric(a: string, b: string)
    ensures EqualsIgnoreCase(a, b) <==> EqualsIgnoreCase(b, a)
  {
    EqualsIgnoreCaseIffSameLower(a, b);
    EqualsIgnoreCaseIffSameLower(b, a);
  }

  /** needle sits in hay starting at index i. */
  predicate OccursAt(hay: string, needle: string, i: nat) {
    i + |needle| <= |hay| && hay[i..i + |needle|] == needle
  }

  /** String.contains. */
  predicate Contains(hay: string, needle: string) {
    exists i: nat | i <= |hay| :: OccursAt(hay, needle, i)
  }

  /** A string contains itself wherever it is placed. */
  lemma ContainsInfix(before: string, needle: string, after: string)
    ensures Contains(before + needle + after, needle)
  {
    var hay := before + needle + after;
    assert hay[|before|..|before| + |needle|] == needle;
    assert OccursAt(hay, needle, |before|);
  }

  /** No character of s lower-cases to c. */
  predicate Avoids(s: string, c: char) {
    forall j :: 0 <= j < |s| ==> LowerChar(s[j]) != c
  }

  /** Lower-cased, no x of s is followed by y. */
  predicate AvoidsPair(s: string, x: char, y: char) {
    forall j :: 0 <= j < |s| - 1 && LowerChar(s[j]) == x ==> LowerChar(s[j + 1]) != y
  }

  lemma AvoidsConcat(a: string, b: string, c: char)
    requires Avoids(a, c) && Avoids(b, c)
    ensures Avoids(a + b, c)
  {
    forall j | 0 <= j < |a + b| ensures LowerChar((a + b)[j]) != c {
      if j >= |a| {
        assert (a + b)[j] == b[j - |a|];
      }
    }
  }

  /** Two parts that avoid a pair avoid it together when it does not straddle the seam. */
  lemma AvoidsPairConcat(a: string, b: string, x: char, y: char)
    requires AvoidsPair(a, x, y) && AvoidsPair(b, x, y)
    requires a == [] || b == [] || LowerChar(a[|a| - 1]) != x || LowerChar(b[0]) != y
    ensures AvoidsPair(a + b, x, y)
  {
    var s := a + b;
    forall j | 0 <= j < |s| - 1 && LowerChar(s[j]) == x ensures LowerChar(s[j + 1]) != y {
      if j + 1 < |a| {
        assert s[j] == a[j] && s[j + 1] == a[j + 1];
      } else if j >= |a| {
        assert s[j] == b[j - |a|] && s[j + 1] == b[j + 1 - |a|];
      } else {
        assert s[j] == a[|a| - 1] && s[j + 1] == b[0];
      }
    }
  }

  /** A string that avoids its own character k cannot hold needle once lower-cased. */
  lemma AbsentCharNotContained(hay: string, needle: string, k: nat)
    requires k < |needle|
    requires Avoids(hay, needle[k])
    ensures !Contains(ToLower(hay), needle)
  {
    var low := ToLower(hay);
    forall i: nat | i <= |low| ensures !OccursAt(low, needle, i) {
      if i + |needle| <= |low| {
        var w := low[i..i + |needle|];
        assert w[k] == LowerChar(hay[i + k]);
      }
    }
  }

  /** A string that avoids the neighbours k and k + 1 of needle cannot hold needle once lower-cased. */
  lemma AbsentPairNotContained(hay: string, needle: string, k: nat)
    requires k + 1 < |needle|
    requires AvoidsPair(hay, needle[k], needle[k + 1])
    ensures !Contains(ToLower(hay), needle)
  {
    var low := ToLower(hay);
    forall i: nat | i <= |low| ensures !OccursAt(low, needle, i) {
      if i + |needle| <= |low| {
        var w := low[i..i + |needle|];
        assert w[k] == LowerChar(hay[i + k]) && w[k + 1] == LowerChar(hay[i + k + 1]);
      }
    }
  }

  /** Lower-casing a message given in three parts, part by part. */
  lemma ToLowerOfParts(a: string, b: string, c: string, la: string, lb: string, lc: string)
    requires ToLower(a) == la && ToLower(b) == lb && ToLower(c) == lc
    ensures ToLower(a + (b + c)) == la + (lb + lc)
  {
    ToLowerAppend(b, c);
    ToLowerAppend(a, b + c);
  }

  /** Every string contains itself. */
  lemma ContainsSelf(s: string)
    ensures Contains(s, s)
  {
    assert s[0..|s|] == s;
    assert OccursAt(s, s, 0);
  }

  /** A string starts with, so contains, its own head. */
  lemma ContainsHead(needle: string, after: string)
    ensures Contains(needle + after, needle)
  {
    assert (needle + after)[0..|needle|] == needle;
    assert OccursAt(needle + after, needle, 0);
  }

  /** A message whose first part lower-cases to needle followed by more contains needle once lower-cased. */
  lemma LowerHeadContained(a: string, b: string, c: string, needle: string, tail: string)
    requires ToLower(a) == needle + tail
    ensures Contains(ToLower(a + b + c), needle)
  {
    var s := a + b + c;
    var low := ToLower(s);
    forall i | 0 <= i < |needle| ensures low[i] == needle[i] {
      assert s[i] == a[i];
      assert ToLower(a)[i] == needle[i];
    }
    assert low[0..|needle|] == needle;
    assert OccursAt(low, needle, 0);
  }

  /** A message that starts with head contains head's lower-case form once lower-cased. */
  lemma LowerPrefixContained(message: string, head: string)
    requires |head| <= |message|
    requires forall i :: 0 <= i < |head| ==> message[i] == head[i]
    ensures Contains(ToLower(message), ToLower(head))
  {
    var low := ToLower(message);
    assert low[0..|head|] == ToLower(head);
    assert OccursAt(low, ToLower(head), 0);
  }

  /** A message whose first two parts lower-case to la and lb contains la + lb once lower-cased. */
  lemma LowerHeadsContained(a: string, b: string, c: string, la: string, lb: string)
    requires ToLower(a) == la && ToLower(b) == lb
    ensures Contains(ToLower(a + b + c), la + lb)
  {
    ToLowerAppend(a + b, c);
    ToLowerAppend(a, b);
    ContainsHead(la + lb, ToLower(c));
  }

  /** A message that starts with needle, in any case, contains it once lower-cased. */
  lemma LowerStartContained(message: string, needle: string)
    requires |needle| <= |message|
    requires forall i :: 0 <= i < |needle| ==> LowerChar(message[i]) == needle[i]
    ensures Contains(ToLower(message), needle)
  {
    var low := ToLower(message);
    assert low[0..|needle|] == needle;
    assert OccursAt(low, needle, 0);
  }

  /** A message that ends with a lower-case needle contains it once lower-cased. */
  lemma LowerSuffixContained(prefix: string, needle: string)
    requires IsLowerCase(needle)
    ensures Contains(ToLower(prefix + needle), needle)
  {
    ToLowerAppend(prefix, needle);
    ToLowerOfLowerCase(needle);
    ContainsInfix(ToLower(prefix), needle, []);
    assert ToLower(prefix) + needle + [] == ToLower(prefix + needle);
  }
}
