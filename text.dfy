/**
 * The string operations the scraper relies on, restricted to ASCII:
 * `str.lower()`, `str.strip()`, the substring test `pat in text` and
 * `str.replace(pat, sub)`; and the subsequence relation on sequences.
 */
module Text {

  /** Lower-cases one ASCII letter; every other character is left alone. */
  function LowerChar(c: char): char {
    if 'A' <= c <= 'Z' then (c as int + 32) as char else c
  }

  predicate IsUpper(c: char) {
    'A' <= c <= 'Z'
  }

  /** ASCII model of `str.lower()`: the same length, each character lowered. */
  function Lower(s: string): (r: string)
    ensures |r| == |s|
    ensures forall i :: 0 <= i < |s| ==> r[i] == LowerChar(s[i])
  {
    seq(|s|, i requires 0 <= i < |s| => LowerChar(s[i]))
  }

  /** After lowering, no upper-case ASCII letter is left. */
  lemma LowerHasNoUpper(s: string)
    ensures forall i :: 0 <= i < |s| ==> !IsUpper(Lower(s)[i])
  {
  }

  lemma LowerAppend(a: string, b: string)
    ensures Lower(a + b) == Lower(a) + Lower(b)
  {
    assert forall i :: 0 <= i < |a + b| ==> Lower(a + b)[i] == (Lower(a) + Lower(b))[i];
  }

  lemma LowerSlice(s: string, i: nat, j: nat)
    requires i <= j <= |s|
    ensures Lower(s[i..j]) == Lower(s)[i..j]
  {
  }

  /** The characters `str.strip()` removes (their ASCII part): tab, line feed,
      vertical tab, form feed, carriage return, the four separators 0x1C-0x1F, space. */
  predicate IsSpace(c: char) {
    c == ' ' || 9 <= c as int <= 13 || 28 <= c as int <= 31
  }

  /** Lowering never turns a space into a non-space or back. */
  lemma LowerCharKeepsSpace(c: char)
    ensures IsSpace(LowerChar(c)) <==> IsSpace(c)
  {
  }

  /** Index of the first non-space character of `s` (|s| when there is none). */
  function TextStart(s: string): (i: nat)
    ensures i <= |s|
    ensures forall k :: 0 <= k < i ==> IsSpace(s[k])
    ensures i < |s| ==> !IsSpace(s[i])
  {
    if s == [] || !IsSpace(s[0]) then 0 else 1 + TextStart(s[1..])
  }

  /** One past the last non-space character of `s` at or after `lo`. */
  function TextEnd(s: string, lo: nat): (j: nat)
    requires lo <= |s|
    ensures lo <= j <= |s|
    ensures forall k :: j <= k < |s| ==> IsSpace(s[k])
    ensures lo < j ==> !IsSpace(s[j - 1])
  {
    if |s| == lo || !IsSpace(s[|s| - 1]) then |s| else TextEnd(s[..|s| - 1], lo)
  }

  /** ASCII model of `str.strip()`: the slice between the leading and the trailing whitespace. */
  function Strip(s: string): (r: string)
    ensures exists i, j ::
      && 0 <= i <= j <= |s| && r == s[i..j]
      && (forall k :: 0 <= k < i ==> IsSpace(s[k]))
      && (forall k :: j <= k < |s| ==> IsSpace(s[k]))
    ensures |r| <= |s|
    ensures r != [] ==> !IsSpace(r[0]) && !IsSpace(r[|r| - 1])
    ensures (forall k :: 0 <= k < |s| ==> IsSpace(s[k])) <==> r == []
  {
    var i := TextStart(s);
    s[i..TextEnd(s, i)]
  }

  /** `pat` occurs in `text` starting at index `i`. */
  predicate OccursAt(text: string, pat: string, i: int) {
    0 <= i && i + |pat| <= |text| && text[i..i + |pat|] == pat
  }

  /** Python's `pat in text` for strings. */
  predicate Contains(text: string, pat: string) {
    exists i | 0 <= i <= |text| - |pat| :: OccursAt(text, pat, i)
  }

  /** A pattern found in one part of a concatenation is found in the whole. */
  lemma ContainsInSuffix(a: string, b: string, pat: string)
    requires Contains(b, pat)
    ensures Contains(a + b, pat)
  {
    var i :| 0 <= i <= |b| - |pat| && OccursAt(b, pat, i);
    assert (a + b)[|a| + i..|a| + i + |pat|] == b[i..i + |pat|];
    assert OccursAt(a + b, pat, |a| + i);
  }

  lemma ContainsInPrefix(a: string, b: string, pat: string)
    requires Contains(a, pat)
    ensures Contains(a + b, pat)
  {
    var i :| 0 <= i <= |a| - |pat| && OccursAt(a, pat, i);
    assert (a + b)[i..i + |pat|] == a[i..i + |pat|];
    assert OccursAt(a + b, pat, i);
  }

  /** Whoever contains a pattern contains each of its prefixes (used for "internship" and "intern"). */
  lemma ContainsPrefixOfPattern(text: string, pat: string, n: nat)
    requires n <= |pat|
    requires Contains(text, pat)
    ensures Contains(text, pat[..n])
  {
    var i :| 0 <= i <= |text| - |pat| && OccursAt(text, pat, i);
    assert text[i..i + n] == pat[..n];
    assert OccursAt(text, pat[..n], i);
  }

  /** An occurrence of a whitespace-free pattern in the lowered text lies
      between the leading and the trailing whitespace. */
  lemma OccurrenceInsideText(s: string, pat: string, k: int)
    requires |pat| > 0
    requires forall m :: 0 <= m < |pat| ==> !IsSpace(pat[m])
    requires OccursAt(Lower(s), pat, k)
    ensures TextStart(s) <= k && k + |pat| <= TextEnd(s, TextStart(s))
  {
    var ls := Lower(s);
    assert ls[k] == ls[k..k + |pat|][0] == pat[0];
    LowerCharKeepsSpace(s[k]);
    var last := k + |pat| - 1;
    assert ls[last] == ls[k..k + |pat|][|pat| - 1] == pat[|pat| - 1];
    LowerCharKeepsSpace(s[last]);
  }

  /** An occurrence inside the bounds of a slice is an occurrence in the slice. */
  lemma OccursInSlice(t: string, pat: string, i: nat, j: nat, k: int)
    requires i <= k && k + |pat| <= j <= |t|
    requires OccursAt(t, pat, k)
    ensures Contains(t[i..j], pat)
  {
    var inner, outer := t[i..j][k - i..k - i + |pat|], t[k..k + |pat|];
    forall m | 0 <= m < |pat| ensures inner[m] == outer[m] {
      assert t[i..j][k - i + m] == t[k + m];
    }
    assert inner == outer;
    assert OccursAt(t[i..j], pat, k - i);
  }

  /** Whatever a slice contains, the whole contains. */
  lemma ContainsFromSlice(t: string, pat: string, i: nat, j: nat)
    requires i <= j <= |t|
    requires Contains(t[i..j], pat)
    ensures Contains(t, pat)
  {
    var m :| 0 <= m <= |t[i..j]| - |pat| && OccursAt(t[i..j], pat, m);
    var outer, inner := t[i + m..i + m + |pat|], t[i..j][m..m + |pat|];
    forall n | 0 <= n < |pat| ensures outer[n] == inner[n] {
      assert t[i..j][m + n] == t[i + m + n];
    }
    assert outer == inner;
    assert OccursAt(t, pat, i + m);
  }

  /** A pattern without whitespace occurs in the lowered `s` exactly when it
      occurs in the lowered `Strip(s)`. */
  lemma ContainsIgnoresStrip(s: string, pat: string)
    requires |pat| > 0
    requires forall k :: 0 <= k < |pat| ==> !IsSpace(pat[k])
    ensures Contains(Lower(s), pat) <==> Contains(Lower(Strip(s)), pat)
  {
    var i := TextStart(s);
    var j := TextEnd(s, i);
    var ls := Lower(s);
    LowerSlice(s, i, j);
    assert Lower(Strip(s)) == ls[i..j];
    if Contains(ls, pat) {
      var k :| 0 <= k <= |ls| - |pat| && OccursAt(ls, pat, k);
      OccurrenceInsideText(s, pat, k);
      OccursInSlice(ls, pat, i, j, k);
    }
    if Contains(ls[i..j], pat) {
      ContainsFromSlice(ls, pat, i, j);
    }
  }

  /** Python's `s.replace(pat, sub)`: every non-overlapping occurrence of `pat`,
      scanning from the left, is replaced by `sub`. */
  function Replace(s: string, pat: string, sub: string): (r: string)
    requires |pat| > 0
    decreases |s|
  {
    if |s| < |pat| then s
    else if s[..|pat|] == pat then sub + Replace(s[|pat|..], pat, sub)
    else [s[0]] + Replace(s[1..], pat, sub)
  }

  /** Every character of a replacement result comes from the input or from `sub`. */
  lemma {:induction false} ReplaceCharacters(s: string, pat: string, sub: string)
    requires |pat| > 0
    ensures forall c :: c in Replace(s, pat, sub) ==> c in s || c in sub
    decreases |s|
  {
    if |s| < |pat| {
    } else if s[..|pat|] == pat {
      ReplaceCharacters(s[|pat|..], pat, sub);
      forall c | c in Replace(s[|pat|..], pat, sub) ensures c in s || c in sub {
        if c in s[|pat|..] {
          var k :| 0 <= k < |s[|pat|..]| && s[|pat|..][k] == c;
          assert s[|pat| + k] == c;
        }
      }
    } else {
      ReplaceCharacters(s[1..], pat, sub);
      forall c | c in Replace(s[1..], pat, sub) ensures c in s || c in sub {
        if c in s[1..] {
          var k :| 0 <= k < |s[1..]| && s[1..][k] == c;
          assert s[1 + k] == c;
        }
      }
    }
  }

  /** Replacing a one-character pattern by text that does not hold it removes it entirely. */
  lemma {:induction false} ReplaceRemovesChar(s: string, c: char, sub: string)
    requires c !in sub
    ensures c !in Replace(s, [c], sub)
    decreases |s|
  {
    if |s| < 1 {
    } else if s[..1] == [c] {
      ReplaceRemovesChar(s[1..], c, sub);
    } else {
      assert s[0] != c;
      ReplaceRemovesChar(s[1..], c, sub);
    }
  }

  /** A prefix free of the pattern's first character is copied unchanged. */
  lemma {:induction false} ReplaceSkips(a: string, b: string, pat: string, sub: string)
    requires |pat| > 0 && pat[0] !in a
    ensures Replace(a + b, pat, sub) == a + Replace(b, pat, sub)
    decreases |a|
  {
    if a != [] {
      var s := a + b;
      assert s[0] == a[0] != pat[0];
      if |s| >= |pat| {
        assert s[..|pat|][0] != pat[0];
        assert s[1..] == a[1..] + b;
        ReplaceSkips(a[1..], b, pat, sub);
        calc {
          Replace(s, pat, sub);
          [s[0]] + Replace(s[1..], pat, sub);
          [a[0]] + (a[1..] + Replace(b, pat, sub));
          { assert a == [a[0]] + a[1..]; }
          a + Replace(b, pat, sub);
        }
      } else {
        assert Replace(b, pat, sub) == b;
      }
    } else {
      assert a + b == b;
    }
  }

  /** Text without the pattern's first character is left as it is. */
  lemma ReplaceAbsent(s: string, pat: string, sub: string)
    requires |pat| > 0 && pat[0] !in s
    ensures Replace(s, pat, sub) == s
  {
    ReplaceSkips(s, [], pat, sub);
    assert s + [] == s;
  }

  /** An occurrence at the front is replaced. */
  lemma ReplaceAtFront(pat: string, b: string, sub: string)
    requires |pat| > 0
    ensures Replace(pat + b, pat, sub) == sub + Replace(b, pat, sub)
  {
    assert (pat + b)[..|pat|] == pat;
    assert (pat + b)[|pat|..] == b;
  }

  /** `r` is `s` with some elements left out, the rest in their order. */
  ghost predicate IsSubsequence<T>(r: seq<T>, s: seq<T>)
    decreases |s|
  {
    if r == [] then true
    else if s == [] then false
    else
      || (r[|r| - 1] == s[|s| - 1] && IsSubsequence(r[..|r| - 1], s[..|s| - 1]))
      || IsSubsequence(r, s[..|s| - 1])
  }
}
