/**
 * Character classes and string primitives that the translation pipeline relies on.
 * A QString is a sequence of UTF-16 code units; here a `string`, a sequence of Unicode
 * scalar values, stands for it, and `Utf16Length` counts its UTF-16 code units.
 */
module Text {

  datatype Option<T> = None | Some(value: T)

  /** QChar::isSpace(): what QString::trimmed() strips from both ends (the ASCII
      whitespace controls, NEL, no-break space and the Unicode space separators). */
  predicate IsSpace(c: char) {
    c == ' ' || ('\t' <= c <= '\r') || c == '\U{85}' || c == '\U{A0}' || c == '\U{1680}'
    || ('\U{2000}' <= c <= '\U{200A}') || c == '\U{2028}' || c == '\U{2029}'
    || c == '\U{202F}' || c == '\U{205F}' || c == '\U{3000}'
  }

  /** What `\s` matches in a Qt regular expression compiled without Unicode properties:
      space, tab, line feed, vertical tab, form feed and carriage return. Each of these is
      also whitespace for QString::trimmed(). */
  predicate IsRegexSpace(c: char) {
    c == ' ' || ('\t' <= c <= '\r')
  }

  /** What `\d` matches (ASCII digits). */
  predicate IsDigit(c: char) {
    '0' <= c <= '9'
  }

  /** Where the run of characters satisfying `p` that starts at index `i` ends: what a
      greedy `\s*` or `\d*` started at `i` consumes. */
  function RunEnd(p: char -> bool, s: string, i: nat): (j: nat)
    requires i <= |s|
    decreases |s| - i
    ensures i <= j <= |s|
  {
    if i == |s| || !p(s[i]) then i else RunEnd(p, s, i + 1)
  }

  /** The run RunEnd measures satisfies `p` and cannot be extended. */
  lemma {:induction false} RunEndSpec(p: char -> bool, s: string, i: nat)
    requires i <= |s|
    decreases |s| - i
    ensures forall k :: i <= k < RunEnd(p, s, i) ==> p(s[k])
    ensures RunEnd(p, s, i) < |s| ==> !p(s[RunEnd(p, s, i)])
  {
    if i < |s| && p(s[i]) {
      RunEndSpec(p, s, i + 1);
    }
  }

  /** A run that reaches the end of the string. */
  lemma {:induction false} RunEndAll(p: char -> bool, s: string, i: nat)
    requires i <= |s|
    requires forall k :: i <= k < |s| ==> p(s[k])
    decreases |s| - i
    ensures RunEnd(p, s, i) == |s|
  {
    if i < |s| {
      RunEndAll(p, s, i + 1);
    }
  }

  /** A run measured inside the second part of a concatenation. */
  lemma {:induction false} RunEndShift(p: char -> bool, a: string, b: string, j: nat)
    requires j <= |b|
    decreases |b| - j
    ensures RunEnd(p, a + b, |a| + j) == |a| + RunEnd(p, b, j)
  {
    if j < |b| {
      assert (a + b)[|a| + j] == b[j];
      if p(b[j]) {
        RunEndShift(p, a, b, j + 1);
      }
    }
  }

  /** A run measured in the first part of a concatenation stops there, or continues
      into the second part. */
  lemma {:induction false} RunEndAppend(p: char -> bool, a: string, b: string, i: nat)
    requires i <= |a|
    decreases |a| - i
    ensures RunEnd(p, a + b, i) == if RunEnd(p, a, i) < |a| then RunEnd(p, a, i) else |a| + RunEnd(p, b, 0)
  {
    if i == |a| {
      RunEndShift(p, a, b, 0);
    } else {
      assert (a + b)[i] == a[i];
      if p(a[i]) {
        RunEndAppend(p, a, b, i + 1);
      }
    }
  }

  predicate AllDigits(s: string) {
    forall i :: 0 <= i < |s| ==> IsDigit(s[i])
  }

  /** Case folding used by the case-insensitive comparisons (ASCII letters). */
  function Fold(c: char): (r: char)
    ensures 'A' <= c <= 'Z' ==> r as int == c as int + 32
    ensures !('A' <= c <= 'Z') ==> r == c
  {
    if 'A' <= c <= 'Z' then (c as int + 32) as char else c
  }

  predicate SameChar(a: char, b: char, ci: bool) {
    if ci then Fold(a) == Fold(b) else a == b
  }

  /** `needle` occurs in `s` at index `i` (case-insensitively when `ci`). */
  predicate OccursAt(s: string, i: nat, needle: string, ci: bool) {
    i + |needle| <= |s| && forall k :: 0 <= k < |needle| ==> SameChar(s[i + k], needle[k], ci)
  }

  /** The first index at or after `from` where `needle` occurs. */
  function IndexOf(s: string, needle: string, from: nat, ci: bool): (r: Option<nat>)
    decreases |s| - from
    ensures r.Some? ==> from <= r.value && r.value + |needle| <= |s|
  {
    if from + |needle| > |s| then None
    else if OccursAt(s, from, needle, ci) then Some(from)
    else IndexOf(s, needle, from + 1, ci)
  }

  /** IndexOf finds the first occurrence at or after `from`, and reports none only when
      there is none. */
  lemma {:induction false} IndexOfFirst(s: string, needle: string, from: nat, ci: bool)
    decreases |s| - from
    ensures IndexOf(s, needle, from, ci).Some? ==> OccursAt(s, IndexOf(s, needle, from, ci).value, needle, ci)
    ensures IndexOf(s, needle, from, ci).Some? ==>
              forall k :: from <= k < IndexOf(s, needle, from, ci).value ==> !OccursAt(s, k, needle, ci)
    ensures IndexOf(s, needle, from, ci).None? ==> forall k :: from <= k ==> !OccursAt(s, k, needle, ci)
  {
    if from + |needle| <= |s| && !OccursAt(s, from, needle, ci) {
      IndexOfFirst(s, needle, from + 1, ci);
    }
  }

  /** The first occurrence at or after `from` is at `v` when there is one at `v` and none
      in between. */
  lemma IndexOfAt(s: string, needle: string, from: nat, v: nat, ci: bool)
    requires from <= v && OccursAt(s, v, needle, ci)
    requires forall k :: from <= k < v ==> !OccursAt(s, k, needle, ci)
    ensures IndexOf(s, needle, from, ci) == Some(v)
  {
    IndexOfFirst(s, needle, from, ci);
  }

  /** An occurrence in the second part of a concatenation. */
  lemma OccursAtShift(a: string, b: string, i: nat, needle: string, ci: bool)
    ensures OccursAt(a + b, |a| + i, needle, ci) == OccursAt(b, i, needle, ci)
  {
    if i + |needle| <= |b| {
      forall k | 0 <= k < |needle| ensures SameChar((a + b)[|a| + i + k], needle[k], ci) == SameChar(b[i + k], needle[k], ci) {
        assert (a + b)[|a| + i + k] == b[i + k];
      }
    }
  }

  /** A search in the second part of a concatenation. */
  lemma {:induction false} IndexOfShift(a: string, b: string, needle: string, from: nat, ci: bool)
    decreases |b| - from
    ensures IndexOf(a + b, needle, |a| + from, ci) ==
              if IndexOf(b, needle, from, ci).Some? then Some(|a| + IndexOf(b, needle, from, ci).value) else None
  {
    OccursAtShift(a, b, from, needle, ci);
    if from + |needle| <= |b| && !OccursAt(b, from, needle, ci) {
      IndexOfShift(a, b, needle, from + 1, ci);
    }
  }

  /** QString::contains: the needle occurs at some position. */
  predicate Contains(s: string, needle: string, ci: bool) {
    exists i :: 0 <= i <= |s| && OccursAt(s, i, needle, ci)
  }

  /** Length of the longest prefix of `s` made of whitespace. */
  function SpacePrefix(s: string): (n: nat)
    ensures n <= |s|
  {
    if s == [] || !IsSpace(s[0]) then 0 else 1 + SpacePrefix(s[1..])
  }

  /** The prefix SpacePrefix measures is whitespace and cannot be extended. */
  lemma {:induction false} SpacePrefixSpec(s: string)
    ensures forall i :: 0 <= i < SpacePrefix(s) ==> IsSpace(s[i])
    ensures SpacePrefix(s) < |s| ==> !IsSpace(s[SpacePrefix(s)])
  {
    if s != [] && IsSpace(s[0]) {
      SpacePrefixSpec(s[1..]);
    }
  }

  /** Length of the longest suffix of `s` made of whitespace. */
  function SpaceSuffix(s: string): (n: nat)
    ensures n <= |s|
  {
    if s == [] || !IsSpace(s[|s| - 1]) then 0 else 1 + SpaceSuffix(s[..|s| - 1])
  }

  /** The suffix SpaceSuffix measures is whitespace and cannot be extended. */
  lemma {:induction false} SpaceSuffixSpec(s: string)
    ensures forall i :: |s| - SpaceSuffix(s) <= i < |s| ==> IsSpace(s[i])
    ensures SpaceSuffix(s) < |s| ==> !IsSpace(s[|s| - 1 - SpaceSuffix(s)])
  {
    if s != [] && IsSpace(s[|s| - 1]) {
      SpaceSuffixSpec(s[..|s| - 1]);
    }
  }

  /** QString::trimmed(): whitespace removed from both ends. */
  function Trim(s: string): (r: string)
    ensures |r| <= |s|
  {
    var a := SpacePrefix(s);
    SpacePrefixSpec(s);
    SpaceSuffixSpec(s);
    if a == |s| then []
    else
      var b := SpaceSuffix(s);
      assert a < |s| - b;
      s[a..|s| - b]
  }

  /** The trimmed text is empty exactly when the text is all whitespace, and otherwise
      it neither starts nor ends with whitespace. */
  lemma TrimSpec(s: string)
    ensures Trim(s) == [] <==> forall i :: 0 <= i < |s| ==> IsSpace(s[i])
    ensures Trim(s) != [] ==> !IsSpace(Trim(s)[0]) && !IsSpace(Trim(s)[|Trim(s)| - 1])
  {
    SpacePrefixSpec(s);
    SpaceSuffixSpec(s);
  }

  /** A trimmed text is empty or the slice between the whitespace runs at both ends. */
  lemma TrimSlice(s: string)
    ensures Trim(s) != [] ==> SpacePrefix(s) < |s| - SpaceSuffix(s) && Trim(s) == s[SpacePrefix(s)..|s| - SpaceSuffix(s)]
  {
    SpacePrefixSpec(s);
    SpaceSuffixSpec(s);
  }

  /** A needle whose first character differs from the one at `i` does not occur there. */
  lemma MissAt(s: string, i: nat, needle: string, ci: bool)
    requires i < |s| && needle != [] && !SameChar(s[i], needle[0], ci)
    ensures !OccursAt(s, i, needle, ci)
  {
  }

  /** Whitespace in front of a text that starts with a non-space is exactly the
      leading whitespace. */
  lemma {:induction false} SpacePrefixPadded(pre: string, y: string)
    requires forall i :: 0 <= i < |pre| ==> IsSpace(pre[i])
    requires y != [] ==> !IsSpace(y[0])
    ensures SpacePrefix(pre + y) == |pre|
  {
    if pre == [] {
      assert pre + y == y;
    } else {
      assert (pre + y)[1..] == pre[1..] + y;
      SpacePrefixPadded(pre[1..], y);
    }
  }

  /** The mirror image: trailing whitespace after a text that ends with a non-space. */
  lemma {:induction false} SpaceSuffixPadded(y: string, post: string)
    requires forall i :: 0 <= i < |post| ==> IsSpace(post[i])
    requires y != [] ==> !IsSpace(y[|y| - 1])
    ensures SpaceSuffix(y + post) == |post|
  {
    if post == [] {
      assert y + post == y;
    } else {
      assert (y + post)[..|y + post| - 1] == y + post[..|post| - 1];
      SpaceSuffixPadded(y, post[..|post| - 1]);
    }
  }

  /** Trimming a string that is `x` padded with whitespace on both sides gives back `x`,
      provided `x` neither starts nor ends with whitespace. */
  lemma TrimPadded(pre: string, x: string, post: string)
    requires forall i :: 0 <= i < |pre| ==> IsSpace(pre[i])
    requires forall i :: 0 <= i < |post| ==> IsSpace(post[i])
    requires x != [] ==> !IsSpace(x[0]) && !IsSpace(x[|x| - 1])
    ensures Trim(pre + x + post) == x
  {
    var s := pre + x + post;
    TrimSpec(s);
    if x == [] {
      assert forall i :: 0 <= i < |s| ==> IsSpace(s[i]) by {
        forall i | 0 <= i < |s| ensures IsSpace(s[i]) {
          if i < |pre| { assert s[i] == pre[i]; } else { assert s[i] == post[i - |pre|]; }
        }
      }
    } else {
      assert s == pre + (x + post);
      SpacePrefixPadded(pre, x + post);
      SpaceSuffixPadded(pre + x, post);
      assert s[|pre|..|s| - |post|] == x;
    }
  }

  /** A text that neither starts nor ends with whitespace is its own trimmed form. */
  lemma TrimTight(x: string)
    requires x != [] ==> !IsSpace(x[0]) && !IsSpace(x[|x| - 1])
    ensures Trim(x) == x
  {
    TrimPadded([], x, []);
    assert [] + x + [] == x;
  }

  /** QString::remove(needle, cs): every occurrence found scanning left to right from
      index `p` of the original is dropped; characters between occurrences are kept. */
  function RemoveFrom(s: string, needle: string, ci: bool, p: nat): (r: string)
    requires |needle| > 0 && p <= |s|
    decreases |s| - p
    ensures |r| <= |s| - p
  {
    if p == |s| then []
    else if OccursAt(s, p, needle, ci) then RemoveFrom(s, needle, ci, p + |needle|)
    else [s[p]] + RemoveFrom(s, needle, ci, p + 1)
  }

  function RemoveAll(s: string, needle: string, ci: bool): (r: string)
    requires |needle| > 0
  {
    RemoveFrom(s, needle, ci, 0)
  }

  /** A non-empty slice is its first element followed by the rest. */
  lemma ConsSlice<T>(s: seq<T>, p: nat, q: nat)
    requires p < q <= |s|
    ensures s[p..q] == [s[p]] + s[p + 1..q]
  {
  }

  /** Where the needle does not occur, the characters are kept as they are. */
  lemma {:induction false} RemoveCopy(s: string, needle: string, ci: bool, p: nat, q: nat)
    requires |needle| > 0 && p <= q <= |s|
    requires forall k :: p <= k < q ==> !OccursAt(s, k, needle, ci)
    decreases q - p
    ensures RemoveFrom(s, needle, ci, p) == s[p..q] + RemoveFrom(s, needle, ci, q)
  {
    if p < q {
      var rest := RemoveFrom(s, needle, ci, q);
      assert !OccursAt(s, p, needle, ci);
      assert RemoveFrom(s, needle, ci, p) == [s[p]] + RemoveFrom(s, needle, ci, p + 1);
      RemoveCopy(s, needle, ci, p + 1, q);
      ConsSlice(s, p, q);
      assert [s[p]] + (s[p + 1..q] + rest) == ([s[p]] + s[p + 1..q]) + rest;
    }
  }

  /** A text in which the needle occurs once, at `m`, loses exactly that occurrence. */
  lemma RemoveOnce(s: string, needle: string, ci: bool, m: nat)
    requires |needle| > 0 && m + |needle| <= |s|
    requires forall k :: 0 <= k < m ==> !OccursAt(s, k, needle, ci)
    requires OccursAt(s, m, needle, ci)
    requires forall k :: m + |needle| <= k < |s| ==> !OccursAt(s, k, needle, ci)
    ensures RemoveAll(s, needle, ci) == s[..m] + s[m + |needle|..]
  {
    RemoveCopy(s, needle, ci, 0, m);
    RemoveCopy(s, needle, ci, m + |needle|, |s|);
    assert s[0..m] == s[..m] && s[m + |needle|..|s|] == s[m + |needle|..];
  }

  /** An occurrence read off a slice. */
  lemma SliceOccurs(s: string, i: nat, needle: string, ci: bool)
    requires i + |needle| <= |s| && s[i..i + |needle|] == needle
    ensures OccursAt(s, i, needle, ci)
  {
    forall k | 0 <= k < |needle| ensures SameChar(s[i + k], needle[k], ci) {
      assert s[i + k] == s[i..i + |needle|][k];
    }
  }

  /** A text in which the needle does not occur is left unchanged. */
  lemma RemoveNone(s: string, needle: string, ci: bool)
    requires |needle| > 0
    requires forall k :: 0 <= k < |s| ==> !OccursAt(s, k, needle, ci)
    ensures RemoveAll(s, needle, ci) == s
  {
    RemoveCopy(s, needle, ci, 0, |s|);
    assert s[0..|s|] == s;
  }

  /** QString::length(): the number of UTF-16 code units, a character outside the Basic
      Multilingual Plane taking a surrogate pair. */
  function Utf16Length(s: string): (n: nat)
    ensures |s| <= n <= 2 * |s|
  {
    if s == [] then 0 else Utf16Length(s[..|s| - 1]) + (if s[|s| - 1] as int > 0xFFFF then 2 else 1)
  }

  /** A text of the Basic Multilingual Plane has as many code units as characters. */
  lemma {:induction false} Utf16LengthBmp(s: string)
    requires forall i :: 0 <= i < |s| ==> s[i] as int <= 0xFFFF
    ensures Utf16Length(s) == |s|
  {
    if s != [] {
      Utf16LengthBmp(s[..|s| - 1]);
    }
  }

  /** A text made only of characters outside the Basic Multilingual Plane has two code
      units per character. */
  lemma {:induction false} Utf16LengthAstralRun(s: string)
    requires forall i :: 0 <= i < |s| ==> s[i] as int > 0xFFFF
    ensures Utf16Length(s) == 2 * |s|
  {
    if s != [] {
      Utf16LengthAstralRun(s[..|s| - 1]);
    }
  }

  /** Appending a character outside the Basic Multilingual Plane adds two code units. */
  lemma Utf16LengthAstral(s: string, c: char)
    requires c as int > 0xFFFF
    ensures Utf16Length(s + [c]) == Utf16Length(s) + 2
  {
    assert (s + [c])[..|s|] == s;
  }

  /** The decimal digit for `d`. */
  function Digit(d: nat): (c: char)
    requires d < 10
    ensures IsDigit(c) && c as int - '0' as int == d
  {
    ('0' as int + d) as char
  }

  /** Decimal notation without leading zeros, as QString::arg(int) writes a non-negative int. */
  function Decimal(n: nat): (r: string)
    ensures r != [] && AllDigits(r)
  {
    if n < 10 then [Digit(n)] else Decimal(n / 10) + [Digit(n % 10)]
  }

  /** The number that a string of digits denotes. */
  function DecimalValue(s: string): nat
    requires AllDigits(s)
  {
    if s == [] then 0 else DecimalValue(s[..|s| - 1]) * 10 + (s[|s| - 1] as int - '0' as int)
  }

  lemma {:induction false} DecimalRoundTrip(n: nat)
    ensures DecimalValue(Decimal(n)) == n
  {
    if n >= 10 {
      DecimalRoundTrip(n / 10);
      var r := Decimal(n);
      assert r[..|r| - 1] == Decimal(n / 10);
    }
  }

  lemma DecimalInjective(a: nat, b: nat)
    ensures Decimal(a) == Decimal(b) ==> a == b
  {
    DecimalRoundTrip(a);
    DecimalRoundTrip(b);
  }

  /** Regrouping concatenations, stated once so that long proofs need not rediscover it. */
  lemma Regroup<T>(a: seq<T>, b: seq<T>, c: seq<T>, d: seq<T>)
    ensures a + (b + c + d) == (a + b + c) + d
  {
  }

  /** A suffix of `s` cut at two further points. */
  lemma SplitSuffix<T>(s: seq<T>, p: nat, b: nat, e: nat)
    requires p <= b <= e <= |s|
    ensures s[p..] == s[p..b] + s[b..e] + s[e..]
  {
  }

  /** A slice of the second part of a concatenation. */
  lemma SliceShift<T>(a: seq<T>, b: seq<T>, i: nat, j: nat)
    requires i <= j <= |b|
    ensures (a + b)[|a| + i..|a| + j] == b[i..j]
  {
  }

  /** Regrouping for a loop that moves a pending part and one more part to its result. */
  lemma MoveOut<T>(a: seq<T>, b: seq<T>, c: seq<T>, d: seq<T>)
    ensures a + (b + (c + d)) == (a + b + c) + ([] + d)
  {
  }

  /** Regrouping for a loop that moves one more part to its pending part. */
  lemma MoveIn<T>(a: seq<T>, b: seq<T>, c: seq<T>, d: seq<T>)
    ensures a + (b + (c + d)) == a + ((b + c) + d)
  {
  }

  /** Dropping the first element of a concatenation whose first part is not empty. */
  lemma TailAppend<T>(a: seq<T>, b: seq<T>)
    requires a != []
    ensures (a + b)[0] == a[0] && (a + b)[1..] == a[1..] + b
  {
  }

  /** A slice of a suffix is a slice of the whole. */
  lemma SliceDrop<T>(f: seq<T>, a: nat, i: nat, j: nat)
    requires a <= |f| && i <= j <= |f| - a
    ensures f[a + i..a + j] == f[a..][i..j]
    ensures f[a + i..] == f[a..][i..]
  {
  }

  /** A suffix of the second part of a concatenation. */
  lemma SuffixShift<T>(a: seq<T>, b: seq<T>, i: nat)
    requires i <= |b|
    ensures (a + b)[|a| + i..] == b[i..]
  {
  }

  lemma Assoc<T>(a: seq<T>, b: seq<T>, c: seq<T>)
    ensures a + (b + c) == (a + b) + c
  {
  }

  /** Empty padding on both sides changes nothing. */
  lemma Unpadded<T>(x: seq<T>)
    ensures [] + x + [] == x
  {
  }
}
