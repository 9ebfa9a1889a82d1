/** The Python `str` operations the query router is built from, on strings of
    Unicode scalar values: `p in s`, `s.startswith(p)`, `s.replace(p, "")`,
    `s.strip()`, `s.lower()` (ASCII letters only) and the slice `s[:n]`. */
module PyStr {

  /** `c.isspace()` in Python 3: the characters of bidirectional class WS, B
      or S, or of general category Zs. */
  predicate IsSpace(c: char) {
    ('\t' <= c <= '\r') || ('\U{1C}' <= c <= '\U{1F}') || c == ' '
    || c == '\U{85}' || c == '\U{A0}' || c == '\U{1680}'
    || ('\U{2000}' <= c <= '\U{200A}') || c == '\U{2028}' || c == '\U{2029}'
    || c == '\U{202F}' || c == '\U{205F}' || c == '\U{3000}'
  }

  predicate AllSpace(s: string) {
    forall k :: 0 <= k < |s| ==> IsSpace(s[k])
  }

  // ---------------------------------------------------------------------
  // Substring tests

  /** `p` occurs in `s` starting at index `i`. */
  predicate OccursAt(s: string, p: string, i: int) {
    0 <= i && i + |p| <= |s| && s[i..i + |p|] == p
  }

  /** `s.startswith(p)` */
  predicate StartsWith(s: string, p: string) {
    |p| <= |s| && s[..|p|] == p
  }

  /** `p in s`, as a left-to-right scan. */
  predicate Contains(s: string, p: string)
    decreases |s|
  {
    StartsWith(s, p) || (s != [] && Contains(s[1..], p))
  }

  /** The scan finds `p` exactly when `p` occurs somewhere in `s`. */
  lemma {:induction false} ContainsIff(s: string, p: string)
    ensures Contains(s, p) <==> exists i :: OccursAt(s, p, i)
    decreases |s|
  {
    if StartsWith(s, p) {
      assert OccursAt(s, p, 0);
    } else if s == [] {
    } else {
      ContainsIff(s[1..], p);
      if i :| OccursAt(s[1..], p, i) {
        assert s[1..][i..i + |p|] == s[i + 1..i + 1 + |p|];
        assert OccursAt(s, p, i + 1);
      }
      if i :| OccursAt(s, p, i) {
        assert i != 0;
        assert s[1..][i - 1..i - 1 + |p|] == s[i..i + |p|];
        assert OccursAt(s[1..], p, i - 1);
      }
    }
  }

  /** An occurrence of a non-empty `p` in `a + b` must lie in `b` when no
      character of `a` can start one. */
  lemma {:induction false} ContainsAfterPrefix(a: string, b: string, p: string)
    requires p != []
    requires p[0] !in a
    ensures Contains(a + b, p) <==> Contains(b, p)
    decreases |a|
  {
    if a == [] {
      assert a + b == b;
    } else {
      assert (a + b)[0] == a[0];
      assert !StartsWith(a + b, p);
      assert (a + b)[1..] == a[1..] + b;
      ContainsAfterPrefix(a[1..], b, p);
    }
  }

  /** A text holding `p` between two others contains it. */
  lemma {:induction false} ContainsMiddle(a: string, p: string, b: string)
    ensures Contains(a + p + b, p)
    decreases |a|
  {
    if a == [] {
      assert (a + p + b)[..|p|] == p;
    } else {
      assert (a + p + b)[1..] == a[1..] + p + b;
      ContainsMiddle(a[1..], p, b);
    }
  }

  /** A text that contains `a + p + b` contains `p`. */
  lemma ContainsInner(s: string, a: string, p: string, b: string)
    requires Contains(s, a + p + b)
    ensures Contains(s, p)
  {
    ContainsIff(s, a + p + b);
    var i :| OccursAt(s, a + p + b, i);
    assert s[i + |a|..i + |a| + |p|] == s[i..i + |a + p + b|][|a|..|a| + |p|];
    assert OccursAt(s, p, i + |a|);
    ContainsIff(s, p);
  }

  /** A text lacking one of the characters of `p` does not contain `p`. */
  lemma MissingCharNotContained(s: string, p: string, j: int)
    requires 0 <= j < |p| && p[j] !in s
    ensures !Contains(s, p)
  {
    forall i ensures !OccursAt(s, p, i) {
      if 0 <= i && i + |p| <= |s| {
        assert s[i..i + |p|][j] == s[i + j];
      }
    }
    ContainsIff(s, p);
  }

  // ---------------------------------------------------------------------
  // Replacement

  /** `s.replace(p, "")`: every occurrence of `p` found by a left-to-right,
      non-overlapping scan is deleted. Python leaves `s` unchanged when `p`
      is empty. */
  function RemoveAll(s: string, p: string): (r: string)
    ensures |r| <= |s|
    decreases |s|
  {
    if p == [] || s == [] then s
    else if StartsWith(s, p) then RemoveAll(s[|p|..], p)
    else [s[0]] + RemoveAll(s[1..], p)
  }

  /** Removing a non-empty pattern changes the text exactly when the pattern
      occurs in it. */
  lemma {:induction false} RemoveAllUnchangedIff(s: string, p: string)
    requires p != []
    ensures RemoveAll(s, p) == s <==> !Contains(s, p)
    decreases |s|
  {
    if s == [] {
    } else if StartsWith(s, p) {
      assert |RemoveAll(s[|p|..], p)| < |s|;
    } else {
      RemoveAllUnchangedIff(s[1..], p);
      assert ([s[0]] + RemoveAll(s[1..], p) == s) <==> (RemoveAll(s[1..], p) == s[1..]) by {
        if [s[0]] + RemoveAll(s[1..], p) == s {
          assert ([s[0]] + RemoveAll(s[1..], p))[1..] == RemoveAll(s[1..], p);
        }
        if RemoveAll(s[1..], p) == s[1..] {
          assert [s[0]] + s[1..] == s;
        }
      }
    }
  }

  /** Removal commutes with a prefix none of whose characters can start an
      occurrence of `p`. */
  lemma {:induction false} RemoveAllAfterPrefix(a: string, b: string, p: string)
    requires p != []
    requires p[0] !in a
    ensures RemoveAll(a + b, p) == a + RemoveAll(b, p)
    decreases |a|
  {
    if a == [] {
      assert a + b == b;
    } else {
      assert (a + b)[0] == a[0];
      assert !StartsWith(a + b, p);
      assert (a + b)[1..] == a[1..] + b;
      RemoveAllAfterPrefix(a[1..], b, p);
      assert [a[0]] + (a[1..] + RemoveAll(b, p)) == a + RemoveAll(b, p);
    }
  }

  /** The scan deletes the leftmost occurrence first: everything before it
      is kept, and removal goes on after its end. With
      `RemoveAllUnchangedIff` for the text left over, this fixes the result
      by the positions of the occurrences, overlapping ones included. */
  lemma RemoveAllFirst(s: string, p: string, i: int)
    requires p != [] && OccursAt(s, p, i)
    requires forall j :: 0 <= j < i ==> !OccursAt(s, p, j)
    ensures RemoveAll(s, p) == s[..i] + RemoveAll(s[i + |p|..], p)
  {
    RemoveAllFirstFrom(s, p, 0, i);
    assert s[0..] == s && s[0..i] == s[..i];
  }

  /** `RemoveAllFirst` for the suffix of `s` from index `k` on. */
  lemma {:induction false} RemoveAllFirstFrom(s: string, p: string, k: int, i: int)
    requires p != [] && 0 <= k <= i && OccursAt(s, p, i)
    requires forall j :: k <= j < i ==> !OccursAt(s, p, j)
    ensures RemoveAll(s[k..], p) == s[k..i] + RemoveAll(s[i + |p|..], p)
    decreases i - k
  {
    if k == i {
      RemoveAllOccurrenceAt(s, p, i);
    } else {
      RemoveAllKeepAt(s, p, k);
      RemoveAllFirstFrom(s, p, k + 1, i);
      ConsSlice(s, k, i);
      PrependJoined(s[k], s[k + 1..i], s[k..i], RemoveAll(s[i + |p|..], p));
    }
  }

  /** An occurrence at index `i` is deleted from the suffix starting there. */
  lemma RemoveAllOccurrenceAt(s: string, p: string, i: int)
    requires p != [] && OccursAt(s, p, i)
    ensures RemoveAll(s[i..], p) == s[i..i] + RemoveAll(s[i + |p|..], p)
  {
    assert StartsWith(s[i..], p);
    assert s[i..][|p|..] == s[i + |p|..];
    assert s[i..i] == [];
  }

  /** A suffix that does not start with `p` keeps its first character. */
  lemma RemoveAllKeepAt(s: string, p: string, k: int)
    requires p != [] && 0 <= k < |s| && !OccursAt(s, p, k)
    ensures RemoveAll(s[k..], p) == [s[k]] + RemoveAll(s[k + 1..], p)
  {
    assert !StartsWith(s[k..], p);
    assert s[k..][1..] == s[k + 1..];
  }

  /** A slice is its first element followed by the rest. */
  lemma ConsSlice<T>(s: seq<T>, k: int, i: int)
    requires 0 <= k < i <= |s|
    ensures [s[k]] + s[k + 1..i] == s[k..i]
  {
  }

  lemma PrependJoined(c: char, a: string, ca: string, b: string)
    requires [c] + a == ca
    ensures [c] + (a + b) == ca + b
  {
    assert [c] + (a + b) == ([c] + a) + b;
  }

  /** Removal at the front: a text that starts with `p` and has no further
      occurrence of it loses exactly that first `p`. */
  lemma RemoveAllLeading(p: string, b: string)
    requires p != [] && !Contains(b, p)
    ensures RemoveAll(p + b, p) == b
  {
    assert StartsWith(p + b, p) && (p + b)[|p|..] == b;
    RemoveAllUnchangedIff(b, p);
  }

  /** A keyword and a space, then a text: the same text whether the
      keyword and its space are written as one literal `kwSpace` or joined.
      Callers pass the literal so that their own proofs never join them. */
  lemma KeywordThenSpace(kw: string, kwSpace: string, t: string)
    requires kwSpace == kw + " "
    ensures kw + " " + t == kwSpace + t
  {
  }

  /** A keyword, a space and a text holding no keyword: removing the
      keyword leaves the space and the text. */
  lemma KeywordRemoved(kw: string, t: string)
    requires kw != [] && kw[0] != ' ' && !Contains(t, kw)
    ensures RemoveAll(kw + " " + t, kw) == " " + t
  {
    assert kw + " " + t == kw + (" " + t);
    ContainsAfterPrefix(" ", t, kw);
    RemoveAllLeading(kw, " " + t);
  }


  /** A text that starts with `kw` contains it. */
  lemma KeywordMentioned(kw: string, rest: string)
    ensures Contains(kw + rest, kw)
  {
    assert [] + kw + rest == kw + rest;
    ContainsMiddle([], kw, rest);
  }

  // ---------------------------------------------------------------------
  // Stripping

  /** The number of leading whitespace characters. */
  function LeadingSpaces(s: string): (n: nat)
    ensures n <= |s| && AllSpace(s[..n])
    ensures n < |s| ==> !IsSpace(s[n])
    decreases |s|
  {
    if s != [] && IsSpace(s[0]) then 1 + LeadingSpaces(s[1..]) else 0
  }

  /** The length of `s` without its trailing whitespace. */
  function TextEnd(s: string): (n: nat)
    ensures n <= |s| && AllSpace(s[n..])
    ensures 0 < n ==> !IsSpace(s[n - 1])
    decreases |s|
  {
    if s != [] && IsSpace(s[|s| - 1]) then
      var n := TextEnd(s[..|s| - 1]);
      assert s[n..] == s[..|s| - 1][n..] + [s[|s| - 1]];
      AllSpaceConcat(s[..|s| - 1][n..], [s[|s| - 1]]);
      n
    else |s|
  }

  /** `r` is `s` with its leading and trailing whitespace cut off. */
  ghost predicate StrippedFrom(s: string, r: string) {
    exists i, j :: 0 <= i <= j <= |s| && r == s[i..j] && AllSpace(s[..i]) && AllSpace(s[j..])
                   && (r != [] ==> !IsSpace(r[0]) && !IsSpace(r[|r| - 1]))
  }

  /** `s.strip()`: the leading whitespace is skipped first, then the trailing
      whitespace of what is left. */
  function Strip(s: string): (r: string)
    ensures StrippedFrom(s, r)
  {
    var t := s[LeadingSpaces(s)..];
    assert s[LeadingSpaces(s)..][..TextEnd(t)] == s[LeadingSpaces(s)..LeadingSpaces(s) + TextEnd(t)];
    assert s[LeadingSpaces(s) + TextEnd(t)..] == t[TextEnd(t)..];
    t[..TextEnd(t)]
  }

  /** `LeadingSpaces` is the only count of spaces followed by a non-space. */
  lemma {:induction false} LeadingSpacesUnique(s: string, n: nat)
    requires n <= |s| && AllSpace(s[..n]) && (n < |s| ==> !IsSpace(s[n]))
    ensures LeadingSpaces(s) == n
    decreases |s|
  {
    if 0 < n {
      assert s[..n][0] == s[0];
      assert s[1..][..n - 1] == s[..n][1..];
      LeadingSpacesUnique(s[1..], n - 1);
    }
  }

  /** `TextEnd` is the only end preceded by a non-space and followed by spaces. */
  lemma {:induction false} TextEndUnique(s: string, n: nat)
    requires n <= |s| && AllSpace(s[n..]) && (0 < n ==> !IsSpace(s[n - 1]))
    ensures TextEnd(s) == n
    decreases |s|
  {
    if n < |s| {
      assert s[n..][|s| - 1 - n] == s[|s| - 1];
      assert s[..|s| - 1][n..] == s[n..][..|s| - 1 - n];
      TextEndUnique(s[..|s| - 1], n);
    }
  }

  /** There is only one way to cut the whitespace off: `StrippedFrom`
      determines `Strip`. */
  lemma StripUnique(s: string, r: string)
    requires StrippedFrom(s, r)
    ensures r == Strip(s)
  {
    var i, j :| 0 <= i <= j <= |s| && r == s[i..j] && AllSpace(s[..i]) && AllSpace(s[j..])
                && (r != [] ==> !IsSpace(r[0]) && !IsSpace(r[|r| - 1]));
    if r == [] {
      StripAllSpace(s, i, j);
    } else {
      SliceEnds(s, i, j);
      StripCut(s, i, j);
    }
  }

  /** The first and last characters of a non-empty slice. */
  lemma SliceEnds(s: string, i: int, j: int)
    requires 0 <= i < j <= |s|
    ensures |s[i..j]| == j - i && s[i..j][0] == s[i] && s[i..j][j - i - 1] == s[j - 1]
  {
  }

  /** A text that is whitespace on both sides of one cut strips to nothing. */
  lemma StripAllSpace(s: string, i: int, j: int)
    requires 0 <= i == j <= |s| && AllSpace(s[..i]) && AllSpace(s[j..])
    ensures Strip(s) == []
  {
    AllSpaceAround(s, i, j);
    LeadingSpacesUnique(s, |s|);
  }

  /** Nothing but whitespace before `i` and after `j == i`: all whitespace. */
  lemma AllSpaceAround(s: string, i: int, j: int)
    requires 0 <= i == j <= |s| && AllSpace(s[..i]) && AllSpace(s[j..])
    ensures AllSpace(s[..|s|])
  {
    forall k | 0 <= k < |s| ensures IsSpace(s[k]) {
      if k < i { assert s[..i][k] == s[k]; } else { assert s[j..][k - j] == s[k]; }
    }
  }

  /** A cut with whitespace outside and none at its ends is where
      `LeadingSpaces` and `TextEnd` cut. */
  lemma StripCut(s: string, i: int, j: int)
    requires 0 <= i < j <= |s| && AllSpace(s[..i]) && AllSpace(s[j..])
    requires !IsSpace(s[i]) && !IsSpace(s[j - 1])
    ensures s[i..j] == Strip(s)
  {
    LeadingSpacesUnique(s, i);
    TextEndInTail(s, i, j);
    StripByCounts(s, i, j - i);
  }

  /** The trailing whitespace of `s[i..]` starts where that of `s` does. */
  lemma TextEndInTail(s: string, i: int, j: int)
    requires 0 <= i < j <= |s| && AllSpace(s[j..]) && !IsSpace(s[j - 1])
    ensures TextEnd(s[i..]) == j - i
  {
    var t := s[i..];
    assert t[j - i - 1] == s[j - 1];
    assert t[j - i..] == s[j..];
    TextEndUnique(t, j - i);
  }

  /** `Strip` keeps the `n` characters after the `i` leading spaces. */
  lemma StripByCounts(s: string, i: int, n: int)
    requires 0 <= i <= |s| && LeadingSpaces(s) == i && TextEnd(s[i..]) == n
    ensures i + n <= |s| && Strip(s) == s[i..i + n]
  {
    PrefixOfSuffix(s, i, n);
  }

  /** The first `n` elements after index `i`. */
  lemma PrefixOfSuffix<T>(s: seq<T>, i: int, n: int)
    requires 0 <= i && 0 <= n && i + n <= |s|
    ensures s[i..][..n] == s[i..i + n]
  {
  }

  /** A text with no whitespace at either end is left as it is. */
  lemma StripFixed(s: string)
    requires s != [] ==> !IsSpace(s[0]) && !IsSpace(s[|s| - 1])
    ensures Strip(s) == s
  {
    assert s[0..|s|] == s;
    assert AllSpace(s[..0]) && AllSpace(s[|s|..]);
    assert StrippedFrom(s, s);
    StripUnique(s, s);
  }

  /** A text that `strip()` leaves alone has no whitespace at either end. */
  lemma StrippedEnds(s: string)
    requires Strip(s) == s
    ensures s != [] ==> !IsSpace(s[0]) && !IsSpace(s[|s| - 1])
  {
    assert StrippedFrom(s, Strip(s));
  }

  /** One space in front of a stripped text is cut off again. */
  lemma StripOneSpace(t: string)
    requires t != [] ==> !IsSpace(t[0]) && !IsSpace(t[|t| - 1])
    ensures Strip(" " + t) == t
  {
    assert " " + t + [] == " " + t;
    StripPadded(" ", t, []);
    StripFixed(t);
  }

  lemma StripIdempotent(s: string)
    ensures Strip(Strip(s)) == Strip(s)
  {
    var r := Strip(s);
    assert r[0..|r|] == r;
    assert AllSpace(r[..0]) && AllSpace(r[|r|..]);
    assert StrippedFrom(r, r);
    StripUnique(r, r);
  }

  /** Whitespace added around a text does not change what `strip` gives. */
  lemma StripPadded(ws1: string, s: string, ws2: string)
    requires AllSpace(ws1) && AllSpace(ws2)
    ensures Strip(ws1 + s + ws2) == Strip(s)
  {
    var r := Strip(s);
    var i, j :| 0 <= i <= j <= |s| && r == s[i..j] && AllSpace(s[..i]) && AllSpace(s[j..])
                && (r != [] ==> !IsSpace(r[0]) && !IsSpace(r[|r| - 1]));
    var t := ws1 + s + ws2;
    PaddedSlices(ws1, s, ws2, i, j);
    AllSpaceConcat(ws1, s[..i]);
    AllSpaceConcat(s[j..], ws2);
    assert StrippedFrom(t, r);
    StripUnique(t, r);
  }

  lemma PaddedSlices(ws1: string, s: string, ws2: string, i: int, j: int)
    requires 0 <= i <= j <= |s|
    ensures var t := ws1 + s + ws2;
      t[|ws1| + i..|ws1| + j] == s[i..j]
      && t[..|ws1| + i] == ws1 + s[..i]
      && t[|ws1| + j..] == s[j..] + ws2
  {
  }

  lemma AllSpaceConcat(a: string, b: string)
    requires AllSpace(a) && AllSpace(b)
    ensures AllSpace(a + b)
  {
    forall k | 0 <= k < |a + b| ensures IsSpace((a + b)[k]) {
      if k < |a| { assert (a + b)[k] == a[k]; } else { assert (a + b)[k] == b[k - |a|]; }
    }
  }

  // ---------------------------------------------------------------------
  // Case mapping

  /** `lower()` on one character, for the ASCII letters. */
  function LowerChar(c: char): (d: char)
    ensures IsSpace(d) <==> IsSpace(c)
    ensures !('A' <= d <= 'Z')
  {
    if 'A' <= c <= 'Z' then (c as int + 32) as char else c
  }

  /** `s.lower()`, letter by letter. */
  function Lower(s: string): (r: string) {
    seq(|s|, i requires 0 <= i < |s| => LowerChar(s[i]))
  }

  /** Two texts that differ only in the case of their ASCII letters. */
  predicate SameUpToCase(a: string, b: string) {
    |a| == |b| && forall i :: 0 <= i < |a| ==> LowerChar(a[i]) == LowerChar(b[i])
  }

  lemma LowerIdempotent(s: string)
    ensures Lower(Lower(s)) == Lower(s)
  {
  }

  /** Texts are lower-cased piece by piece. */
  lemma LowerConcat(a: string, b: string)
    ensures Lower(a + b) == Lower(a) + Lower(b)
  {
  }

  /** A keyword in lower case, with the space after it, is its own lower
      case. */
  lemma LowerCaseKeyword(kw: string)
    requires forall k :: 0 <= k < |kw| ==> 'a' <= kw[k] <= 'z'
    ensures Lower(kw + " ") == kw + " "
  {
    assert forall k :: 0 <= k < |kw + " "| ==> Lower(kw + " ")[k] == (kw + " ")[k];
  }

  lemma LowerSlice(s: string, i: int, j: int)
    requires 0 <= i <= j <= |s|
    ensures Lower(s)[i..j] == Lower(s[i..j])
    ensures AllSpace(Lower(s)[i..j]) <==> AllSpace(s[i..j])
  {
    forall k | 0 <= k < j - i ensures IsSpace(Lower(s)[i..j][k]) <==> IsSpace(s[i..j][k]) {
      assert Lower(s)[i..j][k] == LowerChar(s[i..j][k]);
    }
  }

  /** Lower-casing and stripping can be done in either order. */
  lemma StripLower(s: string)
    ensures Strip(Lower(s)) == Lower(Strip(s))
  {
    var r := Strip(s);
    var i, j :| 0 <= i <= j <= |s| && r == s[i..j] && AllSpace(s[..i]) && AllSpace(s[j..])
                && (r != [] ==> !IsSpace(r[0]) && !IsSpace(r[|r| - 1]));
    LowerStripped(s, i, j);
    StripUnique(Lower(s), Lower(r));
  }

  /** Lower-casing keeps the whitespace around a text where it was. */
  lemma LowerStripped(s: string, i: int, j: int)
    requires 0 <= i <= j <= |s| && AllSpace(s[..i]) && AllSpace(s[j..])
    requires s[i..j] != [] ==> !IsSpace(s[i..j][0]) && !IsSpace(s[i..j][j - i - 1])
    ensures StrippedFrom(Lower(s), Lower(s[i..j]))
  {
    var l := Lower(s);
    LowerSlice(s, i, j);
    LowerSlice(s, 0, i);
    LowerSlice(s, j, |s|);
    assert s[0..i] == s[..i] && l[0..i] == l[..i];
    assert s[j..|s|] == s[j..] && l[j..|l|] == l[j..];
    assert l[i..j] == Lower(s[i..j]);
  }

  // ---------------------------------------------------------------------
  // Slicing

  /** `s[:n]` for any integer `n`: a negative `n` counts from the end. */
  function SliceTo<T>(s: seq<T>, n: int): (r: seq<T>)
    ensures |r| <= |s|
    ensures 0 <= n ==> |r| == if n < |s| then n else |s|
    ensures r == s[..|r|]
  {
    if 0 <= n then s[..if n < |s| then n else |s|]
    else s[..if |s| + n < 0 then 0 else |s| + n]
  }
}
