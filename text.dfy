/** The string operations the pages rely on: `String.Trim()`, ordinal
    case-insensitive equality, `String.IsNullOrWhiteSpace`, `string.Join`,
    and the ordering used by `OrderBy` on strings.

    Strings are sequences of Unicode scalar values (`char`), while a .NET
    string is a sequence of UTF-16 code units: where the pages test a
    length, `Utf16Length` counts a character outside the Basic
    Multilingual Plane as the two units .NET sees. Case folding is
    ASCII-only and the order compares scalar values; see the README for
    what this approximates. */
module Text {

  // ---------------------------------------------------------------------
  // White space
  // ---------------------------------------------------------------------

  /** `char.IsWhiteSpace`: the control characters U+0009..U+000D, U+0085
      and the Unicode space, line and paragraph separators. */
  predicate IsWhiteSpace(c: char) {
    var n := c as int;
    (9 <= n <= 13) || n == 0x20 || n == 0x85 || n == 0xA0 || n == 0x1680
    || (0x2000 <= n <= 0x200A) || n == 0x2028 || n == 0x2029
    || n == 0x202F || n == 0x205F || n == 0x3000
  }

  /** `string.IsNullOrWhiteSpace` on a non-null string: empty or all white
      space. This is what `[Required]` rejects. */
  predicate IsBlank(s: string) {
    forall i :: 0 <= i < |s| ==> IsWhiteSpace(s[i])
  }

  // ---------------------------------------------------------------------
  // Length as .NET counts it
  // ---------------------------------------------------------------------

  /** `String.Length`: the number of UTF-16 code units, two for a
      character at or above U+10000 (a surrogate pair), one otherwise. */
  function Utf16Length(s: string): (n: nat)
    ensures |s| <= n <= 2 * |s|
  {
    if s == [] then 0
    else (if s[0] as int < 0x10000 then 1 else 2) + Utf16Length(s[1..])
  }

  /** The unit count is the character count exactly when every character
      lies in the Basic Multilingual Plane. */
  lemma {:induction false} Utf16LengthBmp(s: string)
    ensures Utf16Length(s) == |s| <==> forall i :: 0 <= i < |s| ==> s[i] as int < 0x10000
  {
    if s != [] {
      Utf16LengthBmp(s[1..]);
      assert forall i :: 1 <= i < |s| ==> s[i] == s[1..][i - 1];
    }
  }

  /** The unit count of a concatenation is the sum of the parts' counts. */
  lemma {:induction false} Utf16LengthAppend(a: string, b: string)
    ensures Utf16Length(a + b) == Utf16Length(a) + Utf16Length(b)
  {
    if a != [] {
      assert (a + b)[1..] == a[1..] + b;
      Utf16LengthAppend(a[1..], b);
    } else {
      assert a + b == b;
    }
  }

  /** Dropping a prefix never increases the unit count. */
  lemma {:induction false} Utf16LengthOfSuffix(s: string, lo: nat)
    requires lo <= |s|
    ensures Utf16Length(s[lo..]) <= Utf16Length(s)
  {
    if lo > 0 {
      assert s[lo..] == s[1..][lo - 1..];
      Utf16LengthOfSuffix(s[1..], lo - 1);
    }
  }

  /** Dropping a suffix never increases the unit count. */
  lemma {:induction false} Utf16LengthOfPrefix(s: string, hi: nat)
    requires hi <= |s|
    ensures Utf16Length(s[..hi]) <= Utf16Length(s)
  {
    if hi > 0 {
      assert s[..hi][1..] == s[1..][..hi - 1];
      Utf16LengthOfPrefix(s[1..], hi - 1);
    }
  }

  // ---------------------------------------------------------------------
  // Trimming
  // ---------------------------------------------------------------------

  /** `TrimStart()`: drops the white space at the front. */
  function TrimStart(s: string): string {
    if s != [] && IsWhiteSpace(s[0]) then TrimStart(s[1..]) else s
  }

  /** `TrimStart()` returns the longest suffix of `s` that does not start
      with white space. */
  lemma {:induction false} TrimStartSpec(s: string)
    ensures var r := TrimStart(s);
            && |r| <= |s| && r == s[|s| - |r|..]
            && (r == [] || !IsWhiteSpace(r[0]))
            && forall i :: 0 <= i < |s| - |r| ==> IsWhiteSpace(s[i])
  {
    if s != [] && IsWhiteSpace(s[0]) {
      var t := s[1..];
      TrimStartSpec(t);
      var r := TrimStart(t);
      assert t[|t| - |r|..] == s[|s| - |r|..];
      forall i | 0 <= i < |s| - |r| ensures IsWhiteSpace(s[i]) {
        if i > 0 {
          assert s[i] == t[i - 1];
        }
      }
    }
  }

  /** `TrimEnd()`: drops the white space at the back. */
  function TrimEnd(s: string): string {
    if s != [] && IsWhiteSpace(s[|s| - 1]) then TrimEnd(s[..|s| - 1]) else s
  }

  /** `TrimEnd()` returns the longest prefix of `s` that does not end with
      white space. */
  lemma {:induction false} TrimEndSpec(s: string)
    ensures var r := TrimEnd(s);
            && |r| <= |s| && r == s[..|r|]
            && (r == [] || !IsWhiteSpace(r[|r| - 1]))
            && forall i :: |r| <= i < |s| ==> IsWhiteSpace(s[i])
  {
    if s != [] && IsWhiteSpace(s[|s| - 1]) {
      var t := s[..|s| - 1];
      TrimEndSpec(t);
      var r := TrimEnd(t);
      assert t[..|r|] == s[..|r|];
      forall i | |r| <= i < |s| ensures IsWhiteSpace(s[i]) {
        if i < |s| - 1 {
          assert s[i] == t[i];
        }
      }
    }
  }

  /** `r` is the slice of `s` that starts at `lo`, everything around it is
      white space, and it neither starts nor ends with white space. */
  ghost predicate TrimmedAt(s: string, lo: nat, r: string) {
    && lo + |r| <= |s|
    && r == s[lo..lo + |r|]
    && (forall i :: 0 <= i < lo ==> IsWhiteSpace(s[i]))
    && (forall i :: lo + |r| <= i < |s| ==> IsWhiteSpace(s[i]))
    && (r == [] || (!IsWhiteSpace(r[0]) && !IsWhiteSpace(r[|r| - 1])))
  }

  /** `r` is `s` with its leading and trailing white space removed. */
  ghost predicate IsTrimOf(s: string, r: string) {
    exists lo: nat :: TrimmedAt(s, lo, r)
  }

  /** `String.Trim()`. */
  function Trim(s: string): string {
    TrimEnd(TrimStart(s))
  }

  /** `Trim` removes exactly the surrounding white space. */
  lemma TrimSpec(s: string)
    ensures IsTrimOf(s, Trim(s))
  {
    var t := TrimStart(s);
    TrimStartSpec(s);
    TrimEndSpec(t);
    TrimmedAtOfParts(s, t, TrimEnd(t));
  }

  /** Dropping a white-space prefix of `s` to get `t`, then a white-space
      suffix of `t` to get `r`, leaves `r` trimmed at the prefix's end. */
  lemma TrimmedAtOfParts(s: string, t: string, r: string)
    requires |t| <= |s| && t == s[|s| - |t|..]
    requires t == [] || !IsWhiteSpace(t[0])
    requires forall i :: 0 <= i < |s| - |t| ==> IsWhiteSpace(s[i])
    requires |r| <= |t| && r == t[..|r|]
    requires r == [] || !IsWhiteSpace(r[|r| - 1])
    requires forall i :: |r| <= i < |t| ==> IsWhiteSpace(t[i])
    ensures TrimmedAt(s, |s| - |t|, r)
  {
    var lo := |s| - |t|;
    assert r == s[lo..lo + |r|];
    forall i | lo + |r| <= i < |s| ensures IsWhiteSpace(s[i]) {
      assert s[i] == t[i - lo];
    }
    assert r != [] ==> r[0] == t[0];
  }

  /** Whatever trims `s` is unique, so `IsTrimOf` fully specifies `Trim`. */
  lemma TrimUnique(s: string, r1: string, r2: string)
    requires IsTrimOf(s, r1) && IsTrimOf(s, r2)
    ensures r1 == r2
  {
    var lo1: nat :| TrimmedAt(s, lo1, r1);
    var lo2: nat :| TrimmedAt(s, lo2, r2);
    if r1 != [] && r2 != [] {
      assert r1[0] == s[lo1] && r2[0] == s[lo2];
      assert lo1 == lo2;
      var e1, e2 := lo1 + |r1| - 1, lo2 + |r2| - 1;
      assert r1[|r1| - 1] == s[e1] && r2[|r2| - 1] == s[e2];
      assert e1 == e2;
    }
  }

  /** Trimming twice is trimming once. */
  lemma TrimIdempotent(s: string)
    ensures Trim(Trim(s)) == Trim(s)
  {
    var r := Trim(s);
    TrimSpec(s);
    TrimSpec(r);
    var lo: nat :| TrimmedAt(s, lo, r);
    assert r == r[0..0 + |r|];
    assert TrimmedAt(r, 0, r);
    TrimUnique(r, Trim(r), r);
  }

  /** The trimmed string is empty exactly when the string is blank. */
  lemma TrimEmptyIffBlank(s: string)
    ensures Trim(s) == [] <==> IsBlank(s)
  {
    var r := Trim(s);
    TrimSpec(s);
    var lo: nat :| TrimmedAt(s, lo, r);
    if r != [] {
      assert s[lo] == r[0];
    }
  }

  /** Trimming never lengthens a string, counted in UTF-16 units. */
  lemma TrimUnits(s: string)
    ensures Utf16Length(Trim(s)) <= Utf16Length(s)
  {
    var t := TrimStart(s);
    TrimStartSpec(s);
    Utf16LengthOfSuffix(s, |s| - |t|);
    TrimEndSpec(t);
    Utf16LengthOfPrefix(t, |TrimEnd(t)|);
  }

  /** A string already free of surrounding white space is its own trim. */
  lemma TrimNoOp(s: string)
    requires s == [] || (!IsWhiteSpace(s[0]) && !IsWhiteSpace(s[|s| - 1]))
    ensures Trim(s) == s
  {
    assert s == s[0..0 + |s|];
    assert TrimmedAt(s, 0, s);
    TrimSpec(s);
    TrimUnique(s, Trim(s), s);
  }

  // ---------------------------------------------------------------------
  // Ordinal case-insensitive equality
  // ---------------------------------------------------------------------

  /** Upper-case fold of one character, ASCII letters only. */
  function UpperAscii(c: char): char {
    if 'a' <= c <= 'z' then (c as int - 32) as char else c
  }

  /** `s` with every character folded by `UpperAscii`. */
  function FoldUpper(s: string): string {
    if s == [] then [] else [UpperAscii(s[0])] + FoldUpper(s[1..])
  }

  /** Folding keeps the length and works character by character. */
  lemma {:induction false} FoldUpperSpec(s: string)
    ensures |FoldUpper(s)| == |s|
    ensures forall i :: 0 <= i < |s| ==> FoldUpper(s)[i] == UpperAscii(s[i])
  {
    if s != [] {
      FoldUpperSpec(s[1..]);
    }
  }

  /** `string.Equals(a, b, StringComparison.OrdinalIgnoreCase)`. */
  predicate EqualsIgnoreCase(a: string, b: string) {
    FoldUpper(a) == FoldUpper(b)
  }

  /** Ordinal ignore-case equality compares the two strings character by
      character after folding, and it is an equivalence relation. */
  lemma EqualsIgnoreCaseProperties(a: string, b: string, c: string)
    ensures EqualsIgnoreCase(a, b) <==>
              |a| == |b| && forall i :: 0 <= i < |a| ==> UpperAscii(a[i]) == UpperAscii(b[i])
    ensures EqualsIgnoreCase(a, a)
    ensures EqualsIgnoreCase(a, b) ==> EqualsIgnoreCase(b, a)
    ensures EqualsIgnoreCase(a, b) && EqualsIgnoreCase(b, c) ==> EqualsIgnoreCase(a, c)
  {
    FoldUpperSpec(a);
    FoldUpperSpec(b);
    if |a| == |b| && forall i :: 0 <= i < |a| ==> UpperAscii(a[i]) == UpperAscii(b[i]) {
      assert FoldUpper(a) == FoldUpper(b);
    }
  }

  // ---------------------------------------------------------------------
  // Ordering of strings (stand-in for the comparer used by OrderBy)
  // ---------------------------------------------------------------------

  /** Strict lexicographic order on characters; a proper prefix comes first. */
  predicate Less(a: string, b: string) {
    if a == [] then b != []
    else if b == [] then false
    else if a[0] < b[0] then true
    else if a[0] == b[0] then Less(a[1..], b[1..])
    else false
  }

  lemma {:induction false} LessIrreflexive(a: string)
    ensures !Less(a, a)
  {
    if a != [] {
      LessIrreflexive(a[1..]);
    }
  }

  lemma {:induction false} LessAsymmetric(a: string, b: string)
    ensures Less(a, b) ==> !Less(b, a)
  {
    if a != [] && b != [] && a[0] == b[0] {
      LessAsymmetric(a[1..], b[1..]);
    }
  }

  lemma {:induction false} LessTransitive(a: string, b: string, c: string)
    requires Less(a, b) && Less(b, c)
    ensures Less(a, c)
  {
    if a != [] && a[0] == b[0] && b[0] == c[0] {
      LessTransitive(a[1..], b[1..], c[1..]);
    }
  }

  /** Any two distinct strings are ordered one way or the other. */
  lemma {:induction false} LessTotal(a: string, b: string)
    ensures a == b || Less(a, b) || Less(b, a)
  {
    if a != [] && b != [] && a[0] == b[0] {
      LessTotal(a[1..], b[1..]);
      if a[1..] == b[1..] {
        assert a == [a[0]] + a[1..] && b == [b[0]] + b[1..];
      }
    }
  }

  // ---------------------------------------------------------------------
  // Distinct().OrderBy(v => v)
  // ---------------------------------------------------------------------

  /** Ascending with no repeats. */
  predicate StrictlySorted(s: seq<string>) {
    forall i, j :: 0 <= i < j < |s| ==> Less(s[i], s[j])
  }

  function Elements(s: seq<string>): set<string> {
    set x | x in s
  }

  /** Insert `x` before the first element not below it; an `x` already
      present is not added again. */
  function InsertDistinct(x: string, s: seq<string>): seq<string> {
    if s == [] then [x]
    else if x == s[0] then s
    else if Less(x, s[0]) then [x] + s
    else [s[0]] + InsertDistinct(x, s[1..])
  }

  /** Inserting into a strictly sorted list keeps it strictly sorted and
      adds exactly `x` to its elements. */
  lemma {:induction false} InsertDistinctSpec(x: string, s: seq<string>)
    requires StrictlySorted(s)
    ensures StrictlySorted(InsertDistinct(x, s))
    ensures Elements(InsertDistinct(x, s)) == Elements(s) + {x}
  {
    if s == [] {
    } else if x == s[0] {
    } else if Less(x, s[0]) {
      forall j | 0 < j < |s| ensures Less(x, s[j]) {
        LessTransitive(x, s[0], s[j]);
      }
      assert Elements([x] + s) == {x} + Elements(s);
    } else {
      InsertDistinctSpec(x, s[1..]);
      InsertAfterHead(x, s);
    }
  }

  /** The step of `InsertDistinctSpec` where `x` goes after the head. */
  lemma InsertAfterHead(x: string, s: seq<string>)
    requires StrictlySorted(s) && s != [] && x != s[0] && !Less(x, s[0])
    requires StrictlySorted(InsertDistinct(x, s[1..]))
    requires Elements(InsertDistinct(x, s[1..])) == Elements(s[1..]) + {x}
    ensures StrictlySorted(InsertDistinct(x, s))
    ensures Elements(InsertDistinct(x, s)) == Elements(s) + {x}
  {
    LessTotal(x, s[0]);
    var rest := InsertDistinct(x, s[1..]);
    HeadBelowRest(x, s, rest);
    ConsStrictlySorted(s[0], rest);
    ConsElements(s[0], s[1..]);
    assert [s[0]] + s[1..] == s;
  }

  /** The head of a strictly sorted list is below every element of its
      tail and below any `x` above it, so below all of `rest`. */
  lemma HeadBelowRest(x: string, s: seq<string>, rest: seq<string>)
    requires StrictlySorted(s) && s != [] && Less(s[0], x)
    requires Elements(rest) == Elements(s[1..]) + {x}
    ensures forall y :: y in rest ==> Less(s[0], y)
  {
    forall y | y in rest ensures Less(s[0], y) {
      assert y in Elements(rest);
      if y != x {
        var j :| 0 <= j < |s[1..]| && s[1..][j] == y;
        assert s[j + 1] == y;
      }
    }
  }

  /** An element below every element of a strictly sorted list can go in
      front of it. */
  lemma ConsStrictlySorted(h: string, rest: seq<string>)
    requires StrictlySorted(rest)
    requires forall y :: y in rest ==> Less(h, y)
    ensures StrictlySorted([h] + rest)
    ensures Elements([h] + rest) == {h} + Elements(rest)
  {
    var s := [h] + rest;
    forall i, j | 0 <= i < j < |s| ensures Less(s[i], s[j]) {
      assert s[j] == rest[j - 1];
      if i == 0 {
        assert rest[j - 1] in rest;
      } else {
        assert s[i] == rest[i - 1];
      }
    }
    ConsElements(h, rest);
  }

  lemma ConsElements(h: string, rest: seq<string>)
    ensures Elements([h] + rest) == {h} + Elements(rest)
  {
  }

  /** `Distinct().OrderBy(v => v)`: insert the elements one by one. */
  function SortDistinct(xs: seq<string>): seq<string> {
    if xs == [] then [] else InsertDistinct(xs[|xs| - 1], SortDistinct(xs[..|xs| - 1]))
  }

  /** The result is strictly ascending and holds exactly the elements of
      `xs`. */
  lemma {:induction false} SortDistinctSpec(xs: seq<string>)
    ensures StrictlySorted(SortDistinct(xs))
    ensures Elements(SortDistinct(xs)) == Elements(xs)
  {
    if xs != [] {
      var init := xs[..|xs| - 1];
      SortDistinctSpec(init);
      InsertDistinctSpec(xs[|xs| - 1], SortDistinct(init));
      assert xs == init + [xs[|xs| - 1]];
      assert Elements(xs) == Elements(init) + {xs[|xs| - 1]};
    }
  }

  /** A strictly sorted list holds each of its elements once. */
  lemma {:induction false} StrictlySortedCardinality(s: seq<string>)
    requires StrictlySorted(s)
    ensures |Elements(s)| == |s|
  {
    if s != [] {
      var rest := s[1..];
      assert Elements(s) == {s[0]} + Elements(rest);
      assert s[0] !in Elements(rest) by {
        if s[0] in Elements(rest) {
          var j :| 0 <= j < |rest| && rest[j] == s[0];
          assert Less(s[0], s[j + 1]);
          LessIrreflexive(s[0]);
        }
      }
      StrictlySortedCardinality(rest);
    }
  }

  /** A strictly sorted list is determined by its set of elements, so
      `SortDistinct` is the only possible result of Distinct().OrderBy(). */
  lemma {:induction false} StrictlySortedUnique(s: seq<string>, t: seq<string>)
    requires StrictlySorted(s) && StrictlySorted(t)
    requires Elements(s) == Elements(t)
    ensures s == t
  {
    assert s != [] ==> s[0] in Elements(s);
    assert t != [] ==> t[0] in Elements(t);
    if s != [] && t != [] {
      assert s[0] in Elements(t) && t[0] in Elements(s);
      if s[0] != t[0] {
        var i :| 0 <= i < |t| && t[i] == s[0];
        var j :| 0 <= j < |s| && s[j] == t[0];
        assert i > 0 && j > 0;
        assert Less(t[0], s[0]) && Less(s[0], t[0]);
        LessAsymmetric(s[0], t[0]);
      }
      assert Elements(s) == {s[0]} + Elements(s[1..]);
      assert Elements(t) == {t[0]} + Elements(t[1..]);
      assert s[0] !in Elements(s[1..]) by {
        if s[0] in Elements(s[1..]) {
          var k :| 0 <= k < |s[1..]| && s[1..][k] == s[0];
          assert Less(s[0], s[k + 1]);
          LessIrreflexive(s[0]);
        }
      }
      assert t[0] !in Elements(t[1..]) by {
        if t[0] in Elements(t[1..]) {
          var k :| 0 <= k < |t[1..]| && t[1..][k] == t[0];
          assert Less(t[0], t[k + 1]);
          LessIrreflexive(t[0]);
        }
      }
      assert Elements(s[1..]) == Elements(t[1..]);
      StrictlySortedUnique(s[1..], t[1..]);
      assert s == [s[0]] + s[1..] && t == [t[0]] + t[1..];
    }
  }

  // ---------------------------------------------------------------------
  // string.Join
  // ---------------------------------------------------------------------

  /** `string.Join(sep, xs)`. */
  function Join(sep: string, xs: seq<string>): string {
    if xs == [] then ""
    else if |xs| == 1 then xs[0]
    else xs[0] + sep + Join(sep, xs[1..])
  }

  /** Appending an item to the list appends the separator and the item to
      the joined text. */
  lemma {:induction false} JoinAppend(sep: string, xs: seq<string>, x: string)
    requires xs != []
    ensures Join(sep, xs + [x]) == Join(sep, xs) + sep + x
  {
    if |xs| > 1 {
      assert (xs + [x])[1..] == xs[1..] + [x];
      JoinAppend(sep, xs[1..], x);
    } else {
      assert (xs + [x])[1..] == [x];
    }
  }
}
