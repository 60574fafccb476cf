/** The Python string operations the core uses on country keys and file
    names: str.capitalize, str.replace(old, ""), Path.stem, and the
    code-point order in which pandas' groupby sorts string keys. Case
    mapping covers ASCII letters only. */
module Strings {

  predicate IsLowerAscii(c: char) { 'a' <= c <= 'z' }
  predicate IsUpperAscii(c: char) { 'A' <= c <= 'Z' }

  function Upper(c: char): (r: char)
    ensures !IsLowerAscii(r)
  {
    if IsLowerAscii(c) then (c as int - 32) as char else c
  }

  function Lower(c: char): (r: char)
    ensures !IsUpperAscii(r)
  {
    if IsUpperAscii(c) then (c as int + 32) as char else c
  }

  lemma LowerUpper(c: char)
    ensures Lower(Upper(c)) == Lower(c)
  {
  }

  function LowerAll(s: string): (r: string)
    ensures |r| == |s|
    ensures forall i :: 0 <= i < |s| ==> r[i] == Lower(s[i])
  {
    seq(|s|, i requires 0 <= i < |s| => Lower(s[i]))
  }

  /** str.capitalize(): the first letter upper-cased, the rest lower-cased. */
  function Capitalize(s: string): (r: string)
    ensures |r| == |s|
  {
    if s == [] then [] else [Upper(s[0])] + LowerAll(s[1..])
  }

  /** The result spells the same word ignoring case, starts with a
      character that is not lower case and has no upper-case character
      after that. */
  lemma CapitalizeSpec(s: string)
    ensures forall i :: 0 <= i < |s| ==> Lower(Capitalize(s)[i]) == Lower(s[i])
    ensures Capitalize(s) != [] ==> !IsLowerAscii(Capitalize(s)[0])
    ensures forall i :: 1 <= i < |s| ==> !IsUpperAscii(Capitalize(s)[i])
  {
    if s != [] {
      LowerUpper(s[0]);
    }
  }

  lemma CapitalizeIdempotent(s: string)
    ensures Capitalize(Capitalize(s)) == Capitalize(s)
  {
    CapitalizeSpec(s);
  }

  // ----- str.replace(pat, "") -----

  /** `pat` occurs in `s` starting at index i. */
  predicate OccursAt(s: string, pat: string, i: int)
  {
    0 <= i && i + |pat| <= |s| && s[i..i + |pat|] == pat
  }

  ghost predicate Occurs(s: string, pat: string)
  {
    exists i :: OccursAt(s, pat, i)
  }

  /** s.replace(pat, ""): scan left to right, deleting each non-overlapping
      occurrence of pat. An empty pattern leaves s as it is. */
  function RemoveAll(s: string, pat: string): (r: string)
    ensures |r| <= |s|
    decreases |s|
  {
    if |pat| == 0 || |s| < |pat| then s
    else if s[..|pat|] == pat then RemoveAll(s[|pat|..], pat)
    else [s[0]] + RemoveAll(s[1..], pat)
  }

  /** No proper suffix of `pat` is also a prefix of it (its first character
      does not recur), so an occurrence cannot straddle a boundary. */
  predicate BorderFree(pat: string)
  {
    |pat| > 0 && forall k :: 1 <= k < |pat| ==> pat[k] != pat[0]
  }

  lemma {:induction false} RemoveAllAbsent(s: string, pat: string)
    requires |pat| > 0 && !Occurs(s, pat)
    ensures RemoveAll(s, pat) == s
    decreases |s|
  {
    if |s| >= |pat| {
      assert !OccursAt(s, pat, 0);
      NoOccurrenceInTail(s, pat);
      RemoveAllAbsent(s[1..], pat);
      assert s == [s[0]] + s[1..];
    }
  }

  lemma NoOccurrenceInTail(s: string, pat: string)
    requires s != [] && !Occurs(s, pat)
    ensures !Occurs(s[1..], pat)
  {
    forall i ensures !OccursAt(s[1..], pat, i) {
      if 0 <= i && i + |pat| <= |s| - 1 {
        assert s[1..][i..i + |pat|] == s[i + 1..i + 1 + |pat|];
        assert !OccursAt(s, pat, i + 1);
      }
    }
  }

  /** Removing a border-free pattern from `stem + pat` gives back the stem,
      provided the stem does not contain the pattern itself. */
  lemma {:induction false} RemoveAllSuffix(stem: string, pat: string)
    requires BorderFree(pat) && !Occurs(stem, pat)
    ensures RemoveAll(stem + pat, pat) == stem
    decreases |stem|
  {
    var s := stem + pat;
    if stem == [] {
      assert s == pat && s[..|pat|] == pat && s[|pat|..] == [];
    } else {
      if |stem| >= |pat| {
        assert s[..|pat|] == stem[0..|pat|];
        assert !OccursAt(stem, pat, 0);
      } else {
        assert s[|stem|] == pat[0] && pat[|stem|] != pat[0];
        assert s[..|pat|][|stem|] != pat[|stem|];
      }
      assert s[..|pat|] != pat;
      NoOccurrenceInTail(stem, pat);
      RemoveAllSuffix(stem[1..], pat);
      assert s[1..] == stem[1..] + pat;
      assert stem == [stem[0]] + stem[1..];
    }
  }

  // ----- Path.stem -----

  /** str.rfind(ch): the last index of ch, or -1. */
  function RFind(s: string, ch: char): (i: int)
    ensures -1 <= i < |s|
  {
    if s == [] then -1
    else if s[|s| - 1] == ch then |s| - 1
    else RFind(s[..|s| - 1], ch)
  }

  /** The index found holds ch and no later index does; -1 means ch does
      not occur. */
  lemma {:induction false} RFindSpec(s: string, ch: char)
    ensures 0 <= RFind(s, ch) ==> s[RFind(s, ch)] == ch && forall k :: RFind(s, ch) < k < |s| ==> s[k] != ch
    ensures RFind(s, ch) == -1 ==> forall k :: 0 <= k < |s| ==> s[k] != ch
  {
    if s != [] && s[|s| - 1] != ch {
      RFindSpec(s[..|s| - 1], ch);
      assert forall k :: 0 <= k < |s| - 1 ==> s[..|s| - 1][k] == s[k];
    }
  }

  /** PurePath.stem: the name without its last suffix; a leading dot or a
      trailing dot does not start a suffix. */
  function Stem(name: string): (r: string)
    ensures |r| <= |name|
  {
    var i := RFind(name, '.');
    if 0 < i < |name| - 1 then name[..i] else name
  }

  lemma StemOfSuffixed(base: string, suffix: string)
    requires |base| > 0 && |suffix| > 0
    requires forall k :: 0 <= k < |suffix| ==> suffix[k] != '.'
    ensures Stem(base + "." + suffix) == base
  {
    var name := base + "." + suffix;
    var i := RFind(name, '.');
    RFindSpec(name, '.');
    assert name[|base|] == '.';
    assert forall k :: |base| < k < |name| ==> name[k] == suffix[k - |base| - 1];
    assert i == |base|;
    assert name[..i] == base;
  }

  // ----- code-point order of strings -----

  /** Python's `a < b` on str: lexicographic by code point. */
  predicate StrLess(a: string, b: string)
  {
    if a == [] then b != []
    else if b == [] then false
    else if a[0] != b[0] then a[0] < b[0]
    else StrLess(a[1..], b[1..])
  }

  lemma {:induction false} StrLessIrreflexive(a: string)
    ensures !StrLess(a, a)
  {
    if a != [] {
      StrLessIrreflexive(a[1..]);
    }
  }

  lemma {:induction false} StrLessTransitive(a: string, b: string, c: string)
    requires StrLess(a, b) && StrLess(b, c)
    ensures StrLess(a, c)
  {
    if a != [] && b != [] && c != [] && a[0] == b[0] && b[0] == c[0] {
      StrLessTransitive(a[1..], b[1..], c[1..]);
    }
  }

  lemma {:induction false} StrLessTotal(a: string, b: string)
    ensures a == b || StrLess(a, b) || StrLess(b, a)
  {
    if a != [] && b != [] && a[0] == b[0] {
      StrLessTotal(a[1..], b[1..]);
      if a[1..] == b[1..] {
        assert a == [a[0]] + a[1..] && b == [b[0]] + b[1..];
      }
    }
  }

  ghost predicate StrictlySorted(s: seq<string>)
  {
    forall i, j :: 0 <= i < j < |s| ==> StrLess(s[i], s[j])
  }

  function InsertLabel(x: string, s: seq<string>): (r: seq<string>)
    ensures forall y :: y in r <==> y == x || y in s
  {
    if s == [] then [x]
    else if x == s[0] then s
    else if StrLess(x, s[0]) then [x] + s
    else [s[0]] + InsertLabel(x, s[1..])
  }

  lemma {:induction false} InsertLabelSorted(x: string, s: seq<string>)
    requires StrictlySorted(s)
    ensures StrictlySorted(InsertLabel(x, s))
  {
    if s == [] {
    } else if x == s[0] {
    } else if StrLess(x, s[0]) {
      forall j | 0 < j < |s| ensures StrLess(x, s[j]) {
        StrLessTransitive(x, s[0], s[j]);
      }
    } else {
      StrLessTotal(x, s[0]);
      var tail := InsertLabel(x, s[1..]);
      InsertLabelSorted(x, s[1..]);
      var r := [s[0]] + tail;
      forall i, j | 0 <= i < j < |r| ensures StrLess(r[i], r[j]) {
        if i == 0 {
          assert r[j] in tail;
        } else {
          assert r[i] == tail[i - 1] && r[j] == tail[j - 1];
        }
      }
    }
  }

  /** The distinct strings of xs in increasing order: the group keys of a
      pandas groupby (sort=True) over a string column. */
  function SortedDistinct(xs: seq<string>): (r: seq<string>)
    ensures StrictlySorted(r)
    ensures forall y :: y in r <==> y in xs
  {
    if xs == [] then []
    else
      var rest := SortedDistinct(xs[1..]);
      InsertLabelSorted(xs[0], rest);
      assert xs == [xs[0]] + xs[1..];
      InsertLabel(xs[0], rest)
  }
}
