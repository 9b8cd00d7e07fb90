/**
 * The Python string and list built-ins that the decoders of the materials
 * library are made of: `str.strip()`, `str.split(sep)` for a one-character
 * separator, `str.find(sub)` (and the `sub in s` test built on it),
 * `str.replace(pat, "")` and `list.index(x)`.
 */
module PyText {

  /** Python's `str.isspace()` for a single character (the Unicode whitespace set). */
  predicate IsSpace(c: char) {
    || c == ' '
    || ('\t' <= c <= '\r')
    || ('\U{1c}' <= c <= '\U{1f}')
    || c == '\U{85}' || c == '\U{a0}' || c == '\U{1680}'
    || ('\U{2000}' <= c <= '\U{200a}')
    || c == '\U{2028}' || c == '\U{2029}' || c == '\U{202f}' || c == '\U{205f}' || c == '\U{3000}'
  }

  predicate AllSpace(s: string) {
    forall k :: 0 <= k < |s| ==> IsSpace(s[k])
  }

  /** A string with no whitespace at either end, as `str.strip()` leaves it. */
  predicate Stripped(s: string) {
    s == [] || (!IsSpace(s[0]) && !IsSpace(s[|s| - 1]))
  }

  /** `str.strip()`: drops whitespace from the front, then from the back. */
  function Strip(s: string): (r: string)
    ensures Stripped(r)
    ensures |r| <= |s|
    decreases |s|
  {
    if |s| > 0 && IsSpace(s[0]) then Strip(s[1..])
    else if |s| > 0 && IsSpace(s[|s| - 1]) then Strip(s[..|s| - 1])
    else s
  }

  /** `r` is the part of `s` from position `i` on, with only whitespace before and after it. */
  predicate MiddlePart(s: string, r: string, i: nat) {
    && i + |r| <= |s|
    && r == s[i..i + |r|]
    && AllSpace(s[..i]) && AllSpace(s[i + |r|..])
  }

  lemma AllSpaceConcat(a: string, b: string)
    ensures AllSpace(a + b) <==> AllSpace(a) && AllSpace(b)
  {
    if AllSpace(a + b) {
      forall k | 0 <= k < |a| ensures IsSpace(a[k]) {
        assert a[k] == (a + b)[k];
      }
      forall k | 0 <= k < |b| ensures IsSpace(b[k]) {
        assert b[k] == (a + b)[|a| + k];
      }
    }
  }

  /** A whitespace character in front keeps a middle part a middle part. */
  lemma MiddlePartFront(s: string, r: string, j: nat)
    requires |s| > 0 && IsSpace(s[0])
    requires MiddlePart(s[1..], r, j)
    ensures MiddlePart(s, r, j + 1)
  {
    var u := s[1..];
    assert s[..j + 1] == [s[0]] + u[..j];
    AllSpaceConcat([s[0]], u[..j]);
    assert s[j + 1..j + 1 + |r|] == u[j..j + |r|];
    assert s[j + 1 + |r|..] == u[j + |r|..];
  }

  /** A whitespace character at the back keeps a middle part a middle part. */
  lemma MiddlePartBack(s: string, r: string, i: nat)
    requires |s| > 0 && IsSpace(s[|s| - 1])
    requires MiddlePart(s[..|s| - 1], r, i)
    ensures MiddlePart(s, r, i)
  {
    var t := s[..|s| - 1];
    assert s[..i] == t[..i];
    assert s[i..i + |r|] == t[i..i + |r|];
    assert s[i + |r|..] == t[i + |r|..] + [s[|s| - 1]];
    AllSpaceConcat(t[i + |r|..], [s[|s| - 1]]);
  }

  /** What `str.strip()` keeps is a middle part of the text with only whitespace around it. */
  lemma {:induction false} StripMiddle(s: string) returns (i: nat)
    ensures MiddlePart(s, Strip(s), i)
    decreases |s|
  {
    if |s| > 0 && IsSpace(s[0]) {
      var j := StripMiddle(s[1..]);
      MiddlePartFront(s, Strip(s), j);
      i := j + 1;
    } else if |s| > 0 && IsSpace(s[|s| - 1]) {
      i := StripMiddle(s[..|s| - 1]);
      MiddlePartBack(s, Strip(s), i);
    } else {
      i := 0;
      assert s[0..|s|] == s;
    }
  }

  /** Stripping a string that has no whitespace at its ends leaves it as it is. */
  lemma StripStripped(s: string)
    requires Stripped(s)
    ensures Strip(s) == s
  {
  }

  /** `str.strip()` recovers a stripped text from any whitespace padding around it. */
  lemma {:induction false} StripPadded(a: string, v: string, b: string)
    requires AllSpace(a) && AllSpace(b) && Stripped(v)
    ensures Strip(a + v + b) == v
    decreases |a| + |b|
  {
    var s := a + v + b;
    if a != [] {
      assert s[0] == a[0];
      assert s[1..] == a[1..] + v + b;
      StripPadded(a[1..], v, b);
    } else if b != [] && v == [] {
      assert s == b && s[1..] == [] + [] + b[1..];
      StripPadded([], [], b[1..]);
    } else if b != [] {
      assert s[0] == v[0] && s[|s| - 1] == b[|b| - 1];
      assert s[..|s| - 1] == [] + v + b[..|b| - 1];
      StripPadded([], v, b[..|b| - 1]);
    } else {
      assert s == v;
    }
  }

  /** `str.strip()` is idempotent. */
  lemma StripIdempotent(s: string)
    ensures Strip(Strip(s)) == Strip(s)
  {
    StripStripped(Strip(s));
  }

  /** `str.split(sep)` for a one-character separator: the text between separators, left to right. */
  function Split(s: string, sep: char): (parts: seq<string>)
    ensures |parts| >= 1
    ensures forall k :: 0 <= k < |parts| ==> sep !in parts[k]
    decreases |s|
  {
    if |s| == 0 then [""]
    else
      var rest := Split(s[1..], sep);
      if s[0] == sep then [""] + rest
      else [[s[0]] + rest[0]] + rest[1..]
  }

  /** `sep.join(parts)`: the partner of `Split`. */
  function Join(parts: seq<string>, sep: char): (s: string)
    requires |parts| >= 1
    decreases |parts|
  {
    if |parts| == 1 then parts[0] else parts[0] + [sep] + Join(parts[1..], sep)
  }

  /** Splitting and joining again gives back the original text. */
  lemma {:induction false} JoinSplit(s: string, sep: char)
    ensures Join(Split(s, sep), sep) == s
    decreases |s|
  {
    if |s| > 0 {
      JoinSplit(s[1..], sep);
      var rest := Split(s[1..], sep);
      if s[0] != sep {
        if |rest| == 1 {
          assert Join(Split(s, sep), sep) == [s[0]] + rest[0];
        } else {
          assert Split(s, sep)[1..] == rest[1..];
          assert Join(Split(s, sep), sep) == [s[0]] + rest[0] + [sep] + Join(rest[1..], sep);
        }
      }
    }
  }

  /** Joining parts that hold no separator and splitting again gives back the parts. */
  lemma {:induction false} SplitJoin(parts: seq<string>, sep: char)
    requires |parts| >= 1
    requires forall k :: 0 <= k < |parts| ==> sep !in parts[k]
    ensures Split(Join(parts, sep), sep) == parts
    decreases |parts|, |parts[0]|
  {
    if |parts| == 1 {
      SplitNoSeparator(parts[0], sep);
    } else if parts[0] == [] {
      SplitJoin(parts[1..], sep);
      var s := Join(parts, sep);
      assert s == [sep] + Join(parts[1..], sep);
      assert s[1..] == Join(parts[1..], sep);
    } else {
      var p0 := parts[0];
      var shorter := [p0[1..]] + parts[1..];
      assert shorter[1..] == parts[1..];
      SplitJoin(shorter, sep);
      var s := Join(parts, sep);
      assert s == [p0[0]] + Join(shorter, sep);
      assert s[1..] == Join(shorter, sep);
      assert [p0[0]] + p0[1..] == p0;
    }
  }

  /** Without a separator in the text, `split` gives the text itself as the only part. */
  lemma {:induction false} SplitNoSeparator(s: string, sep: char)
    requires sep !in s
    ensures Split(s, sep) == [s]
    decreases |s|
  {
    if |s| > 0 {
      SplitNoSeparator(s[1..], sep);
      assert [s[0]] + s[1..] == s;
    }
  }

  /** There is more than one part exactly when the separator occurs in the text. */
  lemma {:induction false} SplitSingleIff(s: string, sep: char)
    ensures |Split(s, sep)| == 1 <==> sep !in s
    decreases |s|
  {
    if sep !in s {
      SplitNoSeparator(s, sep);
    } else if |s| > 0 && s[0] != sep {
      assert sep in s[1..];
      SplitSingleIff(s[1..], sep);
    }
  }

  /** Index of the first occurrence of `c`, the position `str.find(c)` reports. */
  function FirstIndex(s: string, c: char): (k: nat)
    requires c in s
    ensures k < |s| && s[k] == c && c !in s[..k]
  {
    if s[0] == c then 0 else
      assert c in s[1..];
      1 + FirstIndex(s[1..], c)
  }

  /** The first part of a split is the text before the first separator. */
  lemma {:induction false} SplitHead(s: string, sep: char)
    ensures sep in s ==> Split(s, sep)[0] == s[..FirstIndex(s, sep)]
    ensures sep !in s ==> Split(s, sep)[0] == s
    decreases |s|
  {
    if sep !in s {
      SplitNoSeparator(s, sep);
    } else if s[0] != sep {
      assert sep in s[1..];
      SplitHead(s[1..], sep);
      assert s[..FirstIndex(s, sep)] == [s[0]] + s[1..][..FirstIndex(s[1..], sep)];
    }
  }

  /** `sub` occurs in `s` starting at position `i`. */
  predicate OccursAt(s: string, sub: string, i: int) {
    0 <= i && i + |sub| <= |s| && s[i..i + |sub|] == sub
  }

  /** `str.find(sub)` from position `i` on: the first occurrence at or after `i`, or -1. */
  function FindFrom(s: string, sub: string, i: nat): (r: int)
    requires i <= |s|
    ensures r == -1 || (i <= r && OccursAt(s, sub, r))
    ensures forall j :: i <= j < (if r == -1 then |s| + 1 else r) ==> !OccursAt(s, sub, j)
    decreases |s| - i
  {
    if OccursAt(s, sub, i) then i
    else if i == |s| then -1
    else FindFrom(s, sub, i + 1)
  }

  /** `str.find(sub)`: the leftmost occurrence of `sub` in `s`, or -1. */
  function Find(s: string, sub: string): (r: int)
    ensures r == -1 <==> forall j :: 0 <= j <= |s| ==> !OccursAt(s, sub, j)
    ensures r != -1 ==> OccursAt(s, sub, r) && forall j :: 0 <= j < r ==> !OccursAt(s, sub, j)
  {
    FindFrom(s, sub, 0)
  }

  /** Python's `sub in s`, i.e. `s.find(sub) != -1`. */
  predicate Contains(s: string, sub: string) {
    Find(s, sub) != -1
  }

  /** The empty string occurs in every string, at position 0. */
  lemma ContainsEmpty(s: string)
    ensures Contains(s, "")
  {
    assert OccursAt(s, "", 0);
  }

  /** A string occurs in a string only if it is no longer. */
  lemma ContainsShorter(s: string, sub: string)
    requires Contains(s, sub)
    ensures |sub| <= |s|
  {
  }

  /** For a one-character pattern, `find` agrees with Dafny's membership test. */
  lemma ContainsChar(s: string, c: char)
    ensures Contains(s, [c]) <==> c in s
  {
    if c in s {
      var k := FirstIndex(s, c);
      assert OccursAt(s, [c], k);
    } else {
      forall j | 0 <= j <= |s| ensures !OccursAt(s, [c], j) {
        if j < |s| { assert s[j] != c; }
      }
    }
  }

  /** An occurrence that ends inside the left part of a text is one in that part. */
  lemma OccursInLeft(x: string, rest: string, pat: string, j: nat)
    requires j + |pat| <= |x|
    ensures OccursAt(x + rest, pat, j) <==> OccursAt(x, pat, j)
  {
    assert (x + rest)[j..j + |pat|] == x[j..j + |pat|];
  }

  /** An occurrence that starts inside the right part of a text is one in that part. */
  lemma OccursInRight(left: string, y: string, pat: string, j: nat)
    requires |left| <= j
    ensures OccursAt(left + y, pat, j) <==> OccursAt(y, pat, j - |left|)
  {
    if j + |pat| <= |left| + |y| {
      assert (left + y)[j..j + |pat|] == y[j - |left|..j - |left| + |pat|];
    }
  }

  /**
   * A pattern without the character `c` that occurs in neither `x` nor `y`
   * does not occur in `x + [c] + y` either: an occurrence across the joint
   * would have to contain `c`.
   */
  lemma NotContainsJoin(x: string, c: char, y: string, pat: string)
    requires c !in pat && !Contains(x, pat) && !Contains(y, pat)
    ensures !Contains(x + [c] + y, pat)
  {
    var left := x + [c];
    var s := left + y;
    forall j | 0 <= j <= |s| ensures !OccursAt(s, pat, j) {
      if j + |pat| <= |x| {
        OccursInLeft(x, [c] + y, pat, j);
        assert x + ([c] + y) == s;
      } else if j >= |left| {
        OccursInRight(left, y, pat, j);
      } else if j + |pat| <= |s| {
        assert s[j..j + |pat|][|x| - j] == s[|x|] == c;
      }
    }
  }

  /** A first character that cannot start the pattern adds no occurrence. */
  lemma NotContainsCons(c: char, y: string, pat: string)
    requires pat != [] && pat[0] != c && !Contains(y, pat)
    ensures !Contains([c] + y, pat)
  {
    var s := [c] + y;
    forall j | 0 <= j <= |s| ensures !OccursAt(s, pat, j) {
      if j == 0 {
        if |pat| <= |s| {
          assert s[0..|pat|][0] == c;
        }
      } else {
        OccursInRight([c], y, pat, j);
      }
    }
  }

  /** A text that is shorter than a pattern does not contain it. */
  lemma NotContainsShort(s: string, pat: string)
    requires |s| < |pat|
    ensures !Contains(s, pat)
  {
  }

  /**
   * `s.replace(pat, "")`: every occurrence of `pat` that a left-to-right scan
   * meets is dropped; occurrences do not overlap. An empty pattern changes nothing.
   */
  function RemoveAll(s: string, pat: string): (r: string)
    ensures |r| <= |s|
    decreases |s|
  {
    if pat == [] || |s| < |pat| then s
    else if s[..|pat|] == pat then RemoveAll(s[|pat|..], pat)
    else [s[0]] + RemoveAll(s[1..], pat)
  }

  /** Removing a pattern that does not occur leaves the text unchanged. */
  lemma {:induction false} RemoveAllAbsent(s: string, pat: string)
    requires !Contains(s, pat)
    ensures RemoveAll(s, pat) == s
    decreases |s|
  {
    if pat != [] && |s| >= |pat| {
      assert !OccursAt(s, pat, 0);
      assert !Contains(s[1..], pat) by {
        forall j | 0 <= j <= |s[1..]|
          ensures !OccursAt(s[1..], pat, j)
        {
          assert !OccursAt(s, pat, j + 1);
        }
      }
      RemoveAllAbsent(s[1..], pat);
      assert [s[0]] + s[1..] == s;
    }
  }

  /** An occurrence at the front is dropped. */
  lemma RemoveAllFront(pat: string, y: string)
    requires pat != []
    ensures RemoveAll(pat + y, pat) == RemoveAll(y, pat)
  {
    var s := pat + y;
    assert s[..|pat|] == pat;
    assert s[|pat|..] == y;
  }

  /** A first character that cannot start an occurrence is kept. */
  lemma RemoveAllKeep(c: char, t: string, pat: string)
    requires pat != [] && pat[0] != c && |t| + 1 >= |pat|
    ensures RemoveAll([c] + t, pat) == [c] + RemoveAll(t, pat)
  {
    var s := [c] + t;
    assert s[..|pat|][0] == c;
    assert s[1..] == t;
  }

  /** Removal skips a prefix that cannot start an occurrence and drops the occurrence after it. */
  lemma {:induction false} RemoveAllSkip(x: string, pat: string, y: string)
    requires pat != [] && pat[0] !in x
    ensures RemoveAll(x + pat + y, pat) == x + RemoveAll(y, pat)
    decreases |x|
  {
    if x == [] {
      assert x + pat + y == pat + y;
      RemoveAllFront(pat, y);
    } else {
      var c, rest := x[0], x[1..];
      assert x == [c] + rest;
      assert pat[0] !in rest by {
        forall k | 0 <= k < |rest| ensures rest[k] != pat[0] {
          assert rest[k] == x[k + 1];
        }
      }
      RemoveAllSkip(rest, pat, y);
      RemoveAllSkipCons(c, rest, pat, y);
    }
  }

  /** One step of `RemoveAllSkip`: a character that cannot start an occurrence stays in front. */
  lemma RemoveAllSkipCons(c: char, rest: string, pat: string, y: string)
    requires pat != [] && pat[0] != c
    requires RemoveAll(rest + pat + y, pat) == rest + RemoveAll(y, pat)
    ensures RemoveAll([c] + rest + pat + y, pat) == [c] + rest + RemoveAll(y, pat)
  {
    var t := rest + pat + y;
    assert [c] + rest + pat + y == [c] + t;
    RemoveAllKeep(c, t, pat);
    assert [c] + (rest + RemoveAll(y, pat)) == [c] + rest + RemoveAll(y, pat);
  }

  /** A text that lacks one of the pattern's characters has nothing to remove. */
  lemma {:induction false} RemoveAllMissingChar(s: string, pat: string, i: nat)
    requires i < |pat| && pat[i] !in s
    ensures RemoveAll(s, pat) == s
    decreases |s|
  {
    if |s| >= |pat| {
      assert s[..|pat|] != pat by { assert pat[i] != s[..|pat|][i]; }
      RemoveAllMissingChar(s[1..], pat, i);
      assert [s[0]] + s[1..] == s;
    }
  }

  /** A pattern at the front of a text that lacks one of its characters is removed once. */
  lemma RemoveLeading(pat: string, rest: string, i: nat)
    requires i < |pat| && pat[i] !in rest
    ensures RemoveAll(pat + rest, pat) == rest
  {
    assert pat + rest == "" + pat + rest;
    RemoveAllSkip("", pat, rest);
    RemoveAllMissingChar(rest, pat, i);
  }

  /** A pattern at the end of a text that lacks its first character is removed once. */
  lemma RemoveTrailing(rest: string, pat: string)
    requires pat != [] && pat[0] !in rest
    ensures RemoveAll(rest + pat, pat) == rest
  {
    assert rest + pat == rest + pat + "";
    RemoveAllSkip(rest, pat, "");
    assert rest + "" == rest;
  }

  /** `list.index(x)`: the position of the first element equal to `x`. */
  function IndexOf<T(==)>(xs: seq<T>, x: T): (k: nat)
    requires x in xs
    ensures k < |xs| && xs[k] == x
    ensures forall j :: 0 <= j < k ==> xs[j] != x
  {
    if xs[0] == x then 0 else
      assert x in xs[1..];
      1 + IndexOf(xs[1..], x)
  }

  /** Position `k` holds the first occurrence of its element. */
  predicate FirstOccurrence<T(==)>(xs: seq<T>, k: nat)
    requires k < |xs|
  {
    forall j :: 0 <= j < k ==> xs[j] != xs[k]
  }

  /** `list.index` of an element finds its position exactly at its first occurrence. */
  lemma FirstOccurrenceIndex<T>(xs: seq<T>, k: nat)
    requires k < |xs|
    ensures FirstOccurrence(xs, k) <==> IndexOf(xs, xs[k]) == k
  {
  }
}
