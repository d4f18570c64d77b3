/** Text primitives the validators are built from: Python's notion of
    whitespace, `str.strip()`, ASCII lower-casing and code-point ordering. */
module Strings {

  /** The characters Python's `str.isspace()` accepts. A `\s` in a regular
      expression compiled from a `str` pattern matches exactly these. */
  predicate IsSpace(c: char) {
    var n := c as int;
    || n == 0x20
    || 0x09 <= n <= 0x0D
    || 0x1C <= n <= 0x1F
    || n == 0x85 || n == 0xA0 || n == 0x1680
    || 0x2000 <= n <= 0x200A
    || n == 0x2028 || n == 0x2029 || n == 0x202F || n == 0x205F || n == 0x3000
  }

  ghost predicate AllSpace(s: string) {
    forall i :: 0 <= i < |s| ==> IsSpace(s[i])
  }

  /** Every character of `s` in positions `lo` up to `hi` is whitespace. */
  ghost predicate SpaceBetween(s: string, lo: int, hi: int) {
    forall k :: lo <= k < hi && 0 <= k < |s| ==> IsSpace(s[k])
  }

  /** No whitespace at either end. */
  predicate Trimmed(s: string) {
    s == [] || (!IsSpace(s[0]) && !IsSpace(s[|s| - 1]))
  }

  /** `r` is `s` with its maximal leading and trailing whitespace runs cut off. */
  ghost predicate IsStripOf(s: string, r: string) {
    exists i, j :: 0 <= i <= j <= |s| && r == s[i..j] && SpaceBetween(s, 0, i) && SpaceBetween(s, j, |s|) && Trimmed(r)
  }

  /** The first position at or after `i` that does not hold whitespace (or `|s|`). */
  function SkipSpace(s: string, i: nat): (n: nat)
    requires i <= |s|
    ensures i <= n <= |s|
    ensures SpaceBetween(s, i, n)
    ensures n < |s| ==> !IsSpace(s[n])
    decreases |s| - i
  {
    if i == |s| || !IsSpace(s[i]) then i else SkipSpace(s, i + 1)
  }

  /** Walking back from `j`, no further than `lo`: the end of the last
      position before `j` that does not hold whitespace. */
  function SkipSpaceBack(s: string, lo: nat, j: nat): (n: nat)
    requires lo <= j <= |s|
    ensures lo <= n <= j
    ensures SpaceBetween(s, n, j)
    ensures lo < n ==> !IsSpace(s[n - 1])
    decreases j
  {
    if j == lo || !IsSpace(s[j - 1]) then j else SkipSpaceBack(s, lo, j - 1)
  }

  /** Python's `str.strip()` without arguments. */
  function Strip(s: string): (r: string)
    ensures IsStripOf(s, r)
    ensures r == [] <==> AllSpace(s)
  {
    var lo := SkipSpace(s, 0);
    var hi := SkipSpaceBack(s, lo, |s|);
    assert lo < hi ==> s[lo..hi][0] == s[lo] && s[lo..hi][hi - lo - 1] == s[hi - 1];
    assert lo == hi ==> SpaceBetween(s, 0, |s|);
    assert lo < hi ==> !SpaceBetween(s, 0, |s|);
    s[lo..hi]
  }

  /** A whitespace run that ends at text fixes where `SkipSpace` stops. */
  lemma {:induction false} SkipSpaceIs(s: string, i: nat, n: nat)
    requires i <= n <= |s| && SpaceBetween(s, i, n)
    requires n < |s| ==> !IsSpace(s[n])
    ensures SkipSpace(s, i) == n
    decreases n - i
  {
    if i < n {
      SkipSpaceIs(s, i + 1, n);
    }
  }

  /** A whitespace run that starts after text fixes where `SkipSpaceBack` stops. */
  lemma {:induction false} SkipSpaceBackIs(s: string, lo: nat, n: nat, j: nat)
    requires lo <= n <= j <= |s| && SpaceBetween(s, n, j)
    requires lo < n ==> !IsSpace(s[n - 1])
    ensures SkipSpaceBack(s, lo, j) == n
    decreases j
  {
    if n < j {
      SkipSpaceBackIs(s, lo, n, j - 1);
    }
  }

  /** Stripping has exactly one outcome: any maximal cut is the one `Strip` makes. */
  lemma StripUnique(s: string, r: string)
    requires IsStripOf(s, r)
    ensures r == Strip(s)
  {
    var i, j :| 0 <= i <= j <= |s| && r == s[i..j] && SpaceBetween(s, 0, i) && SpaceBetween(s, j, |s|) && Trimmed(r);
    if r == [] {
      assert i == j;
      assert AllSpace(s);
    } else {
      assert s[i] == r[0] && s[j - 1] == r[|r| - 1];
      SkipSpaceIs(s, 0, i);
      SkipSpaceBackIs(s, i, j, |s|);
    }
  }

  lemma StripIdempotent(s: string)
    ensures Strip(Strip(s)) == Strip(s)
  {
    var r := Strip(s);
    assert r == r[0..|r|];
    assert IsStripOf(r, r);
    StripUnique(r, r);
  }

  function LowerChar(c: char): char {
    if 'A' <= c <= 'Z' then (c as int + 32) as char else c
  }

  /** ASCII lower-casing: `A`-`Z` become `a`-`z`, every other character is kept. */
  function Lower(s: string): (r: string)
    ensures |r| == |s|
    ensures forall i :: 0 <= i < |s| ==> r[i] == LowerChar(s[i])
  {
    seq(|s|, i requires 0 <= i < |s| => LowerChar(s[i]))
  }

  /** Text compared the way a case-insensitive (`iexact`) lookup compares it. */
  predicate SameIgnoringCase(a: string, b: string) {
    Lower(a) == Lower(b)
  }

  lemma LowerIdempotent(s: string)
    ensures Lower(Lower(s)) == Lower(s)
    ensures forall i :: 0 <= i < |s| ==> !('A' <= Lower(s)[i] <= 'Z')
  {
  }

  lemma LowerKeepsSpace(s: string)
    ensures forall i :: 0 <= i < |s| ==> (IsSpace(Lower(s)[i]) <==> IsSpace(s[i]))
  {
  }

  /** Lower-casing keeps every cut a strip: whitespace stays whitespace and
      text stays text. */
  lemma LowerStripOf(s: string, r: string)
    requires IsStripOf(s, r)
    ensures IsStripOf(Lower(s), Lower(r))
  {
    var i, j :| 0 <= i <= j <= |s| && r == s[i..j] && SpaceBetween(s, 0, i) && SpaceBetween(s, j, |s|) && Trimmed(r);
    var ls := Lower(s);
    LowerKeepsSpace(s);
    LowerKeepsSpace(r);
    assert ls[i..j] == Lower(r);
    assert SpaceBetween(ls, 0, i) && SpaceBetween(ls, j, |ls|);
    assert Trimmed(Lower(r));
  }

  /** Lower-casing commutes with stripping. */
  lemma LowerStripCommute(s: string)
    ensures Strip(Lower(s)) == Lower(Strip(s))
  {
    LowerStripOf(s, Strip(s));
    StripUnique(Lower(s), Lower(Strip(s)));
  }

  /** Number of occurrences of `c` in `s`. */
  function Count(s: string, c: char): nat {
    if s == [] then 0 else (if s[0] == c then 1 else 0) + Count(s[1..], c)
  }

  lemma {:induction false} CountSplit(s: string, i: nat, c: char)
    requires i <= |s|
    ensures Count(s, c) == Count(s[..i], c) + Count(s[i..], c)
  {
    if i > 0 {
      CountSplit(s[1..], i - 1, c);
      assert s[1..][..i - 1] == s[..i][1..];
      assert s[1..][i - 1..] == s[i..];
    }
  }

  lemma {:induction false} CountZero(s: string, c: char)
    ensures Count(s, c) == 0 <==> forall i :: 0 <= i < |s| ==> s[i] != c
  {
    if s != [] {
      CountZero(s[1..], c);
      assert forall i :: 1 <= i < |s| ==> s[i] == s[1..][i - 1];
    }
  }

  /** A character at exactly one position occurs exactly once. */
  lemma CountOne(s: string, a: nat, c: char)
    requires a < |s| && s[a] == c
    requires forall i :: 0 <= i < |s| && i != a ==> s[i] != c
    ensures Count(s, c) == 1
  {
    CountSplit(s, a, c);
    var pre, post := s[..a], s[a + 1..];
    assert forall i :: 0 <= i < |pre| ==> pre[i] != c;
    CountZero(pre, c);
    assert forall i :: 0 <= i < |post| ==> post[i] == s[a + 1 + i];
    CountZero(post, c);
    assert s[a..][1..] == post;
  }

  /** Position of the first `c` in `s`, or `|s|` when there is none. */
  function IndexOf(s: string, c: char): (n: nat)
    ensures n <= |s|
    ensures n < |s| ==> s[n] == c
    ensures forall i :: 0 <= i < n ==> s[i] != c
  {
    if s == [] then 0 else if s[0] == c then 0 else 1 + IndexOf(s[1..], c)
  }

  /** Code-point lexicographic order on strings (a prefix sorts first). */
  predicate LexLe(a: string, b: string) {
    a == [] || (b != [] && (a[0] < b[0] || (a[0] == b[0] && LexLe(a[1..], b[1..]))))
  }

  lemma {:induction false} LexLeTotal(a: string, b: string)
    ensures LexLe(a, b) || LexLe(b, a)
  {
    if a != [] && b != [] && a[0] == b[0] {
      LexLeTotal(a[1..], b[1..]);
    }
  }

  lemma {:induction false} LexLeTransitive(a: string, b: string, c: string)
    requires LexLe(a, b) && LexLe(b, c)
    ensures LexLe(a, c)
  {
    if a != [] && a[0] == b[0] && b[0] == c[0] {
      LexLeTransitive(a[1..], b[1..], c[1..]);
    }
  }
}
