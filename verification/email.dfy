/** The e-mail address check of the employee serializer: the normalisation
    applied to the submitted value and the compiled pattern
    `^[^\s@]+@[^\s@]+\.[^\s@]+$` it must then match. */
module Email {
  import opened Strings

  /** What `.strip().lower()` makes of the submitted value: the lower-cased
      input with its surrounding whitespace cut off. */
  function Normalize(raw: string): (r: string)
    ensures IsStripOf(Lower(raw), r)
    ensures r == [] <==> AllSpace(raw)
    ensures forall i :: 0 <= i < |r| ==> !('A' <= r[i] <= 'Z')
  {
    LowerKeepsSpace(Strip(raw));
    LowerIdempotent(Strip(raw));
    LowerStripOf(raw, Strip(raw));
    Lower(Strip(raw))
  }

  lemma NormalizeIdempotent(raw: string)
    ensures Normalize(Normalize(raw)) == Normalize(raw)
  {
    var t := Strip(raw);
    LowerStripCommute(t);
    StripIdempotent(raw);
    LowerIdempotent(t);
  }

  /** A character the class `[^\s@]` accepts. */
  predicate Plain(c: char) {
    !IsSpace(c) && c != '@'
  }

  predicate AllPlain(s: string) {
    forall i :: 0 <= i < |s| ==> Plain(s[i])
  }

  /** The pattern's body spans all of `s`: a plain local part, `@`, a plain
      host (which may itself hold dots), a `.`, and a plain last label. */
  predicate SpansPattern(s: string) {
    exists a | 0 < a < |s| :: exists k | a + 1 < k < |s| - 1 ::
      s[a] == '@' && s[k] == '.' && AllPlain(s[..a]) && AllPlain(s[a + 1..k]) && AllPlain(s[k + 1..])
  }

  /** `re.match` of the pattern: anchored at the start, and the closing `$`
      also accepts a single newline at the very end. */
  predicate MatchesPattern(s: string): (r: bool)
    ensures r ==> 5 <= |s|
    ensures r ==> exists a :: 0 < a < |s| - 3 && s[a] == '@'
  {
    || SpansPattern(s)
    || (|s| > 0 && s[|s| - 1] == '\n' && SpansPattern(s[..|s| - 1]))
  }

  /** The shape the pattern describes, in plain terms: no whitespace at all,
      exactly one `@`, something before it, and after it a `.` with text on
      both sides. */
  ghost predicate WellFormedAddress(s: string) {
    var at := IndexOf(s, '@');
    && (forall i :: 0 <= i < |s| ==> !IsSpace(s[i]))
    && Count(s, '@') == 1
    && 0 < at < |s|
    && exists k :: at + 1 < k < |s| - 1 && s[k] == '.'
  }

  /** Outside the `@` and the chosen `.`, a spanning text holds only plain characters. */
  lemma PlainOutside(s: string, a: nat, k: nat)
    requires a < k < |s|
    requires AllPlain(s[..a]) && AllPlain(s[a + 1..k]) && AllPlain(s[k + 1..])
    ensures forall i :: 0 <= i < |s| && i != a && i != k ==> Plain(s[i])
  {
    forall i | 0 <= i < |s| && i != a && i != k ensures Plain(s[i]) {
      if i < a {
        assert s[i] == s[..a][i];
      } else if i < k {
        assert s[i] == s[a + 1..k][i - a - 1];
      } else {
        assert s[i] == s[k + 1..][i - k - 1];
      }
    }
  }

  lemma SpansPatternIsWellFormed(s: string)
    requires SpansPattern(s)
    ensures WellFormedAddress(s)
  {
    var a, k :| 0 < a < |s| && a + 1 < k < |s| - 1 && s[a] == '@' && s[k] == '.'
      && AllPlain(s[..a]) && AllPlain(s[a + 1..k]) && AllPlain(s[k + 1..]);
    PlainOutside(s, a, k);
    assert !IsSpace('@') && !IsSpace('.');
    CountOne(s, a, '@');
    assert IndexOf(s, '@') == a;
  }

  /** A character that occurs once does not occur after its first position. */
  lemma NoneAfterOnly(s: string, c: char)
    requires Count(s, c) == 1
    ensures forall i :: IndexOf(s, c) < i < |s| ==> s[i] != c
  {
    var a := IndexOf(s, c);
    CountSplit(s, a, c);
    CountZero(s[..a], c);
    if a < |s| {
      assert s[a..][1..] == s[a + 1..];
      CountZero(s[a + 1..], c);
      assert forall i :: a < i < |s| ==> s[i] == s[a + 1..][i - a - 1];
    }
  }

  lemma WellFormedSpansPattern(s: string)
    requires WellFormedAddress(s)
    ensures SpansPattern(s)
  {
    var a := IndexOf(s, '@');
    var k :| a + 1 < k < |s| - 1 && s[k] == '.';
    NoneAfterOnly(s, '@');
    forall i | 0 <= i < |s| && i != a ensures Plain(s[i]) {
      assert !IsSpace(s[i]);
      if i < a {
        assert s[i] != '@';
      } else {
        assert s[i] != '@';
      }
    }
    var local, host, last := s[..a], s[a + 1..k], s[k + 1..];
    forall i | 0 <= i < |local| ensures Plain(local[i]) { assert local[i] == s[i]; }
    forall i | 0 <= i < |host| ensures Plain(host[i]) { assert host[i] == s[a + 1 + i]; }
    forall i | 0 <= i < |last| ensures Plain(last[i]) { assert last[i] == s[k + 1 + i]; }
  }

  /** The pattern accepts exactly the well-formed addresses, and on text that
      has been stripped the newline allowance of `$` changes nothing. */
  lemma PatternMeaning(s: string)
    requires Trimmed(s)
    ensures MatchesPattern(s) <==> WellFormedAddress(s)
  {
    if SpansPattern(s) {
      SpansPatternIsWellFormed(s);
    }
    if WellFormedAddress(s) {
      WellFormedSpansPattern(s);
    }
  }
}
