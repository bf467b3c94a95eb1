/**
 * The e-mail shape both the account and the contact-form validators use, the
 * regular expression `^[^\\s@]+@[^\\s@]+\\.[^\\s@]+$`: a non-empty local part, one `@`,
 * then a domain with a dot that has text on both sides; no whitespace and no
 * second `@` anywhere.
 */
module EmailPattern {
  import opened JsString

  /** A character of the class `[^\\s@]`. */
  predicate Plain(c: char) {
    !IsSpace(c) && c != '@'
  }

  /** The language of the regular expression, by positions: an `@` at `at` and a `.` at
      `dot` with at least one character before the `@`, between the two and after the
      `.`, and every other character plain. */
  ghost predicate MatchesPattern(s: string) {
    exists at, dot :: EmailSplitAt(s, at, dot)
  }

  ghost predicate EmailSplitAt(s: string, at: int, dot: int) {
    && 0 < at && at + 1 < dot && dot + 1 < |s|
    && s[at] == '@' && s[dot] == '.'
    && forall k :: 0 <= k < |s| && k != at ==> Plain(s[k])
  }

  /** The check as a program: exactly two pieces around `@`, a non-empty local part, no
      whitespace, and a dot strictly inside the domain. */
  function IsEmailShape(s: string): bool {
    var parts := Split(s, '@');
    && |parts| == 2
    && parts[0] != ""
    && (forall k :: 0 <= k < |s| ==> !IsSpace(s[k]))
    && |parts[1]| >= 3
    && Contains(parts[1][1..|parts[1]| - 1], ".")
  }

  /** The program accepts exactly the strings of the regular expression's language. */
  lemma IsEmailShapeMatchesPattern(s: string)
    ensures IsEmailShape(s) <==> MatchesPattern(s)
  {
    if IsEmailShape(s) {
      ShapeMatchesPattern(s);
    }
    if MatchesPattern(s) {
      var at, dot :| EmailSplitAt(s, at, dot);
      PatternHasShape(s, at, dot);
    }
  }

  /** What the program accepts is in the language: the `@` is after the local part and the
      dot found inside the domain gives the second position. */
  lemma ShapeMatchesPattern(s: string)
    requires IsEmailShape(s)
    ensures MatchesPattern(s)
  {
    var parts := Split(s, '@');
    var local, domain := parts[0], parts[1];
    JoinSplit(s, '@');
    assert parts[1..] == [domain];
    assert s == local + "@" + domain;
    var inner := domain[1..|domain| - 1];
    var i: nat :| OccursAt(inner, ".", i);
    var at, dot := |local|, |local| + 2 + i;
    assert s[dot] == inner[i];
    PlainAround(s, local, domain);
    assert EmailSplitAt(s, at, dot);
  }

  /** Around the only `@`, every character of a string without whitespace is plain. */
  lemma PlainAround(s: string, local: string, domain: string)
    requires s == local + "@" + domain && '@' !in local && '@' !in domain
    requires forall k :: 0 <= k < |s| ==> !IsSpace(s[k])
    ensures forall k :: 0 <= k < |s| && k != |local| ==> Plain(s[k])
  {
    forall k | 0 <= k < |s| && k != |local|
      ensures Plain(s[k])
    {
      if k < |local| { assert s[k] == local[k]; } else { assert s[k] == domain[k - |local| - 1]; }
    }
  }

  /** What the language contains, the program accepts: splitting at the only `@` gives the
      local part and the domain, and the dot lies strictly inside the domain. */
  lemma PatternHasShape(s: string, at: int, dot: int)
    requires EmailSplitAt(s, at, dot)
    ensures IsEmailShape(s)
  {
    SplitAtOnlyAt(s, at, dot);
    DotInsideDomain(s, at, dot);
    var parts := Split(s, '@');
    assert parts == [s[..at], s[at + 1..]];
    assert forall k :: 0 <= k < |s| ==> !IsSpace(s[k]) by {
      forall k | 0 <= k < |s| ensures !IsSpace(s[k]) {
        if k != at { assert Plain(s[k]); }
      }
    }
  }

  /** In the language, the `@` at `at` is the only one, so splitting on `@` cuts there. */
  lemma SplitAtOnlyAt(s: string, at: int, dot: int)
    requires EmailSplitAt(s, at, dot)
    ensures Split(s, '@') == [s[..at], s[at + 1..]]
  {
    var local, domain := s[..at], s[at + 1..];
    assert s == local + ['@'] + domain;
    assert '@' !in local by {
      forall k | 0 <= k < |local| ensures local[k] != '@' { assert Plain(s[k]); }
    }
    assert '@' !in domain by {
      forall k | 0 <= k < |domain| ensures domain[k] != '@' { assert Plain(s[at + 1 + k]); }
    }
    SplitAfterPiece(local, '@', domain);
    SplitNoSeparator(domain, '@');
  }

  /** In the language, the domain has a dot with a character on either side. */
  lemma DotInsideDomain(s: string, at: int, dot: int)
    requires EmailSplitAt(s, at, dot)
    ensures var domain := s[at + 1..]; |domain| >= 3 && Contains(domain[1..|domain| - 1], ".")
  {
    var domain := s[at + 1..];
    var inner := domain[1..|domain| - 1];
    assert inner[dot - at - 2] == s[dot];
    assert OccursAt(inner, ".", dot - at - 2);
  }

  /** ASCII lower-casing keeps whitespace, `@` and `.` where they are, so it never changes
      whether a string has the e-mail shape. */
  lemma LowerCaseKeepsShape(s: string)
    ensures IsEmailShape(ToLower(s)) == IsEmailShape(s)
  {
    var t := ToLower(s);
    IsEmailShapeMatchesPattern(s);
    IsEmailShapeMatchesPattern(t);
    assert forall k :: 0 <= k < |s| ==> (Plain(t[k]) <==> Plain(s[k]));
    assert forall k :: 0 <= k < |s| ==> (t[k] == '@' <==> s[k] == '@') && (t[k] == '.' <==> s[k] == '.');
    if MatchesPattern(s) {
      var at, dot :| EmailSplitAt(s, at, dot);
      assert EmailSplitAt(t, at, dot);
    }
    if MatchesPattern(t) {
      var at, dot :| EmailSplitAt(t, at, dot);
      assert EmailSplitAt(s, at, dot);
    }
  }
}
