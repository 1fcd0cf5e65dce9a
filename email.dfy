/** The e-mail address gate of the signup handler: the normalisation applied
    to the submitted `email` field and the pattern
    `^[^@\s]+@[^@\s]+\.[^@\s]+$` written as a predicate over characters. */
module Email {
  import opened JsStrings

  /** A character of the class `[^@\s]`. */
  predicate IsAddressChar(c: char) {
    c != '@' && !IsJsSpace(c)
  }

  /** The pattern succeeds on `s`: `s` is `L@A.B` where `L`, `A` and `B` are
      non-empty runs of address characters (`.` is itself one, so `A` and `B`
      may contain further dots). `at` is the index of the `@`, `dot` the index
      of the `.` the pattern matches literally. */
  predicate MatchesEmailPattern(s: string)
    ensures MatchesEmailPattern(s) ==> 5 <= |s| && '@' in s && NoSpace(s)
  {
    exists at, dot | 0 < at && at + 1 < dot && dot + 1 < |s| ::
      && s[at] == '@' && s[dot] == '.'
      && forall k | 0 <= k < |s| && k != at :: IsAddressChar(s[k])
  }

  predicate NoSpace(s: string) {
    forall k | 0 <= k < |s| :: !IsJsSpace(s[k])
  }

  /** Some `.` in `domain` has a character before it and one after it. */
  predicate HasInnerDot(domain: string) {
    exists k | 0 < k < |domain| - 1 :: domain[k] == '.'
  }

  /** The plain-words reading of the pattern: exactly one `@`, no whitespace,
      a non-empty part before the `@`, and a dot with at least one character
      on each side in the part after it. */
  predicate WellFormedAddress(s: string) {
    && Occurrences(s, '@') == 1
    && NoSpace(s)
    && var at := IndexOf(s, '@');
       at > 0 && HasInnerDot(s[at + 1..])
  }

  /** The pattern accepts exactly the well-formed addresses. */
  lemma PatternIsWellFormedAddress(s: string)
    ensures MatchesEmailPattern(s) <==> WellFormedAddress(s)
  {
    if MatchesEmailPattern(s) {
      var at, dot :| 0 < at && at + 1 < dot && dot + 1 < |s|
        && s[at] == '@' && s[dot] == '.'
        && forall k | 0 <= k < |s| && k != at :: IsAddressChar(s[k]);
      OnlyOccurrence(s, '@', at);
      var domain := s[at + 1..];
      assert domain[dot - at - 1] == '.';
      assert HasInnerDot(domain);
    }
    if WellFormedAddress(s) {
      SingleOccurrence(s, '@');
      var at := IndexOf(s, '@');
      var domain := s[at + 1..];
      var k :| 0 < k < |domain| - 1 && domain[k] == '.';
      var dot := at + 1 + k;
      assert s[dot] == '.';
      assert forall j | 0 <= j < |s| && j != at :: IsAddressChar(s[j]);
      assert 0 < at && at + 1 < dot && dot + 1 < |s|;
    }
  }

  /** The empty string, which a missing or non-string `email` becomes, never
      passes the gate. */
  lemma EmptyIsRejected()
    ensures !MatchesEmailPattern("")
  {
  }

  /** `email.trim().toLowerCase()`: no surrounding whitespace, no upper-case
      ASCII letter, and a string that is itself normalised. */
  function Normalize(s: string): (r: string)
    ensures |r| <= |s|
    ensures r == [] || (!IsJsSpace(r[0]) && !IsJsSpace(r[|r| - 1]))
    ensures forall i | 0 <= i < |r| :: !IsAsciiUpper(r[i])
  {
    ToLowerProperties(Trim(s));
    ToLower(Trim(s))
  }

  /** Normalising twice is normalising once. */
  lemma NormalizeIdempotent(s: string)
    ensures Normalize(Normalize(s)) == Normalize(s)
  {
    var t := Trim(s);
    TrimLowerCommute(t);
    TrimIdempotent(s);
    ToLowerProperties(t);
  }

  /** Addresses that differ only in the case of ASCII letters and in the
      whitespace around them normalise to the same string, and hence get the
      same hash. */
  lemma NormalizeIgnoresCaseAndSurroundingSpace(pre: string, t: string, post: string, u: string)
    requires AllSpace(pre) && AllSpace(post)
    requires ToLower(t) == ToLower(u)
    ensures Normalize(pre + t + post) == Normalize(u)
  {
    TrimSurrounding(pre, t, post);
    TrimLowerCommute(t);
    TrimLowerCommute(u);
  }

  /** The pattern sees the same characters before and after lower-casing, so
      normalisation decides acceptance by the trimmed input alone. */
  lemma PatternIgnoresCase(s: string)
    ensures MatchesEmailPattern(ToLower(s)) <==> MatchesEmailPattern(s)
  {
    var l := ToLower(s);
    forall k | 0 <= k < |s| ensures SameClass(l[k], s[k]) {
      LowerCharClass(s[k]);
    }
    PatternTransfer(s, l);
    PatternTransfer(l, s);
  }

  /** `a` and `b` look alike to the pattern. */
  predicate SameClass(a: char, b: char) {
    && (IsAddressChar(a) <==> IsAddressChar(b))
    && (a == '@' <==> b == '@')
    && (a == '.' <==> b == '.')
  }

  /** The pattern only sees the class of each character. */
  lemma PatternTransfer(s: string, t: string)
    requires |s| == |t| && forall k | 0 <= k < |s| :: SameClass(t[k], s[k])
    ensures MatchesEmailPattern(s) ==> MatchesEmailPattern(t)
  {
    if MatchesEmailPattern(s) {
      var at, dot :| 0 < at && at + 1 < dot && dot + 1 < |s|
        && s[at] == '@' && s[dot] == '.'
        && forall k | 0 <= k < |s| && k != at :: IsAddressChar(s[k]);
      assert t[at] == '@' && t[dot] == '.';
    }
  }
}
