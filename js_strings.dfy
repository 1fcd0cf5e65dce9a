/** The ECMAScript string operations the handler relies on: the whitespace class
    shared by the regular-expression escape `\s` and `String.prototype.trim`,
    `trim` itself, `toLowerCase` (ASCII letters only), `includes`, and two
    counting helpers used to characterise the e-mail pattern. */
module JsStrings {

  /** WhiteSpace or LineTerminator in ECMAScript: exactly the characters that
      `\s` matches and that `trim()` strips. */
  predicate IsJsSpace(c: char)
    ensures IsJsSpace(c) ==> c != '@' && c != '.' && !('A' <= c <= 'Z') && !('a' <= c <= 'z')
  {
    var n := c as int;
    || n == 0x09 || n == 0x0A || n == 0x0B || n == 0x0C || n == 0x0D
    || n == 0x20 || n == 0xA0 || n == 0x1680 || (0x2000 <= n <= 0x200A)
    || n == 0x2028 || n == 0x2029 || n == 0x202F || n == 0x205F
    || n == 0x3000 || n == 0xFEFF
  }

  predicate AllSpace(s: string) {
    forall i | 0 <= i < |s| :: IsJsSpace(s[i])
  }

  /** How many whitespace characters `s` starts with. */
  function LeadingSpace(s: string): (n: nat)
    ensures n <= |s|
    ensures forall i | 0 <= i < n :: IsJsSpace(s[i])
    ensures n < |s| ==> !IsJsSpace(s[n])
  {
    if |s| > 0 && IsJsSpace(s[0]) then 1 + LeadingSpace(s[1..]) else 0
  }

  /** How many whitespace characters `s` ends with. */
  function TrailingSpace(s: string): (n: nat)
    ensures n <= |s|
    ensures forall i | |s| - n <= i < |s| :: IsJsSpace(s[i])
    ensures n < |s| ==> !IsJsSpace(s[|s| - n - 1])
  {
    if |s| > 0 && IsJsSpace(s[|s| - 1]) then 1 + TrailingSpace(s[..|s| - 1]) else 0
  }

  /** `r` is the slice of `s` starting at `a` with only whitespace around it
      and whitespace at neither of its ends: what `trim` must return. */
  predicate IsTrimmedSlice(s: string, a: int, r: string) {
    && 0 <= a && a + |r| <= |s|
    && r == s[a..a + |r|]
    && (forall i | 0 <= i < a :: IsJsSpace(s[i]))
    && (forall i | a + |r| <= i < |s| :: IsJsSpace(s[i]))
    && (r == [] || (!IsJsSpace(r[0]) && !IsJsSpace(r[|r| - 1])))
  }

  /** `String.prototype.trim`: the slice after the leading whitespace and
      before the trailing whitespace. */
  function Trim(s: string): (r: string)
    ensures IsTrimmedSlice(s, LeadingSpace(s), r)
  {
    var a := LeadingSpace(s);
    if a == |s| then [] else s[a..|s| - TrailingSpace(s)]
  }

  /** Only one slice of a string qualifies as its trimmed form. */
  lemma TrimUnique(s: string, a: int, r: string)
    requires IsTrimmedSlice(s, a, r)
    ensures r == Trim(s)
  {
    var a0 := LeadingSpace(s);
    if r == [] {
      assert forall i | 0 <= i < |s| :: IsJsSpace(s[i]);
      assert a0 == |s|;
    } else {
      assert s[a] == r[0];
      assert a0 == a;
      var e := a + |r|;
      assert s[e - 1] == r[|r| - 1];
      assert |s| - TrailingSpace(s) == e;
    }
  }

  /** `toLowerCase` on one character, restricted to the ASCII letters. */
  function LowerChar(c: char): char {
    if 'A' <= c <= 'Z' then (c as int + 32) as char else c
  }

  predicate IsAsciiUpper(c: char) {
    'A' <= c <= 'Z'
  }

  lemma LowerCharClass(c: char)
    ensures IsJsSpace(LowerChar(c)) <==> IsJsSpace(c)
  {
  }

  /** `String.prototype.toLowerCase` (ASCII letters only). */
  function ToLower(s: string): (r: string)
    ensures |r| == |s|
    ensures forall i | 0 <= i < |s| && 'A' <= s[i] <= 'Z' :: r[i] as int == s[i] as int + 32
    ensures forall i | 0 <= i < |s| && !('A' <= s[i] <= 'Z') :: r[i] == s[i]
  {
    seq(|s|, i requires 0 <= i < |s| => LowerChar(s[i]))
  }

  /** Lower-casing keeps the length and the class of every character the
      e-mail pattern looks at, leaves no upper-case ASCII letter, and is
      idempotent. */
  lemma ToLowerProperties(s: string)
    ensures |ToLower(s)| == |s|
    ensures forall i | 0 <= i < |s| ::
      && !IsAsciiUpper(ToLower(s)[i])
      && (IsJsSpace(ToLower(s)[i]) <==> IsJsSpace(s[i]))
      && (ToLower(s)[i] == '@' <==> s[i] == '@')
      && (ToLower(s)[i] == '.' <==> s[i] == '.')
    ensures ToLower(ToLower(s)) == ToLower(s)
  {
  }

  /** `part` occurs in `s` starting at index `i`. */
  predicate OccursAt(s: string, part: string, i: int) {
    0 <= i <= |s| - |part| && s[i..i + |part|] == part
  }

  /** `String.prototype.includes`. */
  predicate Contains(s: string, part: string)
    ensures Contains(s, part) ==> |part| <= |s|
    ensures part == [] ==> Contains(s, part)
    ensures part == s ==> Contains(s, part)
  {
    assert part == s ==> s[0..|part|] == part;
    assert part == [] || part == s ==> OccursAt(s, part, 0);
    exists i | 0 <= i <= |s| - |part| :: OccursAt(s, part, i)
  }

  /** How many times `c` occurs in `s`. */
  function Occurrences(s: string, c: char): (n: nat)
    ensures n <= |s|
    ensures n == 0 <==> c !in s
  {
    if s == [] then 0
    else (if s[0] == c then 1 else 0) + Occurrences(s[1..], c)
  }

  /** `String.prototype.indexOf` for a character known to occur. */
  function IndexOf(s: string, c: char): (i: nat)
    requires c in s
    ensures i < |s| && s[i] == c
    ensures forall k | 0 <= k < i :: s[k] != c
  {
    if s[0] == c then 0 else 1 + IndexOf(s[1..], c)
  }

  /** A character found at exactly one position occurs once, at that index. */
  lemma {:induction false} OnlyOccurrence(s: string, c: char, i: nat)
    requires i < |s| && s[i] == c
    requires forall k | 0 <= k < |s| && k != i :: s[k] != c
    ensures Occurrences(s, c) == 1 && IndexOf(s, c) == i
  {
    if i == 0 {
      assert c !in s[1..] by {
        forall k | 0 <= k < |s[1..]| ensures s[1..][k] != c {
          assert s[1..][k] == s[k + 1];
        }
      }
    } else {
      assert s[0] != c;
      assert s[1..][i - 1] == c;
      forall k | 0 <= k < |s[1..]| && k != i - 1 ensures s[1..][k] != c {
        assert s[1..][k] == s[k + 1];
      }
      OnlyOccurrence(s[1..], c, i - 1);
    }
  }

  /** Conversely, a character that occurs once is absent everywhere but at
      its index. */
  lemma {:induction false} SingleOccurrence(s: string, c: char)
    requires Occurrences(s, c) == 1
    ensures c in s
    ensures forall k | 0 <= k < |s| && k != IndexOf(s, c) :: s[k] != c
  {
    if s[0] == c {
      assert c !in s[1..];
      forall k | 0 < k < |s| ensures s[k] != c {
        assert s[k] == s[1..][k - 1];
      }
    } else {
      SingleOccurrence(s[1..], c);
      forall k | 0 <= k < |s| && k != IndexOf(s, c) ensures s[k] != c {
        if k > 0 {
          assert s[k] == s[1..][k - 1];
        }
      }
    }
  }

  /** `trim` gives the same string whatever whitespace surrounds its input. */
  lemma TrimSurrounding(pre: string, t: string, post: string)
    requires AllSpace(pre) && AllSpace(post)
    ensures Trim(pre + t + post) == Trim(t)
  {
    var s := pre + t + post;
    var r := Trim(t);
    var a := LeadingSpace(t);
    var b := |pre| + a;
    assert s[b..b + |r|] == t[a..a + |r|];
    forall i | 0 <= i < b ensures IsJsSpace(s[i]) {
      if i >= |pre| {
        assert s[i] == t[i - |pre|];
      }
    }
    forall i | b + |r| <= i < |s| ensures IsJsSpace(s[i]) {
      if i < |pre| + |t| {
        assert s[i] == t[i - |pre|];
      } else {
        assert s[i] == post[i - |pre| - |t|];
      }
    }
    TrimUnique(s, b, r);
  }

  /** `trim` is idempotent. */
  lemma TrimIdempotent(s: string)
    ensures Trim(Trim(s)) == Trim(s)
  {
    var r := Trim(s);
    assert r[0..|r|] == r;
    TrimUnique(r, 0, r);
  }

  /** Lower-casing a slice is slicing the lower-cased string. */
  lemma LowerSlice(s: string, a: nat, b: nat)
    requires a <= b <= |s|
    ensures ToLower(s)[a..b] == ToLower(s[a..b])
  {
  }

  /** Lower-casing cannot create or remove whitespace, so it keeps a trimmed
      slice trimmed. */
  lemma LowerTrimmedSlice(s: string, a: int, r: string)
    requires IsTrimmedSlice(s, a, r)
    ensures IsTrimmedSlice(ToLower(s), a, ToLower(r))
  {
    var l := ToLower(s);
    LowerSlice(s, a, a + |r|);
    forall i | 0 <= i < a ensures IsJsSpace(l[i]) {
      LowerCharClass(s[i]);
    }
    forall i | a + |r| <= i < |l| ensures IsJsSpace(l[i]) {
      LowerCharClass(s[i]);
    }
    if r != [] {
      LowerCharClass(r[0]);
      LowerCharClass(r[|r| - 1]);
    }
  }

  /** The order of `trim` and `toLowerCase` does not matter. */
  lemma TrimLowerCommute(s: string)
    ensures Trim(ToLower(s)) == ToLower(Trim(s))
  {
    LowerTrimmedSlice(s, LeadingSpace(s), Trim(s));
    TrimUnique(ToLower(s), LeadingSpace(s), ToLower(Trim(s)));
  }
}
