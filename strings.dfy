/**
 * The Kotlin standard-library string operations the injector is written with
 * (`trim`, `startsWith`, `contains`, `removePrefix`, `substringAfter`,
 * `substringBefore`, `indexOf`, `replace`, `toIntOrNull` and `Int.toString`),
 * each stated over `string`, a sequence of Unicode scalar values (Kotlin
 * strings are sequences of UTF-16 code units; the two agree on text inside
 * the Basic Multilingual Plane), with the JVM's whitespace set.
 */
module Strings {
  import opened Wrappers

  /** The 32-bit range of a Kotlin `Int`. */
  const IntMin: int := -0x8000_0000
  const IntMax: int := 0x7FFF_FFFF

  /** Kotlin's `Char.isWhitespace()` on the JVM: `Character.isWhitespace` or `Character.isSpaceChar`. */
  predicate IsWhitespace(c: char) {
    ('\t' <= c <= '\r') || ('\U{001C}' <= c <= '\U{001F}') || c == ' '
    || c == '\U{00A0}' || c == '\U{1680}' || ('\U{2000}' <= c <= '\U{200A}')
    || c == '\U{2028}' || c == '\U{2029}' || c == '\U{202F}' || c == '\U{205F}' || c == '\U{3000}'
  }

  /** `s.trimStart()`: `s` without its leading whitespace. */
  function TrimStart(s: string): string
    decreases |s|
  {
    if |s| > 0 && IsWhitespace(s[0]) then TrimStart(s[1..]) else s
  }

  /** `s.trimEnd()`: `s` without its trailing whitespace. */
  function TrimEnd(s: string): string
    decreases |s|
  {
    if |s| > 0 && IsWhitespace(s[|s| - 1]) then TrimEnd(s[..|s| - 1]) else s
  }

  /** `trimStart` leaves a suffix of `s` that does not start with whitespace, and drops only whitespace. */
  lemma {:induction false} TrimStartIsSuffix(s: string)
    ensures |TrimStart(s)| <= |s| && TrimStart(s) == s[|s| - |TrimStart(s)|..]
    ensures TrimStart(s) == [] || !IsWhitespace(TrimStart(s)[0])
    ensures forall i :: 0 <= i < |s| - |TrimStart(s)| ==> IsWhitespace(s[i])
    decreases |s|
  {
    if |s| > 0 && IsWhitespace(s[0]) {
      TrimStartIsSuffix(s[1..]);
      assert s[1..][|s| - 1 - |TrimStart(s)|..] == s[|s| - |TrimStart(s)|..];
    }
  }

  /** `trimEnd` leaves a prefix of `s` that does not end in whitespace, and drops only whitespace. */
  lemma {:induction false} TrimEndIsPrefix(s: string)
    ensures |TrimEnd(s)| <= |s| && TrimEnd(s) == s[..|TrimEnd(s)|]
    ensures TrimEnd(s) == [] || !IsWhitespace(TrimEnd(s)[|TrimEnd(s)| - 1])
    ensures forall i :: |TrimEnd(s)| <= i < |s| ==> IsWhitespace(s[i])
    decreases |s|
  {
    if |s| > 0 && IsWhitespace(s[|s| - 1]) {
      TrimEndIsPrefix(s[..|s| - 1]);
      assert s[..|s| - 1][..|TrimEnd(s)|] == s[..|TrimEnd(s)|];
    }
  }

  /** `s.trim()`: whitespace dropped at both ends. */
  function Trim(s: string): string {
    TrimEnd(TrimStart(s))
  }

  /** `s.startsWith(prefix)`. */
  predicate StartsWith(s: string, prefix: string) {
    |prefix| <= |s| && s[..|prefix|] == prefix
  }

  /** `s.contains(sub)`: `sub` occurs in `s` at some position (the empty string occurs everywhere). */
  predicate Contains(s: string, sub: string)
    decreases |s|
  {
    StartsWith(s, sub) || (|s| > 0 && Contains(s[1..], sub))
  }

  /** `sub` occurs in `s` starting at position `i`. */
  predicate OccursAt(s: string, sub: string, i: int) {
    0 <= i <= |s| - |sub| && s[i..i + |sub|] == sub
  }

  /** `Contains` agrees with the declarative reading "some slice of `s` equals `sub`". */
  lemma {:induction false} ContainsIff(s: string, sub: string)
    ensures Contains(s, sub) <==> exists i :: OccursAt(s, sub, i)
    decreases |s|
  {
    if StartsWith(s, sub) {
      assert OccursAt(s, sub, 0);
    } else if |s| > 0 {
      ContainsIff(s[1..], sub);
      if Contains(s[1..], sub) {
        var i :| OccursAt(s[1..], sub, i);
        assert s[i + 1..i + 1 + |sub|] == s[1..][i..i + |sub|];
        assert OccursAt(s, sub, i + 1);
      } else {
        forall i | OccursAt(s, sub, i)
          ensures false
        {
          if i > 0 {
            assert s[1..][i - 1..i - 1 + |sub|] == s[i..i + |sub|];
            assert OccursAt(s[1..], sub, i - 1);
          }
        }
      }
    } else {
      assert |sub| > 0;
    }
  }

  /** `s.removePrefix(prefix)`. */
  function RemovePrefix(s: string, prefix: string): (r: string)
    ensures StartsWith(s, prefix) ==> s == prefix + r
    ensures !StartsWith(s, prefix) ==> r == s
  {
    if StartsWith(s, prefix) then s[|prefix|..] else s
  }

  /** `s.indexOf(c, from)`: the first position at or after `from` holding `c`, or -1. */
  function IndexOfChar(s: string, c: char, from: nat): (r: int)
    ensures r == -1 || (from <= r < |s| && s[r] == c)
    ensures r == -1 ==> forall k :: from <= k < |s| ==> s[k] != c
    ensures r != -1 ==> forall k :: from <= k < r ==> s[k] != c
    decreases |s| - from
  {
    if from >= |s| then -1
    else if s[from] == c then from
    else IndexOfChar(s, c, from + 1)
  }

  /** When `c` first occurs at `k`, `indexOf(c)` finds `k`. */
  lemma IndexOfFirstOccurrence(s: string, c: char, k: nat)
    requires k < |s| && s[k] == c && c !in s[..k]
    ensures IndexOfChar(s, c, 0) == k
  {
    assert forall j :: 0 <= j < k ==> s[..k][j] == s[j];
  }

  /** `s.substringAfter(delim)` for a one-character delimiter: everything after its first occurrence, or all of `s`. */
  function SubstringAfter(s: string, delim: char): (r: string)
    ensures delim !in s ==> r == s
    ensures delim in s ==> exists k :: 0 <= k < |s| && s[k] == delim && delim !in s[..k] && r == s[k + 1..]
  {
    var k := IndexOfChar(s, delim, 0);
    if k < 0 then s
    else
      assert delim !in s[..k] by {
        forall j | 0 <= j < k ensures s[..k][j] != delim { }
      }
      s[k + 1..]
  }

  /** `s.substringBefore(delim)` for a one-character delimiter: everything before its first occurrence, or all of `s`. */
  function SubstringBefore(s: string, delim: char): (r: string)
    ensures delim !in r
    ensures StartsWith(s, r)
    ensures delim in s ==> |r| < |s| && s[|r|] == delim
    ensures delim !in s ==> r == s
  {
    var k := IndexOfChar(s, delim, 0);
    if k < 0 then s
    else
      assert delim !in s[..k] by {
        forall j | 0 <= j < k ensures s[..k][j] != delim { }
      }
      s[..k]
  }

  /**
   * `s.replace(pattern, replacement)`: every occurrence of `pattern`, found
   * left to right without overlap, replaced by `replacement`.
   */
  function ReplaceAll(s: string, pattern: string, replacement: string): (r: string)
    requires |pattern| > 0
    ensures !Contains(s, pattern) ==> r == s
    decreases |s|
  {
    if StartsWith(s, pattern) then replacement + ReplaceAll(s[|pattern|..], pattern, replacement)
    else if s == [] then []
    else [s[0]] + ReplaceAll(s[1..], pattern, replacement)
  }

  /**
   * `replace` at work: the text up to the first occurrence of the pattern is
   * kept, that occurrence becomes the replacement, and the search goes on
   * after it (occurrences never overlap).
   */
  lemma {:induction false} ReplaceAtFirst(s: string, pattern: string, replacement: string, k: nat)
    requires |pattern| > 0 && OccursAt(s, pattern, k)
    requires forall j :: 0 <= j < k ==> !OccursAt(s, pattern, j)
    ensures ReplaceAll(s, pattern, replacement)
         == s[..k] + replacement + ReplaceAll(s[k + |pattern|..], pattern, replacement)
    decreases k
  {
    if k == 0 {
      ReplaceAtStart(s, pattern, replacement);
    } else {
      FirstOccurrenceInTail(s, pattern, k);
      ReplaceAtFirst(s[1..], pattern, replacement, k - 1);
      ReplaceAtFirstStep(s, pattern, replacement, k);
    }
  }

  lemma ReplaceAtStart(s: string, pattern: string, replacement: string)
    requires |pattern| > 0 && OccursAt(s, pattern, 0)
    ensures ReplaceAll(s, pattern, replacement) == s[..0] + replacement + ReplaceAll(s[|pattern|..], pattern, replacement)
  {
    assert StartsWith(s, pattern);
    assert s[..0] + replacement == replacement;
  }

  /** Dropping a first character that starts no occurrence moves the first occurrence one place left. */
  lemma FirstOccurrenceInTail(s: string, pattern: string, k: nat)
    requires |pattern| > 0 && 0 < k && OccursAt(s, pattern, k)
    requires forall j :: 0 <= j < k ==> !OccursAt(s, pattern, j)
    ensures OccursAt(s[1..], pattern, k - 1)
    ensures forall j :: 0 <= j < k - 1 ==> !OccursAt(s[1..], pattern, j)
  {
    assert s[1..][k - 1..k - 1 + |pattern|] == s[k..k + |pattern|];
    forall j | 0 <= j < k - 1
      ensures !OccursAt(s[1..], pattern, j)
    {
      if OccursAt(s[1..], pattern, j) {
        OccursShifted(s, pattern, j);
      }
    }
  }

  /** One step of `ReplaceAtFirst`: the result for `s[1..]` gives the result for `s`. */
  lemma ReplaceAtFirstStep(s: string, pattern: string, replacement: string, k: nat)
    requires |pattern| > 0 && 0 < k && k + |pattern| <= |s| && !OccursAt(s, pattern, 0)
    requires ReplaceAll(s[1..], pattern, replacement)
          == s[1..][..k - 1] + replacement + ReplaceAll(s[1..][k - 1 + |pattern|..], pattern, replacement)
    ensures ReplaceAll(s, pattern, replacement)
         == s[..k] + replacement + ReplaceAll(s[k + |pattern|..], pattern, replacement)
  {
    var tail := s[k + |pattern|..];
    assert s[1..][k - 1 + |pattern|..] == tail;
    ReplaceSkipsFirst(s, pattern, replacement);
    ConsSplit(s, k, replacement, ReplaceAll(tail, pattern, replacement));
  }

  lemma ConsSplit(s: string, k: nat, middle: string, rest: string)
    requires 0 < k <= |s|
    ensures [s[0]] + (s[1..][..k - 1] + middle + rest) == s[..k] + middle + rest
  {
    assert [s[0]] + s[1..][..k - 1] == s[..k];
  }

  /** Where the pattern does not start the text, `replace` keeps the first character and goes on. */
  lemma ReplaceSkipsFirst(s: string, pattern: string, replacement: string)
    requires |pattern| > 0 && !OccursAt(s, pattern, 0)
    ensures ReplaceAll(s, pattern, replacement) == if s == [] then [] else [s[0]] + ReplaceAll(s[1..], pattern, replacement)
  {
    assert !StartsWith(s, pattern);
  }

  lemma OccursShifted(s: string, pattern: string, j: nat)
    requires |s| > 0 && OccursAt(s[1..], pattern, j)
    ensures OccursAt(s, pattern, j + 1)
  {
    assert s[1..][j..j + |pattern|] == s[j + 1..j + 1 + |pattern|];
  }

  /** Text that never holds the pattern's first character does not contain the pattern. */
  lemma NotContainsLead(s: string, pattern: string)
    requires |pattern| > 0 && pattern[0] !in s
    ensures !Contains(s, pattern)
  {
    ContainsIff(s, pattern);
  }

  /** Replacing inside "whitespace, then exactly the pattern" rewrites only the pattern. */
  lemma ReplaceAfterWhitespace(w: string, pattern: string, replacement: string)
    requires |pattern| > 0 && !IsWhitespace(pattern[0])
    requires forall i :: 0 <= i < |w| ==> IsWhitespace(w[i])
    ensures ReplaceAll(w + pattern, pattern, replacement) == w + replacement
  {
    var s := w + pattern;
    assert OccursAt(s, pattern, |w|) by {
      assert s[|w|..|w| + |pattern|] == pattern;
    }
    forall j | 0 <= j < |w|
      ensures !OccursAt(s, pattern, j)
    {
      LeadMismatch(s, pattern, j);
    }
    ReplaceAtFirst(s, pattern, replacement, |w|);
    assert s[..|w|] == w && s[|w| + |pattern|..] == [];
  }

  /** No occurrence starts where the text differs from the pattern's first character. */
  lemma LeadMismatch(s: string, pattern: string, j: nat)
    requires |pattern| > 0 && j < |s| && s[j] != pattern[0]
    ensures !OccursAt(s, pattern, j)
  {
    assert j + |pattern| <= |s| ==> s[j..j + |pattern|][0] == s[j];
  }

  predicate IsDigit(c: char) {
    '0' <= c <= '9'
  }

  predicate AllDigits(s: string) {
    forall i :: 0 <= i < |s| ==> IsDigit(s[i])
  }

  function DigitValue(c: char): (d: nat)
    requires IsDigit(c)
    ensures d < 10
  {
    (c as int) - ('0' as int)
  }

  /** The decimal value of a string of ASCII digits (leading zeros allowed). */
  function DigitsValue(s: string): nat
    requires AllDigits(s)
  {
    if s == [] then 0 else DigitsValue(s[..|s| - 1]) * 10 + DigitValue(s[|s| - 1])
  }

  /** The digits after an optional sign, negated if the sign was '-', when the value fits an `Int`. */
  function SignedDigits(digits: string, negative: bool): (r: Option<int>)
    ensures r.Some? ==> IntMin <= r.value <= IntMax
    ensures r.Some? ==> AllDigits(digits) && r.value == (if negative then -(DigitsValue(digits) as int) else DigitsValue(digits))
    ensures AllDigits(digits) && IntMin <= (if negative then -(DigitsValue(digits) as int) else DigitsValue(digits)) <= IntMax
            ==> r.Some?
  {
    if !AllDigits(digits) then None
    else
      var v := if negative then -(DigitsValue(digits) as int) else DigitsValue(digits);
      if IntMin <= v <= IntMax then Some(v) else None
  }

  /**
   * `s.toIntOrNull()`: an optional '+' or '-' (a leading character below '0'
   * is read as a sign), then one or more decimal digits whose value fits an
   * `Int`; anything else is null.
   */
  function ParseInt(s: string): (r: Option<int>)
    ensures r.Some? ==> IntMin <= r.value <= IntMax
    ensures s == [] ==> r == None
    // what is read: plain digits, or a '+' or '-' and at least one digit
    ensures r.Some? ==>
              (AllDigits(s) && r.value == DigitsValue(s))
              || (|s| > 1 && s[0] == '+' && AllDigits(s[1..]) && r.value == DigitsValue(s[1..]))
              || (|s| > 1 && s[0] == '-' && AllDigits(s[1..]) && r.value == -(DigitsValue(s[1..]) as int))
    // and every such numeral in range is read
    ensures |s| > 0 && AllDigits(s) && DigitsValue(s) <= IntMax ==> r == Some(DigitsValue(s))
    ensures |s| > 1 && s[0] == '+' && AllDigits(s[1..]) && DigitsValue(s[1..]) <= IntMax ==> r == Some(DigitsValue(s[1..]))
    ensures |s| > 1 && s[0] == '-' && AllDigits(s[1..]) && IntMin <= -(DigitsValue(s[1..]) as int) ==> r == Some(-(DigitsValue(s[1..]) as int))
  {
    if |s| == 0 then None
    else if s[0] < '0' then
      if |s| == 1 then None
      else if s[0] == '-' then SignedDigits(s[1..], true)
      else if s[0] == '+' then SignedDigits(s[1..], false)
      else None
    else SignedDigits(s, false)
  }

  function DigitChar(d: nat): (c: char)
    requires d < 10
    ensures IsDigit(c) && DigitValue(c) == d
  {
    ('0' as int + d) as char
  }

  /** The decimal digits of `n`, most significant first, without leading zeros. */
  function NatToString(n: nat): (r: string)
    ensures |r| > 0 && AllDigits(r) && DigitsValue(r) == n
    ensures r[0] == '0' ==> n == 0
    ensures |r| == 1 <==> n < 10
  {
    if n < 10 then [DigitChar(n)]
    else
      var r := NatToString(n / 10) + [DigitChar(n % 10)];
      assert r[..|r| - 1] == NatToString(n / 10);
      assert r[0] == NatToString(n / 10)[0];
      r
  }

  /** `n.toString()` (also what a string template `"$n"` produces). */
  function IntToString(n: int): (r: string)
    ensures |r| > 0 && (IsDigit(r[0]) || r[0] == '-')
    ensures r[0] == '-' <==> n < 0
  {
    if n < 0 then "-" + NatToString(-n) else NatToString(n)
  }

  /** Reading back a printed `Int` gives the same number: `n.toString().toIntOrNull() == n`. */
  lemma ParseIntToString(n: int)
    requires IntMin <= n <= IntMax
    ensures ParseInt(IntToString(n)) == Some(n)
  {
    if n < 0 {
      var s := IntToString(n);
      assert s[1..] == NatToString(-n);
    }
  }
}
