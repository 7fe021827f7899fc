/**
 * Value types and string helpers shared by the whole model.
 *
 * Strings are sequences of characters.  Upper- and lower-casing, trimming and
 * case-insensitive comparison are modelled on ASCII: `string.ToUpper`,
 * `ToUpperInvariant`, `Trim`, `StringComparison.OrdinalIgnoreCase` in .NET and
 * `toUpperCase`, `trim` in JavaScript behave like these functions on ASCII text.
 */
module Common {

  datatype Option<T> = None | Some(value: T)

  /** `FirstOrDefault(p)`: the first element satisfying `p`, if any. */
  function FirstWhere<T(==)>(xs: seq<T>, p: T -> bool): (r: Option<T>)
    ensures r.Some? ==> exists i :: 0 <= i < |xs| && xs[i] == r.value && p(xs[i]) && forall j :: 0 <= j < i ==> !p(xs[j])
    ensures r.None? <==> forall x :: x in xs ==> !p(x)
  {
    if |xs| == 0 then None
    else if p(xs[0]) then Some(xs[0])
    else
      var r := FirstWhere(xs[1..], p);
      assert forall x :: x in xs[1..] ==> x in xs;
      assert forall x :: x in xs ==> x == xs[0] || x in xs[1..];
      if r.Some? then
        var i :| 0 <= i < |xs[1..]| && xs[1..][i] == r.value && p(xs[1..][i]) && forall j :: 0 <= j < i ==> !p(xs[1..][j]);
        assert xs[i + 1] == r.value && forall j :: 0 <= j < i + 1 ==> !p(xs[j]) by {
          forall j | 0 <= j < i + 1 ensures !p(xs[j]) {
            if j > 0 { assert xs[j] == xs[1..][j - 1]; }
          }
        }
        r
      else r
  }

  /** The outcome of an endpoint or a parse: a value or the error the source reports. */
  datatype Result<T, E> = Ok(value: T) | Err(error: E)

  function UpperChar(c: char): char
  {
    if 'a' <= c <= 'z' then (c as int - 32) as char else c
  }

  function LowerChar(c: char): char
  {
    if 'A' <= c <= 'Z' then (c as int + 32) as char else c
  }

  /** Character-wise upper-casing. */
  function Upper(s: string): (r: string)
    ensures |r| == |s|
    ensures forall i :: 0 <= i < |s| ==> r[i] == UpperChar(s[i])
  {
    seq(|s|, i requires 0 <= i < |s| => UpperChar(s[i]))
  }

  /** Character-wise lower-casing. */
  function Lower(s: string): (r: string)
    ensures |r| == |s|
    ensures forall i :: 0 <= i < |s| ==> r[i] == LowerChar(s[i])
  {
    seq(|s|, i requires 0 <= i < |s| => LowerChar(s[i]))
  }

  predicate IsWhiteSpace(c: char)
  {
    c == ' ' || c == '\t' || c == '\n' || c == '\r' || c == '\U{000B}' || c == '\U{000C}'
  }

  /** `string.IsNullOrWhiteSpace` on a present string: empty or only white space. */
  predicate IsBlank(s: string)
  {
    forall i :: 0 <= i < |s| ==> IsWhiteSpace(s[i])
  }

  /** Removes the leading white space. */
  function TrimStart(s: string): string
  {
    if |s| > 0 && IsWhiteSpace(s[0]) then TrimStart(s[1..]) else s
  }

  /** Removes the trailing white space. */
  function TrimEnd(s: string): string
  {
    if |s| > 0 && IsWhiteSpace(s[|s| - 1]) then TrimEnd(s[..|s| - 1]) else s
  }

  /** `Trim()`: the string without leading and trailing white space. */
  function Trim(s: string): string
  {
    TrimEnd(TrimStart(s))
  }

  // The facts below are lemmas rather than postconditions: as postconditions
  // they would be instantiated at every trimmed string of every proof.

  /** Trimming the start drops a white-space prefix and stops at the first other character. */
  lemma {:induction false} TrimStartFacts(s: string)
    ensures |TrimStart(s)| <= |s| && TrimStart(s) == s[|s| - |TrimStart(s)|..]
    ensures forall i :: 0 <= i < |s| - |TrimStart(s)| ==> IsWhiteSpace(s[i])
    ensures |TrimStart(s)| > 0 ==> !IsWhiteSpace(TrimStart(s)[0])
  {
    if |s| > 0 && IsWhiteSpace(s[0]) {
      TrimStartFacts(s[1..]);
    }
  }

  /** Trimming the end drops a white-space suffix and stops at the last other character. */
  lemma {:induction false} TrimEndFacts(s: string)
    ensures |TrimEnd(s)| <= |s| && TrimEnd(s) == s[..|TrimEnd(s)|]
    ensures forall i :: |TrimEnd(s)| <= i < |s| ==> IsWhiteSpace(s[i])
    ensures |TrimEnd(s)| > 0 ==> !IsWhiteSpace(TrimEnd(s)[|TrimEnd(s)| - 1])
  {
    if |s| > 0 && IsWhiteSpace(s[|s| - 1]) {
      TrimEndFacts(s[..|s| - 1]);
    }
  }

  /** A trimmed string is no longer than the original and has no white space at either end. */
  lemma TrimFacts(s: string)
    ensures |Trim(s)| <= |s|
    ensures |Trim(s)| > 0 ==> !IsWhiteSpace(Trim(s)[0]) && !IsWhiteSpace(Trim(s)[|Trim(s)| - 1])
  {
    var t := TrimStart(s);
    TrimStartFacts(s);
    TrimEndFacts(t);
    if |TrimEnd(t)| > 0 {
      assert TrimEnd(t)[0] == t[0];
    }
  }

  /** A string without white space at either end is its own trim. */
  lemma TrimNoEdges(s: string)
    requires |s| > 0 ==> !IsWhiteSpace(s[0]) && !IsWhiteSpace(s[|s| - 1])
    ensures Trim(s) == s
  {
  }

  /** Trimming a trimmed string changes nothing. */
  lemma TrimIdempotent(s: string)
    ensures Trim(Trim(s)) == Trim(s)
  {
    TrimFacts(s);
    TrimNoEdges(Trim(s));
  }

  /** Trimming yields the empty string exactly for blank strings. */
  lemma {:induction false} TrimEmptyIffBlank(s: string)
    ensures Trim(s) == "" <==> IsBlank(s)
  {
    if IsBlank(s) {
      BlankTrimStart(s);
    } else {
      var t := TrimStart(s);
      TrimStartFacts(s);
      TrimEndFacts(t);
      var k :| 0 <= k < |s| && !IsWhiteSpace(s[k]);
      assert |t| > 0 && t[k - (|s| - |t|)] == s[k];
      assert t[..1] == [t[0]];
    }
  }

  lemma {:induction false} BlankTrimStart(s: string)
    requires IsBlank(s)
    ensures TrimStart(s) == ""
  {
    if |s| > 0 {
      BlankTrimStart(s[1..]);
    }
  }

  /** Case-insensitive equality (`OrdinalIgnoreCase`). */
  predicate EqualsIgnoreCase(a: string, b: string)
  {
    Upper(a) == Upper(b)
  }

  predicate StartsWith(s: string, prefix: string)
  {
    |prefix| <= |s| && s[..|prefix|] == prefix
  }

  /** `string.Contains`: `sub` occurs in `s` as a contiguous piece (ordinal, case-sensitive). */
  predicate Contains(s: string, sub: string)
  {
    exists i :: 0 <= i <= |s| - |sub| && OccursAt(s, sub, i)
  }

  predicate OccursAt(s: string, sub: string, i: int)
    requires 0 <= i <= |s| - |sub|
  {
    s[i..i + |sub|] == sub
  }

  /** `string.IsNullOrWhiteSpace` on a string that may be null. */
  predicate Blank(s: Option<string>)
  {
    s.None? || IsBlank(s.value)
  }

  /**
   * `s.Contains(sub)` scanned from position `i` on; recursive, so that
   * proofs about error cells do not unfold into quantifiers.
   */
  predicate OccursFrom(s: string, sub: string, i: nat)
    decreases |s| - i
  {
    i + |sub| <= |s| && (OccursAt(s, sub, i) || OccursFrom(s, sub, i + 1))
  }

  lemma {:induction false} OccursFromSome(s: string, sub: string, i: nat)
    ensures OccursFrom(s, sub, i) <==> exists k :: i <= k <= |s| - |sub| && OccursAt(s, sub, k)
    decreases |s| - i
  {
    if i + |sub| <= |s| {
      OccursFromSome(s, sub, i + 1);
    }
  }

  /** The scan from the start is `Contains`. */
  lemma OccursFromContains(s: string, sub: string)
    ensures OccursFrom(s, sub, 0) <==> Contains(s, sub)
  {
    OccursFromSome(s, sub, 0);
  }

  lemma OccursFromItself(s: string)
    ensures OccursFrom(s, s, 0)
  {
    assert s[0..|s|] == s;
  }

  /** No position from `i` on starts with the first two characters of `sub`, so `sub` does not occur there. */
  lemma {:induction false} NoOccursFrom(s: string, sub: string, i: nat)
    requires |sub| >= 2
    requires forall p :: i <= p && p + |sub| <= |s| ==> s[p] != sub[0] || s[p + 1] != sub[1]
    ensures !OccursFrom(s, sub, i)
    decreases |s| - i
  {
    if i + |sub| <= |s| {
      assert s[i..i + |sub|][0] == s[i] && s[i..i + |sub|][1] == s[i + 1];
      NoOccursFrom(s, sub, i + 1);
    }
  }

  /** A string does not occur in one of the same length that differs from it at `k`. */
  lemma SameLengthNoOccurs(s: string, sub: string, k: nat)
    requires |s| == |sub| && k < |s| && s[k] != sub[k]
    ensures !OccursFrom(s, sub, 0)
  {
    assert s[0..|sub|][k] == s[k];
  }

  /** The five choice letters accepted by every quiz validator. */
  const ChoiceLetters: seq<string> := ["A", "B", "C", "D", "E"]

  /** `new[] { "A", "B", "C", "D", "E" }.Contains(s.ToUpper())`. */
  predicate IsChoiceLetter(s: string)
  {
    Upper(s) in ChoiceLetters
  }

  /** A string that upper-cases to a choice letter is one letter long, so trimming its upper-cased form changes nothing. */
  lemma ChoiceLetterNormalized(s: string)
    requires IsChoiceLetter(s)
    ensures |s| == 1
    ensures Trim(Upper(s)) == Upper(s) && Upper(s) in ChoiceLetters
    ensures EqualsIgnoreCase(s, Upper(s))
    ensures !IsBlank(s)
  {
    var u := Upper(s);
    assert |u| == 1 && 'A' <= u[0] <= 'E';
    assert !IsWhiteSpace(s[0]);
    TrimNoEdges(u);
    assert Upper(u) == u;
  }

  /** Decimal rendering of a natural number, as string interpolation writes it. */
  function NatToString(n: nat): (r: string)
    ensures |r| >= 1
    ensures |r| == 1 <==> n < 10
    ensures forall i :: 0 <= i < |r| ==> '0' <= r[i] <= '9'
  {
    if n < 10 then [DigitChar(n)] else NatToString(n / 10) + [DigitChar(n % 10)]
  }

  /** Distinct numbers are rendered differently, so the text determines the number. */
  lemma {:induction false} NatToStringInjective(n: nat, m: nat)
    requires NatToString(n) == NatToString(m)
    ensures n == m
  {
    if n >= 10 {
      assert m >= 10;
      var a, b := NatToString(n), NatToString(m);
      assert a[|a| - 1] == DigitChar(n % 10) && b[|b| - 1] == DigitChar(m % 10);
      assert a[..|a| - 1] == NatToString(n / 10) && b[..|b| - 1] == NatToString(m / 10);
      NatToStringInjective(n / 10, m / 10);
    } else {
      assert m < 10;
      assert NatToString(n)[0] == DigitChar(n);
    }
  }

  lemma IntToStringInjective(i: int, j: int)
    requires IntToString(i) == IntToString(j)
    ensures i == j
  {
    if i < 0 {
      assert j < 0;
      assert IntToString(i)[1..] == NatToString(-i);
      assert IntToString(j)[1..] == NatToString(-j);
      NatToStringInjective(-i, -j);
    } else {
      assert j >= 0;
      NatToStringInjective(i, j);
    }
  }

  function DigitChar(d: nat): (c: char)
    requires d < 10
    ensures '0' <= c <= '9'
  {
    ('0' as int + d) as char
  }

  /** Decimal rendering of an integer, with a leading '-' for negatives. */
  function IntToString(i: int): (r: string)
    ensures |r| >= 1
    ensures r[0] == '-' <==> i < 0
  {
    if i < 0 then "-" + NatToString(-i) else NatToString(i)
  }

  /** A number below 100 rendered on two digits with a leading zero, as `padStart(2, '0')` does. */
  function Pad2(n: nat): (r: string)
    requires n < 100
    ensures |r| == 2
    ensures forall i :: 0 <= i < 2 ==> '0' <= r[i] <= '9'
  {
    [DigitChar(n / 10), DigitChar(n % 10)]
  }

  /** Concatenation regroups freely. */
  lemma AppendAssoc<T>(a: seq<T>, b: seq<T>, c: seq<T>)
    ensures (a + b) + c == a + (b + c)
  {
  }

  /** A non-empty sequence is its front followed by its last element. */
  lemma SplitLast<T>(s: seq<T>)
    requires |s| > 0
    ensures s == s[..|s| - 1] + [s[|s| - 1]]
  {
  }
}
