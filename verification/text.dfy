/**
 * The JavaScript string operations the viewer relies on, restated over
 * `string` (= `seq<char>`): the substring search inside `replace` and
 * `split`, `replace` with a string pattern,
 * `split(", ")[0]`, `join`, ASCII `toUpperCase`/`toLowerCase`, the
 * `charAt(0).toUpperCase() + slice(1)` capitalisation, `padStart`, and the
 * decimal rendering of non-negative integers (template literals, `toString`,
 * `toFixed(1)`).
 */
module Text {
  import opened Wrappers

  // ---------------------------------------------------------------------
  // Substring search
  // ---------------------------------------------------------------------

  /** `pat` occurs in `s` starting at index `i`. */
  predicate OccursAt(s: string, pat: string, i: nat) {
    i + |pat| <= |s| && s[i..i + |pat|] == pat
  }

  /** `i` is the leftmost index at which `pat` occurs in `s`. */
  predicate FirstOccurrence(s: string, pat: string, i: nat) {
    OccursAt(s, pat, i) && forall j: nat :: j < i ==> !OccursAt(s, pat, j)
  }

  /** Leftmost occurrence of `pat` in `s` at or after index `from`. */
  function IndexOfFrom(s: string, pat: string, from: nat): (r: Option<nat>)
    decreases |s| - from
    ensures r.Some? ==> from <= r.value && OccursAt(s, pat, r.value)
    ensures r.Some? ==> forall j: nat :: from <= j < r.value ==> !OccursAt(s, pat, j)
    ensures r.None? ==> forall j: nat :: from <= j ==> !OccursAt(s, pat, j)
  {
    if from + |pat| > |s| then None
    else if s[from..from + |pat|] == pat then Some(from)
    else IndexOfFrom(s, pat, from + 1)
  }

  /** Where the leftmost copy of `pat` starts in `s`, or `None` when there is none: the search `replace` and `split` perform. */
  function IndexOf(s: string, pat: string): (r: Option<nat>)
    ensures r.Some? <==> exists i: nat :: OccursAt(s, pat, i)
    ensures r.Some? ==> FirstOccurrence(s, pat, r.value)
  {
    IndexOfFrom(s, pat, 0)
  }

  /** The leftmost occurrence is unique. */
  lemma FirstOccurrenceUnique(s: string, pat: string, i: nat, k: nat)
    requires FirstOccurrence(s, pat, i) && FirstOccurrence(s, pat, k)
    ensures i == k
  {
  }

  /** For a one-character pattern, the leftmost occurrence is the first index holding it. */
  lemma FirstCharOccurrence(s: string, c: char, i: nat)
    requires i < |s| && s[i] == c && forall j :: 0 <= j < i ==> s[j] != c
    ensures FirstOccurrence(s, [c], i)
  {
    forall j: nat | j < i ensures !OccursAt(s, [c], j) {
      assert s[j..j + 1] == [s[j]];
    }
    assert s[i..i + 1] == [c];
  }

  /**
   * `s.replace(pat, rep)` with a string (not a regular expression) pattern:
   * only the leftmost occurrence of `pat` is replaced.
   */
  function ReplaceFirst(s: string, pat: string, rep: string): (r: string)
    ensures (forall j: nat :: !OccursAt(s, pat, j)) ==> r == s
    ensures forall i: nat :: FirstOccurrence(s, pat, i) ==> r == s[..i] + rep + s[i + |pat|..]
  {
    match IndexOf(s, pat)
    case None => s
    case Some(i) =>
      assert forall k: nat :: FirstOccurrence(s, pat, k) ==> k == i by {
        forall k: nat | FirstOccurrence(s, pat, k) {
          FirstOccurrenceUnique(s, pat, i, k);
        }
      }
      s[..i] + rep + s[i + |pat|..]
  }

  /**
   * Replacing the first occurrence of one character by another keeps the
   * length, removes exactly one copy of the old character and adds exactly
   * one copy of the new one: every later occurrence survives.
   */
  lemma ReplaceFirstCharCounts(s: string, c: char, d: char)
    ensures |ReplaceFirst(s, [c], [d])| == |s|
    ensures c !in s ==> ReplaceFirst(s, [c], [d]) == s
    ensures c in s ==> multiset(ReplaceFirst(s, [c], [d])) == multiset(s) - multiset{c} + multiset{d}
  {
    var r := ReplaceFirst(s, [c], [d]);
    match IndexOf(s, [c])
    case None =>
      assert c !in s by {
        forall k | 0 <= k < |s| ensures s[k] != c {
          assert !OccursAt(s, [c], k);
          assert s[k..k + 1] == [s[k]];
        }
      }
    case Some(i) =>
      assert OccursAt(s, [c], i);
      assert s[i..i + 1] == [c];
      assert r == s[..i] + [d] + s[i + 1..];
      SwapOneCount(s, c, d, i);
  }

  /** Overwriting one copy of `c` at `i` with `d` trades exactly that copy. */
  lemma SwapOneCount(s: string, c: char, d: char, i: nat)
    requires i < |s| && s[i] == c
    ensures c in s
    ensures multiset(s[..i] + [d] + s[i + 1..]) == multiset(s) - multiset{c} + multiset{d}
  {
    assert s == s[..i] + [c] + s[i + 1..];
    assert multiset(s) == multiset(s[..i]) + multiset{c} + multiset(s[i + 1..]);
    assert multiset(s[..i] + [d] + s[i + 1..]) == multiset(s[..i]) + multiset{d} + multiset(s[i + 1..]);
  }

  // ---------------------------------------------------------------------
  // ASCII case mapping
  // ---------------------------------------------------------------------

  predicate IsLower(c: char) { 'a' <= c <= 'z' }

  predicate IsUpper(c: char) { 'A' <= c <= 'Z' }

  /** `toUpperCase` on one character, for the ASCII letters. */
  function UpperChar(c: char): char {
    if IsLower(c) then (c as int - 32) as char else c
  }

  /** `toLowerCase` on one character, for the ASCII letters. */
  function LowerChar(c: char): char {
    if IsUpper(c) then (c as int + 32) as char else c
  }

  /** `s.toUpperCase()`: no lower-case letter remains and nothing but case changes. */
  function ToUpper(s: string): (r: string)
    ensures |r| == |s|
    ensures forall i :: 0 <= i < |r| ==> !IsLower(r[i]) && LowerChar(r[i]) == LowerChar(s[i])
    ensures forall i :: 0 <= i < |r| && !IsLower(s[i]) ==> r[i] == s[i]
  {
    seq(|s|, i requires 0 <= i < |s| => UpperChar(s[i]))
  }

  /** `s.toLowerCase()`: no upper-case letter remains and nothing but case changes. */
  function ToLower(s: string): (r: string)
    ensures |r| == |s|
    ensures forall i :: 0 <= i < |r| ==> !IsUpper(r[i]) && UpperChar(r[i]) == UpperChar(s[i])
    ensures forall i :: 0 <= i < |r| && !IsUpper(s[i]) ==> r[i] == s[i]
  {
    seq(|s|, i requires 0 <= i < |s| => LowerChar(s[i]))
  }

  /** Upper-casing first does not change what lower-casing yields. */
  lemma LowerOfUpper(s: string)
    ensures ToLower(ToUpper(s)) == ToLower(s)
  {
  }

  /**
   * `s.charAt(0).toUpperCase() + s.slice(1)`: the first character is
   * upper-cased, the rest is kept; the empty string stays empty.
   */
  function Capitalize(s: string): (r: string)
    ensures |r| == |s|
    ensures |s| > 0 ==> r[0] == UpperChar(s[0]) && r[1..] == s[1..]
  {
    if |s| == 0 then "" else [UpperChar(s[0])] + s[1..]
  }

  /** Capitalisation never introduces or removes a space. */
  lemma CapitalizeKeepsSpaces(s: string)
    ensures ' ' in Capitalize(s) <==> ' ' in s
  {
    var r := Capitalize(s);
    if |s| > 0 {
      assert r == [r[0]] + s[1..];
      assert s == [s[0]] + s[1..];
      assert r[0] == ' ' <==> s[0] == ' ';
    }
  }

  // ---------------------------------------------------------------------
  // Padding, joining, splitting
  // ---------------------------------------------------------------------

  /** `k` copies of `c`. */
  function Repeat(c: char, k: nat): (r: string)
    ensures |r| == k && forall i :: 0 <= i < k ==> r[i] == c
  {
    seq(k, _ => c)
  }

  /** `s.padStart(width, [c])`: prepend copies of `c` until `s` is `width` long. */
  function PadStart(s: string, width: nat, c: char): (r: string)
    ensures |r| == if |s| >= width then |s| else width
    ensures r[|r| - |s|..] == s
    ensures forall i :: 0 <= i < |r| - |s| ==> r[i] == c
  {
    if |s| >= width then s else Repeat(c, width - |s|) + s
  }

  /** `xs.join(sep)`. */
  function Join(xs: seq<string>, sep: string): (r: string)
    ensures |xs| == 0 ==> r == ""
    ensures |xs| == 1 ==> r == xs[0]
    ensures |xs| > 0 ==> |xs[0]| <= |r| && r[..|xs[0]|] == xs[0]
  {
    if |xs| == 0 then ""
    else if |xs| == 1 then xs[0]
    else xs[0] + sep + Join(xs[1..], sep)
  }

  /** Total length of the strings in `xs`. */
  function SumLengths(xs: seq<string>): nat {
    if |xs| == 0 then 0 else |xs[0]| + SumLengths(xs[1..])
  }

  /**
   * Joining splits at every boundary: the elements before position `k`
   * joined, one separator, and the elements from `k` on joined. With the
   * one-element case this fixes every character of the result.
   */
  lemma {:induction false} JoinSplit(xs: seq<string>, sep: string, k: nat)
    requires 0 < k < |xs|
    ensures Join(xs, sep) == Join(xs[..k], sep) + sep + Join(xs[k..], sep)
  {
    if k > 1 {
      JoinSplit(xs[1..], sep, k - 1);
      assert xs[1..][..k - 1] == xs[..k][1..];
      assert xs[1..][k - 1..] == xs[k..];
    } else {
      assert xs[..1] == [xs[0]];
      assert xs[1..] == xs[k..];
    }
  }

  /** A joined list is as long as its elements plus one separator between each two. */
  lemma {:induction false} JoinLength(xs: seq<string>, sep: string)
    requires |xs| > 0
    ensures |Join(xs, sep)| == SumLengths(xs) + (|xs| - 1) * |sep|
  {
    if |xs| > 1 {
      JoinLength(xs[1..], sep);
      assert (|xs| - 1) * |sep| == (|xs| - 2) * |sep| + |sep|;
    } else {
      assert xs[1..] == [];
    }
  }

  /** The separator the viewer joins and splits lists with. */
  const Comma: string := ", "

  /** `s.split(", ")[0]`: everything before the first `", "`, or all of `s`. */
  function SplitHead(s: string): (r: string)
    ensures (forall j: nat :: !OccursAt(s, Comma, j)) ==> r == s
    ensures forall i: nat :: FirstOccurrence(s, Comma, i) ==> r == s[..i]
  {
    match IndexOf(s, Comma)
    case None => s
    case Some(i) =>
      assert forall k: nat :: FirstOccurrence(s, Comma, k) ==> k == i by {
        forall k: nat | FirstOccurrence(s, Comma, k) {
          FirstOccurrenceUnique(s, Comma, i, k);
        }
      }
      s[..i]
  }

  /**
   * No `", "` starts inside a space-free prefix `x` when what follows it is
   * empty or begins with a comma.
   */
  lemma NoCommaInside(x: string, rest: string, k: nat)
    requires ' ' !in x && k < |x|
    requires |rest| == 0 || rest[0] == ','
    ensures !OccursAt(x + rest, Comma, k)
  {
    var s := x + rest;
    if k + 2 <= |s| {
      if k + 1 < |x| {
        assert s[k + 1] == x[k + 1];
      } else {
        assert s[k + 1] == rest[0];
      }
      assert s[k..k + 2][1] == s[k + 1] != ' ';
    }
  }

  /**
   * Whatever follows a space-free `x`, if it is empty or opens with `", "`,
   * splitting at `", "` gives back `x`.
   */
  lemma SplitHeadAfterSpaceFree(x: string, rest: string)
    requires ' ' !in x
    requires rest == [] || (|rest| >= 2 && rest[..2] == Comma)
    ensures SplitHead(x + rest) == x
  {
    var s := x + rest;
    if rest != [] {
      assert rest[0] == rest[..2][0] == ',';
    }
    forall k: nat | k < |x| ensures !OccursAt(s, Comma, k) {
      NoCommaInside(x, rest, k);
    }
    if rest == [] {
      assert s == x;
      assert forall j: nat :: !OccursAt(s, Comma, j);
    } else {
      assert s[|x|..|x| + 2] == rest[..2];
      assert FirstOccurrence(s, Comma, |x|);
      assert s[..|x|] == x;
    }
  }

  /**
   * Splitting a `", "`-joined list gives back its first element, provided
   * that element holds no space (so no `", "` can start inside it).
   */
  lemma SplitHeadOfJoin(xs: seq<string>)
    requires |xs| > 0 && ' ' !in xs[0]
    ensures SplitHead(Join(xs, Comma)) == xs[0]
  {
    if |xs| == 1 {
      assert Join(xs, Comma) == xs[0] + [];
      SplitHeadAfterSpaceFree(xs[0], []);
    } else {
      var rest := Comma + Join(xs[1..], Comma);
      assert Join(xs, Comma) == xs[0] + rest;
      assert rest[..2] == Comma;
      SplitHeadAfterSpaceFree(xs[0], rest);
    }
  }

  // ---------------------------------------------------------------------
  // Decimal numerals
  // ---------------------------------------------------------------------

  predicate IsDigit(c: char) { '0' <= c <= '9' }

  predicate AllDigits(s: string) { forall i :: 0 <= i < |s| ==> IsDigit(s[i]) }

  function DigitChar(d: nat): (c: char)
    requires d < 10
    ensures IsDigit(c)
  {
    ('0' as int + d) as char
  }

  function DigitValue(c: char): (d: nat)
    requires IsDigit(c)
    ensures d < 10
  {
    c as int - '0' as int
  }

  /** The value of a string of decimal digits (empty reads as 0). */
  function ParseDecimal(s: string): nat
    requires AllDigits(s)
  {
    if |s| == 0 then 0 else ParseDecimal(s[..|s| - 1]) * 10 + DigitValue(s[|s| - 1])
  }

  /**
   * The decimal numeral JavaScript prints for a non-negative integer below
   * 2^53 (larger doubles lose precision, and from 10^21 on JavaScript prints
   * exponent form): only digits, at least one, and no leading zero unless
   * the number is zero.
   */
  function NatToString(n: nat): (s: string)
    ensures 1 <= |s| && AllDigits(s)
    ensures |s| > 1 ==> s[0] != '0'
    ensures n > 0 ==> s[0] != '0'
  {
    if n < 10 then [DigitChar(n)] else NatToString(n / 10) + [DigitChar(n % 10)]
  }

  /** Reading the numeral back gives the number. */
  lemma {:induction false} ParseNatToString(n: nat)
    ensures ParseDecimal(NatToString(n)) == n
  {
    if n >= 10 {
      var s := NatToString(n);
      assert s[..|s| - 1] == NatToString(n / 10);
      ParseNatToString(n / 10);
    }
  }

  /** A numeral without leading zeros is the one printed for its value. */
  lemma {:induction false} NatToStringOfParse(s: string)
    requires 1 <= |s| && AllDigits(s) && (|s| > 1 ==> s[0] != '0')
    ensures NatToString(ParseDecimal(s)) == s
  {
    var init := s[..|s| - 1];
    var n := ParseDecimal(s);
    if |s| == 1 {
      assert init == [];
    } else {
      assert AllDigits(init);
      assert init[0] == s[0];
      ParseNonZeroLead(init);
      NatToStringOfParse(init);
      assert n / 10 == ParseDecimal(init);
      assert n % 10 == DigitValue(s[|s| - 1]);
      assert s == init + [s[|s| - 1]];
    }
  }

  /** A numeral whose first digit is not zero has a positive value. */
  lemma {:induction false} ParseNonZeroLead(s: string)
    requires 1 <= |s| && AllDigits(s) && s[0] != '0'
    ensures ParseDecimal(s) > 0
  {
    if |s| > 1 {
      var init := s[..|s| - 1];
      assert init[0] == s[0];
      ParseNonZeroLead(init);
    }
  }

  /** Leading zeros do not change the value of a numeral. */
  lemma {:induction false} ParseLeadingZeros(k: nat, s: string)
    requires AllDigits(s)
    ensures AllDigits(Repeat('0', k) + s)
    ensures ParseDecimal(Repeat('0', k) + s) == ParseDecimal(s)
  {
    var z := Repeat('0', k);
    if |s| == 0 {
      assert z + s == z;
      ZerosParseToZero(k);
    } else {
      var init := s[..|s| - 1];
      assert (z + s)[..|z + s| - 1] == z + init;
      ParseLeadingZeros(k, init);
    }
  }

  /** A run of zeros reads as 0. */
  lemma {:induction false} ZerosParseToZero(k: nat)
    ensures AllDigits(Repeat('0', k))
    ensures ParseDecimal(Repeat('0', k)) == 0
  {
    if k > 0 {
      assert Repeat('0', k)[..k - 1] == Repeat('0', k - 1);
      ZerosParseToZero(k - 1);
    }
  }

  /**
   * `(t / 10).toFixed(1)` for a quantity `t` counted in tenths: the integer
   * part in digits without leading zeros, a point, and exactly one decimal;
   * a minus sign when negative.
   */
  function Fixed1(t: int): (s: string)
    ensures 3 <= |s| && s[|s| - 2] == '.' && IsDigit(s[|s| - 1])
    ensures t < 0 <==> s[0] == '-'
    ensures var body := if t < 0 then s[1..] else s;
            3 <= |body| && AllDigits(body[..|body| - 2]) && (body[0] == '0' ==> body[1] == '.')
    decreases if t < 0 then 1 else 0
  {
    if t < 0 then "-" + Fixed1(-t)
    else NatToString(t / 10) + "." + [DigitChar(t % 10)]
  }

  /** The digits of a `Fixed1` text: the sign and the decimal point dropped. */
  function Fixed1Digits(s: string): string {
    var body := if |s| > 0 && s[0] == '-' then s[1..] else s;
    if |body| < 2 then "" else body[..|body| - 2] + [body[|body| - 1]]
  }

  /** Dropping the sign and the point from `Fixed1(t)` leaves the digits of `|t|`. */
  lemma Fixed1Value(t: int)
    ensures AllDigits(Fixed1Digits(Fixed1(t)))
    ensures ParseDecimal(Fixed1Digits(Fixed1(t))) == if t < 0 then -t else t
  {
    var a: nat := if t < 0 then -t else t;
    var body := NatToString(a / 10) + "." + [DigitChar(a % 10)];
    assert Fixed1(t) == if t < 0 then "-" + body else body;
    assert body[0] != '-';
    var digits := body[..|body| - 2] + [body[|body| - 1]];
    assert Fixed1Digits(Fixed1(t)) == digits;
    assert digits == NatToString(a / 10) + [DigitChar(a % 10)];
    assert digits[..|digits| - 1] == NatToString(a / 10);
    ParseNatToString(a / 10);
  }
}
