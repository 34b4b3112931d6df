/** The string and number helpers the manifest query layer borrows from Go's
    `strings`, `strconv` and `fmt` packages, restricted to what the accessors
    use. Case folding is ASCII-only; decimal numbers are unbounded. */
module Text {
  import opened Results

  // ---------------------------------------------------------------------
  // ASCII case folding (strings.ToLower, strings.EqualFold)
  // ---------------------------------------------------------------------

  predicate IsUpper(c: char) {
    'A' <= c <= 'Z'
  }

  function LowerChar(c: char): char {
    if IsUpper(c) then (c as int + 32) as char else c
  }

  /** `strings.ToLower`, for ASCII letters; every other character is kept. */
  function Lower(s: string): (r: string)
    ensures |r| == |s|
  {
    seq(|s|, i requires 0 <= i < |s| => LowerChar(s[i]))
  }

  /** What lower-casing does to each character: 'A'..'Z' move to 'a'..'z',
      every other character stays as it is. */
  lemma LowerChars(s: string)
    ensures forall i :: 0 <= i < |s| && IsUpper(s[i]) ==>
      Lower(s)[i] as int == s[i] as int + 32 && 'a' <= Lower(s)[i] <= 'z'
    ensures forall i :: 0 <= i < |s| && !IsUpper(s[i]) ==> Lower(s)[i] == s[i]
  {
  }

  /** No ASCII upper-case letter occurs in `s`. */
  predicate IsLowerCase(s: string) {
    forall i :: 0 <= i < |s| ==> !IsUpper(s[i])
  }

  /** `strings.EqualFold`, for ASCII letters: equal after lower-casing.
      `EqualFoldChars` states what that means position by position. */
  predicate EqualFold(a: string, b: string)
  {
    Lower(a) == Lower(b)
  }

  /** Equal up to case means equal length and, at every position, the same
      character up to case. */
  lemma EqualFoldChars(a: string, b: string)
    ensures EqualFold(a, b) <==> |a| == |b| && forall i :: 0 <= i < |a| ==> LowerChar(a[i]) == LowerChar(b[i])
  {
    if EqualFold(a, b) {
      assert |a| == |Lower(a)| == |Lower(b)| == |b|;
      forall i | 0 <= i < |a| ensures LowerChar(a[i]) == LowerChar(b[i]) {
        assert Lower(a)[i] == Lower(b)[i];
      }
    }
    if |a| == |b| && forall i :: 0 <= i < |a| ==> LowerChar(a[i]) == LowerChar(b[i]) {
      assert forall i :: 0 <= i < |a| ==> Lower(a)[i] == Lower(b)[i];
    }
  }

  lemma LowerIsLowerCase(s: string)
    ensures IsLowerCase(Lower(s))
  {
  }

  /** Lower-casing a string that is already lower-case changes nothing. */
  lemma LowerOfLowerCase(s: string)
    requires IsLowerCase(s)
    ensures Lower(s) == s
  {
  }

  lemma LowerIdempotent(s: string)
    ensures Lower(Lower(s)) == Lower(s)
  {
    LowerIsLowerCase(s);
    LowerOfLowerCase(Lower(s));
  }

  // ---------------------------------------------------------------------
  // Searching (strings.Contains, strings.Index, strings.LastIndex)
  // ---------------------------------------------------------------------

  /** `sub` occurs in `s` starting at position `i`. */
  ghost predicate OccursAt(s: string, sub: string, i: int) {
    0 <= i && i + |sub| <= |s| && s[i..i + |sub|] == sub
  }

  /** `strings.Contains`. */
  function Contains(s: string, sub: string): (r: bool)
    ensures r <==> exists i :: OccursAt(s, sub, i)
  {
    if sub <= s then
      assert OccursAt(s, sub, 0);
      true
    else if |s| == 0 then
      false
    else
      var r := Contains(s[1..], sub);
      assert forall i :: OccursAt(s[1..], sub, i) ==> OccursAt(s, sub, i + 1) by {
        forall i | OccursAt(s[1..], sub, i) ensures OccursAt(s, sub, i + 1) {
          assert s[1..][i..i + |sub|] == s[i + 1..i + 1 + |sub|];
        }
      }
      assert forall i :: OccursAt(s, sub, i) ==> i >= 1 && OccursAt(s[1..], sub, i - 1) by {
        forall i | OccursAt(s, sub, i) ensures i >= 1 && OccursAt(s[1..], sub, i - 1) {
          assert s[1..][i - 1..i - 1 + |sub|] == s[i..i + |sub|];
        }
      }
      r
  }

  /** The first position of `c` in `s`, or -1: the split point of
      `strings.Split(s, "/")[0]` (through `BeforeFirst`) and of the
      resolution string. */
  function IndexOf(s: string, c: char): (r: int)
    ensures -1 <= r < |s|
    ensures r == -1 <==> c !in s
    ensures r >= 0 ==> s[r] == c && c !in s[..r]
  {
    if |s| == 0 then -1
    else if s[0] == c then 0
    else
      var k := IndexOf(s[1..], c);
      if k == -1 then
        assert s == [s[0]] + s[1..];
        -1
      else
        assert s[..k + 1] == [s[0]] + s[1..][..k];
        k + 1
  }

  /** `strings.LastIndex` with a one-character needle: the last position of
      `c` in `s`, or -1. */
  function LastIndexOf(s: string, c: char): (r: int)
    ensures -1 <= r < |s|
    ensures r == -1 <==> c !in s
    ensures r >= 0 ==> s[r] == c && c !in s[r + 1..]
  {
    if |s| == 0 then -1
    else if s[|s| - 1] == c then |s| - 1
    else
      var init := s[..|s| - 1];
      var k := LastIndexOf(init, c);
      assert s == init + [s[|s| - 1]];
      assert forall x :: x in s <==> x in init || x == s[|s| - 1];
      if k >= 0 then
        assert s[k + 1..] == init[k + 1..] + [s[|s| - 1]];
        k
      else
        k
  }

  /** `strings.Split(s, sep)[0]` for a one-character separator: the text before
      the first `sep`, or all of `s` when `sep` does not occur. */
  function BeforeFirst(s: string, sep: char): (r: string)
    ensures r <= s
    ensures sep !in r
    ensures r == s || s[|r|] == sep
  {
    var i := IndexOf(s, sep);
    if i < 0 then s else s[..i]
  }

  /** The text before the first `sep` ends where `sep` first occurs. */
  lemma BeforeFirstAt(s: string, sep: char, k: int)
    requires 0 <= k < |s| && s[k] == sep && sep !in s[..k]
    ensures BeforeFirst(s, sep) == s[..k]
  {
    assert s[k] in s;
  }

  /** `strings.TrimRight(s, cutset)` for a one-character cutset: removes every
      trailing `c`, not just one. */
  function TrimRight(s: string, c: char): (r: string)
    ensures r <= s
    ensures |r| == 0 || r[|r| - 1] != c
    ensures forall i :: |r| <= i < |s| ==> s[i] == c
  {
    if |s| > 0 && s[|s| - 1] == c then TrimRight(s[..|s| - 1], c) else s
  }

  // ---------------------------------------------------------------------
  // Decimal numbers (fmt "%d", strconv.Atoi)
  // ---------------------------------------------------------------------

  predicate IsDigit(c: char) {
    '0' <= c <= '9'
  }

  predicate AllDigits(s: string) {
    forall i :: 0 <= i < |s| ==> IsDigit(s[i])
  }

  function DigitChar(d: nat): (c: char)
    requires d < 10
    ensures IsDigit(c)
  {
    ('0' as int + d) as char
  }

  function DigitValue(c: char): (d: nat)
    requires IsDigit(c)
    ensures d < 10
  {
    c as int - '0' as int
  }

  /** fmt's `%d` of a non-negative integer: decimal digits, no leading zero. */
  function NatToString(n: nat): (r: string)
    ensures |r| > 0 && AllDigits(r)
    ensures r[0] == '0' ==> n == 0 && r == "0"
    decreases n
  {
    if n < 10 then [DigitChar(n)] else NatToString(n / 10) + [DigitChar(n % 10)]
  }

  /** The value of a string of decimal digits, most significant first. */
  function ParseDigits(s: string): nat
    requires AllDigits(s)
  {
    if |s| == 0 then 0 else ParseDigits(s[..|s| - 1]) * 10 + DigitValue(s[|s| - 1])
  }

  /** Reading back a formatted number gives the number. */
  lemma {:induction false} ParseNatToString(n: nat)
    ensures ParseDigits(NatToString(n)) == n
    decreases n
  {
    var s := NatToString(n);
    if n >= 10 {
      ParseNatToString(n / 10);
      assert s[..|s| - 1] == NatToString(n / 10);
    }
  }

  /** fmt's `%d` of a signed integer (the inverse partner of `Atoi`). */
  function IntToString(i: int): string {
    if i < 0 then "-" + NatToString(-i) else NatToString(i)
  }

  /** The digits of an integer literal: `s` without its one optional sign. */
  function UnsignedPart(s: string): string {
    if |s| > 0 && (s[0] == '+' || s[0] == '-') then s[1..] else s
  }

  /** `strconv.Atoi` in base 10: an optional `+` or `-` followed by at least
      one ASCII digit. Out-of-range values are not modelled (the integers here
      are unbounded). */
  function Atoi(s: string): (r: Option<int>)
    ensures r.Some? <==> |UnsignedPart(s)| > 0 && AllDigits(UnsignedPart(s))
    ensures r.Some? && |s| > 0 && s[0] == '-' ==> r.value <= 0
    ensures r.Some? && !(|s| > 0 && s[0] == '-') ==> r.value >= 0
    ensures r.Some? ==> (if s[0] == '-' then -r.value else r.value) == ParseDigits(UnsignedPart(s))
  {
    var digits := UnsignedPart(s);
    if |digits| == 0 || !AllDigits(digits) then None
    else
      var magnitude: int := ParseDigits(digits);
      Some(if s[0] == '-' then -magnitude else magnitude)
  }

  /** Atoi reads back every formatted integer. */
  lemma AtoiIntToString(i: int)
    ensures Atoi(IntToString(i)) == Some(i)
  {
    var s := IntToString(i);
    if i < 0 {
      assert UnsignedPart(s) == NatToString(-i);
      ParseNatToString(-i);
    } else {
      assert UnsignedPart(s) == NatToString(i);
      ParseNatToString(i);
    }
  }

  /** `n` zero digits. */
  function Zeros(n: nat): (r: string)
    ensures |r| == n && AllDigits(r)
  {
    seq(n, _ => '0')
  }

  /** Zero digits alone have value 0. */
  lemma {:induction false} ParseDigitsZeros(n: nat)
    ensures ParseDigits(Zeros(n)) == 0
  {
    if n > 0 {
      assert Zeros(n)[..n - 1] == Zeros(n - 1);
      ParseDigitsZeros(n - 1);
    }
  }

  /** Leading zero digits do not change the value of a digit string. */
  lemma {:induction false} ParseDigitsLeadingZeros(n: nat, d: string)
    requires AllDigits(d)
    ensures AllDigits(Zeros(n) + d)
    ensures ParseDigits(Zeros(n) + d) == ParseDigits(d)
    decreases |d|
  {
    var s := Zeros(n) + d;
    assert forall i :: 0 <= i < |s| ==> IsDigit(s[i]) by {
      forall i | 0 <= i < |s| ensures IsDigit(s[i]) {
        if i >= n { assert s[i] == d[i - n]; }
      }
    }
    if |d| == 0 {
      assert s == Zeros(n);
      ParseDigitsZeros(n);
    } else {
      var init := d[..|d| - 1];
      assert s[..|s| - 1] == Zeros(n) + init;
      assert s[|s| - 1] == d[|d| - 1];
      ParseDigitsLeadingZeros(n, init);
    }
  }

  /** A sign followed by digits: `Atoi` strips the sign and reads the digits. */
  lemma AtoiSignedDigits(sign: string, digits: string)
    requires sign == "" || sign == "+" || sign == "-"
    requires |digits| > 0 && AllDigits(digits)
    ensures Atoi(sign + digits)
            == Some(if sign == "-" then -(ParseDigits(digits) as int) else ParseDigits(digits))
  {
    var s := sign + digits;
    assert UnsignedPart(s) == digits by {
      if sign == "" {
        assert s == digits;
        assert IsDigit(s[0]);
      } else {
        assert s[1..] == digits;
      }
    }
    assert s[0] == '-' <==> sign == "-" by {
      if sign == "" {
        assert s[0] == digits[0];
        assert IsDigit(digits[0]);
      } else {
        assert s[0] == sign[0];
      }
    }
  }

  /** Every literal `Atoi` accepts, by its shape: an optional sign, any number
      of leading zeros, then a number written in `%d`. A `+` and the leading
      zeros do not change the value. */
  lemma AtoiLiteral(sign: string, zeros: nat, n: nat)
    requires sign == "" || sign == "+" || sign == "-"
    ensures Atoi(sign + Zeros(zeros) + NatToString(n)) == Some(if sign == "-" then -(n as int) else n)
  {
    var digits := Zeros(zeros) + NatToString(n);
    ParseDigitsLeadingZeros(zeros, NatToString(n));
    ParseNatToString(n);
    AtoiSignedDigits(sign, digits);
    assert sign + Zeros(zeros) + NatToString(n) == sign + digits;
  }

  /** Worked examples: Go's `strconv.Atoi` reads "+2" as 2 and "007" as 7. */
  lemma AtoiExamples()
    ensures Atoi("+2") == Some(2)
    ensures Atoi("007") == Some(7)
    ensures Atoi("-0") == Some(0)
  {
    AtoiLiteral("+", 0, 2);
    assert "+" + Zeros(0) + NatToString(2) == "+2";
    AtoiLiteral("", 2, 7);
    assert "" + Zeros(2) + NatToString(7) == "007";
    AtoiLiteral("-", 0, 0);
    assert "-" + Zeros(0) + NatToString(0) == "-0";
  }
}
