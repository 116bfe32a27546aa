/** The Aadhaar-number check of the users app: `re.match(r'^[2-9]\d{11}$',
    number)`. Two details of Python's regular expressions make it accept
    more than twelve plain digits: `$` also matches just before a newline
    that ends the string, and `\d` matches every Unicode decimal digit,
    not only `0`-`9`. `ValidateAadhaar` is the check as written; the
    strict check `ValidateAadhaarStrict` accepts exactly the twelve-digit
    renderings of the numbers from 200000000000 to 999999999999. */
module Aadhaar {

  /** Length of an Aadhaar number. */
  const AadhaarLength: nat := 12

  /** `c` is one of the ten digits of the block whose zero is `zero`. */
  predicate InBlock(c: char, zero: int) {
    zero <= c as int < zero + 10
  }

  /** What `\d` matches in a `str` pattern: the decimal digits of Unicode
      15.0 (general category Nd), which come in 68 blocks of ten, each
      block named here by the code point of its zero. */
  predicate IsUnicodeDigit(c: char) {
    || InBlock(c, 0x30) || InBlock(c, 0x660) || InBlock(c, 0x6f0) || InBlock(c, 0x7c0) || InBlock(c, 0x966) || InBlock(c, 0x9e6)
    || InBlock(c, 0xa66) || InBlock(c, 0xae6) || InBlock(c, 0xb66) || InBlock(c, 0xbe6) || InBlock(c, 0xc66) || InBlock(c, 0xce6)
    || InBlock(c, 0xd66) || InBlock(c, 0xde6) || InBlock(c, 0xe50) || InBlock(c, 0xed0) || InBlock(c, 0xf20) || InBlock(c, 0x1040)
    || InBlock(c, 0x1090) || InBlock(c, 0x17e0) || InBlock(c, 0x1810) || InBlock(c, 0x1946) || InBlock(c, 0x19d0) || InBlock(c, 0x1a80)
    || InBlock(c, 0x1a90) || InBlock(c, 0x1b50) || InBlock(c, 0x1bb0) || InBlock(c, 0x1c40) || InBlock(c, 0x1c50) || InBlock(c, 0xa620)
    || InBlock(c, 0xa8d0) || InBlock(c, 0xa900) || InBlock(c, 0xa9d0) || InBlock(c, 0xa9f0) || InBlock(c, 0xaa50) || InBlock(c, 0xabf0)
    || InBlock(c, 0xff10) || InBlock(c, 0x104a0) || InBlock(c, 0x10d30) || InBlock(c, 0x11066) || InBlock(c, 0x110f0) || InBlock(c, 0x11136)
    || InBlock(c, 0x111d0) || InBlock(c, 0x112f0) || InBlock(c, 0x11450) || InBlock(c, 0x114d0) || InBlock(c, 0x11650) || InBlock(c, 0x116c0)
    || InBlock(c, 0x11730) || InBlock(c, 0x118e0) || InBlock(c, 0x11950) || InBlock(c, 0x11c50) || InBlock(c, 0x11d50) || InBlock(c, 0x11da0)
    || InBlock(c, 0x11f50) || InBlock(c, 0x16a60) || InBlock(c, 0x16ac0) || InBlock(c, 0x16b50) || InBlock(c, 0x1d7ce) || InBlock(c, 0x1d7d8)
    || InBlock(c, 0x1d7e2) || InBlock(c, 0x1d7ec) || InBlock(c, 0x1d7f6) || InBlock(c, 0x1e140) || InBlock(c, 0x1e2f0) || InBlock(c, 0x1e4f0)
    || InBlock(c, 0x1e950) || InBlock(c, 0x1fbf0)
  }

  predicate IsAsciiDigit(c: char) {
    '0' <= c <= '9'
  }

  /** What `[2-9]` matches. */
  predicate IsLeadDigit(c: char) {
    '2' <= c <= '9'
  }

  /** `[2-9]\d{11}` matched against the first twelve characters. */
  predicate PatternBody(s: string)
    requires |s| >= AadhaarLength
  {
    IsLeadDigit(s[0]) && forall k :: 1 <= k < AadhaarLength ==> IsUnicodeDigit(s[k])
  }

  /** The strings `re.match(r'^[2-9]\d{11}$', s)` finds a match in: the body,
      then the end of the string or a final newline. */
  predicate RegexAccepts(s: string) {
    && (|s| == AadhaarLength || (|s| == AadhaarLength + 1 && s[AadhaarLength] == '\n'))
    && PatternBody(s)
  }

  /** What an Aadhaar number evidently is: twelve ASCII digits, the first of
      them 2 to 9, and nothing else. */
  predicate IsAadhaarNumber(s: string) {
    && |s| == AadhaarLength
    && IsLeadDigit(s[0])
    && forall k :: 1 <= k < AadhaarLength ==> IsAsciiDigit(s[k])
  }

  /** `validate_aadhaar_number` as written, run the way the regular
      expression engine runs the pattern: one leading digit 2-9, eleven
      decimal digits, then the end of the string or a final newline. */
  method ValidateAadhaar(number: string) returns (ok: bool)
    ensures ok <==> RegexAccepts(number)
  {
    if |number| == 0 || !IsLeadDigit(number[0]) {
      return false;
    }
    var i := 1;
    while i < AadhaarLength
      invariant 1 <= i <= AadhaarLength && i <= |number|
      invariant forall k :: 1 <= k < i ==> IsUnicodeDigit(number[k])
    {
      if i == |number| || !IsUnicodeDigit(number[i]) {
        return false;
      }
      i := i + 1;
    }
    ok := |number| == AadhaarLength || (|number| == AadhaarLength + 1 && number[AadhaarLength] == '\n');
  }

  /** The check with the evident intent: exactly twelve ASCII digits, the
      first 2 to 9, nothing after them. */
  method ValidateAadhaarStrict(number: string) returns (ok: bool)
    ensures ok <==> IsAadhaarNumber(number)
    ensures ok ==> Render(Parse(number), AadhaarLength) == number
    ensures ok ==> LowestAadhaar <= Parse(number) <= HighestAadhaar
  {
    if |number| != AadhaarLength || !IsLeadDigit(number[0]) {
      return false;
    }
    var i := 1;
    while i < AadhaarLength
      invariant 1 <= i <= AadhaarLength
      invariant forall k :: 1 <= k < i ==> IsAsciiDigit(number[k])
    {
      if !IsAsciiDigit(number[i]) {
        return false;
      }
      i := i + 1;
    }
    AadhaarParses(number);
    ok := true;
  }

  /** The ASCII digits are among the Unicode decimal digits, and they are
      the only ones below code point 128. */
  lemma AsciiDigits(c: char)
    ensures IsAsciiDigit(c) ==> IsUnicodeDigit(c)
    ensures IsUnicodeDigit(c) && c as int < 128 ==> IsAsciiDigit(c)
  {
  }

  /** The check as written never rejects a real Aadhaar number. */
  lemma AcceptsEveryAadhaarNumber(s: string)
    requires IsAadhaarNumber(s)
    ensures RegexAccepts(s)
  {
    forall k | 1 <= k < AadhaarLength
      ensures IsUnicodeDigit(s[k])
    {
      AsciiDigits(s[k]);
    }
  }

  /** Whatever the check as written accepts starts with a digit 2-9 and is
      twelve characters long, or thirteen with a final newline. */
  lemma AcceptedShape(s: string)
    requires RegexAccepts(s)
    ensures s[0] != '0' && s[0] != '1' && IsLeadDigit(s[0])
    ensures |s| == AadhaarLength || (|s| == AadhaarLength + 1 && s[|s| - 1] == '\n')
    ensures '-' !in s[..AadhaarLength] && ' ' !in s[..AadhaarLength]
  {
    forall k | 0 <= k < AadhaarLength
      ensures s[k] != '-' && s[k] != ' '
    {
      if k > 0 {
        assert IsUnicodeDigit(s[k]);
      }
    }
  }

  /** On plain ASCII text without a newline, the check as written and the
      strict check agree. */
  lemma AsciiInputAgrees(s: string)
    requires forall k :: 0 <= k < |s| ==> s[k] as int < 128 && s[k] != '\n'
    ensures RegexAccepts(s) <==> IsAadhaarNumber(s)
  {
    if RegexAccepts(s) {
      forall k | 1 <= k < AadhaarLength
        ensures IsAsciiDigit(s[k])
      {
        AsciiDigits(s[k]);
      }
    }
    if IsAadhaarNumber(s) {
      AcceptsEveryAadhaarNumber(s);
    }
  }

  /** The check as written accepts a valid number followed by a newline. */
  lemma NewlineSuffixAccepted()
    ensures RegexAccepts("234567890123\n")
    ensures !IsAadhaarNumber("234567890123\n")
  {
    AcceptsEveryAadhaarNumber("234567890123");
    assert "234567890123\n"[..AadhaarLength] == "234567890123";
  }

  /** The check as written accepts a 2 followed by eleven Devanagari
      digits (U+0966 to U+096F). */
  lemma NonAsciiDigitsAccepted()
    ensures
      var s := "2०१२३४५६७८९०";
      RegexAccepts(s) && !IsAadhaarNumber(s)
  {
    var s := "2०१२३४५६७८९०";
    forall k | 1 <= k < AadhaarLength
      ensures IsUnicodeDigit(s[k])
    {
      assert InBlock(s[k], 0x966);
    }
    assert !IsAsciiDigit(s[1]);
  }

  // Decimal rendering, used to state what the strict check accepts.

  function Pow10(k: nat): (p: nat)
    ensures p >= 1
  {
    if k == 0 then 1 else 10 * Pow10(k - 1)
  }

  const LowestAadhaar: nat := 200000000000
  const HighestAadhaar: nat := 999999999999

  function DigitValue(c: char): nat
    requires IsAsciiDigit(c)
  {
    c as nat - '0' as nat
  }

  function DigitChar(d: nat): (c: char)
    requires d < 10
    ensures IsAsciiDigit(c) && DigitValue(c) == d
  {
    ('0' as nat + d) as char
  }

  predicate AllAsciiDigits(s: string) {
    forall k :: 0 <= k < |s| ==> IsAsciiDigit(s[k])
  }

  /** The number a string of ASCII digits denotes. */
  function Parse(s: string): nat
    requires AllAsciiDigits(s)
  {
    if s == [] then 0 else Parse(s[..|s| - 1]) * 10 + DigitValue(s[|s| - 1])
  }

  /** The lowest `width` decimal digits of `n`, most significant first. */
  function Render(n: nat, width: nat): (s: string)
    ensures |s| == width && AllAsciiDigits(s)
  {
    if width == 0 then [] else Render(n / 10, width - 1) + [DigitChar(n % 10)]
  }

  /** A string of `k` digits denotes a number below `10^k`. */
  lemma {:induction false} ParseBound(s: string)
    requires AllAsciiDigits(s)
    ensures Parse(s) < Pow10(|s|)
  {
    if s != [] {
      ParseBound(s[..|s| - 1]);
    }
  }

  /** Reading a string of digits from the front: the first digit weighs
      `10^(k-1)`. */
  lemma {:induction false} ParseFront(c: char, t: string)
    requires IsAsciiDigit(c) && AllAsciiDigits(t)
    ensures AllAsciiDigits([c] + t)
    ensures Parse([c] + t) == DigitValue(c) * Pow10(|t|) + Parse(t)
  {
    var s := [c] + t;
    if t != [] {
      assert s[..|s| - 1] == [c] + t[..|t| - 1];
      ParseFront(c, t[..|t| - 1]);
    } else {
      assert s[..|s| - 1] == [];
    }
  }

  /** Rendering a string of digits back to its own width gives the string. */
  lemma {:induction false} RenderParse(s: string)
    requires AllAsciiDigits(s)
    ensures Render(Parse(s), |s|) == s
  {
    if s != [] {
      var init := s[..|s| - 1];
      RenderParse(init);
      assert Parse(s) / 10 == Parse(init);
      assert Parse(s) % 10 == DigitValue(s[|s| - 1]);
      assert s == init + [s[|s| - 1]];
    }
  }

  /** Quotient and remainder are unique. */
  lemma DivModUnique(n: int, m: int, x: int, y: int)
    requires m > 0 && 0 <= y < m && n == m * x + y
    ensures n / m == x && n % m == y
  {
    var q, r := n / m, n % m;
    var d := x - q;
    assert m * d == r - y;
    assert d >= 1 ==> m * d >= m;
    assert d <= -1 ==> m * d <= -m;
  }

  /** Division by ten peels off the lowest digit of a remainder. */
  lemma ModStep(n: nat, p: nat)
    requires p >= 1
    ensures (n / 10) % p * 10 + n % 10 == n % (10 * p)
  {
    var q, r := n / 10, n % 10;
    var a, b := q / p, q % p;
    assert q == p * a + b;
    assert n == 10 * q + r;
    assert n == (10 * p) * a + (10 * b + r);
    DivModUnique(n, 10 * p, a, 10 * b + r);
  }

  /** Parsing a rendering gives the number back, reduced to the width. */
  lemma {:induction false} ParseRender(n: nat, width: nat)
    ensures Parse(Render(n, width)) == n % Pow10(width)
  {
    if width > 0 {
      var s := Render(n, width);
      assert s[..|s| - 1] == Render(n / 10, width - 1);
      ParseRender(n / 10, width - 1);
      ModStep(n, Pow10(width - 1));
    }
  }

  /** Every Aadhaar number denotes a number in range, and rendering that
      number gives the Aadhaar number back. */
  lemma AadhaarParses(s: string)
    requires IsAadhaarNumber(s)
    ensures AllAsciiDigits(s)
    ensures LowestAadhaar <= Parse(s) <= HighestAadhaar
    ensures Render(Parse(s), AadhaarLength) == s
  {
    var t := s[1..];
    assert s == [s[0]] + t;
    assert AllAsciiDigits(t);
    ParseFront(s[0], t);
    ParseBound(t);
    var d := DigitValue(s[0]);
    assert 2 <= d <= 9;
    assert Pow10(|t|) == 100000000000;
    assert Parse(s) == d * 100000000000 + Parse(t);
    RenderParse(s);
  }

  /** Every number in range renders to an Aadhaar number that denotes it:
      together with `AadhaarParses`, the Aadhaar numbers are exactly the
      twelve-digit renderings of the numbers in range. */
  lemma RenderedAadhaar(n: nat)
    requires LowestAadhaar <= n <= HighestAadhaar
    ensures IsAadhaarNumber(Render(n, AadhaarLength))
    ensures Parse(Render(n, AadhaarLength)) == n
  {
    var s := Render(n, AadhaarLength);
    assert Pow10(12) == 1000000000000;
    ParseRender(n, AadhaarLength);
    var t := s[1..];
    assert s == [s[0]] + t;
    ParseFront(s[0], t);
    ParseBound(t);
    assert Pow10(11) == 100000000000;
    assert DigitValue(s[0]) >= 2;
  }
}
