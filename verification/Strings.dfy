/** C and C++ string primitives used by the request bodies: printing and reading decimal numbers,
    `find`, and the substring constructor. */
module Strings {

  // ---------------------------------------------------------------- decimal numbers

  predicate IsDigit(c: char) { '0' <= c <= '9' }

  function Digit(d: nat): (c: char)
    requires d < 10
    ensures IsDigit(c) && DigitValue(c) == d
  {
    ('0' as int + d) as char
  }

  function DigitValue(c: char): nat
    requires IsDigit(c)
  {
    c as int - '0' as int
  }

  function NatToString(n: nat): string {
    if n < 10 then [Digit(n)] else NatToString(n / 10) + [Digit(n % 10)]
  }

  /** `%d`. */
  function Itoa(n: int): string {
    if n < 0 then "-" + NatToString(-n) else NatToString(n)
  }

  predicate IsSpace(c: char) { c == ' ' || '\t' <= c <= '\r' }

  /** The value of the digits `s` begins with, after those worth `acc`. */
  function ReadDigits(s: string, acc: nat): nat {
    if s != "" && IsDigit(s[0]) then ReadDigits(s[1..], acc * 10 + DigitValue(s[0])) else acc
  }

  /** `atoi`: blanks, a sign, digits; whatever follows is ignored. */
  function Atoi(s: string): int {
    if s != "" && IsSpace(s[0]) then Atoi(s[1..])
    else if s != "" && s[0] == '-' then 0 - ReadDigits(s[1..], 0)
    else if s != "" && s[0] == '+' then ReadDigits(s[1..], 0)
    else ReadDigits(s, 0)
  }

  predicate AllDigits(s: string) { forall i :: 0 <= i < |s| ==> IsDigit(s[i]) }

  lemma {:induction false} ReadDigitsAppend(a: string, b: string, acc: nat)
    requires AllDigits(a)
    ensures ReadDigits(a + b, acc) == ReadDigits(b, ReadDigits(a, acc))
    decreases |a|
  {
    if a == "" {
      assert a + b == b;
    } else {
      assert (a + b)[1..] == a[1..] + b;
      ReadDigitsAppend(a[1..], b, acc * 10 + DigitValue(a[0]));
    }
  }

  lemma {:induction false} NatToStringReads(n: nat)
    ensures AllDigits(NatToString(n)) && NatToString(n) != "" && ReadDigits(NatToString(n), 0) == n
    ensures n > 0 ==> NatToString(n)[0] != '0'
    ensures n == 0 ==> NatToString(n) == "0"
  {
    if n < 10 {
      assert [Digit(n)][1..] == "";
    } else {
      NatToStringReads(n / 10);
      ReadDigitsAppend(NatToString(n / 10), [Digit(n % 10)], 0);
      assert [Digit(n % 10)][1..] == "";
    }
  }

  lemma AtoiPlain(digits: string, rest: string)
    requires AllDigits(digits) && digits != "" && (rest == "" || !IsDigit(rest[0]))
    ensures Atoi(digits + rest) == ReadDigits(digits, 0)
  {
    ReadDigitsAppend(digits, rest, 0);
    assert (digits + rest)[0] == digits[0];
  }

  lemma AtoiOfMinus(s: string)
    requires s != "" && s[0] == '-'
    ensures Atoi(s) == 0 - ReadDigits(s[1..], 0)
  {
  }

  lemma AtoiSigned(s: string, digits: string, rest: string)
    requires AllDigits(digits) && (rest == "" || !IsDigit(rest[0]))
    requires s != "" && s[0] == '-' && s[1..] == digits + rest
    ensures Atoi(s) == 0 - ReadDigits(digits, 0)
  {
    ReadDigitsAppend(digits, rest, 0);
    AtoiOfMinus(s);
  }

  lemma {:induction false} AtoiMinus(digits: string, rest: string)
    requires AllDigits(digits) && (rest == "" || !IsDigit(rest[0]))
    ensures Atoi("-" + digits + rest) == 0 - ReadDigits(digits, 0)
  {
    BehindSign("-" + digits + rest, digits, rest);
    AtoiSigned("-" + digits + rest, digits, rest);
  }

  lemma BehindSign(s: string, digits: string, rest: string)
    requires s == "-" + digits + rest
    ensures s != "" && s[0] == '-' && s[1..] == digits + rest
  {
  }

  /** Reading back a printed number, whatever text follows it. */
  lemma {:induction false} AtoiReadsItoa(n: int, rest: string)
    requires rest == "" || !IsDigit(rest[0])
    ensures Atoi(Itoa(n) + rest) == n
  {
    if n < 0 {
      NatToStringReads(-n);
      AtoiMinus(NatToString(-n), rest);
    } else {
      NatToStringReads(n);
      AtoiPlain(NatToString(n), rest);
    }
  }

  /** `%d` prints a minus sign for a negative number, and then digits without leading zeros. */
  lemma ItoaForm(n: int) returns (digits: string)
    ensures AllDigits(digits) && ReadDigits(digits, 0) == (if n < 0 then 0 - n else n)
    ensures digits == "0" || (digits != "" && digits[0] != '0')
    ensures Itoa(n) == if n < 0 then "-" + digits else digits
  {
    digits := NatToString(if n < 0 then -n else n);
    NatToStringReads(if n < 0 then -n else n);
  }

  /** The value of a string of digits, from its last one. */
  lemma DigitsFromBehind(digits: string, c: char)
    requires AllDigits(digits) && IsDigit(c)
    ensures ReadDigits(digits + [c], 0) == 10 * ReadDigits(digits, 0) + (c as int - '0' as int)
    ensures ReadDigits("", 0) == 0
  {
    ReadDigitsAppend(digits, [c], 0);
    assert [c][1..] == "";
  }

  /** Neither a blank nor a sign. */
  predicate IsPlain(c: char) { c != '-' && c != '+' && c != ' ' && !('\t' <= c <= '\r') }

  /** `atoi` passes over blanks, minds one sign, and reads digits as far as they go. */
  lemma {:induction false} AtoiForm(blanks: string, sign: string, digits: string, rest: string)
    requires forall i :: 0 <= i < |blanks| ==> blanks[i] == ' ' || '\t' <= blanks[i] <= '\r'
    requires AllDigits(digits) && (rest == "" || !IsDigit(rest[0]))
    requires sign == "-" || sign == "+" || (sign == "" && (digits != "" || rest == "" || IsPlain(rest[0])))
    ensures Atoi(blanks + (sign + (digits + rest))) ==
            if sign == "-" then 0 - ReadDigits(digits, 0) else ReadDigits(digits, 0)
    decreases |blanks|
  {
    var tail := sign + (digits + rest);
    if blanks == "" {
      assert blanks + tail == tail;
      ReadDigitsAppend(digits, rest, 0);
      AtoiSign(tail, sign, digits + rest);
    } else {
      assert (blanks + tail)[1..] == blanks[1..] + tail;
      AtoiForm(blanks[1..], sign, digits, rest);
    }
  }

  lemma AtoiSign(s: string, sign: string, number: string)
    requires s == sign + number
    requires sign == "-" || sign == "+" || (sign == "" && (number == "" || IsPlain(number[0])))
    ensures Atoi(s) == if sign == "-" then 0 - ReadDigits(number, 0) else ReadDigits(number, 0)
  {
    if sign != "" {
      assert s[0] == sign[0] && s[1..] == number;
    } else {
      assert s == number;
    }
  }

  lemma AtoiReadsAll(n: int)
    ensures Atoi(Itoa(n)) == n
  {
    AtoiReadsItoa(n, "");
    assert Itoa(n) + "" == Itoa(n);
  }

  lemma {:induction false} ReadDigitsStops(s: string, rest: string, acc: nat)
    requires rest == "" || !IsDigit(rest[0])
    ensures ReadDigits(s + rest, acc) == ReadDigits(s, acc)
    decreases |s|
  {
    if s == "" {
      assert s + rest == rest;
    } else {
      assert (s + rest)[1..] == s[1..] + rest;
      if IsDigit(s[0]) {
        ReadDigitsStops(s[1..], rest, acc * 10 + DigitValue(s[0]));
      }
    }
  }

  /** A comma ends a number. */
  lemma {:induction false} AtoiStopsAtComma(s: string, rest: string)
    requires rest != "" && rest[0] == ','
    ensures Atoi(s + rest) == Atoi(s)
    decreases |s|
  {
    if s == "" {
      assert s + rest == rest;
    } else {
      assert (s + rest)[1..] == s[1..] + rest;
      if IsSpace(s[0]) {
        AtoiStopsAtComma(s[1..], rest);
      } else {
        ReadDigitsStops(s, rest, 0);
        ReadDigitsStops(s[1..], rest, 0);
      }
    }
  }

  function Pow10(k: nat): nat { if k == 0 then 1 else 10 * Pow10(k - 1) }

  lemma {:induction false} NatToStringLength(n: nat, k: nat)
    requires k >= 1 && n < Pow10(k)
    ensures |NatToString(n)| <= k
  {
    if n >= 10 {
      assert Pow10(1) == 10 * Pow10(0) == 10;
      NatToStringLength(n / 10, k - 1);
    }
  }

  /** A 32-bit number takes at most 11 characters. */
  lemma ItoaLength(n: int)
    requires -0x8000_0000 <= n < 0x8000_0000
    ensures |Itoa(n)| <= 11
  {
    assert Pow10(10) == 10000000000 by {
      assert Pow10(5) == 100000;
    }
    NatToStringLength(if n < 0 then -n else n, 10);
  }

  // ---------------------------------------------------------------- searching

  ghost predicate OccursAt(s: string, pat: string, i: int) {
    0 <= i && i + |pat| <= |s| && s[i..i + |pat|] == pat
  }

  /** `find`: the first position where `pat` occurs, or -1. */
  function FindStr(s: string, pat: string): (r: int)
    ensures r == -1 || OccursAt(s, pat, r)
    ensures forall i :: 0 <= i < (if r < 0 then |s| + 1 else r) ==> !OccursAt(s, pat, i)
  {
    FindFrom(s, pat, 0)
  }

  function FindFrom(s: string, pat: string, at: nat): (r: int)
    ensures r == -1 || (r >= at && OccursAt(s, pat, r))
    ensures forall i :: at <= i < (if r < 0 then |s| + 1 else r) ==> !OccursAt(s, pat, i)
    decreases |s| - at
  {
    if at + |pat| > |s| then -1
    else if s[at..at + |pat|] == pat then at
    else FindFrom(s, pat, at + 1)
  }

  predicate Contains(s: string, pat: string) { FindStr(s, pat) >= 0 }

  /** `string(s, at, end - at)`: when `end` lies before `at` the count wraps around and the rest
      of the string is taken. */
  function Sub(s: string, at: nat, end: int): string
    requires at <= |s|
  {
    if at <= end <= |s| then s[at..end] else s[at..]
  }

  lemma CutMiddle(a: string, m: string, c: string)
    ensures var s := a + (m + c);
            s[|a|..] == m + c && s[|a|..|a| + |m|] == m && Sub(s, |a|, |a| + |m|) == m
  {
    var s := a + (m + c);
    assert s[|a|..] == m + c;
    assert s[|a|..|a| + |m|] == m;
  }

  lemma Regroup(x: string, y: string, z: string)
    ensures x + (y + z) == (x + y) + z
  {
  }

  /** A separator: a comma at the front and nowhere else. */
  predicate IsSeparator(pat: string) {
    pat != "" && pat[0] == ',' && forall m :: 1 <= m < |pat| ==> pat[m] != ','
  }

  lemma FindUnique(s: string, pat: string, i: int)
    requires OccursAt(s, pat, i) && forall j :: 0 <= j < i ==> !OccursAt(s, pat, j)
    ensures FindStr(s, pat) == i
  {
  }

  /** Occurrences that do not cross the border are those of the parts. */
  lemma OccursInPart(x: string, rest: string, pat: string)
    ensures forall i :: i + |pat| <= |x| ==> (OccursAt(x + rest, pat, i) <==> OccursAt(x, pat, i))
    ensures forall i :: i >= |x| ==> (OccursAt(x + rest, pat, i) <==> OccursAt(rest, pat, i - |x|))
  {
    var s := x + rest;
    forall i | i + |pat| <= |x|
      ensures OccursAt(s, pat, i) <==> OccursAt(x, pat, i)
    {
      if 0 <= i {
        assert s[i..i + |pat|] == x[i..i + |pat|];
      }
    }
    forall i | i >= |x|
      ensures OccursAt(s, pat, i) <==> OccursAt(rest, pat, i - |x|)
    {
      if i + |pat| <= |s| {
        assert s[i..i + |pat|] == rest[i - |x|..i - |x| + |pat|];
      }
    }
  }

  /** Before text that begins with a comma, a separator is found in `x` or behind `x`, never
      across the border. */
  lemma {:induction false} FindBehind(x: string, rest: string, pat: string)
    requires IsSeparator(pat) && rest != "" && rest[0] == ','
    ensures FindStr(x + rest, pat) ==
            if Contains(x, pat) then FindStr(x, pat)
            else if Contains(rest, pat) then |x| + FindStr(rest, pat) else -1
  {
    var s := x + rest;
    OccursInPart(x, rest, pat);
    forall i | 0 <= i < |x| && i + |pat| > |x|
      ensures !OccursAt(s, pat, i)
    {
      assert pat[|x| - i] != ',';
      assert i + |pat| <= |s| ==> s[i..i + |pat|][|x| - i] == ',';
    }
    if Contains(x, pat) {
      FindUnique(s, pat, FindStr(x, pat));
    } else if Contains(rest, pat) {
      FindUnique(s, pat, |x| + FindStr(rest, pat));
    }
  }

  lemma LacksComma(x: string, pat: string)
    requires IsSeparator(pat) && ',' !in x
    ensures !Contains(x, pat)
  {
    forall i | 0 <= i && i + |pat| <= |x|
      ensures !OccursAt(x, pat, i)
    {
      assert x[i..i + |pat|][0] == x[i] != pat[0];
    }
  }

  /** A different separator in front is passed over. */
  lemma {:induction false} FindPast(sep: string, rest: string, pat: string, m: nat)
    requires IsSeparator(sep) && IsSeparator(pat) && m < |sep| && m < |pat| && sep[m] != pat[m]
    requires |pat| <= |sep| + |rest|
    ensures FindStr(sep + rest, pat) == if Contains(rest, pat) then |sep| + FindStr(rest, pat) else -1
  {
    var s := sep + rest;
    OccursInPart(sep, rest, pat);
    forall i | 0 <= i < |sep| && i + |pat| <= |s|
      ensures !OccursAt(s, pat, i)
    {
      assert s[i..i + |pat|][if i == 0 then m else 0] == sep[if i == 0 then m else i];
    }
    if Contains(rest, pat) {
      FindUnique(s, pat, |sep| + FindStr(rest, pat));
    }
  }

  lemma FindAtFront(pat: string, rest: string)
    ensures FindStr(pat + rest, pat) == 0
  {
    assert (pat + rest)[0..|pat|] == pat;
    FindUnique(pat + rest, pat, 0);
  }
}
