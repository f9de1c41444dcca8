/** The kernel's number printers, which write digits backwards and turn them round in
    place, and its number parsers. */
module Numerals {
  import opened Bits
  import opened Memory
  import opened Paths

  // ---- numerals and their values ----

  function Digit(r: nat): char
    requires r < 36
  {
    if r < 10 then (r + '0' as int) as char else (r - 10 + 'a' as int) as char
  }

  /** The value of a digit, or -1; letters count in either case. */
  function DigitOf(c: char): int {
    if '0' <= c <= '9' then c as int - '0' as int
    else if 'a' <= c <= 'z' then c as int - 'a' as int + 10
    else if 'A' <= c <= 'Z' then c as int - 'A' as int + 10
    else -1
  }

  predicate IsDigit(c: char, b: nat) {
    0 <= DigitOf(c) < b
  }

  /** The number whose last digit is `d` and whose digits before that write `a`. */
  function Push(a: nat, b: nat, d: nat): nat {
    a * b + d
  }

  /** All digits of `v` but the last, as a number. */
  function Init(v: nat, b: nat): (q: nat)
    requires 2 <= b
    ensures q == 0 <==> v < b
    ensures v > 0 ==> q < v
  {
    InitShrinks(v, b);
    v / b
  }

  function Last(v: nat, b: nat): (d: nat)
    requires 2 <= b
    ensures d < b && (v < b ==> d == v)
  {
    v % b
  }

  lemma InitShrinks(v: nat, b: nat)
    requires 2 <= b
    ensures v / b == 0 <==> v < b
    ensures v > 0 ==> v / b < v
  {
    var q := v / b;
    assert v == q * b + v % b;
    if q > 0 {
      MulMono(2, b, q);
    }
  }

  lemma PushInit(v: nat, b: nat)
    requires 2 <= b
    ensures Push(Init(v, b), b, Last(v, b)) == v
  {
  }

  lemma PushUnique(x: nat, b: nat, d: nat)
    requires 2 <= b && d < b
    ensures Init(Push(x, b, d), b) == x && Last(Push(x, b, d), b) == d
    ensures x > 0 ==> Push(x, b, d) > 0
  {
    var v := Push(x, b, d);
    SameQuotient(b, x, d, v / b, v % b);
    if x > 0 {
      MulMono(1, x, b);
    }
  }

  /** The number `v` written in base `b`. */
  function Numeral(v: nat, b: nat): (t: string)
    requires 2 <= b <= 36
    ensures t != ""
  {
    (if v < b then "" else Numeral(Init(v, b), b)) + [Digit(Last(v, b))]
  }

  /** Reads digits from the front of `t`, starting from `a`, up to the first other character. */
  function Reading(t: string, b: nat, a: nat): nat {
    if t != "" && IsDigit(t[0], b) then Reading(t[1..], b, Push(a, b, DigitOf(t[0]))) else a
  }

  /** The digits in order: 0 to 9, then a to z. */
  lemma DigitsInOrder(r: nat)
    requires r < 36
    ensures r == 0 ==> Digit(r) == '0'
    ensures r == 10 ==> Digit(r) == 'a'
    ensures 0 < r && r != 10 ==> Digit(r) as int == Digit(r - 1) as int + 1
  {
  }

  lemma DigitReads(r: nat)
    requires r < 36
    ensures DigitOf(Digit(r)) == r && Digit(r) != '\0' && Digit(r) != ' ' && Digit(r) != '\t'
    ensures Digit(r) != '-' && Digit(r) != '+' && (Digit(r) == '0' <==> r == 0)
  {
  }

  /** Reading what was written gives the number back, and stops behind it. */
  lemma {:induction false} ReadingNumeral(v: nat, b: nat, rest: string)
    requires 2 <= b <= 36
    ensures Reading(Numeral(v, b) + rest, b, 0) == Reading(rest, b, v)
    decreases v
  {
    hide Push, Init, Last;
    var d := Digit(Last(v, b));
    DigitReads(Last(v, b));
    PushInit(v, b);
    assert ([d] + rest)[1..] == rest;
    if v < b {
      assert Numeral(v, b) + rest == [d] + rest;
    } else {
      assert Numeral(v, b) + rest == Numeral(Init(v, b), b) + ([d] + rest);
      ReadingNumeral(Init(v, b), b, [d] + rest);
    }
  }

  lemma ReadingWhole(v: nat, b: nat)
    requires 2 <= b <= 36
    ensures Reading(Numeral(v, b), b, 0) == v
  {
    ReadingNumeral(v, b, "");
    assert Numeral(v, b) + "" == Numeral(v, b);
  }

  lemma {:induction false} NumeralDigits(v: nat, b: nat)
    requires 2 <= b <= 36
    ensures forall k :: 0 <= k < |Numeral(v, b)| ==> IsDigit(Numeral(v, b)[k], b) && Numeral(v, b)[k] != '\0'
    ensures Numeral(v, b)[0] == '0' <==> v == 0
    ensures Numeral(v, b)[0] !in {' ', '\t', '-', '+'}
    ensures v == 0 ==> Numeral(v, b) == "0"
    decreases v
  {
    hide Init, Last;
    DigitReads(Last(v, b));
    if v >= b {
      NumeralDigits(Init(v, b), b);
    }
  }

  lemma {:induction false} ReadingAppend(t: string, c: char, b: nat, a: nat)
    requires forall k :: 0 <= k < |t| ==> IsDigit(t[k], b)
    requires IsDigit(c, b)
    ensures Reading(t + [c], b, a) == Push(Reading(t, b, a), b, DigitOf(c))
    decreases |t|
  {
    hide Push;
    if t == "" {
      assert [c][1..] == "";
    } else {
      assert (t + [c])[1..] == t[1..] + [c];
      ReadingAppend(t[1..], c, b, Push(a, b, DigitOf(t[0])));
    }
  }

  /** A digit string as the printers write them: no capital letter, no leading zero. */
  predicate Canonical(t: string, b: nat) {
    && t != "" && (forall k :: 0 <= k < |t| ==> IsDigit(t[k], b) && !('A' <= t[k] <= 'Z'))
    && (|t| > 1 ==> t[0] != '0')
  }

  /** The printed numeral is the only canonical string with its value. */
  lemma {:induction false} NumeralUnique(t: string, b: nat)
    requires 2 <= b <= 36 && Canonical(t, b)
    ensures Numeral(Reading(t, b, 0), b) == t
    ensures Reading(t, b, 0) == 0 ==> t == "0"
    decreases |t|
  {
    hide Push, Init, Last, Reading;
    var n := |t| - 1;
    var u, c := t[..n], t[n];
    assert t == u + [c];
    ReadingAppend(u, c, b, 0);
    var d := DigitOf(c);
    assert Digit(d) == c;
    var x := Reading(u, b, 0);
    PushUnique(x, b, d);
    if n > 0 {
      assert u[0] == t[0];
      NumeralUnique(u, b);
    } else {
      NothingRead(b);
      assert u == "" && t == [c];
    }
  }

  lemma NothingRead(b: nat)
    ensures Reading("", b, 0) == 0
    ensures forall d :: Push(0, b, d) == d
  {
  }

  function Power(b: nat, n: nat): nat {
    if n == 0 then 1 else b * Power(b, n - 1)
  }

  /** A numeral has at most `n` digits exactly when the number is below the `n`-th power. */
  lemma {:induction false} NumeralLength(v: nat, b: nat, n: nat)
    requires 2 <= b <= 36 && n > 0
    ensures |Numeral(v, b)| <= n <==> v < Power(b, n)
    decreases n
  {
    hide Init, Last, Power;
    BelowPower(v, b, n);
    PowerPositive(b, n - 1);
    if v >= b && n > 1 {
      NumeralLength(Init(v, b), b, n - 1);
    } else if n == 1 {
      PowerZero(b);
    }
  }

  lemma PowerZero(b: nat)
    ensures Power(b, 0) == 1
  {
  }

  lemma {:induction false} PowerPositive(b: nat, n: nat)
    requires 1 <= b
    ensures Power(b, n) >= 1
  {
    if n > 0 {
      PowerPositive(b, n - 1);
      MulMono(1, b, Power(b, n - 1));
    }
  }

  /** One digit less is one power less. */
  lemma BelowPower(v: nat, b: nat, n: nat)
    requires 2 <= b && n > 0
    ensures Init(v, b) < Power(b, n - 1) <==> v < Power(b, n)
  {
    hide Init, Last;
    PushInit(v, b);
    BelowProduct(Init(v, b), Last(v, b), b, Power(b, n - 1));
  }

  lemma BelowProduct(q: int, r: int, b: int, p: int)
    requires 0 <= r < b
    ensures q < p <==> q * b + r < b * p
  {
    assert (q + 1) * b == q * b + b && p * b == b * p;
    if q < p {
      MulMono(q + 1, p, b);
    } else {
      MulMono(p, q, b);
    }
  }

  /** How much room a 32-bit number needs: 32 digits in base 2, 10 in base 10, 8 in base 16;
      one character more for a sign. */
  lemma DigitsNeeded(v: Word)
    ensures |Numeral(v, 2)| <= 32 && |Numeral(v, 10)| <= 10 && |Numeral(v, 16)| <= 8
  {
    PowersNeeded();
    NumeralLength(v, 2, 32);
    NumeralLength(v, 10, 10);
    NumeralLength(v, 16, 8);
  }

  lemma PowersNeeded()
    ensures Power(2, 32) == 0x1_0000_0000 && Power(10, 10) == 10_000_000_000 && Power(16, 8) == 0x1_0000_0000
  {
    assert Power(2, 8) == 0x100;
    assert Power(2, 16) == 0x1_0000;
    assert Power(2, 24) == 0x100_0000;
    assert Power(10, 5) == 100_000;
    assert Power(16, 4) == 0x1_0000;
  }

  lemma SignedDigitsNeeded(v: int)
    requires -0x8000_0000 <= v < 0x8000_0000
    ensures |SignedNumeral(v)| <= 11
  {
    DigitsNeeded(if v < 0 then -v else v);
  }

  // ---- the text that the parsers see ----

  predicate Blank(c: char) {
    c == ' ' || c == '\t'
  }

  function SkipBlanks(t: string): string {
    if t != "" && Blank(t[0]) then SkipBlanks(t[1..]) else t
  }

  /** What `atox` reads: blanks, an optional prefix, hexadecimal digits; modulo 2^32. */
  function HexText(t: string): nat {
    var u := SkipBlanks(t);
    var digits := if |u| >= 2 && u[0] == '0' && (u[1] == 'x' || u[1] == 'X') then u[2..] else u;
    Reading(digits, 16, 0) % 0x1_0000_0000
  }

  /** What `atoi` reads: blanks, an optional sign, decimal digits. */
  function DecText(t: string): int {
    var u := SkipBlanks(t);
    if u != "" && u[0] == '-' then 0 - Reading(u[1..], 10, 0)
    else if u != "" && u[0] == '+' then Reading(u[1..], 10, 0)
    else Reading(u, 10, 0)
  }

  /** Hexadecimal printing and parsing are inverse on every 32-bit number. */
  lemma HexRoundTrip(v: Word)
    ensures HexText(Numeral(v, 16)) == v
  {
    hide Numeral, Reading, Push;
    NumeralDigits(v, 16);
    ReadingWhole(v, 16);
  }

  lemma {:induction false} BlanksSkipped(blanks: string, t: string)
    requires forall k :: 0 <= k < |blanks| ==> blanks[k] == ' ' || blanks[k] == '\t'
    ensures SkipBlanks(blanks + t) == SkipBlanks(t)
    ensures t == "" || (t[0] != ' ' && t[0] != '\t') ==> SkipBlanks(blanks + t) == t
    decreases |blanks|
  {
    if blanks == "" {
      assert blanks + t == t;
    } else {
      assert (blanks + t)[1..] == blanks[1..] + t;
      BlanksSkipped(blanks[1..], t);
    }
  }

  /** Blanks before a number and a prefix of either case change nothing; nor does what comes
      behind the digits. */
  lemma HexPrefixed(blanks: string, x: char, v: Word, rest: string)
    requires (forall k :: 0 <= k < |blanks| ==> blanks[k] == ' ' || blanks[k] == '\t') && (x == 'x' || x == 'X')
    requires rest == "" || !IsDigit(rest[0], 16)
    ensures HexText(blanks + ("0" + [x] + Numeral(v, 16) + rest)) == v
  {
    hide Numeral, Push;
    var t := "0" + [x] + Numeral(v, 16) + rest;
    BlanksSkipped(blanks, t);
    assert t[0] == '0' && t[1] == x && t[2..] == Numeral(v, 16) + rest;
    ReadingNumeral(v, 16, rest);
  }

  /** Likewise in base 10, with a sign of either kind or none. */
  lemma DecSigned(blanks: string, sign: string, v: nat, rest: string)
    requires (forall k :: 0 <= k < |blanks| ==> blanks[k] == ' ' || blanks[k] == '\t') && sign in {"", "+", "-"}
    requires rest == "" || !IsDigit(rest[0], 10)
    ensures DecText(blanks + (sign + Numeral(v, 10) + rest)) == if sign == "-" then 0 - v else v
  {
    hide Numeral, Push, Reading;
    var n := Numeral(v, 10);
    var t := sign + n + rest;
    BlanksSkipped(blanks, t);
    NumeralDigits(v, 10);
    ReadingNumeral(v, 10, rest);
    ReadingStops(rest, 10, v);
    if sign == "" {
      assert t == n + rest && t[0] == n[0];
    } else {
      assert t[0] == sign[0] && t[1..] == n + rest;
    }
  }

  lemma ReadingStops(rest: string, b: nat, a: nat)
    requires rest == "" || !IsDigit(rest[0], b)
    ensures Reading(rest, b, a) == a
  {
  }

  /** What `itoa` writes in base 10. */
  function SignedNumeral(v: int): string {
    if v < 0 then "-" + Numeral(-v, 10) else Numeral(v, 10)
  }

  /** Decimal printing and parsing are inverse on every number, sign included. */
  lemma DecRoundTrip(v: int)
    ensures DecText(SignedNumeral(v)) == v
  {
    hide Numeral, Reading, Push;
    var n := if v < 0 then -v else v;
    var t := Numeral(n, 10);
    NumeralDigits(n, 10);
    ReadingWhole(n, 10);
    if v < 0 {
      assert ("-" + t)[1..] == t;
    }
  }

  // ---- the printers ----

  function Reverse(t: string): (r: string)
    ensures |r| == |t|
  {
    seq(|t|, i requires 0 <= i < |t| => t[|t| - 1 - i])
  }

  lemma ReverseAppend(t: string, c: char)
    ensures Reverse(t + [c]) == [c] + Reverse(t)
  {
  }

  /** The loop that turns the first `n` characters round. */
  method ReverseInPlace(buf: array<char>, n: nat)
    requires n <= buf.Length
    modifies buf
    ensures buf[..] == Reverse(old(buf[..n])) + old(buf[n..])
  {
    var start, end := 0, n - 1;
    while start < end
      invariant 0 <= start <= end + 2 && start + end == n - 1
      invariant forall k :: 0 <= k < start || end < k < n ==> buf[k] == old(buf[n - 1 - k])
      invariant forall k :: start <= k <= end || n <= k < buf.Length ==> buf[k] == old(buf[k])
    {
      buf[start], buf[end] := buf[end], buf[start];
      start := start + 1;
      end := end - 1;
    }
    forall k | 0 <= k < buf.Length
      ensures buf[..][k] == (Reverse(old(buf[..n])) + old(buf[n..]))[k]
    {
      assert k < n && start <= k <= end ==> k == n - 1 - k;
    }
  }

  /** The digit loop of both printers, which runs at least once: the digits of `val` from
      the last to the first, starting at the front of the buffer. */
  method EmitDigits(val: Word, buf: array<char>, base: nat) returns (n: nat)
    requires 2 <= base <= 36 && |Numeral(val, base)| <= buf.Length
    modifies buf
    ensures n == |Numeral(val, base)| && Reverse(buf[..n]) == Numeral(val, base)
    ensures forall k :: n <= k < buf.Length ==> buf[k] == old(buf[k])
  {
    var v: nat := val;
    n := 0;
    assert Reverse(buf[..0]) == "";
    while true
      invariant n + |Numeral(v, base)| == |Numeral(val, base)|
      invariant Numeral(v, base) + Reverse(buf[..n]) == Numeral(val, base)
      invariant forall k :: n <= k < buf.Length ==> buf[k] == old(buf[k])
      decreases v
    {
      var rem := v % base;
      ghost var done := buf[..n];
      buf[n] := if rem < 10 then (rem + '0' as int) as char else (rem - 10 + 'a' as int) as char;
      assert buf[..n + 1] == done + [Digit(rem)];
      ReverseAppend(done, Digit(rem));
      n := n + 1;
      NumeralStep(v, base, Reverse(done));
      v := v / base;
      if v == 0 {
        break;
      }
    }
  }

  lemma NumeralStep(v: nat, b: nat, rest: string)
    requires 2 <= b <= 36
    ensures Numeral(v, b) + rest == (if v / b == 0 then "" else Numeral(v / b, b)) + ([Digit(v % b)] + rest)
    ensures |Numeral(v, b)| == (if v / b == 0 then 0 else |Numeral(v / b, b)|) + 1
    ensures v > 0 ==> v / b < v
  {
    InitShrinks(v, b);
    assert v / b == Init(v, b) && v % b == Last(v, b);
  }

  /** `buf` holds the string `t` with its terminator, and beyond it what it held before. */
  twostate predicate Holds(buf: array<char>, t: string)
    reads buf
  {
    && |t| < buf.Length && buf[..|t|] == t && buf[|t|] == '\0'
    && forall k :: |t| < k < buf.Length ==> buf[k] == old(buf[k])
  }

  /** `utoa`. The buffer has to have room for the number. */
  method Utoa(val: Word, buf: array<char>, base: int)
    requires buf.Length > if 2 <= base <= 36 then |Numeral(val, base)| else 0
    modifies buf
    ensures Holds(buf, if 2 <= base <= 36 then Numeral(val, base) else "")
  {
    if base < 2 || base > 36 {
      buf[0] := '\0';
      return;
    }
    var n := EmitDigits(val, buf, base);
    Finish(buf, n);
  }

  /** Writes the terminator behind `n` characters and turns them round. */
  method Finish(buf: array<char>, n: nat)
    requires n < buf.Length
    modifies buf
    ensures buf[..n] == Reverse(old(buf[..n])) && buf[n] == '\0'
    ensures forall k :: n < k < buf.Length ==> buf[k] == old(buf[k])
  {
    buf[n] := '\0';
    assert buf[..n] == old(buf[..n]);
    ghost var rest := buf[n..];
    ReverseInPlace(buf, n);
    assert buf[..n] == buf[..][..n];
    forall k | n <= k < buf.Length
      ensures buf[k] == rest[k - n]
    {
      assert buf[k] == buf[..][k];
    }
  }

  /** `itoa`, away from the one decimal number that has no negation. */
  method Itoa(v: int, buf: array<char>, base: int)
    requires -0x8000_0000 <= v < 0x8000_0000 && !(base == 10 && v == -0x8000_0000)
    requires buf.Length > if base == 10 then |SignedNumeral(v)|
                          else if 2 <= base <= 36 then |Numeral(v % 0x1_0000_0000, base)|
                          else 0
    modifies buf
    ensures Holds(buf, if base == 10 then SignedNumeral(v)
                       else if 2 <= base <= 36 then Numeral(v % 0x1_0000_0000, base)
                       else "")
  {
    if base < 2 || base > 36 {
      buf[0] := '\0';
      return;
    }
    hide Numeral, Reverse;
    var sign := v < 0 && base == 10;
    var val := if sign then -v else v;
    assert val >= 0 ==> val % 0x1_0000_0000 == val;
    var n := EmitDigits(val % 0x1_0000_0000, buf, base);
    if sign {
      AddSign(buf, n);
      n := n + 1;
    }
    Finish(buf, n);
  }

  /** The minus sign goes behind the digits, which are still back to front. */
  method AddSign(buf: array<char>, n: nat)
    requires n < buf.Length
    modifies buf
    ensures Reverse(buf[..n + 1]) == "-" + Reverse(old(buf[..n]))
    ensures forall k :: n < k < buf.Length ==> buf[k] == old(buf[k])
  {
    buf[n] := '-';
    assert buf[..n + 1] == old(buf[..n]) + ['-'];
    ReverseAppend(old(buf[..n]), '-');
  }

  // ---- the parsers ----

  /** The first loop of both parsers. */
  method SkipBlanksAt(s: seq<char>, p: nat) returns (i: nat)
    requires Terminated(s) && p < |s|
    ensures p <= i < |s| && CString(s, i) == SkipBlanks(CString(s, p))
  {
    i := p;
    while s[i] == ' ' || s[i] == '\t'
      invariant p <= i < |s| && SkipBlanks(CString(s, i)) == SkipBlanks(CString(s, p))
      decreases |s| - i
    {
      assert CString(s, i)[1..] == CString(s, i + 1);
      i := i + 1;
    }
  }

  lemma ModStep(full: nat, d: nat)
    ensures ((full % 0x1_0000_0000) * 16 % 0x1_0000_0000 + d) % 0x1_0000_0000 == Push(full, 16, d) % 0x1_0000_0000
  {
    var quotient, rest := full / 0x1_0000_0000, full % 0x1_0000_0000;
    SameResidue(full * 16 + d, rest * 16 + d, quotient * 16);
    SameResidue(rest * 16 + d, rest * 16 % 0x1_0000_0000 + d, rest * 16 / 0x1_0000_0000);
  }

  lemma SameResidue(x: int, y: int, k: int)
    requires x == y + k * 0x1_0000_0000
    ensures x % 0x1_0000_0000 == y % 0x1_0000_0000
  {
  }

  lemma ShiftedWord(res: Word)
    ensures res * 16 % 0x1_0000_0000 == 16 * (res % 0x1000_0000)
  {
  }

  /** A shift by four leaves room for a hexadecimal digit. */
  lemma ShiftAndJoin(res: Word, d: nat)
    requires d < 16
    ensures Or(res * 16 % 0x1_0000_0000, d) == res * 16 % 0x1_0000_0000 + d < 0x1_0000_0000
  {
    ShiftedWord(res);
    JoinDigit(res % 0x1000_0000, d);
  }

  lemma JoinDigit(k: nat, d: nat)
    requires d < 16
    ensures Or(16 * k, d) == 16 * k + d
  {
    assert Pow2(4) == 16;
    hide Or, Shr, Low, Pow2;
    SplitDiv(16 * k, 4, 16);
    SameQuotient(16, k, 0, 16 * k / 16, 16 * k % 16);
    OrDisjoint(16 * k, d, 4);
  }

  /** `atox` on the string at the front of `s`. */
  method Atox(s: seq<char>) returns (res: Word)
    requires Terminated(s)
    ensures res == HexText(CString(s, 0))
  {
    hide Or, SkipBlanks, Push;
    res := 0;
    var i := SkipBlanksAt(s, 0);
    if s[i] == '0' && (s[i + 1] == 'x' || s[i + 1] == 'X') {
      assert CString(s, i)[2..] == CString(s, i + 2);
      i := i + 2;
    } else {
      assert |CString(s, i)| >= 2 ==> CString(s, i)[1] == s[i + 1];
    }
    ghost var full: nat, digits := 0, CString(s, i);
    while s[i] != '\0'
      invariant 0 <= i < |s| && res == full % 0x1_0000_0000
      invariant Reading(CString(s, i), 16, full) == Reading(digits, 16, 0)
      decreases |s| - i
    {
      var c := s[i];
      var val := 0;
      if '0' <= c <= '9' {
        val := c as int - '0' as int;
      } else if 'a' <= c <= 'f' {
        val := c as int - 'a' as int + 10;
      } else if 'A' <= c <= 'F' {
        val := c as int - 'A' as int + 10;
      } else {
        break;
      }
      assert CString(s, i)[1..] == CString(s, i + 1);
      ShiftAndJoin(res, val);
      ModStep(full, val);
      res := Or(res * 16 % 0x1_0000_0000, val);
      full := Push(full, 16, val);
      i := i + 1;
    }
  }

  /** `atoi` on the string at the front of `s`, for numbers in range. */
  method Atoi(s: seq<char>) returns (r: int)
    requires Terminated(s) && -0x8000_0000 < DecText(CString(s, 0)) < 0x8000_0000
    ensures r == DecText(CString(s, 0))
  {
    hide Push, SkipBlanks;
    var res: nat, sign := 0, 1;
    var i := SkipBlanksAt(s, 0);
    if s[i] == '-' {
      assert CString(s, i)[1..] == CString(s, i + 1);
      sign := -1;
      i := i + 1;
    } else if s[i] == '+' {
      assert CString(s, i)[1..] == CString(s, i + 1);
      i := i + 1;
    }
    ghost var digits := CString(s, i);
    while '0' <= s[i] <= '9'
      invariant 0 <= i < |s|
      invariant Reading(CString(s, i), 10, res) == Reading(digits, 10, 0)
      decreases |s| - i
    {
      ReadingGrows(CString(s, i), 10, res);
      assert res < 0x8000_0000;
      assert CString(s, i)[1..] == CString(s, i + 1);
      PushIs(res, 10, s[i] as int - '0' as int);
      res := res * 10 + (s[i] as int - '0' as int);
      i := i + 1;
    }
    r := res * sign;
  }

  lemma {:induction false} ReadingGrows(t: string, b: nat, a: nat)
    requires 1 <= b
    ensures a <= Reading(t, b, a)
    decreases |t|
  {
    hide Push;
    if t != "" && IsDigit(t[0], b) {
      PushGrows(a, b, DigitOf(t[0]));
      ReadingGrows(t[1..], b, Push(a, b, DigitOf(t[0])));
    }
  }

  lemma PushIs(a: nat, b: nat, d: nat)
    ensures Push(a, b, d) == a * b + d
  {
  }

  lemma PushGrows(a: nat, b: nat, d: nat)
    requires 1 <= b
    ensures a <= Push(a, b, d)
  {
    MulMono(1, b, a);
  }

  // ---- through the buffer and back ----

  lemma BufferText(s: seq<char>, t: string)
    requires |t| < |s| && s[..|t|] == t && s[|t|] == '\0' && '\0' !in t
    ensures Terminated(s[..|t| + 1]) && CString(s[..|t| + 1], 0) == t
  {
    var u := s[..|t| + 1];
    assert u[0..|t|] == t;
    CStringRun(u, 0, |t|);
  }

  /** Printing any 32-bit number in base 16 and parsing the buffer gives it back. */
  method PrintThenParseHex(v: Word, buf: array<char>) returns (r: Word)
    requires buf.Length > |Numeral(v, 16)|
    modifies buf
    ensures r == v
  {
    Utoa(v, buf, 16);
    ghost var t := Numeral(v, 16);
    NumeralDigits(v, 16);
    BufferText(buf[..], t);
    HexRoundTrip(v);
    assert buf[..][..|t| + 1] == buf[..|t| + 1];
    r := Atox(buf[..|Numeral(v, 16)| + 1]);
  }

  /** Printing any 32-bit number above the least in base 10 and parsing gives it back. */
  method PrintThenParseDec(v: int, buf: array<char>) returns (r: int)
    requires -0x8000_0000 < v < 0x8000_0000 && buf.Length > |SignedNumeral(v)|
    modifies buf
    ensures r == v
  {
    Itoa(v, buf, 10);
    ghost var t := SignedNumeral(v);
    NumeralDigits(if v < 0 then -v else v, 10);
    BufferText(buf[..], t);
    DecRoundTrip(v);
    assert buf[..][..|t| + 1] == buf[..|t| + 1];
    r := Atoi(buf[..|SignedNumeral(v)| + 1]);
  }
}
