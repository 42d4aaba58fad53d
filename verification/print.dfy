/** `itoa`: digits written backwards into a buffer, which is then reversed in place. */
module Print {
  import opened Words

  type int32 = x: int | -TWO_31 <= x < TWO_31

  predicate IsDivisor(b: nat) { b == 10 || b == 16 }

  function Divisor(base: char): (b: nat)
    ensures IsDivisor(b)
  {
    if base == 'x' then 16 else 10
  }

  predicate Negated(base: char, num: int32) {
    num < 0 && base == 'd'
  }

  /** The unsigned word whose digits are written. */
  function Magnitude(base: char, num: int32): u32 {
    var n: int := num;
    if Negated(base, num) then -n else U32(n)
  }

  function Digit(d: nat): char
    requires d < 16
  {
    if d < 10 then '0' + d as char else 'a' + (d - 10) as char
  }

  function DigitValue(c: char): nat {
    if '0' <= c <= '9' then (c - '0') as nat else if 'a' <= c <= 'f' then (c - 'a') as nat + 10 else 0
  }

  /** The numeral of `n`, most significant digit first. */
  function Numeral(n: nat, b: nat): (s: string)
    requires IsDivisor(b)
    ensures |s| >= 1
  {
    if n < b then [Digit(n)] else Numeral(n / b, b) + [Digit(n % b)]
  }

  function Text(base: char, num: int32): string {
    (if Negated(base, num) then "-" else "") + Numeral(Magnitude(base, num), Divisor(base))
  }

  /** What a reader makes of a numeral. */
  function Parse(s: string, b: nat): nat {
    if s == [] then 0 else Parse(s[..|s| - 1], b) * b + DigitValue(s[|s| - 1])
  }

  /** Only digits of the radix, lower-case letters among them. */
  predicate IsNumeral(s: string, b: nat) {
    s != [] && forall i :: 0 <= i < |s| ==>
      '0' <= s[i] <= '9' || (b == 16 && 'a' <= s[i] <= 'f')
  }

  /** A decimal reader that knows a minus sign. */
  predicate IsSigned(s: string) {
    if s != [] && s[0] == '-' then IsNumeral(s[1..], 10) else IsNumeral(s, 10)
  }

  function ParseSigned(s: string): int {
    if s != [] && s[0] == '-' then -(Parse(s[1..], 10) as int) else Parse(s, 10)
  }

  lemma Quotient(n: nat, b: nat)
    requires IsDivisor(b)
    ensures n == n / b * b + n % b && (n > 0 ==> n / b < n) && (n / b == 0 <==> n < b)
  {
  }

  lemma {:induction false} ParseNumeral(n: nat, b: nat)
    requires IsDivisor(b)
    ensures Parse(Numeral(n, b), b) == n
  {
    var s := Numeral(n, b);
    Quotient(n, b);
    if n < b {
      assert s[..0] == [];
    } else {
      ParseNumeral(n / b, b);
      assert s[..|s| - 1] == Numeral(n / b, b);
    }
  }

  lemma {:induction false} NumeralShape(n: nat, b: nat)
    requires IsDivisor(b)
    ensures Numeral(n, b)[0] != '-'
    ensures Numeral(n, b)[0] == '0' ==> n == 0
  {
    if n >= b {
      Quotient(n, b);
      NumeralShape(n / b, b);
    }
  }

  lemma {:induction false} NumeralDigits(n: nat, b: nat)
    requires IsDivisor(b)
    ensures IsNumeral(Numeral(n, b), b)
  {
    Quotient(n, b);
    if n >= b {
      NumeralDigits(n / b, b);
    }
  }

  /**
   * What is written reads back as the number: 'x' as an unsigned word in hexadecimal, 'd' as a
   * signed number in decimal, and every other letter, 'u' among them, as an unsigned word in
   * decimal.
   */
  lemma RoundTrip(base: char, num: int32)
    ensures base == 'x' ==> IsNumeral(Text(base, num), 16) && Parse(Text(base, num), 16) == U32(num)
    ensures base == 'd' ==> IsSigned(Text(base, num)) && ParseSigned(Text(base, num)) == num
    ensures base != 'x' && base != 'd' ==> IsNumeral(Text(base, num), 10) && Parse(Text(base, num), 10) == U32(num)
  {
    if Negated(base, num) {
      MinusReads(num);
    } else {
      PlainReads(base, num);
      if base == 'd' {
        PlainSigned(Text(base, num), num);
      }
    }
  }

  lemma PlainReads(base: char, num: int32)
    requires !Negated(base, num)
    ensures var s, b := Text(base, num), if base == 'x' then 16 else 10;
            IsNumeral(s, b) && Parse(s, b) == U32(num) && s[0] != '-'
  {
    var s := Numeral(Magnitude(base, num), Divisor(base));
    assert "" + s == s;
    NumeralReads(Magnitude(base, num), Divisor(base));
  }

  lemma PlainSigned(s: string, num: int32)
    requires num >= 0 && IsNumeral(s, 10) && s[0] != '-' && Parse(s, 10) == U32(num)
    ensures IsSigned(s) && ParseSigned(s) == num
  {
  }

  lemma NumeralReads(n: nat, b: nat)
    requires IsDivisor(b)
    ensures var s := Numeral(n, b); IsNumeral(s, b) && Parse(s, b) == n && s[0] != '-'
  {
    ParseNumeral(n, b);
    NumeralShape(n, b);
    NumeralDigits(n, b);
  }

  lemma MinusReads(num: int32)
    requires Negated('d', num)
    ensures IsSigned(Text('d', num)) && ParseSigned(Text('d', num)) == num
  {
    var s := Numeral(Magnitude('d', num), 10);
    NumeralReads(Magnitude('d', num), 10);
    assert Text('d', num) == "-" + s;
    assert ("-" + s)[1..] == s;
  }

  /** No leading zeroes: only the number 0 starts with one. */
  lemma NoLeadingZero(base: char, num: int32)
    ensures var digits := if Negated(base, num) then Text(base, num)[1..] else Text(base, num);
            digits != [] && (digits[0] == '0' ==> num == 0 && digits == "0")
  {
    NumeralShape(Magnitude(base, num), Divisor(base));
    var digits := Numeral(Magnitude(base, num), Divisor(base));
    if Negated(base, num) {
      assert Text(base, num)[1..] == digits;
    } else {
      assert Text(base, num) == digits;
    }
  }

  /** Every digit more stands for ten times as much. */
  lemma {:induction false} NumeralLength(n: nat, b: nat, k: nat, limit: nat)
    requires IsDivisor(b) && k >= 1 && n < 10 * limit && limit == Power10(k - 1)
    ensures |Numeral(n, b)| <= k
  {
    if n >= b {
      Quotient(n, b);
      if k > 1 {
        assert limit == 10 * Power10(k - 2);
        assert n / b < limit by {
          if b == 10 {
          } else {
          }
        }
        NumeralLength(n / b, b, k - 1, Power10(k - 2));
      }
    }
  }

  function Power10(k: nat): nat {
    if k == 0 then 1 else 10 * Power10(k - 1)
  }

  /** With its terminator the text is at most 12 bytes. */
  lemma TextFits(base: char, num: int32)
    ensures |Numeral(Magnitude(base, num), Divisor(base))| <= 10
    ensures |Text(base, num)| + 1 <= 12
  {
    assert Power10(3) == 1000;
    assert Power10(6) == 1000000;
    assert Power10(9) == 1000000000;
    NumeralLength(Magnitude(base, num), Divisor(base), 10, Power10(9));
  }

  function Reversed(s: string): (r: string)
    ensures |r| == |s|
  {
    seq(|s|, i requires 0 <= i < |s| => s[|s| - 1 - i])
  }

  lemma ReversedAppend(s: string, c: char, before: string)
    ensures before + Reversed(s + [c]) == (before + [c]) + Reversed(s)
  {
  }

  /** Digits still to be written. */
  function Rest(n: nat, more: bool, b: nat): string
    requires IsDivisor(b)
  {
    if more then Numeral(n, b) else []
  }

  lemma LastDigit(n: nat, b: nat)
    requires IsDivisor(b)
    ensures n % b < 16 && n / b <= n && (n / b != 0 ==> n / b < n)
    ensures Numeral(n, b) == Rest(n / b, n / b != 0, b) + [Digit(n % b)]
  {
  }

  /** The digit loop: least significant digit first, from position `start` on. */
  method WriteDigits(buf: array<char>, start: nat, number: u32, divisor: nat) returns (p: nat)
    requires IsDivisor(divisor) && start + |Numeral(number, divisor)| <= buf.Length
    modifies buf
    ensures start <= p <= buf.Length && Reversed(buf[start..p]) == Numeral(number, divisor)
    ensures forall k :: 0 <= k < buf.Length && !(start <= k < p) ==> buf[k] == old(buf[k])
  {
    p := start;
    var unum: u32, more := number, true;
    while more
      invariant start <= p <= buf.Length
      invariant Rest(unum, more, divisor) + Reversed(buf[start..p]) == Numeral(number, divisor)
      invariant forall k :: 0 <= k < buf.Length && !(start <= k < p) ==> buf[k] == old(buf[k])
      decreases more, unum
    {
      ghost var before, total := buf[start..p], Numeral(number, divisor);
      assert |Numeral(unum, divisor)| + (p - start) == |total|;
      LastDigit(unum, divisor);
      ReversedAppend(before, Digit(unum % divisor), Rest(unum / divisor, unum / divisor != 0, divisor));
      buf[p] := Digit(unum % divisor);
      p := p + 1;
      assert buf[start..p] == before + [Digit(unum % divisor)];
      unum := unum / divisor;
      more := unum != 0;
    }
  }

  /** Swaps from both ends until the pointers meet. */
  method ReverseInPlace(buf: array<char>, start: nat, end: nat)
    requires start <= end <= buf.Length
    modifies buf
    ensures buf[start..end] == Reversed(old(buf[start..end]))
    ensures forall k :: 0 <= k < buf.Length && !(start <= k < end) ==> buf[k] == old(buf[k])
  {
    var p1, p2 := start, end - 1;
    while p1 < p2
      invariant start <= p1 && p2 < end && p1 - start == end - 1 - p2 && p1 <= p2 + 1
      invariant forall k :: 0 <= k < buf.Length && !(start <= k < end) ==> buf[k] == old(buf[k])
      invariant forall k :: p1 <= k <= p2 ==> buf[k] == old(buf[k])
      invariant forall k :: start <= k < p1 || p2 < k < end ==> buf[k] == old(buf[start + end - 1 - k])
    {
      buf[p1], buf[p2] := buf[p2], buf[p1];
      p1 := p1 + 1;
      p2 := p2 - 1;
    }
    ghost var was := old(buf[start..end]);
    forall k | start <= k < end ensures buf[k] == Reversed(was)[k - start] {
    }
    assert buf[start..end] == Reversed(was);
  }

  /** The number itself: digits, terminator, reversal. */
  method WriteNumeral(buf: array<char>, start: nat, number: u32, divisor: nat) returns (p: nat)
    requires IsDivisor(divisor) && start + |Numeral(number, divisor)| < buf.Length
    modifies buf
    ensures p == start + |Numeral(number, divisor)|
    ensures buf[start..p] == Numeral(number, divisor) && buf[p] == '\0'
    ensures forall k :: 0 <= k < buf.Length && !(start <= k <= p) ==> buf[k] == old(buf[k])
  {
    p := WriteDigits(buf, start, number, divisor);
    assert |Reversed(buf[start..p])| == p - start;
    buf[p] := '\0';
    ReverseInPlace(buf, start, p);
  }

  /** The whole of `itoa`: the text, its terminator, and nothing else changes. */
  method Itoa(buf: array<char>, base: char, num: int32)
    requires buf.Length >= 12
    modifies buf
    ensures var t := Text(base, num);
            && |t| + 1 <= 12
            && buf[..|t|] == t && buf[|t|] == '\0'
            && forall k :: |t| < k < buf.Length ==> buf[k] == old(buf[k])
  {
    TextFits(base, num);
    var unum, start, divisor := U32(num), 0, 10;
    if num < 0 && base == 'd' {
      var n: int := num;
      unum := U32(-n);
      buf[0] := '-';
      start := 1;
    } else if base == 'x' {
      divisor := 16;
    }
    assert unum == Magnitude(base, num) && divisor == Divisor(base);
    assert start == if Negated(base, num) then 1 else 0;
    var p := WriteNumeral(buf, start, unum, divisor);
    assert buf[..p] == buf[..start] + buf[start..p];
  }
}
