/** Printing numbers, `unsigned_number_to_string` and `number_to_string` of Utils.cpp, and reading them back. */
module Numbers {
  import opened BitOps

  const SCRATCH: nat := 65

  predicate ValidBase(base: nat) {
    2 <= base <= 36
  }

  function DigitChar(d: nat): char
    requires d < 36
  {
    if d >= 10 then 'a' + (d - 10) as char else '0' + d as char
  }

  /** The value of a digit, the way a reader of the string takes it. */
  function DigitValue(c: char): nat {
    if '0' <= c <= '9' then (c - '0') as nat else if 'a' <= c <= 'z' then (c - 'a') as nat + 10 else 0
  }

  lemma DigitReadsBack(d: nat)
    requires d < 36
    ensures DigitValue(DigitChar(d)) == d && DigitChar(d) != '-'
    ensures DigitChar(d) == '0' <==> d == 0
  {
  }

  /** The quotient and the digit that one turn of the digit loop computes. */
  function Quotient(n: nat, base: nat): (q: nat)
    requires ValidBase(base)
  {
    n / base
  }

  function Remainder(n: nat, base: nat): (r: nat)
    requires ValidBase(base)
    ensures r < base <= 36
  {
    n % base
  }

  lemma OneDigit(n: nat, base: nat)
    requires ValidBase(base)
    ensures n == Quotient(n, base) * base + Remainder(n, base)
    ensures n > 0 ==> Quotient(n, base) < n && Quotient(n, base) <= n / 2
  {
    if n > 0 {
      Halved(Quotient(n, base), Remainder(n, base), base, n);
    }
  }

  lemma Halved(q: nat, r: nat, base: nat, n: nat)
    requires base >= 2 && n == q * base + r && n > 0
    ensures q < n && q <= n / 2
  {
    assert q * base >= q * 2;
  }

  /** The digits of a number, least significant first: the scratch buffer. */
  function LowDigits(n: nat, base: nat): string
    requires ValidBase(base)
  {
    OneDigit(n, base);
    if n == 0 then "" else [DigitChar(Remainder(n, base))] + LowDigits(Quotient(n, base), base)
  }

  function Reversed(s: string): (r: string)
    ensures |r| == |s|
  {
    if s == "" then "" else Reversed(s[1..]) + [s[0]]
  }

  function Zeros(n: nat): (s: string)
    ensures |s| == n
  {
    seq(n, i => '0')
  }

  /** `precision` is a number of extra zeros, which the number zero does without. */
  function Printed(n: nat, base: nat, precision: nat): string
    requires ValidBase(base)
  {
    if n == 0 then "0" else Reversed(LowDigits(n, base) + Zeros(precision))
  }

  /** `-number` on 32 bits: the most negative number stays what it is, and counts as 2^31 from there on. */
  function Magnitude(n: int): nat
    requires -0x8000_0000 <= n < 0x8000_0000
  {
    if n < 0 then (-n) % 0x1_0000_0000 else n
  }

  function PrintedSigned(n: int, base: nat, precision: nat): string
    requires ValidBase(base) && -0x8000_0000 <= n < 0x8000_0000
  {
    if n < 0 then "-" + Printed(Magnitude(n), base, precision) else Printed(n, base, precision)
  }

  // ---- Reading

  function Read(s: string, base: nat): nat {
    if s == "" then 0 else Read(s[..|s| - 1], base) * base + DigitValue(s[|s| - 1])
  }

  function ReadSigned(s: string, base: nat): int {
    if s != "" && s[0] == '-' then -(Read(s[1..], base) as int) else Read(s, base)
  }

  function LowValue(s: string, base: nat): nat {
    if s == "" then 0 else LowValue(s[1..], base) * base + DigitValue(s[0])
  }

  lemma {:induction false} ReadReversed(s: string, base: nat)
    ensures Read(Reversed(s), base) == LowValue(s, base)
  {
    if s != "" {
      ReadReversed(s[1..], base);
      assert Reversed(s)[..|s| - 1] == Reversed(s[1..]);
    }
  }

  lemma {:induction false} LowDigitsValue(n: nat, base: nat, precision: nat)
    requires ValidBase(base)
    ensures LowValue(LowDigits(n, base) + Zeros(precision), base) == n
    decreases n
  {
    hide *;
    if n == 0 {
      MoreDigits(n, base);
      ZerosValue(precision, base);
      assert "" + Zeros(precision) == Zeros(precision);
    } else {
      OneDigit(n, base);
      MoreDigits(n, base);
      var q, r := Quotient(n, base), Remainder(n, base);
      var rest := LowDigits(q, base) + Zeros(precision);
      DigitReadsBack(r);
      LowDigitsValue(q, base, precision);
      assert LowDigits(n, base) + Zeros(precision) == [DigitChar(r)] + rest;
      FirstValue(DigitChar(r), rest, base);
    }
  }

  lemma MoreDigits(n: nat, base: nat)
    requires ValidBase(base)
    ensures n == 0 ==> LowDigits(n, base) == ""
    ensures n > 0 ==> LowDigits(n, base) == [DigitChar(Remainder(n, base))] + LowDigits(Quotient(n, base), base)
  {
  }

  lemma FirstValue(c: char, rest: string, base: nat)
    ensures LowValue([c] + rest, base) == LowValue(rest, base) * base + DigitValue(c)
  {
    assert ([c] + rest)[1..] == rest;
  }

  lemma {:induction false} ZerosValue(n: nat, base: nat)
    ensures LowValue(Zeros(n), base) == 0
  {
    if n > 0 {
      ZerosValue(n - 1, base);
      assert Zeros(n)[1..] == Zeros(n - 1);
    }
  }

  /** Reading undoes printing, leading zeros included. */
  lemma ReadUndoesPrint(n: nat, base: nat, precision: nat)
    requires 2 <= base <= 36
    ensures Read(Printed(n, base, precision), base) == n
  {
    if n == 0 {
      assert "0"[..0] == "";
    } else {
      LowDigitsValue(n, base, precision);
      ReadReversed(LowDigits(n, base) + Zeros(precision), base);
    }
  }

  lemma {:induction false} NoSigns(n: nat, base: nat, precision: nat)
    requires ValidBase(base)
    ensures '-' !in LowDigits(n, base) + Zeros(precision)
    decreases n
  {
    hide *;
    MoreDigits(n, base);
    if n > 0 {
      OneDigit(n, base);
      NoSigns(Quotient(n, base), base, precision);
      DigitReadsBack(Remainder(n, base));
    } else {
      ZerosHaveNoSign(precision);
      assert "" + Zeros(precision) == Zeros(precision);
    }
  }

  lemma ZerosHaveNoSign(n: nat)
    ensures '-' !in Zeros(n)
  {
  }

  lemma {:induction false} ReversedChars(s: string, c: char)
    ensures c in Reversed(s) <==> c in s
  {
    if s != "" {
      ReversedChars(s[1..], c);
      assert s == [s[0]] + s[1..];
    }
  }

  lemma PrintedHasNoSign(n: nat, base: nat, precision: nat)
    requires ValidBase(base)
    ensures '-' !in Printed(n, base, precision)
  {
    hide *;
    PrintedIs(n, base, precision);
    if n > 0 {
      NoSigns(n, base, precision);
      ReversedChars(LowDigits(n, base) + Zeros(precision), '-');
    }
  }

  lemma ReadSignedParts(s: string, base: nat)
    requires '-' !in s
    ensures ReadSigned(s, base) == Read(s, base) && ReadSigned("-" + s, base) == -(Read(s, base) as int)
  {
    assert ("-" + s)[1..] == s;
    hide Read;
  }

  lemma PrintedSignedParts(n: int, base: nat, precision: nat)
    requires ValidBase(base) && -0x8000_0000 <= n < 0x8000_0000
    ensures n < 0 ==> Magnitude(n) == -n && PrintedSigned(n, base, precision) == "-" + Printed(-n, base, precision)
    ensures n >= 0 ==> PrintedSigned(n, base, precision) == Printed(n, base, precision)
  {
    hide Printed;
  }

  /** ... and so it does for signed numbers, the most negative one included. */
  lemma ReadUndoesPrintSigned(n: int, base: nat, precision: nat)
    requires 2 <= base <= 36 && -0x8000_0000 <= n < 0x8000_0000
    ensures ReadSigned(PrintedSigned(n, base, precision), base) == n
  {
    assert ValidBase(base);
    hide *;
    var m: nat := if n < 0 then -n else n;
    ReadUndoesPrint(m, base, precision);
    PrintedHasNoSign(m, base, precision);
    ReadSignedParts(Printed(m, base, precision), base);
    PrintedSignedParts(n, base, precision);
  }

  lemma {:induction false} ReversedConcat(a: string, b: string)
    ensures Reversed(a + b) == Reversed(b) + Reversed(a)
  {
    if a == "" {
      assert a + b == b;
    } else {
      ReversedConcat(a[1..], b);
      assert (a + b)[1..] == a[1..] + b;
    }
  }

  lemma {:induction false} ReversedZeros(n: nat)
    ensures Reversed(Zeros(n)) == Zeros(n)
  {
    if n > 0 {
      ReversedZeros(n - 1);
      assert Zeros(n)[1..] == Zeros(n - 1);
    }
  }

  predicate LowerCaseDigit(c: char) {
    '0' <= c <= '9' || 'a' <= c <= 'z'
  }

  lemma {:induction false} DigitsAreDigits(n: nat, base: nat)
    requires ValidBase(base) && n > 0
    ensures var s := LowDigits(n, base);
      && s != "" && s[|s| - 1] != '0'
      && forall c | c in s :: LowerCaseDigit(c) && DigitValue(c) < base
    decreases n
  {
    hide LowDigits, Quotient, Remainder;
    var q, r := Quotient(n, base), Remainder(n, base);
    MoreDigits(n, base);
    OneDigit(n, base);
    DigitReadsBack(r);
    if q > 0 {
      DigitsAreDigits(q, base);
    } else {
      MoreDigits(q, base);
    }
  }

  /** Exactly so many zeros in front, then digits below the base, the first of them not zero; zero is one digit. */
  lemma PrintedShape(n: nat, base: nat, precision: nat)
    requires 2 <= base <= 36
    ensures n == 0 ==> Printed(n, base, precision) == "0"
    ensures n > 0 ==> Printed(n, base, precision) == seq(precision, _ => '0') + Printed(n, base, 0)
    ensures n > 0 ==> Printed(n, base, 0) != "" && Printed(n, base, 0)[0] != '0'
    ensures forall c | c in Printed(n, base, 0) :: ('0' <= c <= '9' || 'a' <= c <= 'z') && DigitValue(c) < base
  {
    if n > 0 {
      var s := LowDigits(n, base);
      DigitsAreDigits(n, base);
      ReversedConcat(s, Zeros(precision));
      ReversedZeros(precision);
      assert s + Zeros(0) == s;
      assert Zeros(precision) == seq(precision, _ => '0');
      ReversedAt(s, 0);
      forall c
        ensures c in Reversed(s) <==> c in s
      {
        ReversedChars(s, c);
      }
      hide LowDigits, Reversed;
    }
  }

  /** The digits of a 32-bit number leave room for 33 zeros in the scratch buffer, whatever the base. */
  lemma {:induction false} DigitCount(n: nat, base: nat, bits: nat, bound: nat)
    requires ValidBase(base) && n < bound && bound == Pow2(bits)
    ensures |LowDigits(n, base)| <= bits
    decreases n
  {
    hide *;
    MoreDigits(n, base);
    PowStep(bits);
    if n > 0 {
      OneDigit(n, base);
      DigitCount(Quotient(n, base), base, bits - 1, Pow2(bits - 1));
    }
  }

  lemma PowStep(n: nat)
    ensures Pow2(n) == if n == 0 then 1 else 2 * Pow2(n - 1)
  {
  }

  // ---- Printing

  /** The digit loop. */
  method FillDigits(number: nat, base: nat, buff: array<char>) returns (curr: nat)
    requires ValidBase(base) && |LowDigits(number, base)| <= buff.Length
    modifies buff
    ensures curr == |LowDigits(number, base)| && buff[..curr] == LowDigits(number, base)
  {
    hide *;
    curr := 0;
    var left := number;
    while left != 0
      invariant 0 <= left && curr + |LowDigits(left, base)| == |LowDigits(number, base)|
      invariant buff[..curr] + LowDigits(left, base) == LowDigits(number, base)
      decreases left
    {
      MoreDigits(left, base);
      OneDigit(left, base);
      var digit := Remainder(left, base);
      DigitCharIs(digit);
      buff[curr] := if digit >= 10 then 'a' + (digit - 10) as char else '0' + digit as char;
      curr := curr + 1;
      left := Quotient(left, base);
    }
    MoreDigits(0, base);
  }

  lemma DigitCharIs(d: nat)
    requires d < 36
    ensures DigitChar(d) == if d >= 10 then 'a' + (d - 10) as char else '0' + d as char
  {
  }

  /** `unsigned_number_to_string` at `at` in the buffer. */
  method PrintUnsigned(number: nat, base: nat, buffer: array<char>, at: nat, precision: nat)
    requires 2 <= base <= 36 && |LowDigits(number, base)| + precision <= SCRATCH
    requires at + |Printed(number, base, precision)| < buffer.Length
    modifies buffer
    ensures buffer[..] == old(buffer[..at]) + Printed(number, base, precision) + ['\0']
                          + old(buffer[at + |Printed(number, base, precision)| + 1..])
  {
    PrintedIs(number, base, precision);
    hide *;
    if number == 0 {
      buffer[at] := '0';
      buffer[at + 1] := '\0';
      return;
    }
    var buff := new char[SCRATCH](i => '\0');
    var curr := FillDigits(number, base, buff);
    curr := FillZeros(buff, curr, precision);
    CopyBackwards(buff, curr, buffer, at);
  }

  lemma PrintedIs(n: nat, base: nat, precision: nat)
    requires ValidBase(base)
    ensures n == 0 ==> Printed(n, base, precision) == "0"
    ensures n > 0 ==> Printed(n, base, precision) == Reversed(LowDigits(n, base) + Zeros(precision))
    ensures n > 0 ==> LowDigits(n, base) != ""
    ensures SCRATCH == 65
  {
    MoreDigits(n, base);
    hide LowDigits, Reversed;
  }

  /** The loop that adds zeros behind the digits. */
  method FillZeros(buff: array<char>, curr: nat, precision: nat) returns (r: nat)
    requires curr + precision <= buff.Length
    modifies buff
    ensures r == curr + precision && buff[..r] == old(buff[..curr]) + Zeros(precision)
  {
    r := curr;
    var to_reduce := precision;
    while to_reduce > 0
      invariant 0 <= to_reduce <= precision && r == curr + precision - to_reduce
      invariant buff[..r] == old(buff[..curr]) + Zeros(precision - to_reduce)
    {
      buff[r] := '0';
      r := r + 1;
      to_reduce := to_reduce - 1;
    }
  }

  /** The reversing loop and the NUL. */
  method CopyBackwards(buff: array<char>, curr: nat, buffer: array<char>, at: nat)
    requires 0 < curr <= buff.Length && buff != buffer && at + curr < buffer.Length
    modifies buffer
    ensures buffer[..] == old(buffer[..at]) + Reversed(buff[..curr]) + ['\0'] + old(buffer[at + curr + 1..])
  {
    var i := curr - 1;
    var to := at;
    while i != 0
      invariant 0 <= i < curr && to == at + curr - 1 - i
      invariant forall x | 0 <= x < buffer.Length ::
        buffer[x] == if at <= x < to then buff[curr - 1 - (x - at)] else old(buffer[x])
    {
      buffer[to] := buff[i];
      to := to + 1;
      i := i - 1;
    }
    buffer[to] := buff[0];
    buffer[to + 1] := '\0';
    forall k | 0 <= k < curr
      ensures Reversed(buff[..curr])[k] == buff[curr - 1 - k]
    {
      ReversedAt(buff[..curr], k);
    }
  }

  lemma {:induction false} ReversedAt(s: string, k: nat)
    requires k < |s|
    ensures Reversed(s)[k] == s[|s| - 1 - k]
  {
    if k < |s| - 1 {
      ReversedAt(s[1..], k);
    }
  }

  /** `number_to_string` */
  method PrintSigned(number: int, base: nat, buffer: array<char>, precision: nat)
    requires 2 <= base <= 36 && -0x8000_0000 <= number < 0x8000_0000
    requires |LowDigits(Magnitude(number), base)| + precision <= SCRATCH
    requires |PrintedSigned(number, base, precision)| < buffer.Length
    modifies buffer
    ensures buffer[..] == PrintedSigned(number, base, precision) + ['\0']
                          + old(buffer[|PrintedSigned(number, base, precision)| + 1..])
  {
    SignedIs(number, base, precision);
    hide *;
    ghost var was := buffer[..];
    if number < 0 {
      buffer[0] := '-';
      PrintUnsigned((-number) % 0x1_0000_0000, base, buffer, 1, precision);
      assert was[0 := '-'][..1] == "-";
      assert was[0 := '-'][|PrintedSigned(number, base, precision)| + 1..]
        == was[|PrintedSigned(number, base, precision)| + 1..];
    } else {
      PrintUnsigned(number, base, buffer, 0, precision);
      assert was[..0] == "";
    }
  }

  lemma SignedIs(n: int, base: nat, precision: nat)
    requires ValidBase(base) && -0x8000_0000 <= n < 0x8000_0000
    ensures n < 0 ==>
      && Magnitude(n) == (-n) % 0x1_0000_0000
      && PrintedSigned(n, base, precision) == "-" + Printed(Magnitude(n), base, precision)
    ensures n >= 0 ==> Magnitude(n) == n && PrintedSigned(n, base, precision) == Printed(n, base, precision)
  {
    hide Printed;
  }
}
