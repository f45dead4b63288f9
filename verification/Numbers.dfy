/** Printing numbers: digits pushed into a fixed buffer from the lowest, then read back in reverse. */
module Numbers {
  const WORD64 := 0x1_0000_0000_0000_0000
  const BUFFER_SIZE := 65
  const DIGITS := "0123456789ABCDEF"

  function DigitValue(c: char): nat {
    if '0' <= c <= '9' then (c as int) - ('0' as int)
    else if 'A' <= c <= 'F' then (c as int) - ('A' as int) + 10
    else 0
  }

  /** The number that a string of digits denotes, the highest first. */
  function Parse(s: string, base: nat): nat {
    if s == [] then 0 else Parse(s[..|s| - 1], base) * base + DigitValue(s[|s| - 1])
  }

  function Power(base: nat, k: nat): nat {
    if k == 0 then 1 else base * Power(base, k - 1)
  }

  /** The digits from the lowest on, without leading zeros at the end. */
  function LowFirst(n: nat, base: nat): string
    requires 2 <= base <= 16
  {
    if n == 0 then [] else [DIGITS[n % base]] + LowFirst(n / base, base)
  }

  function Reversed(s: string): (r: string)
    ensures |r| == |s| && forall k :: 0 <= k < |s| ==> r[k] == s[|s| - 1 - k]
  {
    if s == [] then [] else Reversed(s[1..]) + [s[0]]
  }

  function Printed(n: nat, base: nat): string
    requires 2 <= base <= 16
  {
    if n == 0 then "0" else Reversed(LowFirst(n, base))
  }

  lemma DigitOf(d: nat)
    requires d < 16
    ensures DigitValue(DIGITS[d]) == d
  {
  }

  lemma LastDigit(front: string, c: char, base: nat)
    ensures Parse(front + [c], base) == Parse(front, base) * base + DigitValue(c)
  {
    assert (front + [c])[..|front|] == front;
  }

  /** One digit: the lowest of `n`, and the digits of the rest. */
  lemma LowFirstStep(n: nat, base: nat)
    requires 2 <= base <= 16 && n > 0
    ensures 0 <= n % base < 16 && 0 <= n / base < n
    ensures LowFirst(n, base) == [DIGITS[n % base]] + LowFirst(n / base, base)
  {
    Halves(n, base);
  }

  lemma {:induction false} ParseReversed(n: nat, base: nat)
    requires 2 <= base <= 16
    ensures Parse(Reversed(LowFirst(n, base)), base) == n
    decreases n
  {
    if n > 0 {
      LowFirstStep(n, base);
      ParseReversed(n / base, base);
      var d, rest := DIGITS[n % base], LowFirst(n / base, base);
      assert Reversed([d] + rest) == Reversed(rest) + [d] by {
        assert ([d] + rest)[1..] == rest;
      }
      hide LowFirst, Reversed, Parse;
      LastDigit(Reversed(rest), d, base);
      DigitOf(n % base);
      DivMod(n, base);
    }
  }

  lemma DivMod(n: nat, base: nat)
    requires base > 0
    ensures n / base * base + n % base == n
  {
  }

  /** Reading the printed digits gives the number back, in every base. */
  lemma PrintedParses(n: nat, base: nat)
    requires 2 <= base <= 16
    ensures Parse(Printed(n, base), base) == n
  {
    if n == 0 {
      assert Parse("0", base) == Parse([], base) * base + 0;
    } else {
      ParseReversed(n, base);
    }
  }

  lemma Twice(q: nat, base: nat)
    requires base >= 2
    ensures q * base >= q * 2
  {
  }

  lemma Halves(n: nat, base: nat)
    requires base >= 2
    ensures 0 <= n / base <= n / 2
  {
    var q: nat := n / base;
    DivMod(n, base);
    Twice(q, base);
  }

  lemma NoDigits(base: nat)
    requires 2 <= base <= 16
    ensures LowFirst(0, base) == []
  {
  }

  lemma {:induction false} LengthBound(n: nat, base: nat, k: nat)
    requires 2 <= base <= 16 && n < Power(2, k)
    ensures |LowFirst(n, base)| <= k
    decreases k
  {
    if n > 0 {
      Halves(n, base);
      LengthBound(n / base, base, k - 1);
    }
  }

  lemma {:induction false} PowerSplit(a: nat, b: nat)
    ensures Power(2, a + b) == Power(2, a) * Power(2, b)
    decreases a
  {
    if a > 0 {
      PowerSplit(a - 1, b);
    }
  }

  lemma Sixteen()
    ensures Power(2, 4) == 16
  {
    assert Power(2, 1) == 2 && Power(2, 2) == 4 && Power(2, 3) == 8;
  }

  /** A 64-bit number has at most 64 digits in any base from 2 on. */
  lemma AtMost64(n: nat, base: nat)
    requires 2 <= base <= 16 && n < WORD64
    ensures |LowFirst(n, base)| <= 64
  {
    hide Power, LowFirst;
    Sixteen();
    PowerSplit(4, 4);
    PowerSplit(8, 8);
    PowerSplit(16, 16);
    PowerSplit(32, 32);
    LengthBound(n, base, 64);
  }

  /** The division loop of print_uint. */
  method FillDigits(n: nat, base: nat, buf: array<char>) returns (i: nat)
    requires n < WORD64 && 2 <= base <= 16 && buf.Length == BUFFER_SIZE
    modifies buf
    ensures i == |LowFirst(n, base)| < BUFFER_SIZE && buf[..i] == LowFirst(n, base)
  {
    AtMost64(n, base);
    hide LowFirst, Power;
    ghost var all := LowFirst(n, base);
    i := 0;
    var rest: nat := n;
    while rest > 0
      invariant i <= 64
      invariant all == buf[..i] + LowFirst(rest, base)
      decreases rest
    {
      LowFirstStep(rest, base);
      ghost var digits, low := buf[..i], DIGITS[rest % base];
      assert all == digits + [low] + LowFirst(rest / base, base);
      buf[i] := DIGITS[rest % base];
      i := i + 1;
      assert buf[..i] == digits + [low];
      rest := rest / base;
    }
    NoDigits(base);
  }

  lemma {:induction false} LowFirstDigits(n: nat, base: nat)
    requires 2 <= base <= 16
    ensures forall k :: 0 <= k < |LowFirst(n, base)| ==> IsDigit(LowFirst(n, base)[k], base)
    ensures n > 0 ==> LowFirst(n, base) != [] && LowFirst(n, base)[|LowFirst(n, base)| - 1] != '0'
    decreases n
  {
    if n > 0 {
      LowFirstStep(n, base);
      LowFirstDigits(n / base, base);
      DivMod(n, base);
      DigitIs(n % base, base);
      hide LowFirst;
      NoDigits(base);
    }
  }

  /** A digit of the base: "0" to "9", then "A" to "F". */
  predicate IsDigit(c: char, base: nat) {
    ('0' <= c <= '9' && c as int < '0' as int + base) || ('A' <= c <= 'F' && c as int < 'A' as int + base - 10)
  }

  lemma DigitIs(d: nat, base: nat)
    requires d < base <= 16
    ensures IsDigit(DIGITS[d], base) && (DIGITS[d] == '0' <==> d == 0)
    ensures DIGITS[d] as int == if d < 10 then '0' as int + d else 'A' as int + d - 10
  {
  }

  /**
   The digits printed are at least one, all digits of the base, and start with "0" only for the number 0; a number
   below the base is printed as its digit.
   */
  lemma PrintedDigits(n: nat, base: nat)
    requires 2 <= base <= 16
    ensures var out := Printed(n, base);
            && out != [] && (forall k :: 0 <= k < |out| ==> IsDigit(out[k], base))
            && (out[0] == '0' <==> n == 0)
            && (n < base ==> |out| == 1 && out[0] as int == if n < 10 then '0' as int + n else 'A' as int + n - 10)
  {
    if n > 0 {
      LowFirstDigits(n, base);
      if n < base {
        SmallDigits(n, base);
        DigitIs(n, base);
      }
    }
  }

  lemma SmallDigits(n: nat, base: nat)
    requires 2 <= base <= 16 && 0 < n < base
    ensures LowFirst(n, base) == [DIGITS[n]]
  {
    LowFirstStep(n, base);
    NoDigits(base);
    assert n / base == 0 && n % base == n;
  }

  /** ostream::print_uint: the string sent to the stream. */
  method PrintUint(n: nat, base: nat) returns (out: string)
    requires n < WORD64 && 2 <= base <= 16
    ensures out == Printed(n, base)
  {
    if n == 0 {
      return "0";
    }
    var buf := new char[BUFFER_SIZE];
    var count := FillDigits(n, base, buf);
    hide LowFirst, Reversed;
    ghost var all := LowFirst(n, base);
    out := "";
    var i := count - 1;
    while i >= 0
      invariant -1 <= i < |all| && buf[..count] == all
      invariant |out| == |all| - 1 - i
      invariant forall k :: 0 <= k < |out| ==> out[k] == all[|all| - 1 - k]
    {
      assert buf[i] == buf[..count][i];
      out := out + [buf[i]];
      i := i - 1;
    }
  }

  const INT_MIN := -0x8000_0000

  /** What a signed number prints as. */
  function PrintedInt(n: int): string {
    if n < 0 then "-" + Printed(-n, 10) else Printed(n, 10)
  }

  /** The number that a string of decimal digits denotes, with an optional sign before them. */
  function ParseInt(s: string): int {
    if s != [] && s[0] == '-' then -(Parse(s[1..], 10) as int) else Parse(s, 10)
  }

  lemma {:induction false} NoSignInside(n: nat)
    ensures forall k :: 0 <= k < |LowFirst(n, 10)| ==> LowFirst(n, 10)[k] != '-'
    decreases n
  {
    if n > 0 {
      NoSignInside(n / 10);
    }
  }

  /** Reading a printed signed number gives it back, sign and all. */
  lemma PrintedIntParses(n: int)
    ensures ParseInt(PrintedInt(n)) == n
  {
    hide LowFirst, Parse;
    var m := if n < 0 then -n else n;
    PrintedParses(m, 10);
    NoSignInside(m);
    if n < 0 {
      assert ("-" + Printed(m, 10))[1..] == Printed(m, 10);
    }
  }

  /** ostream::operator<<(int) in decimal; the negation of the smallest int is undefined in the source. */
  method PrintInt(n: int) returns (out: string)
    requires INT_MIN < n < 0x8000_0000
    ensures out == PrintedInt(n)
  {
    hide Printed;
    var m := n;
    var sign := "";
    if m < 0 {
      sign := "-";
      m := -m;
    }
    var digits := PrintUint(m, 10);
    out := sign + digits;
  }
}
