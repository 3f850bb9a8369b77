/**
 * lib/cml/common/cstring.hpp: in-place reversal, decimal parsing, number formatting and the
 * four-byte `Argument` record of the formatter.
 */
module CString {
  import opened Common

  /** `cstring::format_number_buffer_capacity`: room for a formatted number and its terminator. */
  const FORMAT_NUMBER_BUFFER_CAPACITY: nat := 12

  const NUL: char := 0 as char

  /** `cstring::Radix`. */
  datatype Radix = Bin | Oct | Dec | Hex

  function Base(radix: Radix): (b: nat)
    ensures 2 <= b <= 16
  {
    match radix
    case Bin => 2
    case Oct => 8
    case Dec => 10
    case Hex => 16
  }

  function Pow(b: nat, e: nat): (p: nat)
    ensures b > 0 ==> p > 0
  {
    if e == 0 then 1 else b * Pow(b, e - 1)
  }

  // ---------------------------------------------------------------------------------------
  // reverse

  /** Reference reversal: element `k` of the result is element `|s| - 1 - k` of `s`. */
  function Reversed(s: seq<char>): seq<char>
  {
    seq(|s|, k requires 0 <= k < |s| => s[|s| - 1 - k])
  }

  /** What `reverse` does to a non-empty string: only the first and the last character trade places. */
  function EndsSwapped(s: seq<char>): (r: seq<char>)
    requires |s| > 0
  {
    s[0 := s[|s| - 1]][|s| - 1 := s[0]]
  }

  /**
   * `reverse(s, n)` as written: the loop runs `i` over `0 .. n-2` and swaps `s[i]` with
   * `s[n-1-i]`, so each inner pair is swapped twice and only the outer pair ends up exchanged.
   */
  method Reverse(a: array<char>, n: uint32)
    requires n > 0
    requires n as int <= a.Length
    modifies a
    ensures a[..n] == EndsSwapped(old(a[..n]))
    ensures forall k :: n as int <= k < a.Length ==> a[k] == old(a[k])
  {
    var i: uint32 := 0;
    while i < n - 1
      invariant 0 <= i <= n - 1
      invariant forall m :: 0 <= m < n ==>
        a[m] == if (m < i) != (n - 1 - m < i) then old(a[n - 1 - m]) else old(a[m])
      invariant forall k :: n as int <= k < a.Length ==> a[k] == old(a[k])
    {
      var t := a[i];
      a[i] := a[n - i - 1];
      a[n - i - 1] := t;
      i := i + 1;
    }
  }

  /** The intended reversal: the loop stops at the middle, so every pair is exchanged once. */
  method ReverseCorrected(a: array<char>, n: uint32)
    requires n > 0
    requires n as int <= a.Length
    modifies a
    ensures a[..n] == Reversed(old(a[..n]))
    ensures forall k :: n as int <= k < a.Length ==> a[k] == old(a[k])
  {
    var i: uint32 := 0;
    while i < n / 2
      invariant 0 <= i <= n / 2
      invariant forall m :: 0 <= m < n ==>
        a[m] == if m < i || n - 1 - m < i then old(a[n - 1 - m]) else old(a[m])
      invariant forall k :: n as int <= k < a.Length ==> a[k] == old(a[k])
    {
      var t := a[i];
      a[i] := a[n - i - 1];
      a[n - i - 1] := t;
      i := i + 1;
    }
  }

  /** `reverse` as written only permutes the characters. */
  lemma EndsSwappedIsPermutation(s: seq<char>)
    requires |s| > 0
    ensures multiset(EndsSwapped(s)) == multiset(s)
  {
    var n := |s|;
    if n > 1 {
      var inner := s[1..n - 1];
      assert s == [s[0]] + inner + [s[n - 1]];
      EndsSwappedShape(s);
      calc {
        multiset(EndsSwapped(s));
        multiset([s[n - 1]]) + multiset(inner) + multiset([s[0]]);
        multiset([s[0]]) + multiset(inner) + multiset([s[n - 1]]);
        multiset(s);
      }
    }
  }

  /** `reverse` as written: the last character, the untouched inner part, the first character. */
  lemma EndsSwappedShape(s: seq<char>)
    requires |s| > 1
    ensures EndsSwapped(s) == [s[|s| - 1]] + s[1..|s| - 1] + [s[0]]
  {
    var r := EndsSwapped(s);
    assert forall k :: 0 <= k < |s| ==> r[k] == ([s[|s| - 1]] + s[1..|s| - 1] + [s[0]])[k];
  }

  /** `reverse` as written reverses exactly those strings whose inner part is a palindrome. */
  lemma EndsSwappedReversesIff(s: seq<char>)
    requires |s| >= 2
    ensures EndsSwapped(s) == Reversed(s) <==> Reversed(s[1..|s| - 1]) == s[1..|s| - 1]
  {
    if EndsSwapped(s) == Reversed(s) {
      ReversalImpliesInnerPalindrome(s);
    }
    if Reversed(s[1..|s| - 1]) == s[1..|s| - 1] {
      InnerPalindromeImpliesReversal(s);
    }
  }

  lemma ReversalImpliesInnerPalindrome(s: seq<char>)
    requires |s| >= 2 && EndsSwapped(s) == Reversed(s)
    ensures Reversed(s[1..|s| - 1]) == s[1..|s| - 1]
  {
    var n := |s|;
    var inner := s[1..n - 1];
    var r := Reversed(inner);
    forall k | 0 <= k < |inner|
      ensures r[k] == inner[k]
    {
      calc {
        r[k];
        inner[|inner| - 1 - k];
        s[n - 2 - k];
        Reversed(s)[k + 1];
        EndsSwapped(s)[k + 1];
        s[k + 1];
      }
    }
  }

  lemma InnerPalindromeImpliesReversal(s: seq<char>)
    requires |s| >= 2 && Reversed(s[1..|s| - 1]) == s[1..|s| - 1]
    ensures EndsSwapped(s) == Reversed(s)
  {
    var n := |s|;
    var inner := s[1..n - 1];
    forall k | 0 <= k < n
      ensures EndsSwapped(s)[k] == Reversed(s)[k]
    {
      if 0 < k < n - 1 {
        calc {
          EndsSwapped(s)[k];
          inner[k - 1];
          Reversed(inner)[k - 1];
          inner[n - 2 - k];
          Reversed(s)[k];
        }
      }
    }
  }

  /** Hence strings of up to three characters are reversed correctly. */
  lemma EndsSwappedReversesShort(s: seq<char>)
    requires 0 < |s| <= 3
    ensures EndsSwapped(s) == Reversed(s)
  {
    if |s| >= 2 {
      EndsSwappedReversesIff(s);
    }
  }

  /** ... and the four-character string "abcd" is not: `reverse` turns it into "dbca". */
  lemma EndsSwappedCounterexample()
    ensures EndsSwapped("abcd") == "dbca"
    ensures Reversed("abcd") == "dcba"
  {
  }

  // ---------------------------------------------------------------------------------------
  // digits

  /** The character `from_*_integer` writes for a digit value: `0`-`9`, then `a`-`f`. */
  function DigitChar(d: nat): char
    requires d < 16
  {
    if d > 9 then ((d - 10) + 'a' as int) as char else (d + '0' as int) as char
  }

  /** A character that stands for a digit below the radix's base. */
  predicate IsRadixDigit(c: char, radix: Radix)
  {
    ('0' <= c <= '9' && (c as int - '0' as int) < Base(radix)) ||
    ('a' <= c <= 'f' && (c as int - 'a' as int) + 10 < Base(radix))
  }

  predicate IsDecimalDigit(c: char)
  {
    '0' <= c <= '9'
  }

  /** The digits of `v` in `radix`, least significant first, as the conversion loops produce them. */
  function DigitsLsbFirst(v: nat, radix: Radix): seq<char>
    decreases v
  {
    if v == 0 then [] else [DigitChar(v % Base(radix))] + DigitsLsbFirst(v / Base(radix), radix)
  }

  /** Every digit produced is a digit of the radix. */
  lemma {:induction false} DigitsAreRadixDigits(v: nat, radix: Radix)
    ensures forall k :: 0 <= k < |DigitsLsbFirst(v, radix)| ==> IsRadixDigit(DigitsLsbFirst(v, radix)[k], radix)
  {
    if v != 0 {
      DigitsAreRadixDigits(v / Base(radix), radix);
    }
  }

  /** A positive `v` has exactly `k` digits in base `b` when `b^(k-1) <= v < b^k`. */
  lemma {:induction false} DigitCountBounds(v: nat, radix: Radix)
    requires v > 0
    ensures |DigitsLsbFirst(v, radix)| > 0
    ensures Pow(Base(radix), |DigitsLsbFirst(v, radix)| - 1) <= v < Pow(Base(radix), |DigitsLsbFirst(v, radix)|)
  {
    var b := Base(radix);
    var q := v / b;
    if q == 0 {
      assert DigitsLsbFirst(q, radix) == [];
    } else {
      DigitCountBounds(q, radix);
      var k := |DigitsLsbFirst(q, radix)|;
      assert |DigitsLsbFirst(v, radix)| == k + 1;
      assert Pow(b, k - 1) <= q < Pow(b, k);
      assert v == b * q + v % b;
      assert b * Pow(b, k - 1) <= b * q by { MulLeMonotone(b, Pow(b, k - 1), q); }
      assert b * q + v % b < b * Pow(b, k) by { MulLeMonotone(b, q + 1, Pow(b, k)); }
    }
  }

  lemma MulLeMonotone(b: nat, x: nat, y: nat)
    requires x <= y
    ensures b * x <= b * y
  {
  }

  lemma {:induction false} PowMonotone(b: nat, i: nat, j: nat)
    requires b > 0 && i <= j
    ensures Pow(b, i) <= Pow(b, j)
  {
    if i < j {
      PowMonotone(b, i, j - 1);
      MulGrows(b, Pow(b, j - 1));
    }
  }

  lemma MulGrows(b: nat, x: nat)
    requires b > 0
    ensures x <= b * x
  {
  }

  lemma PowersOfTwo()
    ensures Pow(2, 32) == UINT32_LIMIT
  {
    assert Pow(2, 4) == 16;
    assert Pow(2, 8) == 256;
    assert Pow(2, 12) == 4096;
    assert Pow(2, 16) == 65536;
    assert Pow(2, 20) == 1048576;
    assert Pow(2, 24) == 16777216;
    assert Pow(2, 28) == 268435456;
  }

  lemma PowersOfEight()
    ensures Pow(8, 11) == 0x2_0000_0000
  {
    assert Pow(8, 2) == 64;
    assert Pow(8, 4) == 4096;
    assert Pow(8, 6) == 262144;
    assert Pow(8, 8) == 16777216;
    assert Pow(8, 10) == 1073741824;
  }

  lemma PowersOfTen()
    ensures Pow(10, 10) == 10_000_000_000
  {
    assert Pow(10, 2) == 100;
    assert Pow(10, 4) == 10000;
    assert Pow(10, 6) == 1000000;
    assert Pow(10, 8) == 100000000;
  }

  lemma PowersOfSixteen()
    ensures Pow(16, 8) == UINT32_LIMIT
  {
    assert Pow(16, 2) == 256;
    assert Pow(16, 4) == 65536;
    assert Pow(16, 6) == 16777216;
  }

  /** Writes the digits of a 32-bit value: at most this many characters in each radix. */
  function MaxDigits32(radix: Radix): nat
  {
    match radix
    case Bin => 32
    case Oct => 11
    case Dec => 10
    case Hex => 8
  }

  /**
   * A 32-bit value has at most 32, 11, 10 or 8 digits; in octal, decimal and hexadecimal the
   * digits (and a sign) followed by the terminator fit `format_number_buffer_capacity`.
   */
  lemma DigitsOf32BitValue(v: nat, radix: Radix)
    requires v < UINT32_LIMIT
    ensures |DigitsLsbFirst(v, radix)| <= MaxDigits32(radix)
    ensures radix != Bin ==> |DigitsLsbFirst(v, radix)| + 1 <= FORMAT_NUMBER_BUFFER_CAPACITY
    ensures radix == Dec ==> |DigitsLsbFirst(v, radix)| <= 10
  {
    if v > 0 {
      DigitCountBounds(v, radix);
      var k := |DigitsLsbFirst(v, radix)|;
      var b := Base(radix);
      var m := MaxDigits32(radix);
      if k > m {
        PowMonotone(b, m, k - 1);
        assert Pow(b, m) >= UINT32_LIMIT by {
          match radix
          case Bin => PowersOfTwo();
          case Oct => PowersOfEight();
          case Dec => PowersOfTen();
          case Hex => PowersOfSixteen();
        }
        assert false;
      }
    }
  }

  // ---------------------------------------------------------------------------------------
  // parsing

  /** The value the parser adds for one character: its code minus the code of '0'. */
  function DigitValue(c: char): int
  {
    c as int - '0' as int
  }

  /** Positional reading: the first character weighs `10^(|s|-1)`, the last one 1. */
  function WeightedDigitSum(s: seq<char>): int
  {
    if s == [] then 0 else DigitValue(s[0]) * Pow(10, |s| - 1) + WeightedDigitSum(s[1..])
  }

  /** Appending a digit multiplies the value read so far by ten and adds the digit. */
  lemma {:induction false} WeightedDigitSumAppend(t: seq<char>, c: char)
    ensures WeightedDigitSum(t + [c]) == 10 * WeightedDigitSum(t) + DigitValue(c)
  {
    if t != [] {
      assert (t + [c])[1..] == t[1..] + [c];
      WeightedDigitSumAppend(t[1..], c);
      assert Pow(10, |t|) == 10 * Pow(10, |t| - 1);
    }
  }

  /**
   * The parsers' index counts down in `uint32`: `pos` is the position it stands for, -1 once
   * it has wrapped past 0. The loop test `(i + n + min) mod 2^32 != n` fails exactly when
   * `pos` has reached `-min`.
   */
  lemma CountDownTest(n: uint32, min: uint32, pos: int, i: uint32)
    requires min <= 1 && -(min as int) <= pos < n as int
    requires i == if pos == -1 then UINT32_LIMIT - 1 else pos
    ensures ((i + n + min) % UINT32_LIMIT != n) == (pos != -(min as int))
  {
  }

  /** Decrementing the index in `uint32` moves `pos` one place left, wrapping at 0. */
  lemma CountDownStep(pos: int, i: uint32)
    requires pos >= 0 && i == pos
    ensures (i - 1) % UINT32_LIMIT == if pos - 1 == -1 then UINT32_LIMIT - 1 else pos - 1
  {
  }

  /** Reading `s[pos..n]` from the right: the digit at `pos` weighs `10^(n-1-pos)`. */
  lemma WeightedDigitSumStep(s: seq<char>, pos: nat, n: nat)
    requires pos < n <= |s|
    ensures WeightedDigitSum(s[pos..n]) == DigitValue(s[pos]) * Pow(10, n - 1 - pos) + WeightedDigitSum(s[pos + 1..n])
  {
    assert s[pos..n][1..] == s[pos + 1..n];
  }

  /** Adding a multiple of 2^32 does not change a value's residue. */
  lemma ModShift(x: int, k: int)
    ensures (x + UINT32_LIMIT * k) % UINT32_LIMIT == x % UINT32_LIMIT
  {
  }

  /**
   * One step of the 32-bit accumulation: adding `d * m` with the multiplier and the product
   * reduced modulo 2^32 leaves the residue of the exact sum.
   */
  lemma ModAddMul(a: int, d: int, m: int)
    ensures (a % UINT32_LIMIT + (d * (m % UINT32_LIMIT)) % UINT32_LIMIT) % UINT32_LIMIT
      == (a + d * m) % UINT32_LIMIT
  {
    var q := m / UINT32_LIMIT;
    var p := d * (m % UINT32_LIMIT);
    assert d * m == p + UINT32_LIMIT * (d * q) by {
      assert m == UINT32_LIMIT * q + m % UINT32_LIMIT;
      assert d * (UINT32_LIMIT * q + m % UINT32_LIMIT) == d * (UINT32_LIMIT * q) + p;
    }
    assert a + d * m == (a % UINT32_LIMIT + p) + UINT32_LIMIT * (a / UINT32_LIMIT + d * q);
    ModShift(a % UINT32_LIMIT + p, a / UINT32_LIMIT + d * q);
    assert a % UINT32_LIMIT + p == (a % UINT32_LIMIT + p % UINT32_LIMIT) + UINT32_LIMIT * (p / UINT32_LIMIT);
    ModShift(a % UINT32_LIMIT + p % UINT32_LIMIT, p / UINT32_LIMIT);
  }

  /** `retval += (c - '0') * m` with `retval` and `m` 32 bits wide. */
  function Accumulate32(acc: uint32, d: int, m32: uint32): uint32
  {
    (acc + (d * m32) % UINT32_LIMIT) % UINT32_LIMIT
  }

  /** `m *= 10` in `uint32`. */
  function TimesTen32(m32: uint32): uint32
  {
    (m32 * 10) % UINT32_LIMIT
  }

  /** The 32-bit accumulator and multiplier stay the residues of the exact ones. */
  lemma Accumulate32Step(r: int, d: int, m: int, acc: uint32, m32: uint32)
    requires acc == r % UINT32_LIMIT && m32 == m % UINT32_LIMIT
    ensures Accumulate32(acc, d, m32) == (r + d * m) % UINT32_LIMIT
    ensures TimesTen32(m32) == (m * 10) % UINT32_LIMIT
  {
    ModAddMul(r, d, m);
    ModAddMul(0, 10, m);
  }

  /**
   * `to_unsigned_integer(s, n)`: the loop walks `i` down from `n-1` in `uint32` and stops when
   * `i + n + 1` wraps to `n`, that is once `i` has wrapped past 0. `r` is the exact positional
   * sum of `s[0..n-1]`; `wrapped` is what the `uint32` instance returns, its accumulator and its
   * multiplier `m` kept in 32 bits: the sum modulo 2^32. The source checks no character here, so
   * a character below '0' weighs negatively.
   */
  method ToUnsignedInteger(s: seq<char>, n: uint32) returns (r: int, wrapped: uint32)
    requires 0 < n as int <= |s|
    requires s[0] != NUL
    ensures r == WeightedDigitSum(s[..n])
    ensures wrapped == r % UINT32_LIMIT
  {
    r, wrapped := 0, 0;
    var i: uint32 := n - 1;
    var m: int := 1;
    var m32: uint32 := 1;
    ghost var pos: int := n as int - 1;
    CountDownTest(n, 1, pos, i);
    while (i + n + 1) % UINT32_LIMIT != n
      invariant -1 <= pos < n as int
      invariant i == if pos == -1 then UINT32_LIMIT - 1 else pos
      invariant m == Pow(10, n as int - 1 - pos) && m32 == m % UINT32_LIMIT
      invariant r == WeightedDigitSum(s[pos + 1..n]) && wrapped == r % UINT32_LIMIT
      invariant ((i + n + 1) % UINT32_LIMIT != n) == (pos != -1)
      decreases pos
    {
      WeightedDigitSumStep(s, pos, n as nat);
      CountDownStep(pos, i);
      Accumulate32Step(r, DigitValue(s[i]), m, wrapped, m32);
      r := r + DigitValue(s[i]) * m;
      wrapped := Accumulate32(wrapped, DigitValue(s[i]), m32);
      i := (i - 1) % UINT32_LIMIT;
      m := m * 10;
      m32 := TimesTen32(m32);
      pos := pos - 1;
      CountDownTest(n, 1, pos, i);
    }
    assert s[pos + 1..n] == s[..n];
  }

  /** 1 when the text starts with a minus sign, the index of its first digit. */
  function SignLength(s: seq<char>): nat
    requires |s| > 0
  {
    if s[0] == '-' then 1 else 0
  }

  /**
   * `to_signed_integer(s, n)`: like the unsigned parser, but it stops one character early after
   * a leading '-', asserts that every character it reads is a decimal digit, and negates the sum
   * when the sign is present. `r` is the exact value; `wrapped` is what the `int32` instance
   * returns when its accumulator wraps in 32 bits: the value modulo 2^32, read as two's complement.
   */
  method ToSignedInteger(s: seq<char>, n: uint32) returns (r: int, wrapped: int32)
    requires 0 < n as int <= |s|
    requires s[0] != NUL
    requires forall k :: SignLength(s) <= k < n as int ==> IsDecimalDigit(s[k])
    ensures s[0] == '-' ==> r == -WeightedDigitSum(s[1..n])
    ensures s[0] != '-' ==> r == WeightedDigitSum(s[..n])
    ensures wrapped % UINT32_LIMIT == r % UINT32_LIMIT
  {
    r := 0;
    var bits: uint32 := 0;
    var min: uint32 := if '-' == s[0] then 0 else 1;
    var i: uint32 := n - 1;
    var m: int := 1;
    var m32: uint32 := 1;
    ghost var pos: int := n as int - 1;
    ghost var stop: int := SignLength(s) - 1;
    CountDownTest(n, min, pos, i);
    while (i + n + min) % UINT32_LIMIT != n
      invariant stop <= pos < n as int
      invariant i == if pos == -1 then UINT32_LIMIT - 1 else pos
      invariant m == Pow(10, n as int - 1 - pos) && m32 == m % UINT32_LIMIT
      invariant r == WeightedDigitSum(s[pos + 1..n]) && bits == r % UINT32_LIMIT
      invariant ((i + n + min) % UINT32_LIMIT != n) == (pos != stop)
      decreases pos
    {
      WeightedDigitSumStep(s, pos, n as nat);
      CountDownStep(pos, i);
      Accumulate32Step(r, DigitValue(s[i]), m, bits, m32);
      r := r + DigitValue(s[i]) * m;
      bits := Accumulate32(bits, DigitValue(s[i]), m32);
      i := (i - 1) % UINT32_LIMIT;
      m := m * 10;
      m32 := TimesTen32(m32);
      pos := pos - 1;
      CountDownTest(n, min, pos, i);
    }
    assert pos == stop;
    if s[0] != '-' {
      assert s[pos + 1..n] == s[..n];
    } else {
      Negate32Residue(r, bits);
      r, bits := -r, Negate32(bits);
    }
    wrapped := AsInt32(bits);
    AsInt32Residue(bits);
  }

  /** `retval * -1` in 32-bit two's complement. */
  function Negate32(bits: uint32): uint32
  {
    (-(bits as int)) % UINT32_LIMIT
  }

  lemma Negate32Residue(r: int, bits: uint32)
    requires bits == r % UINT32_LIMIT
    ensures Negate32(bits) == (-r) % UINT32_LIMIT
  {
    ModShift(-r, r / UINT32_LIMIT);
  }

  /** Reading a 32-bit pattern as two's complement keeps its residue. */
  lemma AsInt32Residue(u: uint32)
    ensures AsInt32(u) % UINT32_LIMIT == u
  {
  }

  /** The unsigned parser checks no character: '/' weighs -1, which the `uint32` instance returns as 0xFFFFFFFF. */
  method ParseNonDigit() returns (exact: int, wrapped: uint32)
    ensures exact == -1 && wrapped == 0xFFFF_FFFF
  {
    assert WeightedDigitSum(['/']) == -1;
    exact, wrapped := ToUnsignedInteger(['/'], 1);
  }

  /** Two `int32` values with the same residue modulo 2^32 are equal. */
  lemma Int32Congruent(a: int32, b: int32)
    requires a % UINT32_LIMIT == b % UINT32_LIMIT
    ensures a == b
  {
  }

  /** Reading back the reversed digits of `v` yields `v`. */
  lemma {:induction false} DecimalDigitsRoundTrip(v: nat)
    ensures WeightedDigitSum(Reversed(DigitsLsbFirst(v, Dec))) == v
  {
    if v != 0 {
      var d := DigitsLsbFirst(v, Dec);
      assert d == [DigitChar(v % 10)] + DigitsLsbFirst(v / 10, Dec);
      assert Reversed(d) == Reversed(DigitsLsbFirst(v / 10, Dec)) + [DigitChar(v % 10)] by {
        assert d[1..] == DigitsLsbFirst(v / 10, Dec);
      }
      WeightedDigitSumAppend(Reversed(DigitsLsbFirst(v / 10, Dec)), DigitChar(v % 10));
      DecimalDigitsRoundTrip(v / 10);
    }
  }

  // ---------------------------------------------------------------------------------------
  // formatting

  /** One step of the conversion: the lowest digit, then the digits of the quotient, which is smaller. */
  lemma DigitsStep(v: nat, radix: Radix)
    requires v != 0
    ensures 0 <= v / Base(radix) < v
    ensures DigitsLsbFirst(v, radix) == [DigitChar(v % Base(radix))] + DigitsLsbFirst(v / Base(radix), radix)
  {
    DivShrinks(v, Base(radix));
  }

  /**
   * The conversion loop of `from_unsigned_integer`: while the value is not zero, write the
   * character of `value % base` and divide by the base.
   */
  method WriteDigitsLsbFirst(value: nat, buf: array<char>, radix: Radix) returns (ret: nat)
    requires |DigitsLsbFirst(value, radix)| < buf.Length
    modifies buf
    ensures ret == |DigitsLsbFirst(value, radix)|
    ensures buf[..ret] == DigitsLsbFirst(value, radix)
    ensures forall k :: ret <= k < buf.Length ==> buf[k] == old(buf[k])
  {
    ret := 0;
    var v: nat := value;
    while v != 0
      invariant ret + |DigitsLsbFirst(v, radix)| == |DigitsLsbFirst(value, radix)|
      invariant buf[..ret] + DigitsLsbFirst(v, radix) == DigitsLsbFirst(value, radix)
      invariant forall k :: ret <= k < buf.Length ==> buf[k] == old(buf[k])
      decreases v
    {
      var remainder := v % Base(radix);
      DigitsStep(v, radix);
      ghost var before := buf[..];
      buf[ret] := if remainder > 9 then ((remainder - 10) + 'a' as int) as char else (remainder + '0' as int) as char;
      StoreAt(before, buf[..], ret, DigitChar(remainder));
      AppendAssoc(before[..ret], [DigitChar(remainder)], DigitsLsbFirst(v / Base(radix), radix));
      ret := ret + 1;
      v := v / Base(radix);
    }
  }

  /**
   * `from_unsigned_integer` as written: the digits are produced least significant first and
   * then handed to `reverse`, which only exchanges the outer two.
   */
  method FromUnsignedInteger(value: nat, buf: array<char>, capacity: uint32, radix: Radix) returns (ret: nat)
    requires capacity > 1
    requires 2 <= buf.Length && |DigitsLsbFirst(value, radix)| < buf.Length
    requires buf.Length < UINT32_LIMIT
    modifies buf
    ensures ret < buf.Length
    ensures value == 0 ==> ret == 1 && buf[0] == '0' && buf[1] == NUL
    ensures value != 0 ==> ret == |DigitsLsbFirst(value, radix)| && buf[..ret] == EndsSwapped(DigitsLsbFirst(value, radix))
    ensures buf[ret] == NUL
    ensures forall k :: ret < k < buf.Length ==> buf[k] == old(buf[k])
  {
    if value == 0 {
      buf[0] := '0';
      buf[1] := NUL;
      return 1;
    }
    ret := WriteDigitsLsbFirst(value, buf, radix);
    buf[ret] := NUL;
    Reverse(buf, ret);
  }

  /** As written, 1234 is formatted as "1324": the digits come out as "4321" and only the ends trade places. */
  lemma FromUnsignedIntegerCounterexample()
    ensures DigitsLsbFirst(1234, Dec) == "4321"
    ensures EndsSwapped(DigitsLsbFirst(1234, Dec)) == "1324"
    ensures DecimalText(1234) == "1234"
  {
    assert DigitsLsbFirst(1, Dec) == "1";
    assert DigitsLsbFirst(12, Dec) == "21";
    assert DigitsLsbFirst(123, Dec) == "321";
  }

  /** The decimal text the formatter is meant to produce for a natural number. */
  function DecimalText(v: nat): seq<char>
  {
    if v == 0 then "0" else Reversed(DigitsLsbFirst(v, Dec))
  }

  /** `from_unsigned_integer` with the intended reversal; the rest of the model formats with it. */
  method FromUnsignedIntegerCorrected(value: nat, buf: array<char>, capacity: uint32, radix: Radix) returns (ret: nat)
    requires capacity > 1
    requires 2 <= buf.Length && |DigitsLsbFirst(value, radix)| < buf.Length
    requires buf.Length < UINT32_LIMIT
    modifies buf
    ensures ret < buf.Length
    ensures value == 0 ==> ret == 1 && buf[0] == '0' && buf[1] == NUL
    ensures value != 0 ==> ret == |DigitsLsbFirst(value, radix)| && buf[..ret] == Reversed(DigitsLsbFirst(value, radix))
    ensures radix == Dec ==> buf[..ret] == DecimalText(value)
    ensures buf[ret] == NUL
    ensures forall k :: ret < k < buf.Length ==> buf[k] == old(buf[k])
  {
    if value == 0 {
      buf[0] := '0';
      buf[1] := NUL;
      assert buf[..1] == "0";
      return 1;
    }
    ret := WriteDigitsLsbFirst(value, buf, radix);
    buf[ret] := NUL;
    ReverseCorrected(buf, ret);
  }

  /** The decimal text of a natural number reads back as that number, and it has no sign. */
  lemma DecimalTextRoundTrip(v: nat)
    ensures |DecimalText(v)| > 0
    ensures WeightedDigitSum(DecimalText(v)) == v
    ensures forall k :: 0 <= k < |DecimalText(v)| ==> IsDecimalDigit(DecimalText(v)[k])
  {
    if v == 0 {
      assert WeightedDigitSum("0") == DigitValue('0') * Pow(10, 0) + WeightedDigitSum([]);
    } else {
      DecimalDigitsRoundTrip(v);
      DigitCountBounds(v, Dec);
      DigitsAreRadixDigits(v, Dec);
      ReversedDecimalDigits(DigitsLsbFirst(v, Dec));
    }
  }

  /** Reversing a string of decimal digits keeps every character a decimal digit. */
  lemma ReversedDecimalDigits(d: seq<char>)
    requires forall k :: 0 <= k < |d| ==> IsRadixDigit(d[k], Dec)
    ensures forall k :: 0 <= k < |Reversed(d)| ==> IsDecimalDigit(Reversed(d)[k])
  {
    forall k | 0 <= k < |Reversed(d)|
      ensures IsDecimalDigit(Reversed(d)[k])
    {
      assert Reversed(d)[k] == d[|d| - 1 - k];
    }
  }

  /** Parsing what the corrected unsigned formatter wrote gives back the value. */
  method FormatThenParseUnsigned(value: uint32) returns (parsed: int, wrapped: uint32)
    ensures parsed == value && wrapped == value
  {
    DigitsOf32BitValue(value, Dec);
    var buf := new char[FORMAT_NUMBER_BUFFER_CAPACITY];
    var n := FromUnsignedIntegerCorrected(value, buf, FORMAT_NUMBER_BUFFER_CAPACITY, Dec);
    DecimalTextRoundTrip(value);
    assert buf[..n] == DecimalText(value);
    assert buf[..][..n] == buf[..n];
    parsed, wrapped := ToUnsignedInteger(buf[..], n);
  }

  /** C++ `/` on signed integers: the quotient is truncated toward zero. */
  function TruncDiv(a: int, b: nat): int
    requires b > 0
  {
    if a >= 0 then a / b else -((-a) / b)
  }

  lemma DivMod(a: nat, b: nat)
    requires b > 0
    ensures a == (a / b) * b + a % b && 0 <= a % b < b
  {
  }

  function Abs(v: int): nat
  {
    if v < 0 then -v else v
  }

  /** C++ `%` on signed integers, `a - (a / b) * b`: the remainder takes the sign of the dividend. */
  function TruncRem(a: int, b: nat): (r: int)
    requires b > 0
    ensures a >= 0 ==> r == a % b
    ensures a < 0 ==> r == -((-a) % b)
  {
    DivMod(Abs(a), b);
    a - TruncDiv(a, b) * b
  }

  /** The magnitudes of the truncated quotient and remainder are those of the magnitude. */
  lemma TruncDivAbs(v: int, b: nat)
    requires b > 0
    ensures Abs(TruncDiv(v, b)) == Abs(v) / b
    ensures Abs(TruncRem(v, b)) == Abs(v) % b
    ensures v < 0 ==> TruncRem(v, b) <= 0
  {
    if v < 0 {
      assert Abs(v) == -v;
      assert TruncDiv(v, b) == -((-v) / b);
    } else {
      assert TruncDiv(v, b) == v / b;
    }
  }

  lemma DivShrinks(a: nat, b: nat)
    requires a > 0 && b > 1
    ensures a / b < a
  {
    DivMod(a, b);
    MulLeMonotone(a / b, 2, b);
  }

  /** The character the loop writes for a truncated remainder: '0' plus the remainder when it is at most 9. */
  function SignedDigitChar(rem: int): char
    requires -16 < rem < 16
  {
    if rem > 9 then ((rem - 10) + 'a' as int) as char else (rem + '0' as int) as char
  }

  /** The characters `from_signed_integer`'s loop writes, least significant first. */
  function SignedDigitsLsbFirst(v: int, radix: Radix): seq<char>
    decreases Abs(v)
  {
    if v == 0 then []
    else
      TruncDivAbs(v, Base(radix));
      DivShrinks(Abs(v), Base(radix));
      [SignedDigitChar(TruncRem(v, Base(radix)))] + SignedDigitsLsbFirst(TruncDiv(v, Base(radix)), radix)
  }

  /** The characters before `reverse`: the digits, then '-' for a negative value. */
  function SignedTextLsbFirst(v: int, radix: Radix): seq<char>
  {
    SignedDigitsLsbFirst(v, radix) + (if v < 0 then ['-'] else [])
  }

  /** One step of the signed conversion: the character of the truncated remainder, then the digits of the truncated quotient. */
  lemma SignedDigitsStep(v: int, radix: Radix)
    requires v != 0
    ensures Abs(TruncDiv(v, Base(radix))) < Abs(v)
    ensures Abs(TruncRem(v, Base(radix))) < Base(radix)
    ensures SignedDigitsLsbFirst(v, radix) ==
      [SignedDigitChar(TruncRem(v, Base(radix)))] + SignedDigitsLsbFirst(TruncDiv(v, Base(radix)), radix)
  {
    TruncDivAbs(v, Base(radix));
    DivShrinks(Abs(v), Base(radix));
  }

  /** The conversion loop of `from_signed_integer`, with C++'s truncating `%` and `/`. */
  method WriteSignedDigitsLsbFirst(value: int, buf: array<char>, radix: Radix) returns (ret: nat)
    requires |SignedDigitsLsbFirst(value, radix)| < buf.Length
    modifies buf
    ensures ret == |SignedDigitsLsbFirst(value, radix)|
    ensures buf[..ret] == SignedDigitsLsbFirst(value, radix)
    ensures forall k :: ret <= k < buf.Length ==> buf[k] == old(buf[k])
  {
    ret := 0;
    var v := value;
    while v != 0
      invariant ret + |SignedDigitsLsbFirst(v, radix)| == |SignedDigitsLsbFirst(value, radix)|
      invariant buf[..ret] + SignedDigitsLsbFirst(v, radix) == SignedDigitsLsbFirst(value, radix)
      invariant forall k :: ret <= k < buf.Length ==> buf[k] == old(buf[k])
      decreases Abs(v)
    {
      var remainder := TruncRem(v, Base(radix));
      SignedDigitsStep(v, radix);
      ghost var before := buf[..];
      buf[ret] := if remainder > 9 then ((remainder - 10) + 'a' as int) as char else (remainder + '0' as int) as char;
      StoreAt(before, buf[..], ret, SignedDigitChar(remainder));
      AppendAssoc(before[..ret], [SignedDigitChar(remainder)], SignedDigitsLsbFirst(TruncDiv(v, Base(radix)), radix));
      ret := ret + 1;
      v := TruncDiv(v, Base(radix));
    }
  }

  /**
   * `from_signed_integer` as written. For a negative value the truncated remainders are
   * negative, so the loop writes `'0' + remainder`, a character below '0'; the sign is
   * appended and then `reverse` exchanges only the outer two characters.
   */
  method FromSignedInteger(value: int, buf: array<char>, capacity: uint32, radix: Radix) returns (ret: nat)
    requires capacity > 1
    requires 2 <= buf.Length && |SignedTextLsbFirst(value, radix)| < buf.Length
    requires buf.Length < UINT32_LIMIT
    modifies buf
    ensures ret < buf.Length
    ensures value == 0 ==> ret == 1 && buf[0] == '0' && buf[1] == NUL
    ensures value != 0 ==> ret == |SignedTextLsbFirst(value, radix)| && buf[..ret] == EndsSwapped(SignedTextLsbFirst(value, radix))
    ensures buf[ret] == NUL
    ensures forall k :: ret < k < buf.Length ==> buf[k] == old(buf[k])
  {
    var negative := value < 0;
    if value == 0 {
      buf[0] := '0';
      buf[1] := NUL;
      return 1;
    }
    ret := WriteSignedDigitsLsbFirst(value, buf, radix);
    if negative {
      buf[ret] := '-';
      ret := ret + 1;
      assert buf[..ret] == buf[..ret - 1] + ['-'];
    }
    assert buf[..ret] == SignedTextLsbFirst(value, radix);
    buf[ret] := NUL;
    Reverse(buf, ret);
  }

  /** As written, -5 is formatted as "-+" ('0' - 5 is '+') and -3 as "--". */
  lemma FromSignedIntegerCounterexample()
    ensures EndsSwapped(SignedTextLsbFirst(-5, Dec)) == ['-', '+']
    ensures EndsSwapped(SignedTextLsbFirst(-3, Dec)) == ['-', '-']
  {
    CounterexampleDigit(-5, '+');
    CounterexampleDigit(-3, '-');
  }

  /** A single-digit negative value is written as one character below '0', then the sign. */
  lemma CounterexampleDigit(v: int, c: char)
    requires -9 <= v < 0 && c == (v + '0' as int) as char
    ensures SignedTextLsbFirst(v, Dec) == [c, '-']
  {
    assert TruncDiv(v, 10) == 0 && TruncRem(v, 10) == v;
    assert SignedDigitsLsbFirst(0, Dec) == [];
    assert SignedDigitsLsbFirst(v, Dec) == [c];
  }

  /** The text the signed formatter is meant to produce: a '-' for negative values, then the decimal digits of the magnitude. */
  function SignedDecimalText(v: int): seq<char>
  {
    (if v < 0 then "-" else "") + DecimalText(Abs(v))
  }

  lemma ReversedAppend(s: seq<char>, t: seq<char>)
    ensures Reversed(s + t) == Reversed(t) + Reversed(s)
  {
    assert forall k :: 0 <= k < |s + t| ==> Reversed(s + t)[k] == (Reversed(t) + Reversed(s))[k];
  }

  /** `from_signed_integer` with the digits of the magnitude and the intended reversal. */
  method FromSignedIntegerCorrected(value: int, buf: array<char>, capacity: uint32, radix: Radix) returns (ret: nat)
    requires capacity > 1
    requires 2 <= buf.Length && |DigitsLsbFirst(Abs(value), radix)| + 1 < buf.Length
    requires buf.Length < UINT32_LIMIT
    modifies buf
    ensures ret < buf.Length
    ensures value == 0 ==> ret == 1 && buf[0] == '0' && buf[1] == NUL
    ensures value != 0 ==> buf[..ret] == (if value < 0 then "-" else "") + Reversed(DigitsLsbFirst(Abs(value), radix))
    ensures radix == Dec ==> buf[..ret] == SignedDecimalText(value)
    ensures buf[ret] == NUL
    ensures forall k :: ret < k < buf.Length ==> buf[k] == old(buf[k])
  {
    var negative := value < 0;
    if value == 0 {
      buf[0] := '0';
      buf[1] := NUL;
      assert buf[..1] == "0";
      return 1;
    }
    ret := WriteDigitsLsbFirst(Abs(value), buf, radix);
    if negative {
      buf[ret] := '-';
      ret := ret + 1;
      assert buf[..ret] == buf[..ret - 1] + ['-'];
    }
    ghost var sign: seq<char> := if negative then ['-'] else [];
    assert buf[..ret] == DigitsLsbFirst(Abs(value), radix) + sign;
    buf[ret] := NUL;
    ReverseCorrected(buf, ret);
    SignedTextReversed(value, radix);
  }

  /** Reversing the magnitude's digits followed by the sign puts the sign first. */
  lemma SignedTextReversed(value: int, radix: Radix)
    requires value != 0
    ensures Reversed(DigitsLsbFirst(Abs(value), radix) + (if value < 0 then ['-'] else [])) ==
      (if value < 0 then "-" else "") + Reversed(DigitsLsbFirst(Abs(value), radix))
    ensures radix == Dec ==>
      Reversed(DigitsLsbFirst(Abs(value), radix) + (if value < 0 then ['-'] else [])) == SignedDecimalText(value)
  {
    var sign: seq<char> := if value < 0 then ['-'] else [];
    ReversedAppend(DigitsLsbFirst(Abs(value), radix), sign);
    assert Reversed(sign) == sign;
  }

  /** Parsing what the corrected signed formatter wrote gives back the value. */
  method FormatThenParseSigned(value: int32) returns (parsed: int, wrapped: int32)
    ensures parsed == value && wrapped == value
  {
    DigitsOf32BitValue(Abs(value), Dec);
    var buf := new char[FORMAT_NUMBER_BUFFER_CAPACITY];
    var n := FromSignedIntegerCorrected(value, buf, FORMAT_NUMBER_BUFFER_CAPACITY, Dec);
    var t := buf[..];
    assert t[..n] == buf[..n];
    SignedTextPrefixParses(t, n, value);
    parsed, wrapped := ToSignedInteger(t, n);
    Int32Congruent(wrapped, value);
  }

  /** A buffer that starts with the signed decimal text of `value` meets the signed parser's demands, and parses to `value`. */
  lemma SignedTextPrefixParses(t: seq<char>, n: nat, value: int)
    requires n <= |t| && t[..n] == SignedDecimalText(value)
    ensures 0 < n && t[0] != NUL
    ensures forall k :: SignLength(t) <= k < n ==> IsDecimalDigit(t[k])
    ensures t[0] == '-' ==> -WeightedDigitSum(t[1..n]) == value
    ensures t[0] != '-' ==> WeightedDigitSum(t[..n]) == value
  {
    SignedDecimalTextParses(value);
    var text := SignedDecimalText(value);
    assert t[0] == text[0];
    assert forall k :: 0 <= k < n ==> t[k] == text[k];
    assert t[1..n] == text[1..];
  }

  /** The signed decimal text is digits after an optional '-', and reading it back gives the value. */
  lemma SignedDecimalTextParses(value: int)
    ensures |SignedDecimalText(value)| > 0 && SignedDecimalText(value)[0] != NUL
    ensures forall k :: SignLength(SignedDecimalText(value)) <= k < |SignedDecimalText(value)| ==>
      IsDecimalDigit(SignedDecimalText(value)[k])
    ensures SignedDecimalText(value)[0] == '-' ==> -WeightedDigitSum(SignedDecimalText(value)[1..]) == value
    ensures SignedDecimalText(value)[0] != '-' ==> WeightedDigitSum(SignedDecimalText(value)) == value
  {
    var digits := DecimalText(Abs(value));
    DecimalTextRoundTrip(Abs(value));
    var text := SignedDecimalText(value);
    if value < 0 {
      assert text == "-" + digits;
      assert text[1..] == digits;
      assert forall k :: 1 <= k < |text| ==> text[k] == digits[k - 1];
    } else {
      assert text == digits;
      assert IsDecimalDigit(text[0]);
    }
  }

  // ---------------------------------------------------------------------------------------
  // Argument

  /** `cstring::Argument::Type`. */
  datatype ArgumentType = UnsignedInt | SignedInt | Character | CStringPointer | Unknown

  /** `cstring::Argument`: four bytes, most significant first, and the type they hold. */
  datatype Argument = Argument(data: seq<uint8>, kind: ArgumentType)
  {
    ghost predicate Valid()
    {
      |data| == 4
    }
  }

  /** A default-constructed argument: zero bytes and no type. */
  const DefaultArgument: Argument := Argument([0, 0, 0, 0], Unknown)

  /** A default-constructed argument holds four zero bytes and is none of the four types a getter accepts. */
  lemma DefaultArgumentHasNoGetter()
    ensures DefaultArgument.Valid() && Assemble(DefaultArgument.data) == 0
    ensures DefaultArgument.kind != UnsignedInt && DefaultArgument.kind != SignedInt
    ensures DefaultArgument.kind != Character && DefaultArgument.kind != CStringPointer
  {
  }

  type int32 = x: int | -0x8000_0000 <= x < 0x8000_0000
  type int16 = x: int | -0x8000 <= x < 0x8000
  type int8 = x: int | -0x80 <= x < 0x80

  /** `(x >> 24) & 0xFF`, ... `x & 0xFF` of a 32-bit pattern. */
  function BigEndianBytes(u: uint32): (d: seq<uint8>)
    ensures |d| == 4
    ensures d[0] as int * 0x100_0000 + d[1] as int * 0x1_0000 + d[2] as int * 0x100 + d[3] as int == u
  {
    var q1 := u / 0x100;
    var q2 := q1 / 0x100;
    var q3 := q2 / 0x100;
    assert u == q1 * 0x100 + u % 0x100;
    assert q1 == q2 * 0x100 + q1 % 0x100;
    assert q2 == q3 * 0x100 + q2 % 0x100;
    assert q3 < 0x100;
    assert u / 0x1_0000 == q2 && u / 0x100_0000 == q3;
    [(u / 0x100_0000) % 0x100, (u / 0x1_0000) % 0x100, (u / 0x100) % 0x100, u % 0x100]
  }

  /** `(d[0] << 24) | (d[1] << 16) | (d[2] << 8) | d[3]`; the shifted bytes do not overlap, so `|` adds them. */
  function Assemble(d: seq<uint8>): uint32
    requires |d| == 4
  {
    d[0] as int * 0x100_0000 + d[1] as int * 0x1_0000 + d[2] as int * 0x100 + d[3] as int
  }

  /** The two's-complement reading of a 32-bit pattern, as the `int32` return of `get_int32` gives it. */
  function AsInt32(u: uint32): int32
  {
    if u < 0x8000_0000 then u else u - UINT32_LIMIT
  }

  function FromUInt32(v: uint32): (a: Argument)
    ensures a.Valid() && a.kind == UnsignedInt
  {
    Argument(BigEndianBytes(v), UnsignedInt)
  }

  /** The signed constructor shifts arithmetically, so the bytes are those of the two's-complement pattern. */
  function FromInt32(v: int32): (a: Argument)
    ensures a.Valid() && a.kind == SignedInt
  {
    Argument(BigEndianBytes(v % UINT32_LIMIT), SignedInt)
  }

  function FromUInt16(v: uint16): (a: Argument)
    ensures a.Valid() && a.kind == UnsignedInt
  {
    Argument([0, 0, (v / 0x100) % 0x100, v % 0x100], UnsignedInt)
  }

  /** As written, the two upper bytes are zero whatever the sign of the value. */
  function FromInt16(v: int16): (a: Argument)
    ensures a.Valid() && a.kind == SignedInt
  {
    Argument([0, 0, (v / 0x100) % 0x100, v % 0x100], SignedInt)
  }

  /** The intended `int16` constructor: the value is sign-extended to 32 bits. */
  function FromInt16Corrected(v: int16): (a: Argument)
    ensures a.Valid() && a.kind == SignedInt
  {
    FromInt32(v)
  }

  function FromUInt8(v: uint8): (a: Argument)
    ensures a.Valid() && a.kind == UnsignedInt
  {
    Argument([0, 0, 0, v], UnsignedInt)
  }

  /** The `int8` constructor stores the character in the last byte and types it as a character. */
  function FromInt8(v: int8): (a: Argument)
    ensures a.Valid() && a.kind == Character
  {
    Argument([0, 0, 0, v % 0x100], Character)
  }

  /** The string constructor stores the 32-bit address of the string. */
  function FromCString(address: uint32): (a: Argument)
    ensures a.Valid() && a.kind == CStringPointer
  {
    Argument(BigEndianBytes(address), CStringPointer)
  }

  /** `get_uint32`: the value whose big-endian bytes are the stored ones. */
  function GetUInt32(a: Argument): (r: uint32)
    requires a.Valid() && a.kind == UnsignedInt
    ensures BigEndianBytes(r) == a.data
  {
    AssembleBytes(a.data);
    Assemble(a.data)
  }

  /** `get_int32`: the value whose two's-complement bytes are the stored ones. */
  function GetInt32(a: Argument): (r: int32)
    requires a.Valid() && a.kind == SignedInt
    ensures BigEndianBytes(r % UINT32_LIMIT) == a.data
  {
    AssembleBytes(a.data);
    AsInt32Residue(Assemble(a.data));
    AsInt32(Assemble(a.data))
  }

  /** `get_char` as written reads the first byte: the most significant byte of the stored word. */
  function GetChar(a: Argument): (r: uint8)
    requires a.Valid() && a.kind == Character
    ensures Assemble(a.data) / 0x100_0000 == r
  {
    a.data[0]
  }

  /** The intended `get_char`: the byte the `int8` constructor wrote, the least significant byte of the stored word. */
  function GetCharCorrected(a: Argument): (r: uint8)
    requires a.Valid() && a.kind == Character
    ensures Assemble(a.data) % 0x100 == r
  {
    var high := a.data[0] as int * 0x1_0000 + a.data[1] as int * 0x100 + a.data[2] as int;
    assert Assemble(a.data) == high * 0x100 + a.data[3] as int;
    a.data[3]
  }

  /** `get_cstring`: the address whose big-endian bytes are the stored ones. */
  function GetCString(a: Argument): (r: uint32)
    requires a.Valid() && a.kind == CStringPointer
    ensures BigEndianBytes(r) == a.data
  {
    AssembleBytes(a.data);
    Assemble(a.data)
  }

  /** Four bytes are the big-endian bytes of the word they assemble to: base-256 digits are unique. */
  lemma AssembleBytes(d: seq<uint8>)
    requires |d| == 4
    ensures BigEndianBytes(Assemble(d)) == d
  {
    var e := BigEndianBytes(Assemble(d));
    assert e[0] == d[0];
    assert e[1] == d[1];
    assert e[2] == d[2];
  }

  /** Every unsigned constructor is undone by `get_uint32`. */
  lemma UnsignedArgumentRoundTrip(v32: uint32, v16: uint16, v8: uint8)
    ensures GetUInt32(FromUInt32(v32)) == v32
    ensures GetUInt32(FromUInt16(v16)) == v16
    ensures GetUInt32(FromUInt8(v8)) == v8
  {
  }

  /** The `int32` constructor is undone by `get_int32`. */
  lemma SignedArgumentRoundTrip(v: int32)
    ensures GetInt32(FromInt32(v)) == v
  {
  }

  /** The string constructor is undone by `get_cstring`. */
  lemma CStringArgumentRoundTrip(address: uint32)
    ensures GetCString(FromCString(address)) == address
  {
  }

  /** As written, a negative `int16` comes back from `get_int32` as `v + 65536`: -1 reads as 65535. */
  lemma Int16ArgumentAsWritten(v: int16)
    ensures GetInt32(FromInt16(v)) == v % UINT16_LIMIT
    ensures v < 0 ==> GetInt32(FromInt16(v)) != v
    ensures GetInt32(FromInt16(-1)) == 0xFFFF
  {
  }

  /** With sign extension the `int16` constructor is undone by `get_int32`. */
  lemma Int16ArgumentCorrectedRoundTrip(v: int16)
    ensures GetInt32(FromInt16Corrected(v)) == v
    ensures v >= 0 ==> FromInt16Corrected(v) == FromInt16(v)
  {
    SignedArgumentRoundTrip(v);
    if v >= 0 {
      BigEndianBytesOf16Bits(v);
    }
  }

  /** A value below 2^16 has two zero upper bytes. */
  lemma BigEndianBytesOf16Bits(u: uint32)
    requires u < 0x1_0000
    ensures BigEndianBytes(u) == [0, 0, (u / 0x100) % 0x100, u % 0x100]
  {
    assert u / 0x100_0000 == 0 && u / 0x1_0000 == 0;
  }

  /** As written, `get_char` returns 0 for every character: the character sits in the last byte. */
  lemma CharArgumentAsWritten(c: int8)
    ensures GetChar(FromInt8(c)) == 0
    ensures GetChar(FromInt8('A' as int)) != 'A' as int
  {
  }

  /** Reading the last byte returns the character's code. */
  lemma CharArgumentCorrectedRoundTrip(c: int8)
    ensures GetCharCorrected(FromInt8(c)) == c % 0x100
    ensures c >= 0 ==> GetCharCorrected(FromInt8(c)) == c
  {
  }
}
