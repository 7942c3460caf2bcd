/** Decimal text: what int_to_str writes, str_to_int reads and vga_print_int prints. */
module DecimalText {
  import opened Bytes

  const INT_MIN := -0x8000_0000
  const INT_MAX := 0x7FFF_FFFF

  type int32 = x: int | -0x8000_0000 <= x <= 0x7FFF_FFFF

  /** Two's complement wrap-around of a 32-bit signed result. */
  function Wrap(x: int): int32 {
    (x + 0x8000_0000) % 0x1_0000_0000 - 0x8000_0000
  }

  const MINUS: byte := 45
  const PLUS: byte := 43
  const ZERO: byte := 48

  predicate Digit(c: byte) {
    48 <= c <= 57
  }

  /** Decimal digits of n, most significant first; nothing for zero. */
  function Digits(n: nat): (s: seq<byte>)
    ensures forall i :: 0 <= i < |s| ==> Digit(s[i])
    ensures n > 0 ==> s != [] && s[0] != ZERO
    ensures n == 0 ==> s == []
  {
    if n == 0 then [] else Digits(n / 10) + [ZERO + n % 10]
  }

  /** Canonical decimal text: no leading zeros, a minus sign for negative numbers. */
  function Text(n: int): seq<byte> {
    if n == 0 then [ZERO] else if n < 0 then [MINUS] + Digits(-n) else Digits(n)
  }

  /** The text the C code produces for a 32-bit n: Text(n), except that the negation of the smallest
      integer overflows back to itself, whose digit loop does not run. */
  function Written(n: int32): seq<byte> {
    if n == INT_MIN then [MINUS] else Text(n)
  }

  /** The number denoted by a string of digits. */
  function Value(s: seq<byte>): nat
    requires forall i :: 0 <= i < |s| ==> Digit(s[i])
  {
    if s == [] then 0
    else
      var d: int := s[|s| - 1];
      assert Digit(s[|s| - 1]);
      10 * Value(s[..|s| - 1]) + (d - 48)
  }

  lemma {:induction false} ValueDigits(n: nat)
    ensures Value(Digits(n)) == n
  {
    if n > 0 {
      ValueDigits(n / 10);
      assert Digits(n)[..|Digits(n)| - 1] == Digits(n / 10);
    }
  }

  // ---------- Reading ----------

  function SkipBlanks(s: seq<byte>): (r: seq<byte>)
    ensures |r| <= |s|
  {
    if s != [] && (s[0] == 32 || s[0] == 9) then SkipBlanks(s[1..]) else s
  }

  /** The longest prefix of digits. */
  function DigitPrefix(s: seq<byte>): (r: seq<byte>)
    ensures |r| <= |s| && r == s[..|r|]
    ensures forall i :: 0 <= i < |r| ==> Digit(r[i])
    ensures |r| < |s| ==> !Digit(s[|r|])
  {
    if s != [] && Digit(s[0]) then [s[0]] + DigitPrefix(s[1..]) else []
  }

  /** The digits accumulated in 32 bits, most significant first, from r on. */
  function Accumulate(r: int32, s: seq<byte>): int32
    requires forall i :: 0 <= i < |s| ==> Digit(s[i])
    decreases |s|
  {
    if s == [] then r else Accumulate(Shift(r, s[0]), s[1..])
  }

  /** One step of the digit loop: resultado * 10 + (c - '0'). */
  function Shift(r: int, c: int): int32 {
    Wrap(Wrap(r * 10) + (c - 48))
  }

  /** str_to_int of the characters before the NUL. */
  function Read(s: seq<byte>): int32 {
    var t := SkipBlanks(s);
    var negative := t != [] && t[0] == MINUS;
    var u := if t != [] && (t[0] == MINUS || t[0] == PLUS) then t[1..] else t;
    var n := Accumulate(0, DigitPrefix(u));
    if negative then Wrap(-(n as int)) else n
  }

  lemma {:induction false} AccumulateNext(r: int32, s: seq<byte>, c: byte)
    requires Digit(c) && forall i :: 0 <= i < |s| ==> Digit(s[i])
    ensures Accumulate(r, s + [c]) == Shift(Accumulate(r, s), c)
    decreases |s|
  {
    hide Shift;
    if s == [] {
      assert s + [c] == [c];
      assert [c][1..] == [];
    } else {
      assert (s + [c])[1..] == s[1..] + [c];
      AccumulateNext(Shift(r, s[0]), s[1..], c);
    }
  }

  lemma DigitsStep(n: nat)
    requires n > 0
    ensures Digits(n) == Digits(n / 10) + [ZERO + n % 10]
  {
  }

  lemma ShiftDigit(n: nat)
    requires n <= INT_MAX
    ensures Shift(n / 10, ZERO + n % 10) == n
  {
  }

  /** Reading the digits of n gives n. */
  lemma {:induction false} AccumulateDigits(n: nat)
    requires n <= INT_MAX
    ensures Accumulate(0, Digits(n)) == n
  {
    hide Digits, Accumulate, Shift;
    if n > 0 {
      AccumulateDigits(n / 10);
      DigitsStep(n);
      AccumulateNext(0, Digits(n / 10), ZERO + n % 10);
      ShiftDigit(n);
    } else {
      NoDigits();
    }
  }

  lemma NoDigits()
    ensures Digits(0) == [] && Accumulate(0, []) == 0
  {
  }

  /** The value never wraps on the way: each prefix of the text of n denotes a number of at most n. */
  lemma {:induction false} NoOverflow(n: nat, k: nat)
    requires n <= INT_MAX && k <= |Digits(n)|
    ensures Value(Digits(n)[..k]) <= n
    ensures Accumulate(0, Digits(n)[..k]) == Value(Digits(n)[..k])
  {
    if k == |Digits(n)| {
      assert Digits(n)[..k] == Digits(n);
      ValueDigits(n);
      AccumulateDigits(n);
    } else {
      assert Digits(n)[..k] == Digits(n / 10)[..k];
      NoOverflow(n / 10, k);
    }
  }

  lemma {:induction false} DigitPrefixAll(s: seq<byte>)
    requires forall i :: 0 <= i < |s| ==> Digit(s[i])
    ensures DigitPrefix(s) == s
  {
    if s != [] {
      DigitPrefixAll(s[1..]);
    }
  }

  /** Reading what was written gives the number back, for exactly the 32-bit integers other than the
      smallest. */
  lemma RoundTrip(n: int32)
    ensures Read(Written(n)) == n <==> n != INT_MIN
  {
    hide Digits, Accumulate;
    if n == INT_MIN {
      ReadMinus();
    } else if n < 0 {
      var u := Digits(-n);
      assert Written(n)[1..] == u;
      DigitPrefixAll(u);
      AccumulateDigits(-n);
    } else if n > 0 {
      DigitPrefixAll(Digits(n));
      AccumulateDigits(n);
    } else {
      ReadZero();
    }
  }

  lemma ReadMinus()
    ensures Read([MINUS]) == 0
  {
    assert [MINUS][1..] == [];
  }

  lemma ReadZero()
    ensures Read([ZERO]) == 0
  {
    assert [ZERO][1..] == [];
    assert DigitPrefix([ZERO]) == [ZERO] + DigitPrefix([]);
    assert Accumulate(0, [ZERO]) == Accumulate(0, []);
  }

  // ---------- Reading what a user types ----------

  lemma {:induction false} BlanksSkipped(blanks: seq<byte>, t: seq<byte>)
    requires forall i :: 0 <= i < |blanks| ==> blanks[i] == 32 || blanks[i] == 9
    requires t == [] || (t[0] != 32 && t[0] != 9)
    ensures SkipBlanks(blanks + t) == t
    decreases |blanks|
  {
    if blanks == [] {
      assert blanks + t == t;
    } else {
      assert (blanks + t)[1..] == blanks[1..] + t;
      BlanksSkipped(blanks[1..], t);
    }
  }

  lemma {:induction false} DigitsTaken(ds: seq<byte>, rest: seq<byte>)
    requires forall i :: 0 <= i < |ds| ==> 48 <= ds[i] <= 57
    requires rest == [] || !(48 <= rest[0] <= 57)
    ensures DigitPrefix(ds + rest) == ds
    decreases |ds|
  {
    if ds == [] {
      assert ds + rest == rest;
    } else {
      assert (ds + rest)[1..] == ds[1..] + rest;
      DigitsTaken(ds[1..], rest);
    }
  }

  lemma {:induction false} ZerosRead(zeros: seq<byte>, ds: seq<byte>)
    requires forall i :: 0 <= i < |zeros| ==> zeros[i] == 48
    requires forall i :: 0 <= i < |ds| ==> Digit(ds[i])
    ensures forall i :: 0 <= i < |zeros + ds| ==> Digit((zeros + ds)[i])
    ensures Accumulate(0, zeros + ds) == Accumulate(0, ds)
    decreases |zeros|
  {
    if zeros == [] {
      assert zeros + ds == ds;
    } else {
      assert (zeros + ds)[1..] == zeros[1..] + ds;
      ZerosRead(zeros[1..], ds);
    }
  }

  /** str_to_int on what a user may type: blanks and tabs, an optional sign, leading zeros, the digits of
      a number, and whatever follows that is not a digit. Only a minus sign negates. */
  lemma ReadTyped(blanks: seq<byte>, sign: seq<byte>, zeros: seq<byte>, n: nat, rest: seq<byte>)
    requires forall i :: 0 <= i < |blanks| ==> blanks[i] == 32 || blanks[i] == 9
    requires sign == [] || sign == [43] || sign == [45]
    requires forall i :: 0 <= i < |zeros| ==> zeros[i] == 48
    requires n <= 0x7FFF_FFFF
    requires rest == [] || !(48 <= rest[0] <= 57)
    requires sign == [] && zeros == [] && n == 0 ==> rest == [] || (rest[0] != 32 && rest[0] != 9 && rest[0] != 43 && rest[0] != 45)
    ensures Read(blanks + (sign + (zeros + Digits(n) + rest))) == if sign == [45] then -(n as int) else n
  {
    hide Digits, Accumulate;
    var ds := zeros + Digits(n);
    var u := ds + rest;
    var t := sign + u;
    assert sign == [] ==> t == u;
    assert ds != [] ==> 48 <= u[0] <= 57 && u[0] == ds[0];
    assert ds == [] ==> u == rest;
    NoDigits();
    SomeDigits(n);
    BlanksSkipped(blanks, t);
    assert sign != [] ==> t[0] == sign[0] && t[1..] == u;
    ZerosRead(zeros, Digits(n));
    DigitsTaken(ds, rest);
    AccumulateDigits(n);
  }

  lemma SomeDigits(n: nat)
    ensures Digits(n) == [] <==> n == 0
  {
  }

  /** The characters of the text: digits from 48, the last for the units, a minus sign 45. */
  lemma TextCharacters(n: int32)
    ensures n > 0 ==> Written(n) == Digits(n / 10) + [48 + n % 10]
    ensures INT_MIN < n < 0 ==> Written(n) == [45] + Written(-n)
    ensures n == 0 ==> Written(n) == [48]
  {
  }

  // ---------- Canonical and short ----------

  function Pow10(k: nat): nat {
    if k == 0 then 1 else 10 * Pow10(k - 1)
  }

  lemma {:induction false} DigitsShort(n: nat, k: nat)
    requires n < Pow10(k)
    ensures |Digits(n)| <= k
    decreases k
  {
    if n > 0 {
      assert n / 10 < Pow10(k - 1);
      DigitsShort(n / 10, k - 1);
    }
  }

  /** A 32-bit number has at most 10 digits. */
  lemma SmallDigits(n: nat)
    requires n <= INT_MAX
    ensures |Digits(n)| <= 10
  {
    assert Pow10(1) == 10 && Pow10(2) == 100 && Pow10(4) == 10000 by { assert Pow10(3) == 1000; }
    assert Pow10(6) == 1000000 by { assert Pow10(5) == 100000; }
    assert Pow10(8) == 100000000 by { assert Pow10(7) == 10000000; }
    assert Pow10(10) == 10000000000 by { assert Pow10(9) == 1000000000; }
    DigitsShort(n, 10);
  }

  /** The text and its NUL fit in 12 bytes. */
  lemma TextFits(n: int32)
    ensures 1 <= |Written(n)| <= 11
  {
    if n != INT_MIN {
      SmallDigits(if n < 0 then -n else n);
    }
  }

  /** The text is canonical: different numbers have different texts. */
  lemma TextInjective(m: int32, n: int32)
    requires Text(m) == Text(n) && m != INT_MIN && n != INT_MIN
    ensures m == n
  {
    hide Text, Read;
    RoundTrip(m);
    RoundTrip(n);
  }
}
