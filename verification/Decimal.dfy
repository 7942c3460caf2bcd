/** The decimal conversions of suma.c and the number printer of vga.c. */
module Decimal {
  import opened Bytes
  import opened Seqs
  import opened DecimalText
  import opened Terminal
  import Vga

  /** str_to_int */
  method StrToInt(s: seq<byte>) returns (n: int32)
    requires 0 in s
    ensures n == Read(CString(s))
  {
    hide Accumulate, DigitPrefix, SkipBlanks;
    ghost var c := CString(s);
    var i := SkipSpaces(s);
    var negative := false;
    if s[i] == MINUS {
      negative := true;
      i := i + 1;
    } else if s[i] == PLUS {
      i := i + 1;
    }
    n := ReadDigits(s, i);
    if negative {
      n := Wrap(-(n as int));
    }
  }

  method SkipSpaces(s: seq<byte>) returns (i: nat)
    requires 0 in s
    ensures i <= |CString(s)| && CString(s)[i..] == SkipBlanks(CString(s))
  {
    ghost var c := CString(s);
    i := 0;
    while s[i] == 32 || s[i] == 9
      invariant 0 <= i <= |c| && SkipBlanks(c) == SkipBlanks(c[i..])
      decreases |c| - i
    {
      assert c[i..][1..] == c[i + 1..];
      i := i + 1;
    }
  }

  method ReadDigits(s: seq<byte>, start: nat) returns (n: int32)
    requires 0 in s && start <= |CString(s)|
    ensures n == Accumulate(0, DigitPrefix(CString(s)[start..]))
  {
    hide Accumulate, DigitPrefix, Shift;
    ghost var c := CString(s);
    ghost var u := c[start..];
    var i := start;
    n := 0;
    while 48 <= s[i] <= 57
      invariant start <= i <= |c|
      invariant Accumulate(n, DigitPrefix(c[i..])) == Accumulate(0, DigitPrefix(u))
      decreases |c| - i
    {
      assert c[i..][1..] == c[i + 1..];
      AccumulateFirst(n, c[i..]);
      n := Shift(n, s[i]);
      i := i + 1;
    }
    NoPrefix(n, c[i..]);
  }

  lemma AccumulateFirst(r: int32, s: seq<byte>)
    requires s != [] && Digit(s[0])
    ensures Accumulate(r, DigitPrefix(s)) == Accumulate(Shift(r, s[0]), DigitPrefix(s[1..]))
  {
    hide Shift;
    assert DigitPrefix(s)[1..] == DigitPrefix(s[1..]);
  }

  lemma NoPrefix(r: int32, s: seq<byte>)
    requires s == [] || !Digit(s[0])
    ensures Accumulate(r, DigitPrefix(s)) == r
  {
  }

  /** The digit loop shared by int_to_str and vga_print_int: least significant digit first. */
  method DigitsBackwards(num: int32, buf: array<byte>) returns (i: nat)
    requires buf.Length >= 12
    modifies buf
    ensures i <= 10 && buf[i..] == old(buf[..])[i..]
    ensures Reversed(buf[..i]) == if num > 0 then Digits(num) else []
  {
    hide Digits, Reversed;
    var n: int := num;
    i := 0;
    ghost var all := if num > 0 then Digits(num) else [];
    if num > 0 {
      SmallDigits(num);
    }
    NothingYet(num);
    while n > 0
      invariant i <= |all| <= 10 && (n < 0 ==> i == 0)
      invariant n > 0 ==> all == Digits(n) + Reversed(buf[..i])
      invariant n <= 0 ==> all == Reversed(buf[..i])
      invariant buf[i..] == old(buf[..])[i..]
      decreases n
    {
      DigitsStep(n);
      LastDigit(n);
      ghost var before, tail := buf[..i], buf[i..];
      var d: byte := 48 + n % 10;
      buf[i] := d;
      assert buf[..i + 1] == before + [d];
      assert buf[i + 1..] == tail[1..];
      ReversedSnoc(before, d);
      assert all == Digits(n / 10) + ([d] + Reversed(before));
      i := i + 1;
      n := n / 10;
    }
  }

  lemma NothingYet(num: int32)
    ensures Reversed<byte>([]) == []
    ensures num > 0 ==> Digits(num) == Digits(num) + Reversed<byte>([])
  {
  }

  lemma LastDigit(n: nat)
    ensures n / 10 == 0 ==> Digits(n / 10) == []
    ensures n > 0 ==> Digits(n) != []
  {
  }

  /** Lines 99 to 104 of suma.c: reversal in place. */
  method ReverseInPlace(buf: array<byte>, n: nat)
    requires n <= buf.Length
    modifies buf
    ensures buf[..n] == Reversed(old(buf[..n])) && buf[n..] == old(buf[n..])
  {
    hide Reversed;
    var j := 0;
    while j < n / 2
      invariant 0 <= j <= n / 2
      invariant forall k :: 0 <= k < j ==> buf[k] == old(buf[n - 1 - k]) && buf[n - 1 - k] == old(buf[k])
      invariant forall k :: j <= k < n - j ==> buf[k] == old(buf[k])
      invariant buf[n..] == old(buf[n..])
    {
      var tmp := buf[j];
      buf[j] := buf[n - 1 - j];
      buf[n - 1 - j] := tmp;
      j := j + 1;
    }
    ReversedAll(old(buf[..n]));
  }

  /** Lines 89 to 97 of suma.c: the text of a nonzero num, last character first, and a NUL. */
  method WriteBackwards(num: int32, buf: array<byte>) returns (i: nat)
    requires buf.Length >= 12 && num != 0
    modifies buf
    ensures i <= 11 && Reversed(buf[..i]) == Written(num) && buf[i] == 0
    ensures buf[12..] == old(buf[12..])
  {
    hide Digits, Reversed;
    var negative := num < 0;
    var n := if negative then Wrap(-(num as int)) else num;
    i := DigitsBackwards(n, buf);
    ghost var digits, tail := buf[..i], buf[i..];
    assert buf[12..] == tail[12 - i..] == old(buf[..])[i..][12 - i..];
    if negative {
      buf[i] := MINUS;
      ReversedSnoc(digits, MINUS);
      i := i + 1;
      assert buf[..i] == digits + [MINUS];
    }
    buf[i] := 0;
  }

  /** int_to_str: the text of num and a NUL; nothing beyond byte 11 is touched. */
  method IntToStr(num: int32, buf: array<byte>) returns (ghost len: nat)
    requires buf.Length >= 12
    modifies buf
    ensures len == |Written(num)| <= 11
    ensures buf[..len] == Written(num) && buf[len] == 0
    ensures buf[12..] == old(buf[12..])
  {
    hide Digits, Reversed;
    TextFits(num);
    if num == 0 {
      buf[0] := 48;
      buf[1] := 0;
      return 1;
    }
    var i := WriteBackwards(num, buf);
    ghost var rest := buf[i..];
    ReverseInPlace(buf, i);
    assert buf[i..][0] == rest[0] && buf[12..] == rest[12 - i..];
    len := i;
  }

  /** What int_to_str writes, str_to_int reads back. */
  method WriteThenRead(num: int32, buf: array<byte>) returns (n: int32)
    requires buf.Length >= 12 && num != INT_MIN
    modifies buf
    ensures n == num
  {
    hide Written, Read;
    ghost var len := IntToStr(num, buf);
    TextHasNoNul(num);
    CStringIs(buf[..], len, Written(num));
    RoundTrip(num);
    n := StrToInt(buf[..]);
  }

  lemma TextHasNoNul(n: int32)
    ensures 0 !in Written(n)
  {
    hide Digits;
    assert forall c: byte :: Digit(c) ==> c != 0;
  }

  lemma {:induction false} CStringIs(s: seq<byte>, len: nat, t: seq<byte>)
    requires len < |s| && s[len] == 0 && s[..len] == t && 0 !in t
    ensures CString(s) == t
  {
    if len > 0 {
      CStringIs(s[1..], len - 1, t[1..]);
    }
  }

  lemma PutFirst(s: Screen, t: seq<byte>)
    requires InRange(s) && t != []
    ensures DoAll(s, Chars(t)) == DoAll(Terminal.PutChar(s, t[0]), Chars(t[1..]))
  {
    hide Terminal.PutChar;
    assert Chars(t)[1..] == Chars(t[1..]);
  }

  lemma PutNothing(s: Screen)
    requires InRange(s)
    ensures DoAll(s, Chars([])) == s
  {
  }

  /** Lines 104 to 106 of vga.c: the buffer printed from its end. */
  method PrintBackwards(d: Vga.Display, buf: array<byte>, i: nat)
    requires InRange(d.State()) && i <= buf.Length && d.vga as object != buf
    modifies d, d.vga
    ensures d.State() == DoAll(old(d.State()), Chars(Reversed(old(buf[..i]))))
    ensures InRange(d.State())
  {
    hide Reversed, Terminal.PutChar, DoAll;
    ghost var rest := Reversed(buf[..i]);
    ReversedAll(buf[..i]);
    var j: int := (i as int) - 1;
    while j >= 0
      invariant -1 <= j < i && |rest| == j + 1
      invariant forall m :: 0 <= m <= j ==> rest[m] == buf[j - m]
      invariant InRange(d.State()) && DoAll(d.State(), Chars(rest)) == DoAll(old(d.State()), Chars(Reversed(old(buf[..i]))))
      decreases j
    {
      PutFirst(d.State(), rest);
      d.PutChar(buf[j]);
      rest := rest[1..];
      j := j - 1;
    }
    PutNothing(d.State());
    assert rest == [];
  }

  /** vga_print_int prints exactly the text int_to_str writes. */
  method PrintInt(d: Vga.Display, num: int32)
    requires InRange(d.State())
    modifies d, d.vga
    ensures d.State() == DoAll(old(d.State()), Chars(Written(num)))
  {
    hide Digits, Reversed, Terminal.PutChar, DoAll;
    var n := num;
    PutFirst(d.State(), Written(num));
    if n < 0 {
      d.PutChar(MINUS);
      n := Wrap(-(n as int));
    }
    if n == 0 {
      d.PutChar(48);
      PutNothing(d.State());
      return;
    }
    var buf := new byte[12](_ => 0);
    var i := DigitsBackwards(n, buf);
    assert num < 0 ==> Written(num)[1..] == Reversed(buf[..i]);
    PrintBackwards(d, buf, i);
  }
}
