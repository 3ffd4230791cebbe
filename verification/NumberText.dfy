/**
  Numbers as text: itoa and atoi of src/CommonLib/src/strutils.c, on buffers of bytes.
 */
module NumberText {

  import opened Basics
  import opened Bits

  const MINUS: Byte := 0x2D

  // ----- bytes -----

  // The character itoa writes for a digit.
  function Char(digit: nat): Byte
    requires digit < 36
  {
    if digit > 9 then digit - 10 + 0x41 else digit + 0x30
  }

  // The digit atoi reads from a character; ORing 0x20 is the tolower macro.
  function CharValue(c: Byte): nat
  {
    var lower := Or(c, 0x20);
    if 0x30 <= lower <= 0x39 then lower - 0x30
    else if 0x61 <= lower <= 0x7A then lower - 0x61 + 10
    else 255
  }

  predicate IsDigit(c: Byte, base: nat) { 0x1F < c < 0x80 && CharValue(c) < base }

  lemma OrHalves(x: nat, h: nat, y: nat)
    requires 0 < x && 0 < y && h == x / 2
    ensures Or(x, 2 * y) == 2 * Or(h, y) + (x - 2 * h)
  {
  }

  lemma ToLower(c: nat)
    requires 0x20 <= c < 0x80
    ensures Or(c, 0x20) == if 0x40 <= c < 0x60 then c + 0x20 else c
  {
    var h1 := c / 2;
    var h2 := h1 / 2;
    var h3 := h2 / 2;
    var h4 := h3 / 2;
    var h5 := h4 / 2;
    OrHalves(c, h1, 16);
    OrHalves(h1, h2, 8);
    OrHalves(h2, h3, 4);
    OrHalves(h3, h4, 2);
    OrHalves(h4, h5, 1);
    assert Or(h5, 1) == if h5 == 2 then 3 else h5 by { assert h5 == 1 || h5 == 2 || h5 == 3; }
  }

  lemma CharIsDigit(digit: nat, base: nat)
    requires digit < base <= 36
    ensures CharValue(Char(digit)) == digit && IsDigit(Char(digit), base) && Char(digit) != MINUS
  {
    ToLower(Char(digit));
  }

  const UPPER: string := "0123456789ABCDEFGHIJKLMNOPQRSTUVWXYZ"
  const LOWER: string := "0123456789abcdefghijklmnopqrstuvwxyz"

  // itoa writes capital letters; atoi takes both cases for the same digit, and no other character.
  lemma CharsOfDigits(digit: nat, c: Byte, base: nat)
    requires digit < base <= 36
    ensures Char(digit) == UPPER[digit] as int
    ensures IsDigit(c, base) && CharValue(c) == digit <==> c == UPPER[digit] as int || c == LOWER[digit] as int
  {
    UpperIs(digit);
    LowerIs(digit);
    if 0x20 <= c < 0x80 { ToLower(c); }
  }

  // Exactly these characters are digits of a base.
  lemma DigitsOfBase(c: Byte, base: nat)
    requires base <= 36
    ensures IsDigit(c, base) <==>
      exists digit :: 0 <= digit < base && (c == UPPER[digit] as int || c == LOWER[digit] as int)
  {
    if IsDigit(c, base) {
      CharsOfDigits(CharValue(c), c, base);
    }
    if digit :| 0 <= digit < base && (c == UPPER[digit] as int || c == LOWER[digit] as int) {
      CharsOfDigits(digit, c, base);
    }
  }

  // Not even a larger base makes a digit of another character below 128, up to base 255.
  lemma NoOtherDigits(c: Byte, base: nat)
    requires 36 <= base <= 255
    ensures IsDigit(c, base) <==> IsDigit(c, 36)
  {
  }

  lemma UpperIs(digit: nat)
    requires digit < 36
    ensures UPPER[digit] as int == if digit < 10 then digit + 0x30 else digit - 10 + 0x41
  {
  }

  lemma LowerIs(digit: nat)
    requires digit < 36
    ensures LOWER[digit] as int == if digit < 10 then digit + 0x30 else digit - 10 + 0x61
  {
  }

  lemma {:induction false} XorCancels(x: nat, y: nat)
    ensures Xor(x, y) == Xor(y, x) && Xor(Xor(x, y), y) == x
    decreases x + y
  {
    if x != 0 && y != 0 { XorCancels(x / 2, y / 2); } else if x == 0 && y != 0 { XorSelf(y); }
  }

  lemma {:induction false} XorSelf(x: nat)
    ensures Xor(x, x) == 0
  {
    if x != 0 { XorSelf(x / 2); }
  }

  lemma {:induction false} XorIsSmall(x: nat, y: nat, k: nat)
    requires x < Pow2(k) && y < Pow2(k)
    ensures Xor(x, y) < Pow2(k)
    decreases k
  {
    if k > 0 { XorIsSmall(x / 2, y / 2, k - 1); }
  }

  // a ^= b, b ^= a, a ^= b
  lemma XorSwaps(a: Byte, b: Byte)
    ensures Xor(a, b) < 0x100 && Xor(b, Xor(a, b)) == a && Xor(Xor(a, b), a) == b
  {
    assert Pow2(8) == 0x100;
    XorIsSmall(a, b, 8);
    XorCancels(a, b);
    XorCancels(b, a);
    XorCancels(b, Xor(a, b));
  }

  // ----- numerals -----

  // The digits of a number, most significant first, and the other way round.
  function Digits(value: nat, base: nat): seq<Byte>
    requires 2 <= base <= 36
    decreases value
  {
    if value == 0 then [] else Quotient(value, base); Digits(value / base, base) + [Char(value % base)]
  }

  function LowFirst(value: nat, base: nat): seq<Byte>
    requires 2 <= base <= 36
    decreases value
  {
    if value == 0 then [] else Quotient(value, base); [Char(value % base)] + LowFirst(value / base, base)
  }

  function Reversed(s: seq<Byte>): seq<Byte> { seq(|s|, i requires 0 <= i < |s| => s[|s| - 1 - i]) }

  lemma {:induction false} LowFirstReversed(value: nat, base: nat)
    requires 2 <= base <= 36
    ensures Reversed(LowFirst(value, base)) == Digits(value, base)
    decreases value
  {
    if value != 0 {
      Quotient(value, base);
      LowFirstReversed(value / base, base);
      ReversedStep(Char(value % base), LowFirst(value / base, base));
    }
  }

  lemma ReversedStep(c: Byte, later: seq<Byte>)
    ensures Reversed([c] + later) == Reversed(later) + [c]
  {
  }

  function Append(value: nat, base: nat, digit: nat): nat { value * base + digit }

  // The number a text of digits stands for.
  function Number(s: seq<Byte>, base: nat): nat
  {
    if s == [] then 0 else Append(Number(s[..|s| - 1], base), base, CharValue(s[|s| - 1]))
  }

  ghost predicate AllDigits(s: seq<Byte>, base: nat) { forall i :: 0 <= i < |s| ==> IsDigit(s[i], base) }

  lemma {:induction false} DigitsAreDigits(value: nat, base: nat)
    requires 2 <= base <= 36
    ensures AllDigits(Digits(value, base), base) && MINUS !in Digits(value, base) && 0 !in Digits(value, base)
    decreases value
  {
    if value != 0 {
      var q, r := value / base, value % base;
      Quotient(value, base);
      DigitsAreDigits(q, base);
      CharIsDigit(r, base);
      AllDigitsAppend(Digits(q, base), Char(r), base);
    }
  }

  lemma AllDigitsAppend(s: seq<Byte>, c: Byte, base: nat)
    requires AllDigits(s, base) && MINUS !in s && 0 !in s && IsDigit(c, base) && c != MINUS
    ensures AllDigits(s + [c], base) && MINUS !in s + [c] && 0 !in s + [c]
  {
  }

  lemma {:induction false} DigitsAreNumber(value: nat, base: nat)
    requires 2 <= base <= 36
    ensures Number(Digits(value, base), base) == value
    decreases value
  {
    if value != 0 {
      var q, r := value / base, value % base;
      Division(value, base);
      Quotient(value, base);
      DigitsAreNumber(q, base);
      CharIsDigit(r, base);
      NumberStep(Digits(q, base), Char(r), base);
    }
  }

  lemma Division(value: nat, base: nat)
    requires 0 < base
    ensures Append(value / base, base, value % base) == value
  {
  }

  lemma Quotient(value: nat, base: nat)
    requires 0 < value && 2 <= base
    ensures 0 <= value / base < value && 0 <= value % base < base
  {
  }

  lemma NumberStep(s: seq<Byte>, c: Byte, base: nat)
    ensures Number(s + [c], base) == Append(Number(s, base), base, CharValue(c))
  {
    assert (s + [c])[..|s|] == s;
  }

  // ----- itoa -----

  function Size(is64BitValue: bool): nat { if is64BitValue then QWORD_SIZE else DWORD_SIZE }

  predicate Negative(raw: nat, signedValue: bool, is64BitValue: bool) { signedValue && raw >= Size(is64BitValue) / 2 }

  // The QWORD whose digits are written.  The negation of a 32-bit value is done on 32 bits, where
  // the most negative value stays what it is, and the result is then extended with its sign.
  function Magnitude(raw: nat, signedValue: bool, is64BitValue: bool): nat
    requires raw < Size(is64BitValue)
  {
    if !Negative(raw, signedValue, is64BitValue) then raw
    else if is64BitValue then QWORD_SIZE - raw
    else if raw == 0x8000_0000 then QWORD_SIZE - 0x8000_0000
    else DWORD_SIZE - raw
  }

  function Numeral(value: nat, base: nat): seq<Byte>
    requires 2 <= base <= 36
  {
    if value == 0 then [0x30] else Digits(value, base)
  }

  // A numeral has no leading zero, except that 0 is written as one.
  lemma {:induction false} NoLeadingZero(value: nat, base: nat)
    requires 2 <= base <= 36
    ensures value == 0 ==> Numeral(value, base) == ['0' as int]
    ensures value != 0 ==> Numeral(value, base) != [] && Numeral(value, base)[0] != '0' as int
    decreases value
  {
    if value != 0 {
      Quotient(value, base);
      var q, r := value / base, value % base;
      NoLeadingZero(q, base);
      if q == 0 {
        Division(value, base);
        assert Digits(q, base) + [Char(r)] == [Char(r)];
      }
    }
  }

  // The text of a value given by its bits.
  function Text(raw: nat, signedValue: bool, base: nat, is64BitValue: bool): seq<Byte>
    requires raw < Size(is64BitValue) && 2 <= base <= 36
  {
    var numeral := Numeral(Magnitude(raw, signedValue, is64BitValue), base);
    if Negative(raw, signedValue, is64BitValue) then [MINUS] + numeral else numeral
  }

  // swap: three exclusive ors, on two different bytes
  method Swap(buffer: array<Byte>, a: nat, b: nat)
    requires a < buffer.Length && b < buffer.Length && a != b
    modifies buffer
    ensures buffer[..] == old(buffer[..])[a := old(buffer[b])][b := old(buffer[a])]
  {
    var x, y := buffer[a], buffer[b];
    XorSwaps(x, y);
    buffer[a] := Xor(buffer[a], buffer[b]);
    buffer[b] := Xor(buffer[b], buffer[a]);
    buffer[a] := Xor(buffer[a], buffer[b]);
  }

  // The loop that turns the digits round
  method ReverseInPlace(buffer: array<Byte>, index: nat)
    requires index <= buffer.Length
    modifies buffer
    ensures buffer[..index] == Reversed(old(buffer[..index])) && buffer[index..] == old(buffer[index..])
  {
    ghost var was := buffer[..];
    var i := 0;
    while i < index / 2
      invariant 0 <= i <= index / 2
      invariant forall k :: 0 <= k < index ==> buffer[k] == was[if k < i || index - i <= k then index - 1 - k else k]
      invariant buffer[index..] == was[index..]
    {
      Swap(buffer, i, index - i - 1);
      i := i + 1;
    }
  }

  // The digits written, the next one, and those to come.
  lemma LowFirstStep(done: seq<Byte>, value: nat, number: nat, base: nat)
    requires 2 <= base <= 36 && value != 0 && done + LowFirst(value, base) == LowFirst(number, base)
    ensures 0 <= value / base < value && 0 <= value % base < base && |done| < |LowFirst(number, base)|
    ensures done + [Char(value % base)] + LowFirst(value / base, base) == LowFirst(number, base)
  {
    Quotient(value, base);
    var c, later := Char(value % base), LowFirst(value / base, base);
    assert LowFirst(value, base) == [c] + later;
    assert done + ([c] + later) == done + [c] + later;
  }

  method PutDigit(buffer: array<Byte>, index: nat, digit: nat)
    requires index < buffer.Length && digit < 36
    modifies buffer
    ensures buffer[..index + 1] == old(buffer[..index]) + [Char(digit)]
    ensures buffer[index + 1..] == old(buffer[index + 1..])
  {
    if digit > 9 {
      buffer[index] := digit - 10 + 0x41;
    } else {
      buffer[index] := digit + 0x30;
    }
  }

  // The loop that writes the digits, least significant first
  method WriteDigits(buffer: array<Byte>, number: nat, base: nat) returns (index: nat)
    requires 2 <= base <= 36 && |LowFirst(number, base)| <= buffer.Length
    modifies buffer
    ensures index == |LowFirst(number, base)| && buffer[..index] == LowFirst(number, base)
    ensures buffer[index..] == old(buffer[index..])
  {
    var value: nat := number;
    index := 0;
    while value != 0
      invariant index <= buffer.Length && buffer[..index] + LowFirst(value, base) == LowFirst(number, base)
      invariant forall k :: index <= k < buffer.Length ==> buffer[k] == old(buffer[k])
      decreases value
    {
      LowFirstStep(buffer[..index], value, number, base);
      PutDigit(buffer, index, value % base);
      value := value / base;
      index := index + 1;
    }
  }

  // What the buffer holds before it is turned round.
  function Backwards(number: nat, negative: bool, base: nat): seq<Byte>
    requires 2 <= base <= 36
  {
    (if number == 0 then [0x30] else LowFirst(number, base)) + (if negative then [MINUS] else [])
  }

  lemma BackwardsReversed(number: nat, negative: bool, base: nat)
    requires 2 <= base <= 36
    ensures Reversed(Backwards(number, negative, base)) == (if negative then [MINUS] else []) + Numeral(number, base)
  {
    var low := if number == 0 then [0x30] else LowFirst(number, base);
    LowFirstReversed(number, base);
    assert Reversed([0x30]) == [0x30];
    assert Reversed(low + [MINUS]) == [MINUS] + Reversed(low);
    assert low + [] == low;
  }

  method WriteBackwards(buffer: array<Byte>, value: nat, negative: bool, base: nat) returns (index: nat)
    requires 2 <= base <= 36 && |Backwards(value, negative, base)| < buffer.Length
    modifies buffer
    ensures index == |Backwards(value, negative, base)| && buffer[..index] == Backwards(value, negative, base)
    ensures buffer[index..] == old(buffer[index..])
  {
    index := 0;
    if value == 0 {
      buffer[0] := 0x30;
      index := 1;
    } else {
      index := WriteDigits(buffer, value, base);
    }
    if negative {
      buffer[index] := MINUS;
      index := index + 1;
    }
  }

  method TerminateAndReverse(buffer: array<Byte>, index: nat)
    requires index < buffer.Length
    modifies buffer
    ensures buffer[..] == Reversed(old(buffer[..index])) + [0] + old(buffer[index + 1..])
  {
    buffer[index] := 0;
    assert buffer[..index] == old(buffer[..index]) && buffer[index..] == [0] + old(buffer[index + 1..]);
    ReverseInPlace(buffer, index);
    assert buffer[..] == buffer[..index] + buffer[index..];
  }

  // itoa; the buffer has room for the text and its terminator
  method Itoa(raw: nat, signedValue: bool, buffer: array<Byte>, base: nat, is64BitValue: bool)
    requires raw < Size(is64BitValue) && 2 <= base <= 36 && |Text(raw, signedValue, base, is64BitValue)| < buffer.Length
    modifies buffer
    ensures var text := Text(raw, signedValue, base, is64BitValue);
      buffer[..] == text + [0] + old(buffer[|text| + 1..])
  {
    var negative := Negative(raw, signedValue, is64BitValue);
    var value := Magnitude(raw, signedValue, is64BitValue);
    BackwardsReversed(value, negative, base);
    var index := WriteBackwards(buffer, value, negative, base);
    assert buffer[index..][1..] == buffer[index + 1..] && old(buffer[index..])[1..] == old(buffer[index + 1..]);
    TerminateAndReverse(buffer, index);
  }

  // Written with k digits of a smaller base p, a value needs no more than k digits.
  lemma {:induction false} FewDigits(value: nat, base: nat, p: nat, k: nat)
    requires 2 <= p <= base <= 36 && value < Power(p, k)
    ensures |Digits(value, base)| <= k
    decreases k
  {
    if value != 0 && k > 0 {
      Quotient(value, base);
      SmallQuotient(value, base, p, Power(p, k - 1));
      FewDigits(value / base, base, p, k - 1);
    }
  }

  lemma SmallQuotient(value: nat, base: nat, p: nat, bound: nat)
    requires 0 < p <= base && value < p * bound
    ensures value / base < bound
  {
    var q := value / base;
    assert q * base <= value;
    assert q >= bound ==> q * base >= bound * p;
  }

  function Power(p: nat, k: nat): nat { if k == 0 then 1 else p * Power(p, k - 1) }

  // The calls cl_vsnprintf makes fit its buffer of 65 characters: unsigned in base 2, 10 or 16,
  // and signed in base 10.
  lemma FitsPrintBuffer(raw: nat, signedValue: bool, base: nat, is64BitValue: bool)
    requires raw < Size(is64BitValue) && (base == 10 || (!signedValue && (base == 2 || base == 16)))
    ensures |Text(raw, signedValue, base, is64BitValue)| < 65
  {
    var value := Magnitude(raw, signedValue, is64BitValue);
    if base == 2 {
      Powers();
      FewDigits(value, 2, 2, 64);
    } else {
      Powers();
      FewDigits(value, base, 4, 32);
    }
  }

  lemma Powers()
    ensures Power(2, 64) == QWORD_SIZE && Power(4, 32) == QWORD_SIZE
  {
    assert Power(4, 8) == 0x1_0000;
    assert Power(4, 16) == 0x1_0000_0000;
    assert Power(4, 24) == 0x1_0000_0000_0000;
    assert Power(2, 8) == 0x100;
    assert Power(2, 16) == 0x1_0000;
    assert Power(2, 24) == 0x100_0000;
    assert Power(2, 32) == 0x1_0000_0000;
    assert Power(2, 40) == 0x100_0000_0000;
    assert Power(2, 48) == 0x1_0000_0000_0000;
    assert Power(2, 56) == 0x100_0000_0000_0000;
  }

  // ----- atoi -----

  // The digits read so far, in a QWORD; nothing if an ASSERT fails.
  function ParseDigits(s: seq<Byte>, base: nat): Option<nat>
  {
    if s == [] then Some(0)
    else
      match ParseDigits(s[..|s| - 1], base)
      case None => None
      case Some(value) =>
        if IsDigit(s[|s| - 1], base) then Some(Append(value, base, CharValue(s[|s| - 1])) % QWORD_SIZE) else None
  }

  // The sign, and the store through a pointer to 32 or 64 bits.
  function Stored(digits: nat, negative: bool, is64BitValue: bool): Option<nat>
  {
    var value := if negative then (QWORD_SIZE - digits) % QWORD_SIZE else digits;
    if is64BitValue then Some(value)
    else if negative || value < DWORD_SIZE then Some(value % DWORD_SIZE)
    else None
  }

  function Parse(text: seq<Byte>, base: nat, is64BitValue: bool): Option<nat>
  {
    var negative := text != [] && text[0] == MINUS;
    match ParseDigits(if negative then text[1..] else text, base)
    case None => None
    case Some(digits) => Stored(digits, negative, is64BitValue)
  }

  // text is what comes before the first NUL of the buffer.
  predicate IsCString(buffer: seq<Byte>, text: seq<Byte>) {
    |text| < |buffer| && buffer[..|text|] == text && buffer[|text|] == 0 && 0 !in text
  }

  // atoi
  method Atoi(buffer: seq<Byte>, base: nat, is64BitValue: bool, ghost text: seq<Byte>) returns (result: Option<nat>)
    requires IsCString(buffer, text) && 0 < base
    ensures result == Parse(text, base, is64BitValue)
  {
    var i, value, negative := 0, 0, false;
    if buffer[0] == MINUS {
      negative := true;
      i := 1;
    }
    ghost var first := i;
    assert text != [] ==> text[0] == buffer[0];
    while buffer[i] != 0
      invariant first <= i <= |text| && 0 <= value < QWORD_SIZE
      invariant ParseDigits(text[first..i], base) == Some(value)
      invariant forall k :: first <= k < i ==> IsDigit(buffer[k], base)
      decreases |text| - i
    {
      assert i < |text| && text[i] == buffer[i];
      assert text[first..i + 1][..i - first] == text[first..i];
      if !IsDigit(buffer[i], base) {
        StuckAt(text[first..], i - first, base);
        assert text[first..][..i - first + 1] == text[first..i + 1];
        return None;
      }
      value := Append(value, base, CharValue(buffer[i])) % QWORD_SIZE;
      i := i + 1;
    }
    assert i == |text| && text[first..i] == text[first..];
    if negative {
      value := (QWORD_SIZE - value) % QWORD_SIZE;
    }
    if is64BitValue {
      return Some(value);
    }
    if !(negative || value < DWORD_SIZE) {
      return None;
    }
    return Some(value % DWORD_SIZE);
  }

  // A character that is no digit stops atoi, whatever follows.
  lemma {:induction false} StuckAt(s: seq<Byte>, k: nat, base: nat)
    requires k < |s| && !IsDigit(s[k], base)
    ensures ParseDigits(s, base) == None
    decreases |s|
  {
    if k < |s| - 1 { StuckAt(s[..|s| - 1], k, base); }
  }

  lemma AppendWraps(value: nat, base: nat, digit: nat)
    ensures Append(value % QWORD_SIZE, base, digit) % QWORD_SIZE == Append(value, base, digit) % QWORD_SIZE
  {
    var q, r := value / QWORD_SIZE, value % QWORD_SIZE;
    var low := Append(r, base, digit);
    var k, t := low / QWORD_SIZE, low % QWORD_SIZE;
    assert value * base == (q * base) * QWORD_SIZE + r * base;
    assert Append(value, base, digit) == (q * base + k) * QWORD_SIZE + t;
    RemainderIs(Append(value, base, digit), QWORD_SIZE, q * base + k, t);
  }

  // atoi accepts exactly the texts of digits, and reads their number modulo 2^64.
  lemma {:induction false} ParseIsNumber(s: seq<Byte>, base: nat)
    ensures AllDigits(s, base) ==> ParseDigits(s, base) == Some(Number(s, base) % QWORD_SIZE)
    ensures !AllDigits(s, base) ==> ParseDigits(s, base) == None
    decreases |s|
  {
    if s != [] {
      var front, c := s[..|s| - 1], s[|s| - 1];
      ParseIsNumber(front, base);
      AppendWraps(Number(front, base), base, CharValue(c));
      assert s == front + [c];
      if AllDigits(s, base) { assert IsDigit(s[|s| - 1], base); }
    }
  }

  lemma NumeralIsNumber(value: nat, base: nat)
    requires 2 <= base <= 36
    ensures var s := Numeral(value, base);
      s != [] && MINUS !in s && 0 !in s && AllDigits(s, base) && Number(s, base) == value
  {
    if value == 0 {
      CharIsDigit(0, base);
      NumberStep([], 0x30, base);
      assert [] + [0x30] == [0x30];
    } else {
      DigitsAreDigits(value, base);
      DigitsAreNumber(value, base);
    }
  }

  lemma ParseSigned(s: seq<Byte>, value: nat, base: nat, is64BitValue: bool)
    requires s != [] && MINUS !in s && AllDigits(s, base) && Number(s, base) == value < QWORD_SIZE
    ensures Parse(s, base, is64BitValue) == if value < Size(is64BitValue) then Some(value) else None
    ensures Parse([MINUS] + s, base, is64BitValue) == Some((QWORD_SIZE - value) % Size(is64BitValue))
  {
    ParseIsNumber(s, base);
    RemainderIs(value, QWORD_SIZE, 0, value);
    assert s[0] != MINUS && ([MINUS] + s)[1..] == s;
    StoredIs(value, is64BitValue);
  }

  lemma StoredIs(value: nat, is64BitValue: bool)
    requires value < QWORD_SIZE
    ensures Stored(value, false, is64BitValue) == if value < Size(is64BitValue) then Some(value) else None
    ensures Stored(value, true, is64BitValue) == Some((QWORD_SIZE - value) % Size(is64BitValue))
  {
    if value < DWORD_SIZE { RemainderIs(value, DWORD_SIZE, 0, value); }
    assert value != 0 ==> (QWORD_SIZE - value) % QWORD_SIZE == QWORD_SIZE - value;
    assert (QWORD_SIZE - 0) % QWORD_SIZE == 0;
  }

  // atoi undoes itoa: for every 32- and 64-bit value, signed or not, in every base.
  lemma RoundTrip(raw: nat, signedValue: bool, base: nat, is64BitValue: bool)
    requires raw < Size(is64BitValue) && 2 <= base <= 36
    ensures Parse(Text(raw, signedValue, base, is64BitValue), base, is64BitValue) == Some(raw)
    ensures 0 !in Text(raw, signedValue, base, is64BitValue)
  {
    var value := Magnitude(raw, signedValue, is64BitValue);
    NumeralIsNumber(value, base);
    ParseSigned(Numeral(value, base), value, base, is64BitValue);
    MagnitudeComesBack(raw, is64BitValue);
  }

  lemma MagnitudeComesBack(raw: nat, is64BitValue: bool)
    requires raw < Size(is64BitValue)
    ensures Negative(raw, true, is64BitValue) ==>
      (QWORD_SIZE - Magnitude(raw, true, is64BitValue)) % Size(is64BitValue) == raw
  {
  }

  // The value the bits stand for, and the value a text stands for.
  function ValueOf(raw: nat, signedValue: bool, is64BitValue: bool): int
  {
    if Negative(raw, signedValue, is64BitValue) then raw - Size(is64BitValue) else raw
  }

  // The sign is written for negative values only.
  lemma SignOfText(raw: nat, signedValue: bool, base: nat, is64BitValue: bool)
    requires raw < Size(is64BitValue) && 2 <= base <= 36
    ensures var text := Text(raw, signedValue, base, is64BitValue);
      text != [] && (text[0] == '-' as int <==> ValueOf(raw, signedValue, is64BitValue) < 0)
  {
    NumeralIsNumber(Magnitude(raw, signedValue, is64BitValue), base);
  }

  // In 32 and 64 bits, as two's complement.
  lemma ValueInRange(raw: nat, is64BitValue: bool)
    requires raw < Size(is64BitValue)
    ensures ValueOf(raw, false, is64BitValue) == raw
    ensures var v := ValueOf(raw, true, is64BitValue);
      && (is64BitValue ==> -0x8000_0000_0000_0000 <= v < 0x8000_0000_0000_0000)
      && (!is64BitValue ==> -0x8000_0000 <= v < 0x8000_0000)
      && (v == raw || v == raw - Size(is64BitValue))
  {
  }

  function Meaning(text: seq<Byte>, base: nat): int
  {
    if text != [] && text[0] == MINUS then -(Number(text[1..], base) as int) else Number(text, base)
  }

  // The text stands for the value, except for the most negative 32-bit value.
  lemma TextMeansValue(raw: nat, signedValue: bool, base: nat, is64BitValue: bool)
    requires raw < Size(is64BitValue) && 2 <= base <= 36
    ensures Meaning(Text(raw, signedValue, base, is64BitValue), base) == ValueOf(raw, signedValue, is64BitValue) <==>
      !(signedValue && !is64BitValue && raw == 0x8000_0000)
  {
    var value := Magnitude(raw, signedValue, is64BitValue);
    NumeralIsNumber(value, base);
    MeaningOfSigned(Numeral(value, base), base);
  }

  lemma MeaningOfSigned(numeral: seq<Byte>, base: nat)
    requires numeral != [] && MINUS !in numeral
    ensures Meaning(numeral, base) == Number(numeral, base)
    ensures Meaning([MINUS] + numeral, base) == -(Number(numeral, base) as int)
  {
    assert numeral[0] != MINUS;
    assert ([MINUS] + numeral)[1..] == numeral;
  }

  // The same through memory: what itoa leaves in a buffer, atoi reads back.
  method PrintAndRead(raw: nat, signedValue: bool, buffer: array<Byte>, base: nat, is64BitValue: bool)
    returns (result: Option<nat>)
    requires raw < Size(is64BitValue) && 2 <= base <= 36 && |Text(raw, signedValue, base, is64BitValue)| < buffer.Length
    modifies buffer
    ensures result == Some(raw)
  {
    Itoa(raw, signedValue, buffer, base, is64BitValue);
    RoundTrip(raw, signedValue, base, is64BitValue);
    result := Atoi(buffer[..], base, is64BitValue, Text(raw, signedValue, base, is64BitValue));
  }
}
