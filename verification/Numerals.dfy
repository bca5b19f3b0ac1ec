/** Numbers as text: the digits printf writes, and strtol and strtoul reading them back. */
module Numerals {
  import opened Arith

  const SCRATCH: nat := 32
  const LOWER: string := "0123456789abcdef"
  const UPPER: string := "0123456789ABCDEF"

  function DigitChar(d: nat, upper: bool): char
    requires d < 16
  {
    if upper then UPPER[d] else LOWER[d]
  }

  /** The digits of a value, most significant first. */
  function Digits(v: nat, base: nat, upper: bool): (s: string)
    requires 2 <= base <= 16
    ensures s != []
    decreases v
  {
    if v < base then [DigitChar(v, upper)] else Shrinks(v, base); Digits(v / base, base, upper) + [DigitChar(v % base, upper)]
  }

  lemma Shrinks(v: nat, base: nat)
    requires 2 <= base <= v
    ensures 0 < v / base < v
  {
    assert v == v / base * base + v % base;
    if v / base <= 0 {
      MulMono(v / base, 0, base);
    } else {
      MulMono(2, base, v / base);
    }
  }

  function Power(base: nat, n: nat): (p: nat)
    requires base > 0
    ensures p > 0
  {
    if n == 0 then 1 else MulAtLeast(base, Power(base, n - 1)); base * Power(base, n - 1)
  }

  /** n digits are enough exactly for the values below base^n. */
  lemma {:induction false} DigitCount(v: nat, base: nat, upper: bool, n: nat)
    requires 2 <= base <= 16 && 0 < n
    ensures |Digits(v, base, upper)| <= n <==> v < Power(base, n)
    decreases n
  {
    hide DigitChar;
    assert Power(base, 1) == base * Power(base, 0) == base;
    if n > 1 {
      PowerGrows(base, n);
      if v >= base {
        Shrinks(v, base);
        DigitCount(v / base, base, upper, n - 1);
        BelowProduct(v, base, Power(base, n - 1));
      }
    }
  }

  lemma {:induction false} PowerGrows(base: nat, n: nat)
    requires 2 <= base && 0 < n
    ensures base <= Power(base, n)
  {
    MulMono(1, Power(base, n - 1), base);
  }

  lemma BelowProduct(v: nat, base: nat, p: nat)
    requires 0 < base
    ensures v < base * p <==> v / base < p
  {
    var q, r := v / base, v % base;
    assert v == q * base + r;
    assert p * base == base * p;
    if q < p {
      MulMono(q + 1, p, base);
      assert (q + 1) * base == q * base + base;
    } else {
      MulMono(p, q, base);
    }
  }

  /** Every 64-bit value fits the scratch buffer in every base from 4 up, so in the two bases printf uses. */
  lemma ScratchSuffices(v: nat, base: nat, upper: bool)
    requires v < TWO64 && 4 <= base <= 16
    ensures v < Power(base, SCRATCH) && |Digits(v, base, upper)| <= SCRATCH
  {
    FourPower();
    PowerMono(4, base, SCRATCH);
    DigitCount(v, base, upper, SCRATCH);
  }

  lemma FourPower()
    ensures Power(4, 32) == TWO64
  {
    assert Power(4, 4) == 256;
    assert Power(4, 8) == 0x1_0000;
    assert Power(4, 12) == 0x100_0000;
    assert Power(4, 16) == 0x1_0000_0000;
    assert Power(4, 20) == 0x100_0000_0000;
    assert Power(4, 24) == 0x1_0000_0000_0000;
    assert Power(4, 28) == 0x100_0000_0000_0000;
  }

  lemma {:induction false} PowerMono(a: nat, b: nat, n: nat)
    requires 0 < a <= b
    ensures Power(a, n) <= Power(b, n)
    decreases n
  {
    if n > 0 {
      PowerMono(a, b, n - 1);
      MulMono(a, b, Power(a, n - 1));
      MulMono(Power(a, n - 1), Power(b, n - 1), b);
    }
  }

  /** In base 2, which the function also accepts, 2^32 already overruns the 32 scratch digits. */
  lemma BinaryOverruns()
    ensures |Digits(0x1_0000_0000, 2, false)| > SCRATCH
  {
    hide Digits;
    assert Power(2, 8) == 256;
    assert Power(2, 16) == 0x1_0000;
    assert Power(2, 24) == 0x100_0000;
    assert Power(2, 32) == 0x1_0000_0000;
    DigitCount(0x1_0000_0000, 2, false, 32);
  }

  /** format_unsigned: digits are produced backwards in a scratch array and reversed into the buffer. */
  method FormatUnsigned(buffer: array<char>, value: nat, base: nat, upper: bool) returns (length: nat)
    requires SCRATCH <= buffer.Length && (2 <= base <= 16 ==> value < Power(base, SCRATCH))
    modifies buffer
    ensures length <= SCRATCH
    ensures if 2 <= base <= 16 then buffer[..length] == Digits(value, base, upper) else length == 0 && buffer[..] == old(buffer[..])
  {
    if base < 2 || base > 16 { return 0; }
    if value == 0 {
      buffer[0] := '0';
      return 1;
    }
    var scratch, n := Backwards(value, base, upper);
    DigitCount(value, base, upper, SCRATCH);
    ReverseInto(scratch, n, buffer);
    length := n;
    assert buffer[..n] == Digits(value, base, upper);
  }

  method Backwards(value: nat, base: nat, upper: bool) returns (scratch: array<char>, length: nat)
    requires 2 <= base <= 16 && 0 < value < Power(base, SCRATCH)
    ensures fresh(scratch) && scratch.Length == SCRATCH
    ensures length == |Digits(value, base, upper)| <= SCRATCH
    ensures forall i :: 0 <= i < length ==> scratch[i] == Digits(value, base, upper)[length - 1 - i]
  {
    hide DigitChar, Power, Digits, Rest;
    ghost var all := Digits(value, base, upper);
    DigitCount(value, base, upper, SCRATCH);
    scratch := new char[SCRATCH];
    length := 0;
    var v: nat := value;
    NoneWritten(value, base, upper);
    while v != 0
      invariant length <= |all| && all[..|all| - length] == Rest(v, base, upper)
      invariant forall i :: 0 <= i < length ==> scratch[i] == all[|all| - 1 - i]
      decreases v
    {
      TakeLast(all, length, v, base, upper);
      scratch[length] := DigitChar(v % base, upper);
      length := length + 1;
      v := v / base;
    }
    AllWritten(base, upper);
    assert |all[..|all| - length]| == 0;
  }

  lemma NoneWritten(v: nat, base: nat, upper: bool)
    requires 2 <= base <= 16 && 0 < v
    ensures Rest(v, base, upper) == Digits(v, base, upper)
  {
  }

  lemma AllWritten(base: nat, upper: bool)
    requires 2 <= base <= 16
    ensures Rest(0, base, upper) == []
  {
  }

  /** The digits still to be written. */
  function Rest(v: nat, base: nat, upper: bool): string
    requires 2 <= base <= 16
  {
    if v == 0 then [] else Digits(v, base, upper)
  }

  lemma TakeLast(all: string, length: nat, v: nat, base: nat, upper: bool)
    requires 2 <= base <= 16 && 0 < v && length <= |all| && all[..|all| - length] == Rest(v, base, upper)
    ensures length < |all| && all[|all| - 1 - length] == DigitChar(v % base, upper) && v / base < v
    ensures all[..|all| - (length + 1)] == Rest(v / base, base, upper)
  {
    hide DigitChar, Digits;
    var rest := all[..|all| - length];
    if v < base { DivUnique(v, base, 0, v); } else { Shrinks(v, base); }
    LastDigit(v, base, upper);
    assert all[|all| - 1 - length] == rest[|rest| - 1];
    assert all[..|all| - length - 1] == rest[..|rest| - 1];
  }

  lemma LastDigit(v: nat, base: nat, upper: bool)
    requires 2 <= base <= 16 && 0 < v
    ensures var s := Digits(v, base, upper);
            s[|s| - 1] == DigitChar(v % base, upper) && s[..|s| - 1] == (if v / base == 0 then [] else Digits(v / base, base, upper))
  {
    hide DigitChar;
    if v < base { DivUnique(v, base, 0, v); } else { Shrinks(v, base); }
  }

  method ReverseInto(scratch: array<char>, length: nat, buffer: array<char>)
    requires length <= scratch.Length && length <= buffer.Length && buffer != scratch
    modifies buffer
    ensures forall i :: 0 <= i < length ==> buffer[i] == scratch[length - 1 - i]
  {
    for i := 0 to length
      invariant forall j :: 0 <= j < i ==> buffer[j] == scratch[length - 1 - j]
    {
      buffer[i] := scratch[length - 1 - i];
    }
  }

  // ---------------------------------------------------------------- a padded number

  function Repeat(c: char, n: int): (s: string)
    ensures |s| == (if n > 0 then n else 0) && forall i :: 0 <= i < |s| ==> s[i] == c
  {
    if n <= 0 then [] else Repeat(c, n - 1) + [c]
  }

  function Prefix(negative: bool, upper: bool, hex: bool): string
  {
    (if negative then "-" else "") + (if hex then (if upper then "0X" else "0x") else "")
  }

  /** What format_number writes: blanks before the sign, or zeros after it. */
  function Number(value: nat, negative: bool, base: nat, upper: bool, width: int, zero: bool, hex: bool): string
    requires 2 <= base <= 16
  {
    var digits, prefix := Digits(value, base, upper), Prefix(negative, upper, hex);
    var pad := width - |digits| - |prefix|;
    if zero then prefix + Repeat('0', pad) + digits else Repeat(' ', pad) + prefix + digits
  }

  // ---------------------------------------------------------------- reading a number

  function At(s: string, i: nat): char { if i < |s| then s[i] else '\0' }

  predicate IsSpace(c: char) { c == ' ' || c == '\t' || c == '\n' || c == '\r' || c == '\U{0c}' || c == '\U{0b}' }

  /** The value of a digit or letter; 99 for anything else, which no base admits. */
  function DigitOf(c: char): nat
  {
    if '0' <= c <= '9' then c as int - '0' as int
    else if 'a' <= c <= 'z' then c as int - 'a' as int + 10
    else if 'A' <= c <= 'Z' then c as int - 'A' as int + 10
    else 99
  }

  function SkipSpace(s: string, i: nat): (j: nat)
    requires i <= |s|
    ensures i <= j <= |s|
    decreases |s| - i
  {
    if i < |s| && IsSpace(s[i]) then SkipSpace(s, i + 1) else i
  }

  /** Digits from i on, and where they stop; the value wraps as unsigned long does. */
  function Scan(s: string, i: nat, base: int, value: nat): (nat, nat)
    requires i <= |s|
    decreases |s| - i
  {
    if i < |s| && DigitOf(s[i]) != 99 && DigitOf(s[i]) < base then Scan(s, i + 1, base, (value * base + DigitOf(s[i])) % TWO64)
    else (value, i)
  }

  predicate HexMark(s: string, i: nat) { At(s, i) == '0' && (At(s, i + 1) == 'x' || At(s, i + 1) == 'X') }

  /** The base in use, and where the digits begin. */
  function ChooseBase(s: string, i: nat, base: int): (r: (int, nat))
    requires i <= |s|
    ensures i <= r.1 <= |s|
  {
    if base == 0 then
      if HexMark(s, i) then (16, i + 2) else if At(s, i) == '0' then (8, i) else (10, i)
    else if base == 16 && HexMark(s, i) then (16, i + 2)
    else (base, i)
  }

  datatype Parsed = Parsed(value: nat, end: nat)

  /** crt_parse_unsigned */
  function Parse(s: string, base: int): Parsed
  {
    var i := SkipSpace(s, 0);
    var negative := At(s, i) == '-';
    var j := if At(s, i) == '+' || At(s, i) == '-' then i + 1 else i;
    var (used, k) := ChooseBase(s, j, base);
    var (value, end) := Scan(s, k, used, 0);
    Parsed(if negative then (TWO64 - value) % TWO64 else value, end)
  }

  function Long(value: nat): int { if value < HALF64 then value else value - TWO64 }

  /** The loops of crt_parse_unsigned; a missing text is the caller's zero. */
  method ParseUnsigned(s: string, base: int) returns (r: Parsed)
    ensures r == Parse(s, base)
  {
    hide DigitOf, IsSpace;
    var i := 0;
    while i < |s| && IsSpace(s[i])
      invariant i <= |s| && SkipSpace(s, 0) == SkipSpace(s, i)
    {
      i := i + 1;
    }
    var negative := false;
    if At(s, i) == '+' || At(s, i) == '-' {
      negative := At(s, i) == '-';
      i := i + 1;
    }
    var used, k := base, i;
    if used == 0 {
      used := 10;
      if At(s, k) == '0' {
        if At(s, k + 1) == 'x' || At(s, k + 1) == 'X' {
          used, k := 16, k + 2;
        } else {
          used := 8;
        }
      }
    } else if used == 16 && At(s, k) == '0' && (At(s, k + 1) == 'x' || At(s, k + 1) == 'X') {
      k := k + 2;
    }
    assert (used, k) == ChooseBase(s, i, base);
    var value, end := ScanDigits(s, k, used);
    if negative { value := (TWO64 - value) % TWO64; }
    r := Parsed(value, end);
  }

  method ScanDigits(s: string, start: nat, base: int) returns (value: nat, end: nat)
    requires start <= |s|
    ensures (value, end) == Scan(s, start, base, 0)
  {
    value, end := 0, start;
    while end < |s|
      invariant start <= end <= |s| && Scan(s, end, base, value) == Scan(s, start, base, 0)
    {
      var digit, c := 99, s[end];
      if '0' <= c <= '9' {
        digit := c as int - '0' as int;
      } else if 'A' <= c <= 'Z' || 'a' <= c <= 'z' {
        digit := (if 'A' <= c <= 'Z' then c as int + 32 else c as int) - 'a' as int + 10;
      }
      if digit == 99 || digit >= base { break; }
      value := (value * base + digit) % TWO64;
      end := end + 1;
    }
  }

  method StrToL(s: string, base: int) returns (v: int, end: nat)
    ensures v == Long(Parse(s, base).value) && end == Parse(s, base).end
  {
    hide Parse;
    var r := ParseUnsigned(s, base);
    v, end := Long(r.value), r.end;
  }

  method StrToUL(s: string, base: int) returns (v: nat, end: nat)
    ensures v == Parse(s, base).value && end == Parse(s, base).end
  {
    hide Parse;
    var r := ParseUnsigned(s, base);
    v, end := r.value, r.end;
  }

  // ---------------------------------------------------------------- reading back what was written

  lemma DigitBack(d: nat, upper: bool)
    requires d < 16
    ensures DigitOf(DigitChar(d, upper)) == d && !IsSpace(DigitChar(d, upper))
    ensures DigitChar(d, upper) != '+' && DigitChar(d, upper) != '-' && DigitChar(d, upper) != 'x' && DigitChar(d, upper) != 'X'
  {
    assert d == 0 || d == 1 || d == 2 || d == 3 || d == 4 || d == 5 || d == 6 || d == 7 || d == 8 || d == 9 || d == 10 || d == 11
        || d == 12 || d == 13 || d == 14 || d == 15;
  }

  /** Text in front of the digits does not change what a scan sees. */
  lemma {:induction false} ScanShift(pre: string, s: string, i: nat, base: int, value: nat)
    requires i <= |s|
    ensures Scan(pre + s, |pre| + i, base, value) == (var r := Scan(s, i, base, value); (r.0, r.1 + |pre|))
    decreases |s| - i
  {
    hide DigitOf;
    if i < |s| {
      assert (pre + s)[|pre| + i] == s[i];
      if DigitOf(s[i]) != 99 && DigitOf(s[i]) < base {
        ScanShift(pre, s, i + 1, base, (value * base + DigitOf(s[i])) % TWO64);
      }
    }
  }

  /** All characters are digits of the base. */
  predicate AllDigits(s: string, base: int) { forall i :: 0 <= i < |s| ==> DigitOf(s[i]) < base }

  /** The number that digits spell, continuing from a value. */
  function Spelled(s: string, base: nat, value: nat): nat
  {
    if s == [] then value else Spelled(s[..|s| - 1], base, value) * base + DigitOf(s[|s| - 1])
  }

  /** Scanning digits gives the number they spell, if it never wraps. */
  lemma {:induction false} ScanSpelled(s: string, i: nat, base: nat)
    requires i <= |s| && 2 <= base <= 16 && AllDigits(s, base) && Spelled(s, base, 0) < TWO64
    ensures Scan(s, i, base, Spelled(s[..i], base, 0)) == (Spelled(s, base, 0), |s|)
    decreases |s| - i
  {
    hide DigitOf;
    if i == |s| {
      assert s[..i] == s;
    } else {
      assert s[..i + 1][..i] == s[..i];
      SpelledGrows(s, i + 1, base);
      ScanSpelled(s, i + 1, base);
      ModOnce(Spelled(s[..i + 1], base, 0), TWO64);
    }
  }

  lemma {:induction false} SpelledGrows(s: string, i: nat, base: nat)
    requires i <= |s| && 2 <= base
    ensures Spelled(s[..i], base, 0) <= Spelled(s, base, 0)
    decreases |s|
  {
    hide DigitOf;
    if i == |s| {
      assert s[..i] == s;
    } else {
      assert s[..|s| - 1][..i] == s[..i];
      SpelledGrows(s[..|s| - 1], i, base);
      MulMono(1, base, Spelled(s[..|s| - 1], base, 0));
    }
  }

  /** Digits spell their value, however many zeros stand in front. */
  lemma {:induction false} DigitsSpell(v: nat, base: nat, upper: bool, pad: int)
    requires 2 <= base <= 16
    ensures var s := Repeat('0', pad) + Digits(v, base, upper); Spelled(s, base, 0) == v && AllDigits(s, base)
    decreases v
  {
    hide DigitChar, DigitOf, Repeat, Spelled, AllDigits, Digits;
    var zeros, last := Repeat('0', pad), DigitChar(v % base, upper);
    DigitBack(v % base, upper);
    LastOf(v, base, upper);
    var init := if v < base then [] else Digits(v / base, base, upper);
    assert Digits(v, base, upper) == init + [last];
    assert zeros + (init + [last]) == (zeros + init) + [last];
    Pushed(zeros + init, last, base);
    if v < base {
      DivUnique(v, base, 0, v);
      ZerosSpell(pad, base);
      assert zeros + [] == zeros;
    } else {
      Shrinks(v, base);
      DigitsSpell(v / base, base, upper, pad);
      assert v == v / base * base + v % base;
    }
  }

  lemma Pushed(s: string, c: char, base: nat)
    ensures Spelled(s + [c], base, 0) == Spelled(s, base, 0) * base + DigitOf(c)
    ensures AllDigits(s, base) && DigitOf(c) < base ==> AllDigits(s + [c], base)
  {
    hide DigitOf;
    assert (s + [c])[..|s|] == s;
  }

  lemma LastOf(v: nat, base: nat, upper: bool)
    requires 2 <= base <= 16
    ensures var s := Digits(v, base, upper);
            s[|s| - 1] == DigitChar(v % base, upper) && s[..|s| - 1] == (if v < base then [] else Digits(v / base, base, upper))
  {
    hide DigitChar;
    if v < base { DivUnique(v, base, 0, v); } else { Shrinks(v, base); }
  }

  lemma ZeroDigit()
    ensures DigitOf('0') == 0
  {
  }

  lemma {:induction false} ZerosSpell(pad: int, base: nat)
    requires 2 <= base
    ensures Spelled(Repeat('0', pad), base, 0) == 0 && AllDigits(Repeat('0', pad), base)
    decreases pad
  {
    hide DigitOf;
    ZeroDigit();
    if pad > 0 { ZerosSpell(pad - 1, base); }
  }

  /** The number as one text, with either kind of padding. */
  function Padded(blanks: int, negative: bool, hex: bool, zeros: int, value: nat, base: nat, upper: bool): string
    requires 2 <= base <= 16
  {
    Repeat(' ', blanks) + Prefix(negative, upper, hex) + (Repeat('0', zeros) + Digits(value, base, upper))
  }

  lemma NumberIsPadded(value: nat, negative: bool, base: nat, upper: bool, width: int, zero: bool, hex: bool)
    requires 2 <= base <= 16
    ensures var pad := width - |Digits(value, base, upper)| - |Prefix(negative, upper, hex)|;
            Number(value, negative, base, upper, width, zero, hex)
            == Padded(if zero then 0 else pad, negative, hex, if zero then pad else 0, value, base, upper)
  {
    hide Digits, Prefix;
    var pad, p, d := width - |Digits(value, base, upper)| - |Prefix(negative, upper, hex)|, Prefix(negative, upper, hex), Digits(value, base, upper);
    var empty := Repeat(' ', 0);
    assert empty + p == p;
    assert p + Repeat('0', pad) + d == p + (Repeat('0', pad) + d);
    assert Repeat('0', 0) + d == d;
  }

  lemma {:induction false} SkipBlanks(n: int, rest: string, i: nat)
    requires rest != [] && !IsSpace(rest[0]) && i <= |Repeat(' ', n)|
    ensures SkipSpace(Repeat(' ', n) + rest, i) == |Repeat(' ', n)|
    decreases |Repeat(' ', n)| - i
  {
    hide Repeat;
    var t := Repeat(' ', n) + rest;
    if i < |Repeat(' ', n)| {
      assert t[i] == ' ';
      SkipBlanks(n, rest, i + 1);
    } else {
      assert t[i] == rest[0];
    }
  }

  /** The first characters of a body of digits are digits. */
  lemma BodyStart(v: nat, base: nat, upper: bool, zeros: int)
    requires 2 <= base <= 16
    ensures var body := Repeat('0', zeros) + Digits(v, base, upper);
            && body != [] && AllDigits(body, base)
            && forall i :: 0 <= i < |body| ==> Plain(body[i])
  {
    hide Digits, Repeat, DigitOf, Plain;
    DigitsSpell(v, base, upper, zeros);
    var body := Repeat('0', zeros) + Digits(v, base, upper);
    forall i | 0 <= i < |body| ensures Plain(body[i]) {
      DigitPlain(body[i], base);
    }
  }

  predicate Plain(c: char) { !IsSpace(c) && c != '+' && c != '-' && c != 'x' && c != 'X' && c != '\0' }

  lemma DigitPlain(c: char, base: nat)
    requires base <= 16 && DigitOf(c) < base
    ensures Plain(c)
  {
  }

  /** How a base argument reads digits of a base: the same one, or 0 where the text carries the hex mark. */
  predicate Reads(want: int, base: nat, hex: bool)
  {
    (want == 10 && base == 10 && !hex) || (base == 16 && (want == 16 || (want == 0 && hex)))
  }

  lemma BaseChosen(pre: string, hex: bool, upper: bool, body: string, base: nat, want: int)
    requires Reads(want, base, hex) && body != [] && forall i :: 0 <= i < |body| ==> Plain(body[i])
    ensures var mark := if hex then (if upper then "0X" else "0x") else "";
            ChooseBase(pre + mark + body, |pre|, want) == (base as int, |pre| + |mark|)
  {
    var mark := if hex then (if upper then "0X" else "0x") else "";
    var t := pre + mark + body;
    if hex {
      assert At(t, |pre|) == '0' && At(t, |pre| + 1) == mark[1];
    } else {
      assert forall i :: 0 <= i < |body| ==> t[|pre| + i] == body[i];
      assert !HexMark(t, |pre|);
    }
  }

  /** Reading any padded number gives back its value and stops at its end. */
  lemma ReadBack(blanks: int, negative: bool, hex: bool, zeros: int, v: nat, base: nat, upper: bool, want: int)
    requires 2 <= base <= 16 && Reads(want, base, hex) && v < TWO64
    ensures var t := Padded(blanks, negative, hex, zeros, v, base, upper);
            Parse(t, want) == Parsed(if negative then (TWO64 - v) % TWO64 else v, |t|)
  {
    hide Repeat, Digits, Reads, ChooseBase, DigitOf, AllDigits, Plain, Scan, SkipSpace;
    var lead, body := Repeat(' ', blanks), Repeat('0', zeros) + Digits(v, base, upper);
    var sign, mark := if negative then "-" else "", if hex then (if upper then "0X" else "0x") else "";
    var t := Padded(blanks, negative, hex, zeros, v, base, upper);
    assert Prefix(negative, upper, hex) == sign + mark;
    BodyStart(v, base, upper, zeros);
    DigitsSpell(v, base, upper, zeros);
    var rest := sign + mark + body;
    assert t == lead + rest && t == lead + sign + mark + body;
    RestStart(sign, mark, body);
    SkipBlanks(blanks, rest, 0);
    assert At(t, |lead|) == rest[0];
    BaseChosen(lead + sign, hex, upper, body, base, want);
    ScanShift(lead + sign + mark, body, 0, base, 0);
    ScanAll(body, base, v);
  }

  lemma RestStart(sign: string, mark: string, body: string)
    requires sign in ["", "-"] && mark in ["", "0x", "0X"] && body != [] && Plain(body[0])
    ensures var rest := sign + mark + body;
            rest != [] && !IsSpace(rest[0]) && (rest[0] == '-' <==> sign == "-") && rest[0] != '+'
  {
  }

  lemma ScanAll(body: string, base: nat, v: nat)
    requires 2 <= base <= 16 && AllDigits(body, base) && Spelled(body, base, 0) == v < TWO64
    ensures Scan(body, 0, base, 0) == (v, |body|)
  {
    hide DigitOf, AllDigits, Scan;
    assert body[..0] == [];
    ScanSpelled(body, 0, base);
  }

  function Magnitude(v: int): nat { if v < 0 then -v else v }

  /** strtol undoes %ld at every width, zero-padded or not. */
  lemma LongBack(v: int, width: int, zero: bool)
    requires -HALF64 < v < HALF64
    ensures var t := Number(Magnitude(v), v < 0, 10, false, width, zero, false);
            Long(Parse(t, 10).value) == v && Parse(t, 10).end == |t|
  {
    hide Digits, Prefix, Number, Padded, Parse;
    NumberIsPadded(Magnitude(v), v < 0, 10, false, width, zero, false);
    var pad := width - |Digits(Magnitude(v), 10, false)| - |Prefix(v < 0, false, false)|;
    ReadBack(if zero then 0 else pad, v < 0, false, if zero then pad else 0, Magnitude(v), 10, false, 10);
    if v < 0 { ModOnce(TWO64 + v, TWO64); }
  }

  /** strtoul undoes %lu, and in base 16 undoes %lx and %lX. */
  lemma UnsignedBack(v: nat, base: nat, upper: bool, width: int, zero: bool)
    requires v < TWO64 && (base == 10 || base == 16)
    ensures var t := Number(v, false, base, upper, width, zero, false); Parse(t, base) == Parsed(v, |t|)
  {
    hide Digits, Prefix, Number, Padded, Parse;
    NumberIsPadded(v, false, base, upper, width, zero, false);
    var pad := width - |Digits(v, base, upper)| - |Prefix(false, upper, false)|;
    ReadBack(if zero then 0 else pad, false, false, if zero then pad else 0, v, base, upper, base);
  }

  /** strtoul undoes %p, told the base or left to find it. */
  lemma PointerBack(v: nat, width: int, base: int)
    requires v < TWO64 && (base == 0 || base == 16)
    ensures var t := Number(v, false, 16, false, width, true, true); Parse(t, base) == Parsed(v, |t|)
  {
    hide Digits, Prefix, Number, Padded, Parse;
    NumberIsPadded(v, false, 16, false, width, true, true);
    ReadBack(0, false, true, width - |Digits(v, 16, false)| - |Prefix(false, false, true)|, v, 16, false, base);
  }
}
