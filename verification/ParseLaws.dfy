/** What strtol and strtoul make of any text, and what a printed number looks like. */
module ParseLaws {
  import opened Arith
  import opened Numerals

  const ALPHABET: string := "0123456789abcdefghijklmnopqrstuvwxyz"
  const CAPITALS: string := "0123456789ABCDEFGHIJKLMNOPQRSTUVWXYZ"

  /** A character has the value of its place in the alphabet of digits, in either case; no other character has one. */
  lemma DigitValue(c: char)
    ensures DigitOf(c) < 36 ==> c == ALPHABET[DigitOf(c)] || c == CAPITALS[DigitOf(c)]
    ensures DigitOf(c) >= 36 ==> c !in ALPHABET && c !in CAPITALS
  {
    if DigitOf(c) < 36 { PlaceOf(DigitOf(c)); }
    forall i | 0 <= i < 36 ensures DigitOf(ALPHABET[i]) == i && DigitOf(CAPITALS[i]) == i { PlaceOf(i); }
  }

  lemma PlaceOf(i: nat)
    requires i < 36
    ensures ALPHABET[i] as int == (if i < 10 then 48 + i else 87 + i) && CAPITALS[i] as int == if i < 10 then 48 + i else 55 + i
  {
    if i < 18 { FirstPlaces(i); } else { LastPlaces(i); }
  }

  lemma FirstPlaces(i: nat)
    requires i < 18
    ensures ALPHABET[i] as int == (if i < 10 then 48 + i else 87 + i) && CAPITALS[i] as int == if i < 10 then 48 + i else 55 + i
  {
    assert i == 0 || i == 1 || i == 2 || i == 3 || i == 4 || i == 5 || i == 6 || i == 7 || i == 8 || i == 9 || i == 10
        || i == 11 || i == 12 || i == 13 || i == 14 || i == 15 || i == 16 || i == 17;
  }

  lemma LastPlaces(i: nat)
    requires 18 <= i < 36
    ensures ALPHABET[i] as int == 87 + i && CAPITALS[i] as int == 55 + i
  {
    assert i == 18 || i == 19 || i == 20 || i == 21 || i == 22 || i == 23 || i == 24 || i == 25 || i == 26 || i == 27
        || i == 28 || i == 29 || i == 30 || i == 31 || i == 32 || i == 33 || i == 34 || i == 35;
  }

  // ---------------------------------------------------------------- digits, with wrap-around

  lemma ModStep(x: nat, b: nat, d: nat, m: nat)
    requires 0 < m
    ensures (x % m * b + d) % m == (x * b + d) % m
  {
    var q, r := x / m, x % m;
    var y := r * b + d;
    var p, z := y / m, y % m;
    assert x == q * m + r && y == p * m + z;
    assert x * b == q * m * b + r * b;
    assert q * m * b == q * b * m;
    assert (q * b + p) * m == q * b * m + p * m;
    DivUnique(x * b + d, m, q * b + p, z);
  }

  /** A scan over digits that stop at n gives the number they spell, modulo 2^64. */
  lemma {:induction false} ScanWraps(s: string, n: nat, i: nat, base: nat)
    requires i <= n <= |s| && 2 <= base <= 36 && AllDigits(s[..n], base) && (n < |s| ==> DigitOf(s[n]) >= base)
    ensures Scan(s, i, base, Spelled(s[..i], base, 0) % TWO64) == (Spelled(s[..n], base, 0) % TWO64, n)
    decreases n - i
  {
    hide DigitOf;
    if i < n {
      assert s[..n][i] == s[i] && s[..i + 1][..i] == s[..i] && s[..i + 1][i] == s[i];
      ModStep(Spelled(s[..i], base, 0), base, DigitOf(s[i]), TWO64);
      ScanWraps(s, n, i + 1, base);
    }
  }

  // ---------------------------------------------------------------- the parts of a text

  /** The six characters that may stand in front. */
  predicate White(c: char) { c as int in {9, 10, 11, 12, 13, 32} }

  lemma WhiteIsSpace(c: char)
    ensures White(c) <==> IsSpace(c)
  {
  }

  lemma {:induction false} SkipWhite(lead: string, rest: string, i: nat)
    requires (forall j :: 0 <= j < |lead| ==> White(lead[j])) && (rest != [] ==> !White(rest[0])) && i <= |lead|
    ensures SkipSpace(lead + rest, i) == |lead|
    decreases |lead| - i
  {
    hide White, IsSpace;
    var t := lead + rest;
    if i < |lead| {
      assert t[i] == lead[i];
      WhiteIsSpace(t[i]);
      SkipWhite(lead, rest, i + 1);
    } else if i < |t| {
      assert t[i] == rest[0];
      WhiteIsSpace(t[i]);
    }
  }

  predicate StartsHex(rest: string) { |rest| >= 2 && rest[0] == '0' && rest[1] in "xX" }

  /** Which base reads the rest of a text, and how many characters mark it: the one asked for; 16 may be marked 0x; and
      0 means 16 if marked so, 8 after a zero, and 10 otherwise. */
  function BaseFor(want: int, rest: string): (int, nat)
  {
    if (want == 0 || want == 16) && StartsHex(rest) then (16, 2)
    else if want != 0 then (want, 0)
    else if rest != [] && rest[0] == '0' then (8, 0)
    else (10, 0)
  }

  lemma BaseForIs(pre: string, rest: string, want: int)
    ensures ChooseBase(pre + rest, |pre|, want) == (BaseFor(want, rest).0, |pre| + BaseFor(want, rest).1)
  {
    var t := pre + rest;
    assert At(t, |pre|) == At(rest, 0) && At(t, |pre| + 1) == At(rest, 1);
    assert StartsHex(rest) <==> HexMark(t, |pre|);
  }

  /** Any text: white space, at most one sign, a base mark, digits up to the first character that is none, and whatever
      follows. The value is what the digits spell, modulo 2^64, negated after a minus; reading stops behind the digits. */
  lemma ParseMeans(lead: string, sign: string, rest: string, want: int, n: nat)
    requires forall j :: 0 <= j < |lead| ==> White(lead[j])
    requires sign == "" || sign == "+" || sign == "-"
    requires sign == "" && rest != [] ==> !White(rest[0]) && rest[0] != '+' && rest[0] != '-'
    requires var (base, k) := BaseFor(want, rest);
             && 2 <= base <= 36 && k <= n <= |rest| && AllDigits(rest[k..n], base) && (n < |rest| ==> DigitOf(rest[n]) >= base)
    ensures var (base, k) := BaseFor(want, rest); var v := Spelled(rest[k..n], base, 0) % TWO64;
            Parse(lead + sign + rest, want) == Parsed(if sign == "-" && v != 0 then TWO64 - v else v, |lead| + |sign| + n)
  {
    hide DigitOf, Scan, SkipSpace, ChooseBase, BaseFor, White, AllDigits, Spelled;
    var t := lead + sign + rest;
    var (base, k) := BaseFor(want, rest);
    var body := rest[k..];
    assert t == lead + (sign + rest);
    SignStart(sign, rest);
    SkipWhite(lead, sign + rest, 0);
    assert At(t, |lead|) == At(sign + rest, 0);
    BaseForIs(lead + sign, rest, want);
    assert t == (lead + sign + rest[..k]) + body;
    ScanShift(lead + sign + rest[..k], body, 0, base, 0);
    ScanBody(rest, k, n, base);
    var v := Spelled(rest[k..n], base, 0) % TWO64;
    if sign == "-" { ModOnce(TWO64 - v, TWO64); }
  }

  lemma ScanBody(rest: string, k: nat, n: nat, base: nat)
    requires k <= n <= |rest| && 2 <= base <= 36 && AllDigits(rest[k..n], base) && (n < |rest| ==> DigitOf(rest[n]) >= base)
    ensures Scan(rest[k..], 0, base, 0) == (Spelled(rest[k..n], base, 0) % TWO64, n - k)
  {
    hide DigitOf, Scan, AllDigits;
    var body := rest[k..];
    assert body[..n - k] == rest[k..n] && body[..0] == [];
    ScanWraps(body, n - k, 0, base);
  }

  lemma SignStart(sign: string, rest: string)
    requires sign == "" || sign == "+" || sign == "-"
    requires sign == "" && rest != [] ==> !White(rest[0]) && rest[0] != '+' && rest[0] != '-'
    ensures sign + rest != [] ==> !White((sign + rest)[0])
    ensures At(sign + rest, 0) == '-' <==> sign == "-"
    ensures At(sign + rest, 0) == '+' <==> sign == "+"
  {
    if sign == "" { assert sign + rest == rest; }
  }

  // ---------------------------------------------------------------- octal, and every other base up to 16

  /** Digits in any base from 2 to 16 are read back in that base; and with a zero in front, base 0 reads octal. */
  lemma DigitsBack(v: nat, base: nat, upper: bool, zeros: int, want: int)
    requires v < TWO64 && 2 <= base <= 16 && (want == base || (want == 0 && base == 8 && zeros > 0))
    ensures var t := Repeat('0', zeros) + Digits(v, base, upper); Parse(t, want) == Parsed(v, |t|)
  {
    hide Digits, Repeat, DigitOf, AllDigits, Parse, Spelled;
    var t := Repeat('0', zeros) + Digits(v, base, upper);
    BodyStart(v, base, upper, zeros);
    DigitsSpell(v, base, upper, zeros);
    assert Plain(t[0]);
    assert |t| > 1 ==> Plain(t[1]);
    assert t[0..|t|] == t && "" + "" + t == t;
    assert zeros > 0 ==> t[0] == '0';
    assert BaseFor(want, t) == (base as int, 0);
    ModOnce(v, TWO64);
    ParseMeans("", "", t, want, |t|);
  }

  // ---------------------------------------------------------------- what a printed number looks like

  /** Digits have no leading zero, and letters in the case asked for. */
  lemma {:induction false} DigitsLook(v: nat, base: nat, upper: bool)
    requires 2 <= base <= 16
    ensures var s := Digits(v, base, upper);
            && (v > 0 ==> s[0] != '0') && (v == 0 ==> s == "0")
            && forall i :: 0 <= i < |s| ==> '0' <= s[i] <= '9' || (if upper then 'A' <= s[i] <= 'F' else 'a' <= s[i] <= 'f')
    decreases v
  {
    hide DigitChar;
    if v < base {
      DigitLooks(v, upper);
    } else {
      Shrinks(v, base);
      DigitsLook(v / base, base, upper);
      DigitLooks(v % base, upper);
    }
  }

  lemma DigitLooks(d: nat, upper: bool)
    requires d < 16
    ensures var c := DigitChar(d, upper);
            (c == '0' <==> d == 0) && ('0' <= c <= '9' || (if upper then 'A' <= c <= 'F' else 'a' <= c <= 'f'))
  {
    assert d == 0 || d == 1 || d == 2 || d == 3 || d == 4 || d == 5 || d == 6 || d == 7 || d == 8 || d == 9 || d == 10 || d == 11
        || d == 12 || d == 13 || d == 14 || d == 15;
  }

  /** A number fills its width exactly, or is as long as it must be; it is padded in front with blanks, or behind sign
      and mark with zeros; and it ends with its digits. */
  lemma NumberLooks(value: nat, negative: bool, base: nat, upper: bool, width: int, zero: bool, hex: bool)
    requires 2 <= base <= 16
    ensures var t, d := Number(value, negative, base, upper, width, zero, hex), Digits(value, base, upper);
            var m := (if negative then 1 else 0) + (if hex then 2 else 0);
            var front := if zero then 0 else |t| - |d| - m;
            && |t| == (if width > |d| + m then width else |d| + m) && t[|t| - |d|..] == d
            && (forall i :: 0 <= i < front ==> t[i] == ' ')
            && (negative ==> t[front] == '-')
            && (hex ==> t[front + m - 2] == '0' && t[front + m - 1] == if upper then 'X' else 'x')
            && (forall i :: front + m <= i < |t| - |d| ==> t[i] == '0')
  {
    hide Digits, Repeat;
  }
}
