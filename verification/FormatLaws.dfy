/** What vsnprintf writes, said of formats and arguments. */
module FormatLaws {
  import opened Arith
  import opened Numerals
  import opened ParseLaws
  import opened Format

  // ---------------------------------------------------------------- one format after another

  /** The text from i on is literals and conversions, the last of which is complete. */
  predicate Complete(f: string, i: nat)
    decreases |f| - i
  {
    || i == |f|
    || (&& i < |f| && f[i] != '\0'
        && if f[i] != '%' then Complete(f, i + 1)
           else if At(f, i + 1) == '%' then Complete(f, i + 2)
           else var s := ReadSpec(f, i + 1); s.conv != '\0' && s.next <= |f| && Complete(f, s.next))
  }

  /** How many arguments the text from i on takes. */
  function Takes(f: string, i: nat): nat
    requires Complete(f, i)
    decreases |f| - i
  {
    if i == |f| then 0
    else if f[i] != '%' then Takes(f, i + 1)
    else if At(f, i + 1) == '%' then Takes(f, i + 2)
    else var s := ReadSpec(f, i + 1); (if s.conv in "csdiuxXp" then 1 else 0) + Takes(f, s.next)
  }

  lemma {:induction false} DecimalKeeps(f: string, g: string, i: nat, width: nat)
    requires i <= |f| && DecimalFrom(f, i, width).1 < |f|
    ensures DecimalFrom(f + g, i, width) == DecimalFrom(f, i, width)
    decreases |f| - i
  {
    assert i < |f| ==> (f + g)[i] == f[i];
    if i < |f| && IsDigit(f[i]) { DecimalKeeps(f, g, i + 1, width * 10 + (f[i] as int - '0' as int)); }
  }

  lemma {:induction false} LongsKeep(f: string, g: string, i: nat, longs: nat)
    requires i <= |f| && LongsFrom(f, i, longs).1 < |f|
    ensures LongsFrom(f + g, i, longs) == LongsFrom(f, i, longs)
    decreases |f| - i
  {
    assert i < |f| ==> (f + g)[i] == f[i];
    if i < |f| && f[i] == 'l' { LongsKeep(f, g, i + 1, longs + 1); }
    else if i < |f| && f[i] == 'z' { LongsKeep(f, g, i + 1, 1); }
  }

  /** Text behind a complete conversion does not change it. */
  lemma SpecKeeps(f: string, g: string, i: nat)
    requires i < |f| && ReadSpec(f, i).conv != '\0' && ReadSpec(f, i).next <= |f|
    ensures ReadSpec(f + g, i) == ReadSpec(f, i)
  {
    hide DecimalFrom, LongsFrom;
    assert (f + g)[i] == f[i];
    var from := if f[i] == '0' then i + 1 else i;
    var (width, j) := DecimalFrom(f, from, 0);
    var (longs, k) := LongsFrom(f, j, 0);
    assert j <= k < |f|;
    DecimalKeeps(f, g, from, 0);
    LongsKeep(f, g, j, 0);
    assert (f + g)[k] == f[k];
  }

  lemma {:induction false} DecimalShift(f: string, g: string, i: nat, width: nat)
    ensures var r := DecimalFrom(g, i, width); DecimalFrom(f + g, |f| + i, width) == (r.0, |f| + r.1)
    decreases |g| - i
  {
    assert i < |g| ==> (f + g)[|f| + i] == g[i];
    if i < |g| && IsDigit(g[i]) { DecimalShift(f, g, i + 1, width * 10 + (g[i] as int - '0' as int)); }
  }

  lemma {:induction false} LongsShift(f: string, g: string, i: nat, longs: nat)
    ensures var r := LongsFrom(g, i, longs); LongsFrom(f + g, |f| + i, longs) == (r.0, |f| + r.1)
    decreases |g| - i
  {
    assert i < |g| ==> (f + g)[|f| + i] == g[i];
    if i < |g| && g[i] == 'l' { LongsShift(f, g, i + 1, longs + 1); }
    else if i < |g| && g[i] == 'z' { LongsShift(f, g, i + 1, 1); }
  }

  lemma AtShift(f: string, g: string, i: nat)
    ensures At(f + g, |f| + i) == At(g, i)
  {
  }

  lemma SpecShift(f: string, g: string, i: nat)
    ensures var s := ReadSpec(g, i); ReadSpec(f + g, |f| + i) == s.(next := |f| + s.next)
  {
    hide DecimalFrom, LongsFrom, At;
    AtShift(f, g, i);
    var from := if At(g, i) == '0' then i + 1 else i;
    DecimalShift(f, g, from, 0);
    var (width, j) := DecimalFrom(g, from, 0);
    LongsShift(f, g, j, 0);
    var (longs, k) := LongsFrom(g, j, 0);
    AtShift(f, g, k);
  }

  lemma EndsElsewhere(s: Spec, next: nat, a: Arg)
    ensures Converted(s.(next := next), a) == Converted(s, a)
  {
    hide Number, TextOf, Bits, Unsigned, SignedValue, Repeat;
  }

  /** Text in front of a format does not change what follows it. */
  lemma {:induction false} OutputShift(f: string, g: string, i: nat, args: seq<Arg>, k: nat)
    ensures Output(f + g, |f| + i, args, k) == Output(g, i, args, k)
    decreases |g| - i
  {
    hide ReadSpec, Converted, Output, At;
    OutputStep(f + g, |f| + i, args, k);
    OutputStep(g, i, args, k);
    if i < |g| && g[i] != '\0' {
      assert (f + g)[|f| + i] == g[i];
      AtShift(f, g, i + 1);
      SpecShift(f, g, i + 1);
      var piece := Piece(g, i, args, k);
      EndsElsewhere(ReadSpec(g, i + 1), |f| + ReadSpec(g, i + 1).next, Argument(args, k));
      assert Piece(f + g, |f| + i, args, k) == (piece.0, |f| + piece.1, piece.2);
      OutputShift(f, g, piece.1, args, piece.2);
    }
  }

  /** The output of a complete format followed by another is the output of both, the second with the arguments that the
      first has left. */
  lemma {:induction false} OutputJoin(f: string, g: string, i: nat, args: seq<Arg>, k: nat)
    requires Complete(f, i)
    ensures Output(f + g, i, args, k) == Output(f, i, args, k) + Output(g, 0, args, k + Takes(f, i))
    decreases |f| - i
  {
    hide ReadSpec, Converted, Output, At, TakesArgument;
    if i == |f| {
      OutputShift(f, g, 0, args, k);
      OutputStep(f, i, args, k);
    } else {
      assert (f + g)[i] == f[i];
      OutputStep(f, i, args, k);
      OutputStep(f + g, i, args, k);
      SamePiece(f, g, i, args, k);
      var piece := Piece(f, i, args, k);
      PieceTakes(f, i, args, k);
      OutputJoin(f, g, piece.1, args, piece.2);
    }
  }

  lemma SamePiece(f: string, g: string, i: nat, args: seq<Arg>, k: nat)
    requires i < |f| && Complete(f, i)
    ensures Piece(f + g, i, args, k) == Piece(f, i, args, k)
  {
    hide ReadSpec, Converted;
    assert (f + g)[i] == f[i];
    if f[i] == '%' {
      if i + 1 < |f| {
        assert (f + g)[i + 1] == f[i + 1];
        if f[i + 1] != '%' { SpecKeeps(f, g, i + 1); }
      } else {
        NoSpec(f, i + 1);
      }
    }
  }

  lemma NoSpec(f: string, i: nat)
    requires i >= |f|
    ensures ReadSpec(f, i).conv == '\0'
  {
  }

  lemma PieceTakes(f: string, i: nat, args: seq<Arg>, k: nat)
    requires i < |f| && Complete(f, i)
    ensures var piece := Piece(f, i, args, k); Complete(f, piece.1) && k + Takes(f, i) == piece.2 + Takes(f, piece.1)
  {
    hide ReadSpec, Converted;
  }

  /** Two conversions take two arguments, in order. */
  lemma TwoConversions(f: string, s: Spec, g: string, t: Spec, a: Arg, b: Arg)
    requires Single(f, s) && Single(g, t) && s.conv in "csdiuxXp" && t.conv in "csdiuxXp"
    ensures Output(f + g, 0, [a, b], 0) == Converted(s, a) + Converted(t, b)
  {
    hide ReadSpec, Converted, Output;
    SingleComplete(f, s);
    OutputJoin(f, g, 0, [a, b], 0);
    OutputStep(f, 0, [a, b], 0);
    OutputStep(f, |f|, [a, b], 1);
    OutputStep(g, 0, [a, b], 1);
    OutputStep(g, |g|, [a, b], 2);
  }

  lemma SingleComplete(f: string, s: Spec)
    requires Single(f, s) && s.conv in "csdiuxXp"
    ensures Complete(f, 0) && Takes(f, 0) == 1
  {
    hide ReadSpec;
    assert Complete(f, |f|) && Takes(f, |f|) == 0;
  }

  // ---------------------------------------------------------------- how a conversion is written

  lemma {:induction false} DecimalSpells(s: string, a: nat, n: nat, i: nat)
    requires a <= i <= n <= |s| && (forall j :: a <= j < n ==> IsDigit(s[j])) && (n < |s| ==> !IsDigit(s[n]))
    ensures DecimalFrom(s, i, Spelled(s[a..i], 10, 0)) == (Spelled(s[a..n], 10, 0), n)
    decreases n - i
  {
    if i < n {
      var t := s[a..i + 1];
      assert t[..|t| - 1] == s[a..i] && t[|t| - 1] == s[i];
      DecimalSpells(s, a, n, i + 1);
    }
  }

  lemma {:induction false} LongsCounted(s: string, n: nat, i: nat, longs: nat)
    requires i <= n < |s| && (forall j :: i <= j < n ==> s[j] == 'l') && s[n] != 'l' && s[n] != 'z'
    ensures LongsFrom(s, i, longs) == (longs + n - i, n)
    decreases n - i
  {
    if i < n { LongsCounted(s, n, i + 1, longs + 1); }
  }

  /** A percent sign, perhaps a zero, perhaps a width in decimal, any number of l, and a letter: the conversion it says. */
  lemma SpecMeans(zero: bool, width: nat, longs: nat, conv: char) returns (f: string)
    requires !IsDigit(conv) && conv != 'l' && conv != 'z' && conv != '%' && conv != '\0'
    ensures f == "%" + (if zero then "0" else "") + (if width == 0 then "" else Digits(width, 10, false)) + Repeat('l', longs) + [conv]
    ensures Single(f, Spec(zero, width, longs, conv, |f|))
  {
    hide Digits, Repeat, DecimalFrom, LongsFrom, Spelled;
    var flag, digits, mods := if zero then "0" else "", if width == 0 then "" else Digits(width, 10, false), Repeat('l', longs);
    f := "%" + flag + digits + mods + [conv];
    var a := 1 + |flag|;
    var n := a + |digits|;
    var m := n + |mods|;
    assert f[a..n] == digits && f[m] == conv && |f| == m + 1 && f[a..a] == [];
    assert forall j :: n <= j < m ==> f[j] == mods[j - n] == 'l';
    WidthDigits(width, digits);
    assert forall j :: a <= j < n ==> f[j] == digits[j - a];
    assert !IsDigit(f[n]);
    DecimalSpells(f, a, n, a);
    LongsCounted(f, m, n, 0);
    assert f[0] == '%' && (zero ==> f[1] == '0');
    assert !zero ==> f[1] == (digits + mods + [conv])[0];
    assert f[1] != '%' && (f[1] == '0' <==> zero);
    NothingSpelled();
  }

  lemma NothingSpelled()
    ensures Spelled([], 10, 0) == 0
  {
  }

  lemma WidthDigits(width: nat, digits: string)
    requires digits == if width == 0 then "" else Digits(width, 10, false)
    ensures Spelled(digits, 10, 0) == width && (forall j :: 0 <= j < |digits| ==> IsDigit(digits[j])) && (digits != [] ==> digits[0] != '0')
  {
    hide Digits, Spelled, Repeat;
    NothingSpelled();
    if width > 0 {
      assert Repeat('0', 0) + digits == digits;
      DigitsSpell(width, 10, false, 0);
      DigitsLook(width, 10, false);
      forall j | 0 <= j < |digits| ensures IsDigit(digits[j]) { assert DigitOf(digits[j]) < 10; }
    }
  }

  // ---------------------------------------------------------------- single conversions

  /** Text without a percent sign is copied. */
  lemma {:induction false} LiteralCopied(f: string, i: nat, args: seq<Arg>, k: nat)
    requires i <= |f| && forall j :: 0 <= j < |f| ==> f[j] != '%' && f[j] != '\0'
    ensures Output(f, i, args, k) == f[i..]
    decreases |f| - i
  {
    hide ReadSpec, Converted;
    if i < |f| { LiteralCopied(f, i + 1, args, k); }
  }

  /** A doubled percent sign is one; an unknown conversion is copied with its sign. */
  lemma PercentAndUnknown(f: string, s: Spec, args: seq<Arg>)
    ensures Output("%%", 0, args, 0) == "%"
    ensures Single(f, s) && s.conv !in "csdiuxXp" && s.conv != '\0' ==> Output(f, 0, args, 0) == ['%', s.conv]
  {
    hide ReadSpec, Output;
    OutputStep("%%", 0, args, 0);
    OutputStep("%%", 2, args, 0);
    if Single(f, s) && s.conv !in "csdiuxXp" && s.conv != '\0' {
      OutputStep(f, 0, args, 0);
      OutputStep(f, |f|, args, 0);
    }
  }

  /** %s: the text, with blanks in front up to the width; (null) for a missing one. */
  lemma PrintedText(f: string, s: Spec, text: string)
    requires Single(f, s) && s.conv == 's' && forall i :: 0 <= i < |text| ==> text[i] != '\0'
    ensures var t := Output(f, 0, [Text(text)], 0);
            && |t| == (if s.width > |text| then s.width else |text|) && t[|t| - |text|..] == text
            && forall i :: 0 <= i < |t| - |text| ==> t[i] == ' '
    ensures var t := Output(f, 0, [Null], 0); |t| >= 6 && t[|t| - 6..] == "(null)"
  {
    hide ReadSpec, Output, Repeat, CText;
    SingleOutput(f, s, Text(text));
    SingleOutput(f, s, Null);
    WholeText(text, 0);
  }

  lemma {:induction false} WholeText(text: string, i: nat)
    requires i <= |text| && forall j :: 0 <= j < |text| ==> text[j] != '\0'
    ensures CText(text, i) == text[i..]
    decreases |text| - i
  {
    if i < |text| { WholeText(text, i + 1); }
  }

  /** %c: the low byte of the argument. */
  lemma PrintedChar(f: string, s: Spec, c: nat, high: nat)
    requires Single(f, s) && s.conv == 'c' && c < 256 && high * 256 + c < TWO64
    ensures Output(f, 0, [Word(high * 256 + c)], 0) == [c as char]
  {
    hide ReadSpec, Output;
    SingleOutput(f, s, Word(high * 256 + c));
    DivUnique(high * 256 + c, 256, high, c);
    ModOnce(high * 256 + c, TWO64);
  }

  /** Every way to print an int in decimal is undone by strtol, whatever the upper half of the register holds. */
  lemma PrintedInt(f: string, s: Spec, v: int, high: nat)
    requires Single(f, s) && (s.conv == 'd' || s.conv == 'i') && s.longs == 0
    requires -0x8000_0000 <= v < 0x8000_0000 && high < 0x1_0000_0000
    ensures var t := Output(f, 0, [Word(high * 0x1_0000_0000 + (if v < 0 then v + 0x1_0000_0000 else v))], 0);
            Long(Numerals.Parse(t, 10).value) == v && Numerals.Parse(t, 10).end == |t|
  {
    hide Single, Output, Number, Numerals.Parse;
    var low := if v < 0 then v + 0x1_0000_0000 else v;
    var a := Word(high * 0x1_0000_0000 + low);
    SingleOutput(f, s, a);
    LowHalf(high, low);
    assert SignedValue(a, s.longs) == v;
    LongBack(v, s.width, s.zero);
  }

  lemma LowHalf(high: nat, low: nat)
    requires high < 0x1_0000_0000 && low < 0x1_0000_0000
    ensures Bits(Word(high * 0x1_0000_0000 + low)) % 0x1_0000_0000 == low
  {
    var x := high * 0x1_0000_0000 + low;
    ModOnce(x, TWO64);
    DivUnique(x, 0x1_0000_0000, high, low);
  }

  /** And every way to print an unsigned int in decimal or hex by strtoul. */
  lemma PrintedUnsignedInt(f: string, s: Spec, v: nat, high: nat)
    requires Single(f, s) && s.conv in "uxX" && s.longs == 0 && v < 0x1_0000_0000 && high < 0x1_0000_0000
    ensures var t := Output(f, 0, [Word(high * 0x1_0000_0000 + v)], 0);
            Numerals.Parse(t, if s.conv == 'u' then 10 else 16) == Parsed(v, |t|)
  {
    hide Single, Output, Number, Numerals.Parse;
    var a := Word(high * 0x1_0000_0000 + v);
    SingleOutput(f, s, a);
    LowHalf(high, v);
    assert Unsigned(a, s.longs) == v;
    UnsignedBack(v, if s.conv == 'u' then 10 else 16, s.conv == 'X', s.width, s.zero);
  }
}
