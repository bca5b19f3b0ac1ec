/** Bounded formatted output: vsnprintf over a sink that counts everything and stores what fits. */
module Format {
  import opened Arith
  import opened Numerals

  /** A variadic argument: a register, or a pointer to text that may be missing. */
  datatype Arg = Word(bits: nat) | Text(text: string) | Null

  /** A conversion: flags, width, length modifiers, its letter, and where it ends. */
  datatype Spec = Spec(zero: bool, width: nat, longs: nat, conv: char, next: nat)

  // ---------------------------------------------------------------- the unbounded output

  predicate IsDigit(c: char) { '0' <= c <= '9' }

  function DecimalFrom(fmt: string, i: nat, width: nat): (r: (nat, nat))
    ensures i <= r.1
    decreases |fmt| - i
  {
    if i < |fmt| && IsDigit(fmt[i]) then DecimalFrom(fmt, i + 1, width * 10 + (fmt[i] as int - '0' as int)) else (width, i)
  }

  function LongsFrom(fmt: string, i: nat, longs: nat): (r: (nat, nat))
    ensures i <= r.1
    decreases |fmt| - i
  {
    if i < |fmt| && fmt[i] == 'l' then LongsFrom(fmt, i + 1, longs + 1)
    else if i < |fmt| && fmt[i] == 'z' then LongsFrom(fmt, i + 1, 1)
    else (longs, i)
  }

  /** The conversion whose text begins at i, just after the percent sign. */
  function ReadSpec(fmt: string, i: nat): (s: Spec)
    ensures i <= s.next
  {
    var zero := At(fmt, i) == '0';
    var (width, j) := DecimalFrom(fmt, if zero then i + 1 else i, 0);
    var (longs, k) := LongsFrom(fmt, j, 0);
    Spec(zero, width, longs, At(fmt, k), if At(fmt, k) == '\0' then k else k + 1)
  }

  function Bits(a: Arg): (r: nat)
    ensures r < TWO64
  {
    match a case Word(bits) => bits % TWO64 case Text(_) => 1 case Null => 0
  }

  /** The unsigned value of a register under the length modifiers. */
  function Unsigned(a: Arg, longs: nat): (r: nat)
    ensures r < TWO64
  {
    if longs >= 1 then Bits(a) else Bits(a) % TWO32
  }

  function SignedValue(a: Arg, longs: nat): (r: int)
    ensures -HALF64 <= r < HALF64
  {
    var u := Unsigned(a, longs);
    if longs >= 1 then Long(u) else if u < 0x8000_0000 then u else u - TWO32
  }

  function CText(s: string, i: nat): string
    decreases |s| - i
  {
    if i < |s| && s[i] != '\0' then [s[i]] + CText(s, i + 1) else []
  }

  function TextOf(a: Arg): string { match a case Text(s) => CText(s, 0) case _ => "(null)" }

  predicate TakesArgument(conv: char) { conv in "csdiuxXp" }

  /** What one conversion contributes. */
  function Converted(s: Spec, a: Arg): string
  {
    if s.conv == '\0' then ""
    else if s.conv == 'c' then [(Bits(a) % 256) as char]
    else if s.conv == 's' then Repeat(' ', s.width - |TextOf(a)|) + TextOf(a)
    else if s.conv == 'd' || s.conv == 'i' then
      var v := SignedValue(a, s.longs); Number(Magnitude(v), v < 0, 10, false, s.width, s.zero, false)
    else if s.conv == 'u' then Number(Unsigned(a, s.longs), false, 10, false, s.width, s.zero, false)
    else if s.conv == 'x' || s.conv == 'X' then Number(Unsigned(a, s.longs), false, 16, s.conv == 'X', s.width, s.zero, false)
    else if s.conv == 'p' then Number(Bits(a), false, 16, false, if s.width > 0 then s.width else 2, true, true)
    else ['%', s.conv]
  }

  function Argument(args: seq<Arg>, k: nat): Arg { if k < |args| then args[k] else Word(0) }

  /** One step through the format: what it adds, where it goes on, and the next argument. */
  function Piece(fmt: string, i: nat, args: seq<Arg>, k: nat): (r: (string, nat, nat))
    requires i < |fmt|
    ensures i < r.1
  {
    if fmt[i] != '%' then ([fmt[i]], i + 1, k)
    else if At(fmt, i + 1) == '%' then (['%'], i + 2, k)
    else
      var s := ReadSpec(fmt, i + 1);
      (Converted(s, Argument(args, k)), s.next, if TakesArgument(s.conv) then k + 1 else k)
  }

  /** Everything the format produces from position i on. */
  function Output(fmt: string, i: nat, args: seq<Arg>, k: nat): string
    decreases |fmt| - i
  {
    if i >= |fmt| || fmt[i] == '\0' then ""
    else var (text, j, m) := Piece(fmt, i, args, k); text + Output(fmt, j, args, m)
  }

  /** The conversion to int of a size. */
  function ToInt(n: nat): int { var u := n % TWO32; if u < 0x8000_0000 then u else u - TWO32 }

  // ---------------------------------------------------------------- the sink

  /** text is everything pushed so far, stored or not; beyond is what lies behind the capacity, never touched. */
  class Sink {
    const buffer: array<char>
    const capacity: nat
    var length: nat
    ghost var text: string
    ghost const beyond: seq<char>

    constructor (buffer: array<char>, capacity: nat)
      requires capacity <= buffer.Length
      ensures this.buffer == buffer && this.capacity == capacity && Valid() && text == "" && beyond == buffer[capacity..]
    {
      beyond := buffer[capacity..];
      this.buffer, this.capacity, length, text := buffer, capacity, 0, "";
    }

    /** The number of characters that fit beside a terminator. */
    function Stored(): (n: nat)
      reads this
      ensures n <= length
    {
      if capacity == 0 then 0 else if length < capacity then length else capacity - 1
    }

    ghost predicate Valid()
      reads this, buffer
    {
      capacity <= buffer.Length && length == |text| && buffer[..Stored()] == text[..Stored()] && buffer[capacity..] == beyond
    }

    method PushChar(c: char)
      requires Valid()
      modifies this`length, this`text, buffer
      ensures Valid() && text == old(text) + [c]
    {
      if capacity > 0 && length + 1 < capacity { buffer[length] := c; }
      length := length + 1;
      text := text + [c];
    }

    method PushText(a: Arg)
      requires Valid()
      modifies this`length, this`text, buffer
      ensures Valid() && text == old(text) + TextOf(a)
    {
      hide Sink.Valid, CText;
      var s := if a.Text? then a.text else "(null)";
      NullText();
      var i := 0;
      ghost var done := "";
      while i < |s| && s[i] != '\0'
        invariant i <= |s| && Valid() && done + CText(s, i) == CText(s, 0) && text == old(text) + done
      {
        CTextStep(s, i);
        AppendOne(done, s[i], CText(s, i + 1));
        PushChar(s[i]);
        assert old(text) + done + [s[i]] == old(text) + (done + [s[i]]);
        done := done + [s[i]];
        i := i + 1;
      }
      CTextStep(s, i);
      assert done == CText(s, 0);
    }

    method PushPadding(count: int, pad: char)
      requires Valid()
      modifies this`length, this`text, buffer
      ensures Valid() && text == old(text) + Repeat(pad, count)
    {
      hide Sink.Valid;
      var left := count;
      ghost var done := 0;
      while left > 0
        invariant Valid() && text == old(text) + Repeat(pad, done)
        invariant done >= 0 && (left > 0 ==> left + done == count) && (left <= 0 ==> done == if count > 0 then count else 0)
      {
        PushChar(pad);
        left := left - 1;
        done := done + 1;
      }
      assert Repeat(pad, done) == Repeat(pad, count);
    }

    method PushDigits(digits: array<char>, n: nat)
      requires Valid() && n <= digits.Length && digits != buffer
      modifies this`length, this`text, buffer
      ensures Valid() && text == old(text) + digits[..n]
    {
      hide Sink.Valid;
      ghost var all := digits[..n];
      for i := 0 to n
        invariant digits[..n] == all && Valid() && text == old(text) + all[..i]
      {
        PushChar(digits[i]);
      }
    }

    /** format_number */
    method PushNumber(value: nat, negative: bool, base: nat, upper: bool, width: int, zero: bool, hex: bool)
      requires Valid() && 4 <= base <= 16 && value < TWO64
      modifies this`length, this`text, buffer
      ensures Valid() && text == old(text) + Number(value, negative, base, upper, width, zero, hex)
    {
      hide Sink.Valid, Digits, Prefix, Repeat, Number, Power;
      ScratchSuffices(value, base, upper);
      var digits := new char[SCRATCH];
      var n := FormatUnsigned(digits, value, base, upper);
      var prefix := (if negative then 1 else 0) + (if hex then 2 else 0);
      PrefixLength(negative, upper, hex);
      if !zero { PushPadding(width - (n + prefix), ' '); }
      PushPrefix(negative, upper, hex);
      if zero { PushPadding(width - (n + prefix), '0'); }
      PushDigits(digits, n);
      NumberParts(old(text), value, negative, base, upper, width, zero, hex);
    }

    method PushPrefix(negative: bool, upper: bool, hex: bool)
      requires Valid()
      modifies this`length, this`text, buffer
      ensures Valid() && text == old(text) + Prefix(negative, upper, hex)
    {
      hide Sink.Valid;
      if negative { PushChar('-'); }
      if hex {
        PushChar('0');
        PushChar(if upper then 'X' else 'x');
      }
    }

    /** The switch over conversion letters. */
    method PushConverted(s: Spec, a: Arg)
      requires Valid()
      modifies this`length, this`text, buffer
      ensures Valid() && text == old(text) + Converted(s, a)
    {
      hide Sink.Valid, Number, TextOf, Bits, Unsigned, SignedValue, Repeat;
      if s.conv == '\0' {
      } else if s.conv == 'c' {
        PushChar((Bits(a) % 256) as char);
      } else if s.conv == 's' {
        PushPadding(s.width - |TextOf(a)|, ' ');
        PushText(a);
      } else if s.conv == 'd' || s.conv == 'i' {
        var v := SignedValue(a, s.longs);
        PushNumber(Magnitude(v), v < 0, 10, false, s.width, s.zero, false);
      } else if s.conv == 'u' {
        PushNumber(Unsigned(a, s.longs), false, 10, false, s.width, s.zero, false);
      } else if s.conv == 'x' || s.conv == 'X' {
        PushNumber(Unsigned(a, s.longs), false, 16, s.conv == 'X', s.width, s.zero, false);
      } else if s.conv == 'p' {
        PushNumber(Bits(a), false, 16, false, if s.width > 0 then s.width else 2, true, true);
      } else {
        PushChar('%');
        PushChar(s.conv);
      }
    }

    /** One round of the formatting loop. */
    method PrintPiece(fmt: string, i: nat, args: seq<Arg>, k: nat) returns (j: nat, m: nat)
      requires Valid() && i < |fmt|
      modifies this`length, this`text, buffer
      ensures Valid() && var piece := Piece(fmt, i, args, k); text == old(text) + piece.0 && j == piece.1 && m == piece.2
    {
      hide Sink.Valid, Converted, ReadSpec;
      m := k;
      if fmt[i] != '%' {
        PushChar(fmt[i]);
        j := i + 1;
      } else if At(fmt, i + 1) == '%' {
        PushChar('%');
        j := i + 2;
      } else {
        var s := ScanSpec(fmt, i + 1);
        PushConverted(s, Argument(args, k));
        if TakesArgument(s.conv) { m := k + 1; }
        j := s.next;
      }
    }

    /** format_vprintf */
    method Print(fmt: string, args: seq<Arg>) returns (r: int)
      requires Valid() && text == ""
      modifies this`length, this`text, buffer
      ensures Valid() && text == Output(fmt, 0, args, 0) && r == ToInt(|text|)
      ensures capacity > 0 ==> Stored() < buffer.Length && buffer[Stored()] == '\0'
    {
      hide Sink.Valid, Piece, Output;
      var i, k := 0, 0;
      while i < |fmt| && fmt[i] != '\0'
        invariant Valid() && text + Output(fmt, i, args, k) == Output(fmt, 0, args, 0)
        decreases |fmt| - i
      {
        OutputStep(fmt, i, args, k);
        ghost var was := text;
        var j, m := PrintPiece(fmt, i, args, k);
        assert was + Piece(fmt, i, args, k).0 + Output(fmt, j, args, m) == was + (Piece(fmt, i, args, k).0 + Output(fmt, j, args, m));
        i, k := j, m;
      }
      OutputStep(fmt, i, args, k);
      assert text + [] == text;
      if capacity > 0 { Terminate(); }
      r := Counted();
    }

    method Counted() returns (r: int)
      requires Valid()
      ensures r == ToInt(|text|)
    {
      r := ToInt(length);
    }

    method Terminate()
      requires Valid() && capacity > 0
      modifies buffer
      ensures Valid() && Stored() < buffer.Length && buffer[Stored()] == '\0'
    {
      buffer[if length < capacity then length else capacity - 1] := '\0';
    }
  }

  /** The pieces format_number pushes, one after the other, make up the number. */
  lemma NumberParts(t: string, value: nat, negative: bool, base: nat, upper: bool, width: int, zero: bool, hex: bool)
    requires 2 <= base <= 16
    ensures var d, p := Digits(value, base, upper), Prefix(negative, upper, hex);
            var pad := width - (|d| + |p|);
            t + Number(value, negative, base, upper, width, zero, hex)
            == if zero then t + p + Repeat('0', pad) + d else t + Repeat(' ', pad) + p + d
  {
    hide Digits, Prefix, Repeat;
  }

  lemma PrefixLength(negative: bool, upper: bool, hex: bool)
    ensures |Prefix(negative, upper, hex)| == (if negative then 1 else 0) + (if hex then 2 else 0)
  {
  }

  lemma OutputStep(fmt: string, i: nat, args: seq<Arg>, k: nat)
    ensures Output(fmt, i, args, k) ==
            if i >= |fmt| || fmt[i] == '\0' then ""
            else var piece := Piece(fmt, i, args, k); piece.0 + Output(fmt, piece.1, args, piece.2)
  {
    hide Piece;
  }

  lemma AppendOne(a: string, c: char, b: string)
    ensures a + ([c] + b) == a + [c] + b
  {
  }

  lemma CTextStep(s: string, i: nat)
    ensures CText(s, i) == if i < |s| && s[i] != '\0' then [s[i]] + CText(s, i + 1) else []
  {
  }

  lemma NullText()
    ensures CText("(null)", 0) == "(null)"
  {
  }

  /** The two loops over width digits and length modifiers. */
  method ScanSpec(fmt: string, start: nat) returns (s: Spec)
    ensures s == ReadSpec(fmt, start)
  {
    var i, zero := start, At(fmt, start) == '0';
    if zero { i := i + 1; }
    ghost var from := i;
    var width, longs := 0, 0;
    while i < |fmt| && IsDigit(fmt[i])
      invariant 0 <= width && DecimalFrom(fmt, i, width) == DecimalFrom(fmt, from, 0)
      decreases |fmt| - i
    {
      width := width * 10 + (fmt[i] as int - '0' as int);
      i := i + 1;
    }
    from := i;
    while i < |fmt| && (fmt[i] == 'l' || fmt[i] == 'z')
      invariant 0 <= longs && LongsFrom(fmt, i, longs) == LongsFrom(fmt, from, 0)
      decreases |fmt| - i
    {
      longs := if fmt[i] == 'l' then longs + 1 else 1;
      i := i + 1;
    }
    s := Spec(zero, width, longs, At(fmt, i), if At(fmt, i) == '\0' then i else i + 1);
  }

  /** vsnprintf: the buffer receives the longest prefix of the whole output that fits with its terminator, nothing
      else is written, and the answer is the whole length. */
  method VsnPrintf(buffer: array<char>, capacity: nat, fmt: string, args: seq<Arg>) returns (r: int)
    requires capacity <= buffer.Length
    modifies buffer
    ensures r == ToInt(|Output(fmt, 0, args, 0)|) && (|Output(fmt, 0, args, 0)| < 0x8000_0000 ==> r == |Output(fmt, 0, args, 0)|)
    ensures capacity > 0 ==>
              var all := Output(fmt, 0, args, 0);
              var n := if |all| < capacity then |all| else capacity - 1;
              buffer[..n] == all[..n] && buffer[n] == '\0'
    ensures buffer[capacity..] == old(buffer[capacity..])
  {
    hide Output;
    var sink := new Sink(buffer, capacity);
    r := sink.Print(fmt, args);
  }

  /** vsnprintf without a buffer only counts. */
  method Measure(fmt: string, args: seq<Arg>) returns (r: int)
    ensures r == ToInt(|Output(fmt, 0, args, 0)|)
  {
    hide Output;
    var none := new char[0];
    r := VsnPrintf(none, 0, fmt, args);
  }

  // ---------------------------------------------------------------- printing and reading back

  /** A format that consists of one conversion. */
  predicate Single(fmt: string, s: Spec)
  {
    |fmt| >= 2 && fmt[0] == '%' && fmt[1] != '%' && s == ReadSpec(fmt, 1) && s.next == |fmt|
  }

  lemma SingleOutput(fmt: string, s: Spec, a: Arg)
    requires Single(fmt, s)
    ensures Output(fmt, 0, [a], 0) == Converted(s, a)
  {
    hide ReadSpec, Converted, Output;
    OutputStep(fmt, 0, [a], 0);
    OutputStep(fmt, |fmt|, [a], if TakesArgument(s.conv) then 1 else 0);
  }

  /** Every way to print a long in decimal is undone by strtol. */
  lemma PrintedLong(fmt: string, s: Spec, v: int)
    requires Single(fmt, s) && (s.conv == 'd' || s.conv == 'i') && s.longs >= 1 && -HALF64 < v < HALF64
    ensures var t := Output(fmt, 0, [Word(if v < 0 then v + TWO64 else v)], 0);
            Long(Numerals.Parse(t, 10).value) == v && Numerals.Parse(t, 10).end == |t|
  {
    hide Single, Output, Number, Numerals.Parse;
    var a := Word(if v < 0 then v + TWO64 else v);
    SingleOutput(fmt, s, a);
    assert SignedValue(a, s.longs) == v;
    LongBack(v, s.width, s.zero);
  }

  /** Every way to print an unsigned long, in decimal, in hex, or as a pointer, is undone by strtoul. */
  lemma PrintedUnsigned(fmt: string, s: Spec, v: nat)
    requires Single(fmt, s) && v < TWO64 && (s.conv == 'p' || (s.longs >= 1 && s.conv in "uxX"))
    ensures var t := Output(fmt, 0, [Word(v)], 0);
            Numerals.Parse(t, if s.conv == 'u' then 10 else 16) == Parsed(v, |t|)
  {
    hide Single, Output, Number, Numerals.Parse;
    SingleOutput(fmt, s, Word(v));
    assert Bits(Word(v)) == v;
    if s.conv == 'p' { PointerBack(v, if s.width > 0 then s.width else 2, 16); }
    else { UnsignedBack(v, if s.conv == 'u' then 10 else 16, s.conv == 'X', s.width, s.zero); }
  }
}
