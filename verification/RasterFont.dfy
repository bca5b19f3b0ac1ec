/** The .rtf raster-font container: the Python writer and the two C readers that must agree about it. */
module RasterFont {
  import opened Arith
  import opened Words

  const HEADER_SIZE: nat := 108
  const ENTRY_SIZE: nat := 32
  const FAMILY_AT: nat := 44
  const FAMILY_BYTES: nat := 64
  const GLYPHS: nat := 128
  const VERSION: nat := 1
  /** "ROSRTF1" */
  const MAGIC: seq<Byte> := [82, 79, 83, 82, 84, 70, 49]
  /** "Bitmap UI", the name of a font whose header carries none. */
  const DEFAULT_FAMILY: seq<Byte> := [66, 105, 116, 109, 97, 112, 32, 85, 73]

  datatype Status = Format | NotSupported | NoSpace | Error
  datatype Result<+T> = Ok(value: T) | Failed(status: Status)

  /** A glyph as a drawing routine sees it; at is where its coverage lies in the file, if it has any. */
  datatype GlyphView = GlyphView(at: nat, size: nat, advance: nat, left: int, top: int, width: nat, height: nat)

  datatype Font = Font(pixelHeight: nat, lineHeight: nat, ascent: int, descent: int, lineGap: int,
                       family: seq<Byte>, glyphs: seq<GlyphView>)

  // ---------------------------------------------------------------- reading

  function ReadU32(b: seq<Byte>, at: nat): (v: nat)
    requires at + 4 <= |b|
  {
    LeValue(b[at..at + 4])
  }

  function Signed(v: nat): int { if v >= 0x8000_0000 then v - TWO32 else v }

  function ReadS32(b: seq<Byte>, at: nat): int
    requires at + 4 <= |b|
  {
    Signed(ReadU32(b, at))
  }

  /** Text up to the first zero byte, at most n bytes. */
  function TextUpTo(b: seq<Byte>, at: nat, n: nat): seq<Byte>
    requires at + n <= |b|
    decreases n
  {
    if n == 0 || b[at] == 0 then [] else [b[at]] + TextUpTo(b, at + 1, n - 1)
  }

  /** gdi_font_copy_text into a field of the given size. */
  function Copied(text: seq<Byte>, capacity: nat): seq<Byte>
    requires 0 < capacity
  {
    if |text| < capacity then text else text[..capacity - 1]
  }

  function FamilyOf(b: seq<Byte>): seq<Byte>
    requires HEADER_SIZE <= |b|
  {
    var f := TextUpTo(b, FAMILY_AT, FAMILY_BYTES);
    if f == [] then DEFAULT_FAMILY else f
  }

  /** The checks both readers make before the glyph table. */
  function CheckHeader(b: seq<Byte>, pixelHeight: nat): Result<()>
  {
    if |b| < HEADER_SIZE || b[..7] != MAGIC then Failed(Format)
    else
      var headerSize, table, entry := ReadU32(b, 12), ReadU32(b, 36), ReadU32(b, 40);
      if ReadU32(b, 8) != VERSION || headerSize < HEADER_SIZE || headerSize > |b| || ReadU32(b, 16) == 0
         || ReadU32(b, 20) == 0 || ReadS32(b, 24) <= 0 || ReadS32(b, 28) < 0 then Failed(Format)
      else if ReadU32(b, 32) != GLYPHS || entry < ENTRY_SIZE || table < headerSize then Failed(Format)
      else if table > |b| || GLYPHS * entry > |b| - table then Failed(Format)
      else if pixelHeight != 0 && pixelHeight != ReadU32(b, 16) then Failed(NotSupported)
      else Ok(())
  }

  /** Where glyph i is described. */
  function EntryAt(b: seq<Byte>, i: nat): nat
    requires HEADER_SIZE <= |b|
  {
    ReadU32(b, 36) + i * ReadU32(b, 40)
  }

  lemma EntryInside(b: seq<Byte>, pixelHeight: nat, i: nat)
    requires CheckHeader(b, pixelHeight) == Ok(()) && i < GLYPHS
    ensures HEADER_SIZE <= |b| && EntryAt(b, i) + ENTRY_SIZE <= |b|
  {
    hide ReadU32;
    RowFits(ReadU32(b, 36), ReadU32(b, 40), i, |b|);
  }

  lemma RowFits(table: nat, entry: nat, i: nat, size: nat)
    requires ENTRY_SIZE <= entry && table + GLYPHS * entry <= size && i < GLYPHS
    ensures table + i * entry + ENTRY_SIZE <= size
  {
    MulMono(i + 1, GLYPHS, entry);
    assert (i + 1) * entry == i * entry + entry;
  }

  /** One row of the lookup table; the multiplication check can never fail on 32-bit factors. */
  function ReadGlyph(b: seq<Byte>, at: nat): Result<GlyphView>
    requires at + ENTRY_SIZE <= |b|
  {
    var offset, size, width, height := ReadU32(b, at), ReadU32(b, at + 4), ReadU32(b, at + 20), ReadU32(b, at + 24);
    if size != width * height then Failed(Format)
    else if size != 0 && (offset > |b| || size > |b| - offset) then Failed(Format)
    else Ok(GlyphView(if size != 0 then offset else 0, size, ReadU32(b, at + 8), ReadS32(b, at + 12), ReadS32(b, at + 16), width, height))
  }

  /** The first n rows, or the first defect. */
  function ReadGlyphs(b: seq<Byte>, pixelHeight: nat, n: nat): Result<seq<GlyphView>>
    requires CheckHeader(b, pixelHeight) == Ok(()) && n <= GLYPHS
    decreases n
  {
    if n == 0 then Ok([])
    else
      EntryInside(b, pixelHeight, n - 1);
      match ReadGlyphs(b, pixelHeight, n - 1)
      case Ok(gs) =>
        (match ReadGlyph(b, EntryAt(b, n - 1)) case Ok(g) => Ok(gs + [g]) case Failed(status) => Failed(status))
      case Failed(status) => Failed(status)
  }

  /** gdi_font_parse_raster_file */
  function Parse(b: seq<Byte>, pixelHeight: nat): Result<Font>
  {
    match CheckHeader(b, pixelHeight)
    case Failed(status) => Failed(status)
    case Ok(_) =>
      match ReadGlyphs(b, pixelHeight, GLYPHS)
      case Failed(status) => Failed(status)
      case Ok(gs) =>
        Ok(Font(ReadU32(b, 16), ReadU32(b, 20), ReadS32(b, 24), ReadS32(b, 28),
                ReadU32(b, 20) - ReadS32(b, 24) - ReadS32(b, 28), Copied(FamilyOf(b), 64), gs))
  }

  /** The slice of coverage a glyph may be drawn from lies in the file. */
  predicate Inside(g: GlyphView, size: nat)
  {
    g.size == g.width * g.height && (g.size != 0 ==> g.at + g.size <= size)
  }

  lemma {:induction false} GlyphsInside(b: seq<Byte>, pixelHeight: nat, n: nat)
    requires CheckHeader(b, pixelHeight) == Ok(()) && n <= GLYPHS && ReadGlyphs(b, pixelHeight, n).Ok?
    ensures var gs := ReadGlyphs(b, pixelHeight, n).value; |gs| == n && forall i :: 0 <= i < n ==> Inside(gs[i], |b|)
    decreases n
  {
    hide CheckHeader, ReadU32, EntryAt;
    if n > 0 {
      EntryInside(b, pixelHeight, n - 1);
      GlyphsInside(b, pixelHeight, n - 1);
      GlyphInside(b, EntryAt(b, n - 1));
    }
  }

  lemma GlyphInside(b: seq<Byte>, at: nat)
    requires at + ENTRY_SIZE <= |b|
    ensures ReadGlyph(b, at).Ok? ==> Inside(ReadGlyph(b, at).value, |b|)
  {
    hide ReadU32;
  }

  /** Whatever bytes are read: an accepted font has 128 glyphs, and every coverage slice lies in the buffer. */
  lemma AcceptedIsSafe(b: seq<Byte>, pixelHeight: nat)
    requires Parse(b, pixelHeight).Ok?
    ensures var f := Parse(b, pixelHeight).value;
            |f.glyphs| == GLYPHS && (forall i :: 0 <= i < GLYPHS ==> Inside(f.glyphs[i], |b|)) && 0 < f.ascent && 0 <= f.descent
  {
    hide ReadU32, ReadGlyphs;
    GlyphsInside(b, pixelHeight, GLYPHS);
  }

  /** A row whose coverage is width times height bytes inside the file. */
  predicate RowOk(b: seq<Byte>, at: nat)
  {
    && at + 32 <= |b| && ReadU32(b, at + 4) == ReadU32(b, at + 20) * ReadU32(b, at + 24)
    && (ReadU32(b, at + 4) == 0 || ReadU32(b, at) + ReadU32(b, at + 4) <= |b|)
  }

  /** A header that the format allows. */
  predicate HeaderOk(b: seq<Byte>)
  {
    && |b| >= 108 && b[..7] == [82, 79, 83, 82, 84, 70, 49] && ReadU32(b, 8) == 1 && 108 <= ReadU32(b, 12) <= |b|
    && ReadU32(b, 16) != 0 && ReadU32(b, 20) != 0 && 0 < ReadU32(b, 24) < 0x8000_0000 && ReadU32(b, 28) < 0x8000_0000
    && ReadU32(b, 32) == 128 && 32 <= ReadU32(b, 40) && ReadU32(b, 12) <= ReadU32(b, 36) && ReadU32(b, 36) + 128 * ReadU32(b, 40) <= |b|
  }

  /** Exactly which buffers are accepted, and the two ways to be refused. */
  lemma ParseAcceptsIff(b: seq<Byte>, want: nat)
    ensures Parse(b, want).Ok? <==>
            && HeaderOk(b) && (want == 0 || want == ReadU32(b, 16))
            && forall i :: 0 <= i < 128 ==> RowOk(b, ReadU32(b, 36) + i * ReadU32(b, 40))
    ensures Parse(b, want) == Failed(NotSupported) <==> HeaderOk(b) && want != 0 && want != ReadU32(b, 16)
    ensures Parse(b, want).Failed? ==> Parse(b, want).status in {Format, NotSupported}
  {
    hide ReadU32, ReadGlyphs, RowOk, CheckHeader, HeaderOk;
    HeaderIff(b, want);
    if CheckHeader(b, want) == Ok(()) { RowsIff(b, want, GLYPHS); }
  }

  lemma HeaderIff(b: seq<Byte>, want: nat)
    ensures CheckHeader(b, want).Ok? <==> HeaderOk(b) && (want == 0 || want == ReadU32(b, 16))
    ensures CheckHeader(b, want).Ok? ==> CheckHeader(b, want) == Ok(())
    ensures CheckHeader(b, want) == Failed(NotSupported) <==> HeaderOk(b) && want != 0 && want != ReadU32(b, 16)
    ensures CheckHeader(b, want).Failed? ==> CheckHeader(b, want).status in {Format, NotSupported}
    ensures HeaderOk(b) ==> HEADER_SIZE <= |b|
  {
    hide ReadU32;
    if |b| >= HEADER_SIZE {
      WordBelow(b, 24);
      WordBelow(b, 28);
    }
  }

  lemma {:induction false} RowsIff(b: seq<Byte>, want: nat, n: nat)
    requires CheckHeader(b, want) == Ok(()) && n <= GLYPHS && HEADER_SIZE <= |b|
    ensures ReadGlyphs(b, want, n).Ok? <==> forall i :: 0 <= i < n ==> RowOk(b, ReadU32(b, 36) + i * ReadU32(b, 40))
    ensures ReadGlyphs(b, want, n).Failed? ==> ReadGlyphs(b, want, n) == Failed(Format)
    decreases n
  {
    hide ReadU32, CheckHeader, RowOk, ReadGlyph;
    if n > 0 {
      RowsIff(b, want, n - 1);
      EntryInside(b, want, n - 1);
      RowIff(b, EntryAt(b, n - 1));
    }
  }

  lemma RowIff(b: seq<Byte>, at: nat)
    requires at + ENTRY_SIZE <= |b|
    ensures ReadGlyph(b, at).Ok? <==> RowOk(b, at)
    ensures ReadGlyph(b, at).Failed? ==> ReadGlyph(b, at) == Failed(Format)
  {
    hide ReadU32;
  }

  /** What an accepted buffer says of the font: the words at their places in the header. */
  lemma ParseReadsHeader(b: seq<Byte>, want: nat)
    requires Parse(b, want).Ok?
    ensures |b| >= 108 && var f := Parse(b, want).value;
            && f.pixelHeight == ReadU32(b, 16) && f.lineHeight == ReadU32(b, 20) && f.ascent == ReadU32(b, 24) && f.descent == ReadU32(b, 28)
            && f.lineGap == f.lineHeight - f.ascent - f.descent && |f.glyphs| == 128
  {
    hide ReadU32, ReadGlyphs, CheckHeader, HeaderOk, Parse, Signed;
    ParsedParts(b, want);
    HeaderIff(b, want);
    HeaderWordsOk(b);
    GlyphsInside(b, want, GLYPHS);
  }

  /** And of each glyph: the words of its row, read as signed where they can be negative. */
  lemma ParseReadsGlyph(b: seq<Byte>, want: nat, i: nat, at: nat)
    requires Parse(b, want).Ok? && i < 128 && |b| >= 108 && at == ReadU32(b, 36) + i * ReadU32(b, 40)
    ensures at + 32 <= |b| && i < |Parse(b, want).value.glyphs| && var g := Parse(b, want).value.glyphs[i];
            && g.size == ReadU32(b, at + 4) && (g.size != 0 ==> g.at == ReadU32(b, at)) && g.advance == ReadU32(b, at + 8)
            && g.width == ReadU32(b, at + 20) && g.height == ReadU32(b, at + 24)
            && SignedOf(g.left, ReadU32(b, at + 12)) && SignedOf(g.top, ReadU32(b, at + 16))
  {
    assert at == EntryAt(b, i);
    hide ReadU32, ReadGlyphs, CheckHeader, Parse, SignedOf, EntryAt;
    ParsedParts(b, want);
    EntryInside(b, want, i);
    GlyphAt(b, want, GLYPHS, i);
  }

  lemma ParsedParts(b: seq<Byte>, want: nat)
    requires Parse(b, want).Ok?
    ensures CheckHeader(b, want) == Ok(()) && HEADER_SIZE <= |b| && ReadGlyphs(b, want, GLYPHS).Ok?
    ensures var f := Parse(b, want).value;
            && f.pixelHeight == ReadU32(b, 16) && f.lineHeight == ReadU32(b, 20) && f.ascent == ReadS32(b, 24) && f.descent == ReadS32(b, 28)
            && f.lineGap == ReadU32(b, 20) - ReadS32(b, 24) - ReadS32(b, 28) && f.glyphs == ReadGlyphs(b, want, GLYPHS).value
  {
    hide ReadU32, ReadGlyphs, HeaderOk, FamilyOf, Copied, Signed, CheckHeader;
    HeaderIff(b, want);
  }

  /** v is the two's-complement reading of a 32-bit word. */
  predicate SignedOf(v: int, word: nat) { -0x8000_0000 <= v < 0x8000_0000 && (v == word || v + TWO32 == word) }

  lemma HeaderWordsOk(b: seq<Byte>)
    requires HeaderOk(b)
    ensures HEADER_SIZE <= |b| && ReadS32(b, 24) == ReadU32(b, 24) && ReadS32(b, 28) == ReadU32(b, 28)
  {
    hide ReadU32;
  }

  lemma {:induction false} GlyphAt(b: seq<Byte>, want: nat, n: nat, i: nat)
    requires CheckHeader(b, want) == Ok(()) && i < n <= GLYPHS && HEADER_SIZE <= |b| && EntryAt(b, i) + ENTRY_SIZE <= |b|
    requires ReadGlyphs(b, want, n).Ok?
    ensures var gs, at := ReadGlyphs(b, want, n).value, EntryAt(b, i);
            && |gs| == n && gs[i].size == ReadU32(b, at + 4) && (gs[i].size != 0 ==> gs[i].at == ReadU32(b, at)) && gs[i].advance == ReadU32(b, at + 8)
            && gs[i].width == ReadU32(b, at + 20) && gs[i].height == ReadU32(b, at + 24)
            && SignedOf(gs[i].left, ReadU32(b, at + 12)) && SignedOf(gs[i].top, ReadU32(b, at + 16))
    decreases n
  {
    hide ReadU32, CheckHeader, EntryAt, SignedOf, ReadGlyph;
    GlyphsInside(b, want, n);
    EntryInside(b, want, n - 1);
    if i < n - 1 {
      GlyphAt(b, want, n - 1, i);
    } else {
      RowFields(b, EntryAt(b, i));
      GlyphsInside(b, want, n - 1);
    }
  }

  lemma RowFields(b: seq<Byte>, at: nat)
    requires at + ENTRY_SIZE <= |b| && ReadGlyph(b, at).Ok?
    ensures var g := ReadGlyph(b, at).value;
            && g.size == ReadU32(b, at + 4) && (g.size != 0 ==> g.at == ReadU32(b, at)) && g.advance == ReadU32(b, at + 8)
            && g.width == ReadU32(b, at + 20) && g.height == ReadU32(b, at + 24)
            && SignedOf(g.left, ReadU32(b, at + 12)) && SignedOf(g.top, ReadU32(b, at + 16))
  {
    hide ReadU32;
    WordBelow(b, at + 12);
    WordBelow(b, at + 16);
  }

  lemma WordBelow(b: seq<Byte>, at: nat)
    requires at + 4 <= |b|
    ensures ReadU32(b, at) < TWO32
  {
    Pow256Of8();
    assert |b[at..at + 4]| == 4;
  }

  // ---------------------------------------------------------------- writing

  /** A rasterized glyph as the Python tool holds it. */
  datatype Glyph = Glyph(advance: nat, left: int, top: int, width: nat, height: nat, coverage: seq<Byte>)

  /** struct.pack of 32-bit fields. */
  function Pack(words: seq<nat>): (b: seq<Byte>)
    ensures |b| == 4 * |words|
  {
    if words == [] then [] else Pack(words[..|words| - 1]) + LeBytes(words[|words| - 1], 4)
  }

  function Unsigned(v: int): nat
    requires -0x8000_0000 <= v < 0x8000_0000
  {
    if v < 0 then v + TWO32 else v
  }

  lemma {:induction false} PackAt(words: seq<nat>, i: nat)
    requires i < |words|
    ensures Pack(words)[4 * i..4 * i + 4] == LeBytes(words[i], 4)
    decreases |words|
  {
    hide LeBytes;
    var n := |words| - 1;
    if i < n {
      PackAt(words[..n], i);
      assert words[..n][i] == words[i];
      assert Pack(words)[4 * i..4 * i + 4] == Pack(words[..n])[4 * i..4 * i + 4];
    }
  }

  /** pack_family_name on the encoded name. */
  function PackFamily(name: seq<Byte>): (f: seq<Byte>)
    ensures |f| == FAMILY_BYTES
  {
    var n := if |name| < FAMILY_BYTES - 1 then name else name[..FAMILY_BYTES - 1];
    n + seq(FAMILY_BYTES - |n|, _ => 0)
  }

  /** All coverage bytes of the first n glyphs. */
  function Coverage(gs: seq<Glyph>, n: nat): seq<Byte>
    requires n <= |gs|
    decreases n
  {
    if n == 0 then [] else Coverage(gs, n - 1) + gs[n - 1].coverage
  }

  /** Fields that struct.pack can store, and coverage that covers the glyph's box. */
  predicate Storable(g: Glyph)
  {
    && |g.coverage| == g.width * g.height < TWO32 && g.advance < TWO32 && g.width < TWO32 && g.height < TWO32
    && -0x8000_0000 <= g.left < 0x8000_0000 && -0x8000_0000 <= g.top < 0x8000_0000
  }

  function CoverageAt(gs: seq<Glyph>, i: nat): nat
    requires i < |gs|
  {
    if gs[i].coverage == [] then 0 else HEADER_SIZE + ENTRY_SIZE * |gs| + |Coverage(gs, i)|
  }

  function EntryWords(g: Glyph, at: nat): seq<nat>
    requires Storable(g)
  {
    [at, |g.coverage|, g.advance, Unsigned(g.left), Unsigned(g.top), g.width, g.height, 0]
  }

  /** The rows of the first n glyphs as 32-bit words. */
  function TableWords(gs: seq<Glyph>, n: nat): (w: seq<nat>)
    requires n <= |gs| && forall g :: g in gs ==> Storable(g)
    ensures |w| == 8 * n
    decreases n
  {
    if n == 0 then [] else TableWords(gs, n - 1) + EntryWords(gs[n - 1], CoverageAt(gs, n - 1))
  }

  function HeaderWords(size: nat, ascent: nat, descent: nat, count: nat): seq<nat>
  {
    [VERSION, HEADER_SIZE, size, ascent + descent, ascent, descent, count, HEADER_SIZE, ENTRY_SIZE]
  }

  /** build_raster_font_blob, after rasterizing. */
  function Blob(name: seq<Byte>, size: nat, ascent: nat, descent: nat, gs: seq<Glyph>): seq<Byte>
    requires forall g :: g in gs ==> Storable(g)
  {
    MAGIC + [0] + Pack(HeaderWords(size, ascent, descent, |gs|)) + PackFamily(name) + Pack(TableWords(gs, |gs|)) + Coverage(gs, |gs|)
  }

  /** The writer's loop over the glyphs. */
  method BuildBlob(name: seq<Byte>, size: nat, ascent: nat, descent: nat, gs: seq<Glyph>) returns (blob: seq<Byte>)
    requires forall g :: g in gs ==> Storable(g)
    ensures blob == Blob(name, size, ascent, descent, gs)
  {
    hide Pack, PackFamily;
    var dataAt := HEADER_SIZE + ENTRY_SIZE * |gs|;
    var rows: seq<nat>, data: seq<Byte> := [], [];
    for i := 0 to |gs|
      invariant rows == TableWords(gs, i) && data == Coverage(gs, i)
    {
      var g := gs[i];
      assert g in gs;
      var at := 0;
      if |g.coverage| != 0 {
        at := dataAt + |data|;
        data := data + g.coverage;
      }
      rows := rows + EntryWords(g, at);
    }
    blob := MAGIC + [0] + Pack(HeaderWords(size, ascent, descent, |gs|)) + PackFamily(name) + Pack(rows) + data;
  }

  // ---------------------------------------------------------------- reading back what was written

  ghost predicate WellFormed(name: seq<Byte>, size: nat, ascent: nat, descent: nat, gs: seq<Glyph>)
  {
    && |gs| == GLYPHS && (forall g :: g in gs ==> Storable(g))
    && 0 < size < TWO32 && 0 < ascent < 0x8000_0000 && descent < 0x8000_0000
    && (forall i :: 0 <= i < |name| ==> name[i] != 0)
    && HEADER_SIZE + ENTRY_SIZE * GLYPHS + |Coverage(gs, GLYPHS)| < TWO32
  }

  /** A packed word inside a larger file. */
  lemma WordInside(pre: seq<Byte>, words: seq<nat>, post: seq<Byte>, i: nat)
    requires i < |words| && words[i] < TWO32
    ensures |pre| + 4 * i + 4 <= |pre + Pack(words) + post|
    ensures ReadU32(pre + Pack(words) + post, |pre| + 4 * i) == words[i]
  {
    hide Pack, LeBytes, LeValue;
    PackAt(words, i);
    Pow256Of8();
    LeRoundTrip(words[i], 4);
    var b := pre + Pack(words) + post;
    assert b[|pre| + 4 * i..|pre| + 4 * i + 4] == Pack(words)[4 * i..4 * i + 4];
  }

  lemma HeaderField(name: seq<Byte>, size: nat, ascent: nat, descent: nat, gs: seq<Glyph>, i: nat)
    requires WellFormed(name, size, ascent, descent, gs) && i < 9
    ensures var b := Blob(name, size, ascent, descent, gs);
            |b| >= HEADER_SIZE && ReadU32(b, 8 + 4 * i) == HeaderWords(size, ascent, descent, GLYPHS)[i]
  {
    hide Pack, PackFamily, Coverage, TableWords, ReadU32, Storable;
    var pre: seq<Byte> := MAGIC + [0];
    var words := HeaderWords(size, ascent, descent, GLYPHS);
    var post := PackFamily(name) + Pack(TableWords(gs, GLYPHS)) + Coverage(gs, GLYPHS);
    assert Blob(name, size, ascent, descent, gs) == pre + Pack(words) + post;
    assert words[i] < TWO32;
    WordInside(pre, words, post, i);
  }

  lemma {:induction false} TableWordAt(gs: seq<Glyph>, n: nat, i: nat, j: nat)
    requires n <= |gs| && (forall g :: g in gs ==> Storable(g)) && i < n && j < 8
    ensures TableWords(gs, n)[8 * i + j] == EntryWords(gs[i], CoverageAt(gs, i))[j]
    decreases n
  {
    hide CoverageAt, Storable;
    if i < n - 1 { TableWordAt(gs, n - 1, i, j); }
  }

  lemma {:induction false} CoverageGrows(gs: seq<Glyph>, i: nat, n: nat)
    requires i < n <= |gs|
    ensures |Coverage(gs, i)| + |gs[i].coverage| <= |Coverage(gs, n)|
    ensures Coverage(gs, n)[|Coverage(gs, i)|..|Coverage(gs, i)| + |gs[i].coverage|] == gs[i].coverage
    decreases n
  {
    if i < n - 1 { CoverageGrows(gs, i, n - 1); }
  }

  lemma TableField(name: seq<Byte>, size: nat, ascent: nat, descent: nat, gs: seq<Glyph>, i: nat, j: nat)
    requires WellFormed(name, size, ascent, descent, gs) && i < GLYPHS && j < 8
    ensures var b := Blob(name, size, ascent, descent, gs);
            && |b| == HEADER_SIZE + ENTRY_SIZE * GLYPHS + |Coverage(gs, GLYPHS)|
            && gs[i] in gs
            && ReadU32(b, HEADER_SIZE + 32 * i + 4 * j) == EntryWords(gs[i], CoverageAt(gs, i))[j]
  {
    hide Pack, PackFamily, Coverage, TableWords, ReadU32;
    var pre: seq<Byte> := MAGIC + [0] + Pack(HeaderWords(size, ascent, descent, GLYPHS)) + PackFamily(name);
    var words, post := TableWords(gs, GLYPHS), Coverage(gs, GLYPHS);
    assert Blob(name, size, ascent, descent, gs) == pre + Pack(words) + post;
    assert gs[i] in gs;
    TableWordAt(gs, GLYPHS, i, j);
    CoverageGrows(gs, i, GLYPHS);
    WordInside(pre, words, post, 8 * i + j);
  }

  lemma SignedUnsigned(v: int)
    requires -0x8000_0000 <= v < 0x8000_0000
    ensures Signed(Unsigned(v)) == v && Unsigned(v) < TWO32
  {
  }

  /** How glyph i of the input appears in the file. */
  function Stored(gs: seq<Glyph>, i: nat): GlyphView
    requires i < |gs|
  {
    GlyphView(CoverageAt(gs, i), |gs[i].coverage|, gs[i].advance, gs[i].left, gs[i].top, gs[i].width, gs[i].height)
  }

  lemma GlyphReadBack(name: seq<Byte>, size: nat, ascent: nat, descent: nat, gs: seq<Glyph>, i: nat)
    requires WellFormed(name, size, ascent, descent, gs) && i < GLYPHS
    ensures var b := Blob(name, size, ascent, descent, gs);
            && HEADER_SIZE + 32 * i + 32 <= |b|
            && ReadGlyph(b, HEADER_SIZE + 32 * i) == Ok(Stored(gs, i))
  {
    hide Blob, ReadU32, Coverage;
    TableField(name, size, ascent, descent, gs, i, 0);
    TableField(name, size, ascent, descent, gs, i, 1);
    TableField(name, size, ascent, descent, gs, i, 2);
    TableField(name, size, ascent, descent, gs, i, 3);
    TableField(name, size, ascent, descent, gs, i, 4);
    TableField(name, size, ascent, descent, gs, i, 5);
    TableField(name, size, ascent, descent, gs, i, 6);
    SignedUnsigned(gs[i].left);
    SignedUnsigned(gs[i].top);
    CoverageGrows(gs, i, GLYPHS);
  }

  lemma {:induction false} TextRead(b: seq<Byte>, at: nat, n: nat, text: seq<Byte>)
    requires at + n <= |b| && |text| < n && (forall i :: 0 <= i < |text| ==> b[at + i] == text[i] && text[i] != 0) && b[at + |text|] == 0
    ensures TextUpTo(b, at, n) == text
    decreases n
  {
    if text != [] {
      assert b[at + 0] == text[0];
      assert forall i :: 0 <= i < |text[1..]| ==> b[at + 1 + i] == b[at + (i + 1)] == text[i + 1] == text[1..][i];
      TextRead(b, at + 1, n - 1, text[1..]);
    }
  }

  /** The family a reader recovers: the name, clipped to 63 bytes, or the default for an empty one. */
  function KeptName(name: seq<Byte>): seq<Byte>
  {
    if name == [] then DEFAULT_FAMILY else if |name| < FAMILY_BYTES - 1 then name else name[..FAMILY_BYTES - 1]
  }

  lemma FamilyReadBack(name: seq<Byte>, size: nat, ascent: nat, descent: nat, gs: seq<Glyph>)
    requires WellFormed(name, size, ascent, descent, gs)
    ensures var b := Blob(name, size, ascent, descent, gs); |b| >= HEADER_SIZE && Copied(FamilyOf(b), 64) == KeptName(name)
  {
    hide Pack, Coverage, TableWords, Storable;
    var b := Blob(name, size, ascent, descent, gs);
    var text := if |name| < FAMILY_BYTES - 1 then name else name[..FAMILY_BYTES - 1];
    var pre := MAGIC + [0] + Pack(HeaderWords(size, ascent, descent, |gs|));
    assert |pre| == FAMILY_AT && b[FAMILY_AT..FAMILY_AT + FAMILY_BYTES] == PackFamily(name);
    FamilyText(b, name, text);
  }

  lemma PackFamilyAt(name: seq<Byte>, text: seq<Byte>)
    requires text == if |name| < FAMILY_BYTES - 1 then name else name[..FAMILY_BYTES - 1]
    ensures |text| < FAMILY_BYTES && PackFamily(name)[|text|] == 0
    ensures forall i :: 0 <= i < |text| ==> PackFamily(name)[i] == text[i] == name[i]
  {
  }

  lemma FamilyText(b: seq<Byte>, name: seq<Byte>, text: seq<Byte>)
    requires FAMILY_AT + FAMILY_BYTES <= |b| && b[FAMILY_AT..FAMILY_AT + FAMILY_BYTES] == PackFamily(name)
    requires text == if |name| < FAMILY_BYTES - 1 then name else name[..FAMILY_BYTES - 1]
    requires forall i :: 0 <= i < |name| ==> name[i] != 0
    ensures TextUpTo(b, FAMILY_AT, FAMILY_BYTES) == text
  {
    hide TextUpTo, PackFamily;
    PackFamilyAt(name, text);
    var f := PackFamily(name);
    forall i | 0 <= i < FAMILY_BYTES ensures b[FAMILY_AT + i] == f[i] {
      assert b[FAMILY_AT..FAMILY_AT + FAMILY_BYTES][i] == f[i];
    }
    TextRead(b, FAMILY_AT, FAMILY_BYTES, text);
  }

  lemma HeaderReadBack(name: seq<Byte>, size: nat, ascent: nat, descent: nat, gs: seq<Glyph>, want: nat)
    requires WellFormed(name, size, ascent, descent, gs) && (want == 0 || want == size)
    ensures var b := Blob(name, size, ascent, descent, gs);
            && |b| >= HEADER_SIZE && CheckHeader(b, want) == Ok(())
            && ReadU32(b, 16) == size && ReadU32(b, 20) == ascent + descent && ReadS32(b, 24) == ascent && ReadS32(b, 28) == descent
            && ReadU32(b, 36) == HEADER_SIZE && ReadU32(b, 40) == ENTRY_SIZE
  {
    hide Blob, ReadU32, Coverage, Storable;
    HeaderField(name, size, ascent, descent, gs, 0);
    HeaderField(name, size, ascent, descent, gs, 1);
    HeaderField(name, size, ascent, descent, gs, 2);
    HeaderField(name, size, ascent, descent, gs, 3);
    HeaderField(name, size, ascent, descent, gs, 4);
    HeaderField(name, size, ascent, descent, gs, 5);
    HeaderField(name, size, ascent, descent, gs, 6);
    HeaderField(name, size, ascent, descent, gs, 7);
    HeaderField(name, size, ascent, descent, gs, 8);
    BlobShape(name, size, ascent, descent, gs);
  }

  lemma BlobShape(name: seq<Byte>, size: nat, ascent: nat, descent: nat, gs: seq<Glyph>)
    requires WellFormed(name, size, ascent, descent, gs)
    ensures var b := Blob(name, size, ascent, descent, gs);
            |b| == HEADER_SIZE + ENTRY_SIZE * GLYPHS + |Coverage(gs, GLYPHS)| && b[..7] == MAGIC
  {
    hide Pack, PackFamily, Coverage, TableWords, Storable;
  }

  function StoredAll(gs: seq<Glyph>, n: nat): (r: seq<GlyphView>)
    requires n <= |gs|
    ensures |r| == n && forall i :: 0 <= i < n ==> r[i] == Stored(gs, i)
    decreases n
  {
    if n == 0 then [] else StoredAll(gs, n - 1) + [Stored(gs, n - 1)]
  }

  lemma {:induction false} GlyphsReadBack(name: seq<Byte>, size: nat, ascent: nat, descent: nat, gs: seq<Glyph>, want: nat, n: nat)
    requires WellFormed(name, size, ascent, descent, gs) && (want == 0 || want == size) && n <= GLYPHS
    ensures var b := Blob(name, size, ascent, descent, gs);
            && CheckHeader(b, want) == Ok(())
            && |gs| == GLYPHS && ReadGlyphs(b, want, n) == Ok(StoredAll(gs, n))
    decreases n
  {
    hide Blob, ReadU32, CheckHeader, ReadGlyph, Stored, WellFormed;
    Count(name, size, ascent, descent, gs);
    HeaderReadBack(name, size, ascent, descent, gs, want);
    if n > 0 {
      GlyphsReadBack(name, size, ascent, descent, gs, want, n - 1);
      GlyphReadBack(name, size, ascent, descent, gs, n - 1);
      assert EntryAt(Blob(name, size, ascent, descent, gs), n - 1) == HEADER_SIZE + 32 * (n - 1);
    }
  }

  lemma Count(name: seq<Byte>, size: nat, ascent: nat, descent: nat, gs: seq<Glyph>)
    requires WellFormed(name, size, ascent, descent, gs)
    ensures |gs| == GLYPHS && forall g :: g in gs ==> Storable(g)
  {
    hide Storable, Coverage;
  }

  /** Reading back what the writer built recovers every metric, the family, and every coverage byte. */
  lemma ParseUndoesBuild(name: seq<Byte>, size: nat, ascent: nat, descent: nat, gs: seq<Glyph>, want: nat)
    requires WellFormed(name, size, ascent, descent, gs) && (want == 0 || want == size)
    ensures var b := Blob(name, size, ascent, descent, gs); var r := Parse(b, want);
            && r.Ok? && var f := r.value;
            && f.pixelHeight == size && f.ascent == ascent && f.descent == descent && f.lineHeight == ascent + descent && f.lineGap == 0
            && f.family == KeptName(name) && |f.glyphs| == GLYPHS
            && forall i :: 0 <= i < GLYPHS ==>
                 && f.glyphs[i] == Stored(gs, i)
                 && Inside(f.glyphs[i], |b|)
                 && (gs[i].coverage != [] ==> b[f.glyphs[i].at..f.glyphs[i].at + f.glyphs[i].size] == gs[i].coverage)
  {
    hide Blob, ReadU32, CheckHeader, Stored, ReadGlyphs, Coverage, Storable, FamilyOf, Copied, KeptName, Inside;
    var b := Blob(name, size, ascent, descent, gs);
    HeaderReadBack(name, size, ascent, descent, gs, want);
    GlyphsReadBack(name, size, ascent, descent, gs, want, GLYPHS);
    GlyphsInside(b, want, GLYPHS);
    FamilyReadBack(name, size, ascent, descent, gs);
    forall i | 0 <= i < GLYPHS && gs[i].coverage != []
      ensures var g := Stored(gs, i); g.at + g.size <= |b| && b[g.at..g.at + g.size] == gs[i].coverage
    {
      CoverageReadBack(name, size, ascent, descent, gs, i);
    }
  }

  lemma CoverageReadBack(name: seq<Byte>, size: nat, ascent: nat, descent: nat, gs: seq<Glyph>, i: nat)
    requires WellFormed(name, size, ascent, descent, gs) && i < GLYPHS && gs[i].coverage != []
    ensures var b, g := Blob(name, size, ascent, descent, gs), Stored(gs, i);
            g.at + g.size <= |b| && b[g.at..g.at + g.size] == gs[i].coverage
  {
    hide Pack, PackFamily, Coverage, TableWords, Storable;
    var c, g := Coverage(gs, GLYPHS), Stored(gs, i);
    CoverageGrows(gs, i, GLYPHS);
    var pre := MAGIC + [0] + Pack(HeaderWords(size, ascent, descent, |gs|)) + PackFamily(name) + Pack(TableWords(gs, |gs|));
    assert Blob(name, size, ascent, descent, gs) == pre + c && |pre| == HEADER_SIZE + ENTRY_SIZE * GLYPHS;
    SliceBehind(pre, c, |Coverage(gs, i)|, g.size);
  }

  lemma SliceBehind(pre: seq<Byte>, c: seq<Byte>, at: nat, n: nat)
    requires at + n <= |c|
    ensures (pre + c)[|pre| + at..|pre| + at + n] == c[at..at + n]
  {
  }
}
