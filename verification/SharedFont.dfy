/** The two readers of raster fonts: the direct parser, and the shared cache object that one process fills and
    others bind to. */
module SharedFont {
  import opened Arith
  import opened Words
  import opened RasterFont

  const MAX_FILE: nat := 65536
  const REGION: nat := 0x20_0000
  /** The size of the shared object up to its file bytes. */
  const OBJECT_HEADER: nat := 8479

  /** A glyph record of the shared object; the offset is kept as read, even for a glyph without coverage. */
  datatype Record = Record(offset: nat, size: nat, advance: nat, left: int, top: int, width: nat, height: nat)

  /** expected_size, as an unsigned long holds it. */
  function Product(width: nat, height: nat): nat { width * height % TWO64 }

  /** The rest of the product test, on 64-bit words: it never fires, for factors below 2^32. */
  lemma ProductFits(width: nat, height: nat)
    requires width < TWO32 && height < TWO32
    ensures Product(width, height) == width * height && (width != 0 ==> Product(width, height) / width == height)
  {
    MulMono(width, TWO32 - 1, height);
    MulMono(height, TWO32 - 1, TWO32 - 1);
    if width != 0 { DivUnique(width * height, width, height, 0); }
  }

  lemma ReadBelow(b: seq<Byte>, at: nat)
    requires at + 4 <= |b|
    ensures ReadU32(b, at) < TWO32
  {
    Pow256Of8();
    assert |b[at..at + 4]| == 4;
  }

  // ---------------------------------------------------------------- helpers that both readers call

  /** gdi_font_le_u32 */
  method LeU32(b: seq<Byte>, at: nat) returns (v: nat)
    requires at + 4 <= |b|
    ensures v == ReadU32(b, at) < TWO32
  {
    v := b[at] as int + (b[at + 1] as int) * 0x100 + (b[at + 2] as int) * 0x1_0000 + (b[at + 3] as int) * 0x100_0000;
    FourBytes(b[at..at + 4]);
    ReadBelow(b, at);
  }

  lemma FourBytes(s: seq<Byte>)
    requires |s| == 4
    ensures LeValue(s) == s[0] as int + (s[1] as int) * 0x100 + (s[2] as int) * 0x1_0000 + (s[3] as int) * 0x100_0000
  {
    assert LeValue(s[1..]) == s[1] + 256 * LeValue(s[1..][1..]);
    assert s[1..][1..] == s[2..] && s[2..][1..] == s[3..] && s[3..][1..] == [];
    assert LeValue(s[2..]) == s[2] + 256 * LeValue(s[3..]);
    assert LeValue(s[3..]) == s[3] + 256 * LeValue([]);
  }

  /** gdi_font_le_s32 */
  method LeS32(b: seq<Byte>, at: nat) returns (v: int)
    requires at + 4 <= |b|
    ensures v == ReadS32(b, at)
  {
    var raw: int := LeU32(b, at);
    v := if raw >= 0x8000_0000 then raw - 0x1_0000_0000 else raw;
  }

  /** gdi_font_buffer_has_prefix */
  method HasPrefix(b: seq<Byte>, prefix: seq<Byte>) returns (r: bool)
    requires prefix != []
    ensures r <==> |prefix| <= |b| && b[..|prefix|] == prefix
  {
    if |b| < |prefix| { return false; }
    for i := 0 to |prefix|
      invariant b[..i] == prefix[..i]
    {
      if b[i] != prefix[i] {
        assert b[..|prefix|][i] != prefix[i];
        return false;
      }
    }
    r := true;
  }

  // ---------------------------------------------------------------- glyph records

  /** How a handle shows a record. */
  function View(r: Record): GlyphView
  {
    GlyphView(if r.size != 0 then r.offset else 0, r.size, r.advance, r.left, r.top, r.width, r.height)
  }

  function Views(rs: seq<Record>): (vs: seq<GlyphView>)
    ensures |vs| == |rs| && forall i :: 0 <= i < |rs| ==> vs[i] == View(rs[i])
  {
    seq(|rs|, i requires 0 <= i < |rs| => View(rs[i]))
  }

  lemma ViewsPush(rs: seq<Record>, r: Record)
    ensures Views(rs + [r]) == Views(rs) + [View(r)]
  {
    hide View;
  }

  /** The fields the readers keep from a header that passed the tests. */
  datatype Header = Header(pixelHeight: nat, lineHeight: nat, ascent: int, descent: int, table: nat, entry: nat)

  function HeaderOf(b: seq<Byte>): Header
    requires HEADER_SIZE <= |b|
  {
    Header(ReadU32(b, 16), ReadU32(b, 20), ReadS32(b, 24), ReadS32(b, 28), ReadU32(b, 36), ReadU32(b, 40))
  }

  /** Row i as the header's table places it. */
  lemma RowAt(b: seq<Byte>, pixelHeight: nat, h: Header, i: nat)
    requires CheckHeader(b, pixelHeight) == Ok(()) && HEADER_SIZE <= |b| && h == HeaderOf(b) && i < GLYPHS
    ensures h.table + i * h.entry == EntryAt(b, i) && EntryAt(b, i) + ENTRY_SIZE <= |b|
  {
    hide CheckHeader, ReadU32;
    EntryInside(b, pixelHeight, i);
  }

  lemma RowRead(b: seq<Byte>, pixelHeight: nat, i: nat, gs: seq<GlyphView>)
    requires CheckHeader(b, pixelHeight) == Ok(()) && HEADER_SIZE <= |b| && i < GLYPHS && EntryAt(b, i) + ENTRY_SIZE <= |b|
    requires ReadGlyphs(b, pixelHeight, i) == Ok(gs)
    ensures var g := ReadGlyph(b, EntryAt(b, i));
            if g.Ok? then ReadGlyphs(b, pixelHeight, i + 1) == Ok(gs + [g.value]) else ReadGlyphs(b, pixelHeight, GLYPHS) == Failed(g.status)
  {
    hide CheckHeader, ReadU32, ReadGlyph, EntryAt;
    if ReadGlyph(b, EntryAt(b, i)).Failed? { FailureStays(b, pixelHeight, i + 1, GLYPHS); }
  }

  lemma {:induction false} FailureStays(b: seq<Byte>, pixelHeight: nat, n: nat, m: nat)
    requires CheckHeader(b, pixelHeight) == Ok(()) && n <= m <= GLYPHS && ReadGlyphs(b, pixelHeight, n).Failed?
    ensures ReadGlyphs(b, pixelHeight, m) == ReadGlyphs(b, pixelHeight, n)
    decreases m
  {
    hide CheckHeader, ReadU32, ReadGlyph;
    if n < m { FailureStays(b, pixelHeight, n, m - 1); }
  }

  lemma TextStep(b: seq<Byte>, at: nat, n: nat)
    requires at + n <= |b| && 0 < n
    ensures TextUpTo(b, at, n) == if b[at] == 0 then [] else [b[at]] + TextUpTo(b, at + 1, n - 1)
    ensures TextUpTo(b, at + n, 0) == []
  {
  }

  // ---------------------------------------------------------------- the direct reader

  /** The header tests of gdi_font_parse_raster_file. */
  method DirectHeader(b: seq<Byte>, pixelHeight: nat) returns (r: Result<Header>)
    ensures r == match CheckHeader(b, pixelHeight) case Failed(status) => Failed(status) case Ok(_) => Ok(HeaderOf(b))
  {
    hide ReadU32;
    if |b| < HEADER_SIZE { return Failed(Format); }
    var magic := HasPrefix(b, MAGIC);
    if !magic { return Failed(Format); }
    var version := LeU32(b, 8);
    var headerSize := LeU32(b, 12);
    var source := LeU32(b, 16);
    var lineHeight := LeU32(b, 20);
    var ascent := LeS32(b, 24);
    var descent := LeS32(b, 28);
    var count := LeU32(b, 32);
    var table := LeU32(b, 36);
    var entry := LeU32(b, 40);
    if version != VERSION || headerSize < HEADER_SIZE || headerSize > |b| || source == 0 || lineHeight == 0 || ascent <= 0 || descent < 0 {
      return Failed(Format);
    }
    if count != GLYPHS || entry < ENTRY_SIZE || table < headerSize { return Failed(Format); }
    if table > |b| || count * entry > |b| - table { return Failed(Format); }
    if pixelHeight != 0 && pixelHeight != source { return Failed(NotSupported); }
    return Ok(Header(source, lineHeight, ascent, descent, table, entry));
  }

  /** Its loop over the family field. */
  method DirectFamily(b: seq<Byte>) returns (family: seq<Byte>)
    requires HEADER_SIZE <= |b|
    ensures family == FamilyOf(b)
  {
    hide TextUpTo;
    family := [];
    var i := 0;
    while i < FAMILY_BYTES
      invariant i <= FAMILY_BYTES && TextUpTo(b, FAMILY_AT, FAMILY_BYTES) == family + TextUpTo(b, FAMILY_AT + i, FAMILY_BYTES - i)
      invariant i < FAMILY_BYTES || TextUpTo(b, FAMILY_AT + i, FAMILY_BYTES - i) == []
    {
      TextStep(b, FAMILY_AT + i, FAMILY_BYTES - i);
      var ch := b[FAMILY_AT + i];
      if ch == 0 { break; }
      family := family + [ch];
      i := i + 1;
    }
    if family == [] { family := DEFAULT_FAMILY; }
  }

  /** One row as its loop reads it: a glyph without coverage keeps the null pointer it was zeroed with. */
  method DirectRow(b: seq<Byte>, at: nat) returns (r: Result<GlyphView>)
    requires at + ENTRY_SIZE <= |b|
    ensures r == ReadGlyph(b, at) && (r.Failed? ==> r.status == Format)
  {
    hide ReadU32, Product;
    var offset := LeU32(b, at);
    var size := LeU32(b, at + 4);
    var width := LeU32(b, at + 20);
    var height := LeU32(b, at + 24);
    ProductFits(width, height);
    var expected := Product(width, height);
    if width != 0 && expected / width != height { return Failed(Format); }
    if size != expected { return Failed(Format); }
    var coverage := 0;
    if size != 0 {
      if offset > |b| || size > |b| - offset { return Failed(Format); }
      coverage := offset;
    }
    var advance := LeU32(b, at + 8);
    var left := LeS32(b, at + 12);
    var top := LeS32(b, at + 16);
    return Ok(GlyphView(coverage, size, advance, left, top, width, height));
  }

  /** gdi_font_parse_raster_file; haveTable says whether the glyph table could be allocated. */
  method ParseFile(b: seq<Byte>, pixelHeight: nat, haveTable: bool) returns (r: Result<Font>)
    ensures r == if CheckHeader(b, pixelHeight).Ok? && !haveTable then Failed(NoSpace) else Parse(b, pixelHeight)
  {
    hide CheckHeader, ReadU32, ReadGlyphs, ReadGlyph, EntryAt, FamilyOf, Copied, Parse;
    ParseIs(b, pixelHeight);
    var header := DirectHeader(b, pixelHeight);
    if header.Failed? { return Failed(header.status); }
    LongEnough(b, pixelHeight);
    var h := header.value;
    var family := DirectFamily(b);
    if !haveTable { return Failed(NoSpace); }
    var glyphs: seq<GlyphView> := [];
    NoRows(b, pixelHeight);
    for i := 0 to GLYPHS
      invariant |glyphs| == i && ReadGlyphs(b, pixelHeight, i) == Ok(glyphs)
    {
      RowAt(b, pixelHeight, h, i);
      RowRead(b, pixelHeight, i, glyphs);
      var row := DirectRow(b, h.table + i * h.entry);
      if row.Failed? { return Failed(row.status); }
      glyphs := glyphs + [row.value];
    }
    r := Ok(Font(h.pixelHeight, h.lineHeight, h.ascent, h.descent, h.lineHeight - h.ascent - h.descent, Copied(family, 64), glyphs));
  }

  lemma NoRows(b: seq<Byte>, pixelHeight: nat)
    requires CheckHeader(b, pixelHeight) == Ok(())
    ensures ReadGlyphs(b, pixelHeight, 0) == Ok([])
  {
    hide CheckHeader;
  }

  /** The font that a header and its glyphs make. */
  function FontOf(b: seq<Byte>, glyphs: seq<GlyphView>): Font
    requires HEADER_SIZE <= |b|
  {
    Font(ReadU32(b, 16), ReadU32(b, 20), ReadS32(b, 24), ReadS32(b, 28),
         ReadU32(b, 20) - ReadS32(b, 24) - ReadS32(b, 28), Copied(FamilyOf(b), 64), glyphs)
  }

  lemma ParseIs(b: seq<Byte>, wanted: nat)
    ensures CheckHeader(b, wanted).Failed? ==> Parse(b, wanted) == Failed(CheckHeader(b, wanted).status)
    ensures CheckHeader(b, wanted).Ok? ==>
              && CheckHeader(b, wanted) == Ok(()) && HEADER_SIZE <= |b|
              && var gs := ReadGlyphs(b, wanted, GLYPHS);
                 Parse(b, wanted) == if gs.Failed? then Failed(gs.status) else Ok(FontOf(b, gs.value))
  {
    hide CheckHeader, ReadU32, ReadGlyphs, FamilyOf, Copied;
    if CheckHeader(b, wanted).Ok? { LongEnough(b, wanted); }
  }

  lemma LongEnough(b: seq<Byte>, pixelHeight: nat)
    requires CheckHeader(b, pixelHeight).Ok?
    ensures HEADER_SIZE <= |b| && CheckHeader(b, pixelHeight) == Ok(())
  {
    hide ReadU32;
  }

  // ---------------------------------------------------------------- the shared object

  datatype Phase = Empty | Initializing | Ready | Broken

  /** The shared-memory object: filled once, bound by every process that opens the same font. */
  class Shared {
    var phase: Phase
    var status: Result<()>
    var pixelHeight: nat
    var lineHeight: nat
    var ascent: int
    var descent: int
    var lineGap: int
    var fileSize: nat
    var family: seq<Byte>
    var records: seq<Record>
    var bytes: seq<Byte>

    /** Freshly mapped, zeroed memory. */
    constructor ()
      ensures phase == Empty && status == Ok(()) && Valid()
    {
      phase, status, pixelHeight, lineHeight, ascent, descent, lineGap, fileSize := Empty, Ok(()), 0, 0, 0, 0, 0, 0;
      family, records, bytes := [], seq(GLYPHS, _ => Record(0, 0, 0, 0, 0, 0, 0)), [];
    }

    ghost predicate Valid()
      reads this
    {
      |records| == GLYPHS && (phase == Initializing || phase == Broken ==> status.Failed?)
    }

    /** The font a process obtains by binding to the object as it stands. */
    ghost function Bound(): Result<Font>
      reads this
    {
      if phase == Ready then Ok(Font(pixelHeight, lineHeight, ascent, descent, lineGap, Copied(family, 64), Views(records)))
      else if status.Failed? then Failed(status.status)
      else Failed(Error)
    }

    method Fail(s: Status)
      requires Valid()
      modifies this`phase, this`status
      ensures Valid() && Bound() == Failed(s) && phase == Broken
    {
      phase, status := Broken, Failed(s);
    }

    /** gdi_font_populate_shared_raster_object, on a file that was read without error. */
    method Populate(b: seq<Byte>, wanted: nat) returns (r: Result<()>)
      requires Valid()
      modifies this
      ensures Valid()
      ensures Bound() == if |b| == 0 || |b| > MAX_FILE then Failed(NoSpace) else Parse(b, wanted)
      ensures if Bound().Ok? then r == Ok(()) && phase == Ready && bytes == b && fileSize == |b| else r == Failed(Bound().status)
    {
      hide Parse, CheckHeader, ReadGlyphs, Views, FontOf, Shared.Bound, ReadU32, FamilyOf, Copied, HeaderOf;
      phase, status, fileSize := Initializing, Failed(Error), 0;
      if |b| == 0 || |b| > MAX_FILE || OBJECT_HEADER + |b| > REGION {
        Fail(NoSpace);
        return Failed(NoSpace);
      }
      bytes := b;
      ParseIs(b, wanted);
      var header := TestHeader(wanted);
      if header.Failed? {
        Fail(header.status);
        return Failed(header.status);
      }
      LongEnough(b, wanted);
      StoreHeader(header.value);
      var rows := StoreRows(header.value, wanted);
      if rows.Failed? {
        Fail(rows.status);
        return Failed(rows.status);
      }
      Publish();
      return Ok(());
    }

    /** The header tests of the populating function, on the bytes it has read into the object. */
    method TestHeader(wanted: nat) returns (r: Result<Header>)
      ensures r == match CheckHeader(bytes, wanted) case Failed(status) => Failed(status) case Ok(_) => Ok(HeaderOf(bytes))
    {
      hide ReadU32;
      var size := |bytes|;
      if size < HEADER_SIZE { return Failed(Format); }
      var magic := HasPrefix(bytes, MAGIC);
      if !magic { return Failed(Format); }
      var version := LeU32(bytes, 8);
      var headerSize := LeU32(bytes, 12);
      var source := LeU32(bytes, 16);
      var line := LeU32(bytes, 20);
      var up := LeS32(bytes, 24);
      var down := LeS32(bytes, 28);
      var count := LeU32(bytes, 32);
      var table := LeU32(bytes, 36);
      var entry := LeU32(bytes, 40);
      if version != VERSION || headerSize < HEADER_SIZE || headerSize > size || source == 0 || line == 0 || up <= 0 || down < 0 {
        return Failed(Format);
      }
      if count != GLYPHS || entry < ENTRY_SIZE || table < headerSize { return Failed(Format); }
      if table > size || count * entry > size - table { return Failed(Format); }
      if wanted != 0 && wanted != source { return Failed(NotSupported); }
      return Ok(Header(source, line, up, down, table, entry));
    }

    /** Its loop over the rows, which stores each record before it looks at the next row. */
    method StoreRows(h: Header, wanted: nat) returns (r: Result<()>)
      requires Valid() && HEADER_SIZE <= |bytes| && CheckHeader(bytes, wanted) == Ok(()) && h == HeaderOf(bytes)
      modifies this`records
      ensures |records| == GLYPHS
      ensures r.Ok? ==> ReadGlyphs(bytes, wanted, GLYPHS) == Ok(Views(records))
      ensures r.Failed? ==> r == Failed(Format) && ReadGlyphs(bytes, wanted, GLYPHS) == Failed(Format)
    {
      hide CheckHeader, ReadU32, ReadGlyphs, ReadGlyph, EntryAt, View, Views;
      NoRows(bytes, wanted);
      NoViews();
      assert records[..0] == [];
      for i := 0 to GLYPHS
        invariant |records| == GLYPHS && ReadGlyphs(bytes, wanted, i) == Ok(Views(records[..i]))
      {
        RowAt(bytes, wanted, h, i);
        RowRead(bytes, wanted, i, Views(records[..i]));
        var row := SharedRow(h.table + i * h.entry);
        if row.Failed? { return Failed(row.status); }
        ViewsPush(records[..i], row.value);
        ghost var done := records[..i];
        records := records[i := row.value];
        assert records[..i + 1] == done + [row.value];
      }
      assert records[..GLYPHS] == records;
      r := Ok(());
    }

    /** One row as that loop reads it. */
    method SharedRow(at: nat) returns (r: Result<Record>)
      requires at + ENTRY_SIZE <= |bytes|
      ensures r.Ok? <==> ReadGlyph(bytes, at).Ok?
      ensures r.Failed? ==> r == Failed(Format) && ReadGlyph(bytes, at) == Failed(Format)
      ensures r.Ok? ==> ReadGlyph(bytes, at) == Ok(View(r.value))
    {
      hide ReadU32, Product;
      var offset := LeU32(bytes, at);
      var size := LeU32(bytes, at + 4);
      var width := LeU32(bytes, at + 20);
      var height := LeU32(bytes, at + 24);
      ProductFits(width, height);
      var expected := Product(width, height);
      if width != 0 && expected / width != height { return Failed(Format); }
      if size != expected { return Failed(Format); }
      if size != 0 && (offset > |bytes| || size > |bytes| - offset) { return Failed(Format); }
      var advance := LeU32(bytes, at + 8);
      var left := LeS32(bytes, at + 12);
      var top := LeS32(bytes, at + 16);
      return Ok(Record(offset, size, advance, left, top, width, height));
    }

    ghost predicate HasHeader(b: seq<Byte>)
      requires HEADER_SIZE <= |b|
      reads this
    {
      && pixelHeight == ReadU32(b, 16) && lineHeight == ReadU32(b, 20) && ascent == ReadS32(b, 24) && descent == ReadS32(b, 28)
      && lineGap == ReadU32(b, 20) - ReadS32(b, 24) - ReadS32(b, 28) && Copied(family, 64) == Copied(FamilyOf(b), 64)
    }

    /** The last step: the object becomes visible to other processes. */
    method Publish()
      requires HEADER_SIZE <= |bytes| && HasHeader(bytes) && |records| == GLYPHS
      modifies this`status, this`phase
      ensures Valid() && phase == Ready && Bound() == Ok(FontOf(bytes, Views(records)))
    {
      hide ReadU32, FamilyOf, Copied, Views;
      status, phase := Ok(()), Ready;
    }

    /** The populating function's loop over the family field. */
    method SharedFamily() returns (name: seq<Byte>)
      requires HEADER_SIZE <= |bytes|
      ensures name == FamilyOf(bytes)
    {
      hide TextUpTo;
      name := [];
      for i := 0 to FAMILY_BYTES
        invariant TextUpTo(bytes, FAMILY_AT, FAMILY_BYTES) == name + TextUpTo(bytes, FAMILY_AT + i, FAMILY_BYTES - i)
        invariant i < FAMILY_BYTES || TextUpTo(bytes, FAMILY_AT + i, FAMILY_BYTES - i) == []
      {
        TextStep(bytes, FAMILY_AT + i, FAMILY_BYTES - i);
        if bytes[FAMILY_AT + i] == 0 { break; }
        name := name + [bytes[FAMILY_AT + i]];
      }
      if name == [] { name := DEFAULT_FAMILY; }
    }

    method StoreHeader(h: Header)
      requires HEADER_SIZE <= |bytes| && h == HeaderOf(bytes)
      modifies this`pixelHeight, this`lineHeight, this`ascent, this`descent, this`lineGap, this`fileSize, this`family
      ensures HasHeader(bytes) && fileSize == |bytes|
    {
      hide ReadU32, FamilyOf, Copied;
      var name := SharedFamily();
      pixelHeight, lineHeight, ascent, descent := h.pixelHeight, h.lineHeight, h.ascent, h.descent;
      lineGap := lineHeight - ascent - descent;
      fileSize := |bytes|;
      family := Copied(name, FAMILY_BYTES + 1);
      CopiedTwice(name);
    }

    /** gdi_font_bind_shared_raster_cache_entry */
    method Bind() returns (r: Result<Font>)
      requires Valid()
      ensures r == Bound()
    {
      hide Copied, View;
      if phase != Ready {
        return if status.Failed? then Failed(status.status) else Failed(Error);
      }
      var glyphs: seq<GlyphView> := [];
      for i := 0 to GLYPHS
        invariant |glyphs| == i && forall j :: 0 <= j < i ==> glyphs[j] == View(records[j])
      {
        glyphs := glyphs + [View(records[i])];
      }
      assert glyphs == Views(records);
      r := Ok(Font(pixelHeight, lineHeight, ascent, descent, lineGap, Copied(family, 64), glyphs));
    }
  }

  lemma NoViews()
    ensures Views([]) == []
  {
  }

  lemma CopiedTwice(name: seq<Byte>)
    ensures Copied(Copied(name, FAMILY_BYTES + 1), 64) == Copied(name, 64)
  {
  }

  /** Both roads from a file to a font: the same answer on every file the cache admits. */
  method SameFont(b: seq<Byte>, wanted: nat) returns (direct: Result<Font>, shared: Result<Font>)
    ensures direct == Parse(b, wanted)
    ensures 0 < |b| <= MAX_FILE ==> shared == direct
    ensures !(0 < |b| <= MAX_FILE) ==> shared == Failed(NoSpace)
  {
    hide Parse;
    direct := ParseFile(b, wanted, true);
    var memory := new Shared();
    var status := memory.Populate(b, wanted);
    shared := memory.Bind();
  }
}
