/** Reading a page back: the reader recovers the entries from the bytes. */
module NvsPageRoundTrip {
  import opened Bytes
  import opened NvsFormat
  import opened NvsReader
  import opened NvsPageWrite
  import opened Options

  lemma {:induction false} KeyRoundTrip(key: Key, n: nat)
    requires n > 0
    ensures KeyOf(key + Zeros(n)) == key
  {
    if key != [] {
      KeyRoundTrip(key[1..], n);
      assert (key + Zeros(n))[1..] == key[1..] + Zeros(n);
    }
  }

  /** The fields of a header slot, and its checksum. */
  lemma {:induction false} HeaderSlotFields(
      x: Externals, ns: byte, code: byte, span: byte, chunk: byte, key: Key, field: seq<byte>)
    requires |field| == 8
    ensures var h := HeaderSlot(x, ns, code, span, chunk, PadKey(key) + field);
      h[0] == ns && h[1] == code && h[2] == span && h[3] == chunk &&
      KeyOf(h[8..24]) == key && h[24..32] == field && HeaderChecks(x, h)
  {
    var rest := PadKey(key) + field;
    var h := HeaderSlot(x, ns, code, span, chunk, rest);
    KeyRoundTrip(key, 16 - |key|);
    assert h[8..24] == PadKey(key);
    assert h[24..32] == field;
    assert h[0..4] == [ns, code, span, chunk] && h[8..32] == rest;
    assert h[4..8] == LE(x.crc32([ns, code, span, chunk] + rest, CRC_START), 4);
    Pow256Values();
    LERoundTrip(x.crc32([ns, code, span, chunk] + rest, CRC_START), 4);
  }

  lemma {:induction false} JoinedSlotAt(slots: seq<Slot>, i: nat, o: nat)
    requires i < |slots| && o < SLOT_SIZE
    ensures |Join(slots)| == SLOT_SIZE * |slots|
    ensures Join(slots)[SLOT_SIZE * i + o] == slots[i][o]
  {
    JoinAt(slots, SLOT_SIZE, i);
    assert Join(slots)[SLOT_SIZE * i..SLOT_SIZE * i + SLOT_SIZE][o] == slots[i][o];
  }

  lemma {:induction false} ChopRoundTrip(data: seq<byte>)
    ensures |data| <= |Join(Chop(data))| == SLOT_SIZE * NumSlots(|data|)
    ensures Join(Chop(data))[..|data|] == data
  {
    JoinLength(Chop(data), SLOT_SIZE);
    forall j | 0 <= j < |data|
      ensures Join(Chop(data))[j] == data[j]
    {
      JoinedSlotAt(Chop(data), j / 32, j % 32);
    }
  }

  /** What the reader needs to see in a header to decode an integer. */
  lemma {:induction false} DecodeInt(x: Externals, h: Slot, e: Entry)
    requires e.WellFormed() && e.IntEntry?
    requires h[0] == e.ns && h[1] == e.t.Code() && KeyOf(h[8..24]) == e.key && HeaderChecks(x, h)
    requires h[24..24 + e.t.Width()] == e.t.Pack(e.value)
    requires h[3] == 0xFF && h[24 + e.t.Width()..32] == Blank(8 - e.t.Width())
    ensures DecodeEntry(x, h, []) == Some(e)
  {
    hide HeaderChecks, KeyOf, IntType.Pack, IntType.Unpack, UnLE, KindOf;
    PackRoundTrip(e.t, e.value);
  }

  lemma {:induction false} IntRoundTrip(x: Externals, e: Entry)
    requires e.WellFormed() && e.IntEntry?
    ensures Header(x, e)[2] == e.Span()
    ensures DecodeEntry(x, Header(x, e), []) == Some(e)
  {
    hide DecodeEntry, HeaderSlot, PadKey, HeaderChecks, KeyOf, IntType.Pack;
    var t := e.t;
    var field := t.Pack(e.value) + Blank(8 - t.Width());
    assert PadKey(e.key) + t.Pack(e.value) + Blank(8 - t.Width()) == PadKey(e.key) + field;
    HeaderSlotFields(x, e.ns, t.Code(), 1, CHUNK_ANY, e.key, field);
    var h := Header(x, e);
    assert h[24..24 + t.Width()] == h[24..32][..t.Width()] == t.Pack(e.value);
    assert h[24 + t.Width()..32] == h[24..32][t.Width()..] == Blank(8 - t.Width());
    DecodeInt(x, h, e);
  }

  /** What the reader needs to see in a header to decode a string, a blob or a chunk. */
  lemma {:induction false} DecodeData(x: Externals, h: Slot, e: Entry)
    requires e.WellFormed() && e.DataEntry?
    requires h[0] == e.ns && h[1] == e.kind.Code() && h[3] == e.chunk && KeyOf(h[8..24]) == e.key && HeaderChecks(x, h)
    requires UnLE(h[24..26]) == |e.data| && UnLE(h[28..32]) == x.crc32(e.data, CRC_START)
    requires h[26..28] == Blank(2)
    ensures DecodeEntry(x, h, Join(Chop(e.data))) == Some(e)
  {
    hide HeaderChecks, KeyOf, UnLE, Join, Chop;
    ChopRoundTrip(e.data);
  }

  lemma {:induction false} DataRoundTrip(x: Externals, e: Entry)
    requires e.WellFormed() && e.DataEntry?
    ensures Header(x, e)[2] == e.Span()
    ensures DecodeEntry(x, Header(x, e), Join(Chop(e.data))) == Some(e)
  {
    hide DecodeEntry, HeaderSlot, PadKey, HeaderChecks, KeyOf, LE, UnLE, Pow256;
    Pow256Values();
    HeaderSlotFields(x, e.ns, e.kind.Code(), e.Span(), e.chunk, e.key, DataField(x, e.data));
    var h := Header(x, e);
    assert h[24..26] == h[24..32][..2] == LE(|e.data|, 2);
    assert h[26..28] == h[24..32][2..4] == Blank(2);
    assert h[28..32] == h[24..32][4..] == LE(x.crc32(e.data, CRC_START), 4);
    LERoundTrip(|e.data|, 2);
    LERoundTrip(x.crc32(e.data, CRC_START), 4);
    DecodeData(x, h, e);
  }

  lemma {:induction false} IndexRoundTrip(x: Externals, e: Entry)
    requires e.WellFormed() && e.IndexEntry?
    ensures Header(x, e)[2] == e.Span()
    ensures DecodeEntry(x, Header(x, e), []) == Some(e)
  {
    Pow256Values();
    var field := LE(e.size, 4) + [e.count, 0] + Blank(2);
    assert PadKey(e.key) + LE(e.size, 4) + [e.count, 0] + Blank(2) == PadKey(e.key) + field;
    HeaderSlotFields(x, e.ns, BLOB_IDX, 1, CHUNK_ANY, e.key, field);
    var h := Header(x, e);
    assert h[24..28] == h[24..32][..4] == LE(e.size, 4);
    assert h[28] == h[24..32][4] && h[29..32] == h[24..32][5..] == [0] + Blank(2);
    LERoundTrip(e.size, 4);
  }

  /** Decoding undoes the encoding of an entry. */
  lemma {:induction false} EntryRoundTrip(x: Externals, e: Entry)
    requires e.WellFormed()
    ensures Header(x, e)[2] == e.Span()
    ensures DecodeEntry(x, Header(x, e), Join(Chop(e.Payload()))) == Some(e)
  {
    match e
    case IntEntry(_, _, _, _) => IntRoundTrip(x, e);
    case DataEntry(_, _, _, _, _) => DataRoundTrip(x, e);
    case IndexEntry(_, _, _, _) => IndexRoundTrip(x, e);
  }

  // ----- the bytes of a page -----

  /** Where slot i of a page is found, and how the bitmap tells whether it is written. */
  lemma {:induction false} PageSlotAt(
      x: Externals, encrypted: bool, num: u32, version: Version, slots: seq<Slot>, full: bool, i: nat)
    requires i < MAX_ENTRIES
    ensures SlotAt(PageBytes(x, encrypted, num, version, slots, full), i)
         == if i < |slots| then Stored(x, encrypted, num, i, slots[i]) else Blank(SLOT_SIZE)
    ensures Written(PageBytes(x, encrypted, num, version, slots, full), i) <==> i < |slots|
  {
    hide Bit, BitmapByte, Stored;
    var page := PageBytes(x, encrypted, num, version, slots, full);
    assert page[BITMAP_OFFSET + i / 4] == BitmapByte(|slots|, i / 4);
    assert BitmapByte(|slots|, i / 4) == Bitmap(|slots|)[i / 4];
    BitmapBits(|slots|, i);
    var want := if i < |slots| then Stored(x, encrypted, num, i, slots[i]) else Blank(SLOT_SIZE);
    forall o | 0 <= o < SLOT_SIZE
      ensures page[FIRST_ENTRY_OFFSET + SLOT_SIZE * i + o] == want[o]
    {
      var j := FIRST_ENTRY_OFFSET + SLOT_SIZE * i + o;
      assert (j - FIRST_ENTRY_OFFSET) / SLOT_SIZE == i && (j - FIRST_ENTRY_OFFSET) % SLOT_SIZE == o;
      assert page[j] == PageByte(x, encrypted, num, version, slots, full, j);
    }
    assert SlotAt(page, i) == want;
  }

  lemma {:induction false} PageRun(
      x: Externals, num: u32, version: Version, slots: seq<Slot>, full: bool, i: nat, next: nat)
    requires i <= next <= |slots| <= MAX_ENTRIES
    ensures var page := PageBytes(x, false, num, version, slots, full);
      page[FIRST_ENTRY_OFFSET + SLOT_SIZE * i..FIRST_ENTRY_OFFSET + SLOT_SIZE * next] == Join(slots[i..next])
  {
    var page := PageBytes(x, false, num, version, slots, full);
    var run := page[FIRST_ENTRY_OFFSET + SLOT_SIZE * i..FIRST_ENTRY_OFFSET + SLOT_SIZE * next];
    JoinLength(slots[i..next], SLOT_SIZE);
    forall j | 0 <= j < |run|
      ensures run[j] == Join(slots[i..next])[j]
    {
      JoinedSlotAt(slots[i..next], j / SLOT_SIZE, j % SLOT_SIZE);
      var at := FIRST_ENTRY_OFFSET + SLOT_SIZE * i + j;
      assert (at - FIRST_ENTRY_OFFSET) / SLOT_SIZE == i + j / SLOT_SIZE;
      assert (at - FIRST_ENTRY_OFFSET) % SLOT_SIZE == j % SLOT_SIZE;
      assert page[at] == PageByte(x, false, num, version, slots, full, at);
    }
  }

  /** The slots of a page's first k entries are a prefix of the slots of the page. */
  lemma {:induction false} PageSlotsPrefix(x: Externals, p: PageContent, k: nat)
    requires (forall e :: e in p ==> e.WellFormed()) && k <= |p|
    ensures Used(p[..k]) <= Used(p)
    ensures PageSlots(x, p)[..Used(p[..k])] == PageSlots(x, p[..k])
  {
    if k == |p| {
      assert p[..k] == p;
    } else {
      var q := p[..|p| - 1];
      PageSlotsPrefix(x, q, k);
      assert q[..k] == p[..k];
    }
  }

  lemma {:induction false} PageSlotsEntry(x: Externals, p: PageContent, k: nat)
    requires (forall e :: e in p ==> e.WellFormed()) && k < |p|
    ensures Used(p[..k]) + p[k].Span() == Used(p[..k + 1]) <= Used(p)
    ensures PageSlots(x, p)[Used(p[..k])..Used(p[..k + 1])] == Slots(x, p[k])
  {
    assert p[..k + 1] == p[..k] + [p[k]];
    PageSlotsSnoc(x, p[..k], p[k]);
    UsedSnoc(p[..k], p[k]);
    PageSlotsPrefix(x, p, k + 1);
  }

  lemma {:induction false} ReadUnwritten(x: Externals, num: u32, version: Version, slots: seq<Slot>, full: bool, i: nat)
    requires |slots| <= i
    ensures ReadSlots(x, PageBytes(x, false, num, version, slots, full), i) == Some([])
    decreases MAX_ENTRIES - i
  {
    hide DecodeEntry, PageBytes, Written;
    if i < MAX_ENTRIES {
      PageSlotAt(x, false, num, version, slots, full, i);
      ReadUnwritten(x, num, version, slots, full, i + 1);
    }
  }

  /** The slots of an entry, wherever they stand in a page, decode to the entry. */
  lemma {:induction false} EntryInSlots(
      x: Externals, num: u32, version: Version, slots: seq<Slot>, full: bool, i: nat, e: Entry)
    requires e.WellFormed() && i + e.Span() <= |slots| <= MAX_ENTRIES
    requires slots[i..i + e.Span()] == Slots(x, e)
    ensures EntryAt(x, PageBytes(x, false, num, version, slots, full), i, e)
  {
    hide DecodeEntry, Written, PageBytes, Header, Chop, Join;
    var next := i + e.Span();
    PageSlotAt(x, false, num, version, slots, full, i);
    assert slots[i] == slots[i..next][0] == Header(x, e);
    assert slots[i + 1..next] == slots[i..next][1..] == Chop(e.Payload());
    PageRun(x, num, version, slots, full, i + 1, next);
    EntryRoundTrip(x, e);
  }

  /** Every checksum of a page verifies: that of each entry's header slot, wherever the entry stands,
      and that of its data. */
  lemma {:induction false} ChecksumsHold(x: Externals, num: u32, version: Version, p: PageContent, full: bool, k: nat)
    requires WellFormedPage(p) && k < |p|
    ensures Used(p[..k]) < MAX_ENTRIES
    ensures var h := SlotAt(PageBytes(x, false, num, version, PageSlots(x, p), full), Used(p[..k]));
      HeaderChecks(x, h) && (p[k].DataEntry? ==> UnLE(h[28..32]) == x.crc32(p[k].data, CRC_START))
  {
    hide PageBytes, PageSlots, Slots, Used, Written, HeaderChecks, KeyOf, NumSlots;
    PageSlotsEntry(x, p, k);
    EntryInSlots(x, num, version, PageSlots(x, p), full, Used(p[..k]), p[k]);
  }

  predicate EntryAt(x: Externals, page: seq<byte>, i: nat, e: Entry)
    requires |page| == PAGE_SIZE && i + e.Span() <= MAX_ENTRIES
  {
    var next := i + e.Span();
    Written(page, i) && SlotAt(page, i)[2] == e.Span() &&
    DecodeEntry(x, SlotAt(page, i),
      page[FIRST_ENTRY_OFFSET + SLOT_SIZE * i + SLOT_SIZE..FIRST_ENTRY_OFFSET + SLOT_SIZE * next]) == Some(e)
  }

  lemma {:induction false} ReadStep(x: Externals, page: seq<byte>, i: nat, e: Entry, rest: seq<Entry>)
    requires |page| == PAGE_SIZE && i + e.Span() <= MAX_ENTRIES
    requires EntryAt(x, page, i, e) && ReadSlots(x, page, i + e.Span()) == Some(rest)
    ensures ReadSlots(x, page, i) == Some([e] + rest)
  {
    hide DecodeEntry, Written;
  }

  /** From the first slot of entry k, the reader finds entry k and all later ones. */
  lemma {:induction false} ReadSlotsRoundTrip(
      x: Externals, num: u32, version: Version, p: PageContent, full: bool, k: nat)
    requires WellFormedPage(p) && k <= |p|
    ensures ReadSlots(x, PageBytes(x, false, num, version, PageSlots(x, p), full), Used(p[..k])) == Some(p[k..])
    decreases |p| - k
  {
    hide EntryAt, PageBytes, ReadSlots, PageSlots, Used, Slots, Entry.Span, NumSlots;
    var slots := PageSlots(x, p);
    if k == |p| {
      assert p[..k] == p && p[k..] == [];
      ReadUnwritten(x, num, version, slots, full, Used(p));
    } else {
      PageSlotsEntry(x, p, k);
      EntryInSlots(x, num, version, slots, full, Used(p[..k]), p[k]);
      ReadSlotsRoundTrip(x, num, version, p, full, k + 1);
      ReadStep(x, PageBytes(x, false, num, version, slots, full), Used(p[..k]), p[k], p[k + 1..]);
      assert p[k..] == [p[k]] + p[k + 1..];
    }
  }

  lemma {:induction false} HeaderIsFirst(
      x: Externals, encrypted: bool, num: u32, version: Version, slots: seq<Slot>, full: bool)
    ensures PageBytes(x, encrypted, num, version, slots, full)[..32] == PageHeader(x, num, version, full)
  {
    hide BitmapByte, Stored, Tweak, PageHeader;
    var page := PageBytes(x, encrypted, num, version, slots, full);
    forall j | 0 <= j < BITMAP_OFFSET
      ensures page[j] == PageHeader(x, num, version, full)[j]
    {
      assert page[j] == PageByte(x, encrypted, num, version, slots, full, j);
    }
  }

  /** The fields of a page header. */
  lemma {:induction false} PageHeaderFields(x: Externals, num: u32, version: Version, full: bool)
    ensures var h := PageHeader(x, num, version, full);
      var body := LE(num, 4) + [version.Code()] + Blank(19);
      h[0..4] == LE(if full then FULL else ACTIVE, 4) && h[4..8] == LE(num, 4) && h[8] == version.Code() &&
      h[4..28] == body && h[9..28] == Blank(19) && h[28..32] == LE(x.crc32(body, CRC_START), 4)
  {
    hide LE;
  }

  lemma {:induction false} PageHeaderOf(
      x: Externals, encrypted: bool, num: u32, version: Version, slots: seq<Slot>, full: bool)
    ensures var page := PageBytes(x, encrypted, num, version, slots, full);
      PageHeaderChecks(x, page, num, version) && page[0] != BLANK_BYTE &&
      UnLE(page[0..4]) == (if full then FULL else ACTIVE)
  {
    hide PageBytes, PageHeader, Pow256, UnLE;
    var page := PageBytes(x, encrypted, num, version, slots, full);
    var h := PageHeader(x, num, version, full);
    var body := LE(num, 4) + [version.Code()] + Blank(19);
    HeaderIsFirst(x, encrypted, num, version, slots, full);
    PageHeaderFields(x, num, version, full);
    Pow256Values();
    var state := if full then FULL else ACTIVE;
    assert page[0] == h[0..4][0] == state % 256;
    hide LE;
    LERoundTrip(state, 4);
    LERoundTrip(num, 4);
    LERoundTrip(x.crc32(body, CRC_START), 4);
    assert page[0..4] == h[0..4] && page[4..8] == h[4..8] && page[8] == h[8];
    assert page[4..28] == h[4..28] && page[9..28] == h[9..28] && page[28..32] == h[28..32];
  }

  lemma {:induction false} PageState(
      x: Externals, encrypted: bool, num: u32, version: Version, slots: seq<Slot>, full: bool)
    ensures UnLE(PageBytes(x, encrypted, num, version, slots, full)[0..4]) == if full then FULL else ACTIVE
    ensures UnLE(PageBytes(x, encrypted, num, version, slots, full)[4..8]) == num
  {
    PageHeaderOf(x, encrypted, num, version, slots, full);
  }

  /** Reading a plain page gives back its entries. */
  lemma {:induction false} ReadPageRoundTrip(x: Externals, num: u32, version: Version, p: PageContent, full: bool)
    requires WellFormedPage(p)
    ensures ReadPage(x, PageBytes(x, false, num, version, PageSlots(x, p), full), num, version) == Some(p)
  {
    PageHeaderOf(x, false, num, version, PageSlots(x, p), full);
    ReadSlotsRoundTrip(x, num, version, p, full, 0);
    assert p[..0] == [] && p[0..] == p;
  }
}
