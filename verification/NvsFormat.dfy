/** The on-flash format written by the NVS partition generator: 32-byte slots, entry headers with
    their checksums, the page header and the slot state bitmap. */
module NvsFormat {
  import opened Bytes

  // Page layout and state constants.
  const PAGE_SIZE := 4096
  const SLOT_SIZE := 32
  const BITMAP_OFFSET := 32
  const FIRST_ENTRY_OFFSET := 64
  const MAX_ENTRIES := 126
  const CHUNK_ANY: byte := 0xFF
  const ACTIVE: u32 := 0xFFFF_FFFE
  const FULL: u32 := 0xFFFF_FFFC
  const CRC_START: u32 := 0xFFFF_FFFF

  datatype Version = V1 | V2 {
    function Code(): byte { if V1? then 0xFF else 0xFE }

    function MaxBlobSize(): nat { if V1? then 1984 else 4000 }
  }

  type Slot = s: seq<byte> | |s| == 32 witness Blank(32)

  /** The calls into libraries: CRC-32 over a byte string from a start value, and XTS-AES of one
      slot under a 16-byte tweak (the key is fixed). Nothing is assumed of them here. */
  datatype Externals = Externals(
    crc32: (seq<byte>, u32) -> u32,
    encrypt: (seq<byte>, Slot) -> Slot,
    decrypt: (seq<byte>, Slot) -> Slot)

  // ----- primitive values -----

  datatype IntType = U8 | I8 | U16 | I16 | U32 | I32 | U64 | I64 {
    function Code(): byte {
      match this
      case U8 => 0x01 case I8 => 0x11
      case U16 => 0x02 case I16 => 0x12
      case U32 => 0x04 case I32 => 0x14
      case U64 => 0x08 case I64 => 0x18
    }

    function Width(): (w: nat)
      ensures w == 1 || w == 2 || w == 4 || w == 8
    {
      match this
      case U8 | I8 => 1
      case U16 | I16 => 2
      case U32 | I32 => 4
      case U64 | I64 => 8
    }

    predicate Signed() { I8? || I16? || I32? || I64? }

    /** The values that packing accepts; any other is an error of the caller. */
    predicate InRange(v: int) {
      var p := Pow256(Width());
      if Signed() then 0 <= 2 * v + p && 2 * v < p else 0 <= v < p
    }

    /** Two's complement, least significant byte first. */
    function Pack(v: int): (s: seq<byte>)
      requires InRange(v)
      ensures |s| == Width()
    {
      LE(if v < 0 then v + Pow256(Width()) else v, Width())
    }

    function Unpack(s: seq<byte>): int
      requires |s| == Width()
    {
      var n := UnLE(s);
      if Signed() && Pow256(Width()) <= 2 * n then n - Pow256(Width()) else n
    }
  }

  lemma {:induction false} PackRoundTrip(t: IntType, v: int)
    requires t.InRange(v)
    ensures t.Unpack(t.Pack(v)) == v
  {
    LERoundTrip(if v < 0 then v + Pow256(t.Width()) else v, t.Width());
  }

  lemma {:induction false} PowSplits(k: nat, width: nat)
    requires k < width
    ensures Pow256(width) == Pow256(k) * (256 * Pow256(width - 1 - k))
  {
    if k > 0 {
      PowSplits(k - 1, width - 1);
    }
  }

  /** Adding a multiple of 256 * p changes no byte at p. */
  lemma {:induction false} ByteStays(v: int, p: nat, m: int)
    requires p > 0
    ensures (v + p * (256 * m)) / p % 256 == v / p % 256
  {
    QuotientIs(v + p * (256 * m), p, v / p + 256 * m, v % p);
  }

  /** Byte k of a packed value, negative ones in two's complement: bits 8k to 8k + 7, counted from the
      least significant. */
  lemma {:induction false} PackByte(t: IntType, v: int, k: nat)
    requires t.InRange(v) && k < t.Width()
    ensures t.Pack(v)[k] == v / Pow256(k) % 256
  {
    var n := if v < 0 then v + Pow256(t.Width()) else v;
    LEByte(n, t.Width(), k);
    PowSplits(k, t.Width());
    ByteStays(v, Pow256(k), Pow256(t.Width() - 1 - k));
  }

  function IntTypeOf(code: byte): (t: seq<IntType>)
    ensures |t| <= 1
  {
    if code == 0x01 then [U8] else if code == 0x11 then [I8]
    else if code == 0x02 then [U16] else if code == 0x12 then [I16]
    else if code == 0x04 then [U32] else if code == 0x14 then [I32]
    else if code == 0x08 then [U64] else if code == 0x18 then [I64]
    else []
  }

  // ----- entries -----

  datatype DataKind = SZ | BLOB | BLOB_DATA {
    function Code(): byte {
      match this
      case SZ => 0x21
      case BLOB => 0x41
      case BLOB_DATA => 0x42
    }
  }

  const BLOB_IDX: byte := 0x48

  /** Keys fit the 16-byte field with a terminating zero, which no key contains. */
  type Key = k: seq<byte> | |k| <= 15 && 0 !in k witness []

  /** One entry of a page: its header slot and, for data entries, the payload in the next slots. */
  datatype Entry =
    | IntEntry(ns: byte, key: Key, t: IntType, value: int)
    | DataEntry(ns: byte, key: Key, kind: DataKind, chunk: byte, data: seq<byte>)
    | IndexEntry(ns: byte, key: Key, size: u32, count: byte)
  {
    predicate WellFormed() {
      match this
      case IntEntry(_, _, t, v) => t.InRange(v)
      case DataEntry(_, _, _, _, data) => NumSlots(|data|) + 1 <= MAX_ENTRIES
      case IndexEntry(_, _, _, _) => true
    }

    function Payload(): seq<byte> { if DataEntry? then data else [] }

    /** The number of slots the entry occupies. */
    function Span(): (n: nat)
      ensures n >= 1
    {
      1 + NumSlots(|Payload()|)
    }
  }

  /** Slots needed for n bytes of payload, as computed with (n + 31) & ~31. */
  function NumSlots(n: nat): (k: nat)
    ensures 32 * k >= n > 32 * (k - 1)
  {
    (n + 31) / 32
  }

  function PadKey(key: Key): (s: seq<byte>)
    ensures |s| == 16
  {
    key + Zeros(16 - |key|)
  }

  /** A header slot: four bytes of description, the checksum, the key field and the value field.
      The checksum covers everything in the slot but itself. */
  function HeaderSlot(x: Externals, ns: byte, code: byte, span: byte, chunk: byte, rest: seq<byte>): (s: Slot)
    requires |rest| == 24
  {
    var front := [ns, code, span, chunk];
    front + LE(x.crc32(front + rest, CRC_START), 4) + rest
  }

  /** The value field of an entry holding `size` bytes of data. */
  function DataField(x: Externals, data: seq<byte>): (f: seq<byte>)
    requires |data| < 0x1_0000
    ensures |f| == 8
  {
    LE(|data|, 2) + Blank(2) + LE(x.crc32(data, CRC_START), 4)
  }

  function Header(x: Externals, e: Entry): Slot
    requires e.WellFormed()
  {
    match e
    case IntEntry(ns, key, t, v) =>
      HeaderSlot(x, ns, t.Code(), 1, CHUNK_ANY, PadKey(key) + t.Pack(v) + Blank(8 - t.Width()))
    case DataEntry(ns, key, kind, chunk, data) =>
      HeaderSlot(x, ns, kind.Code(), e.Span(), chunk, PadKey(key) + DataField(x, data))
    case IndexEntry(ns, key, size, count) =>
      HeaderSlot(x, ns, BLOB_IDX, 1, CHUNK_ANY, PadKey(key) + LE(size, 4) + [count, 0] + Blank(2))
  }

  /** Byte j of the slots that hold `data`: the last slot stays erased past the end of the data. */
  function PaddedByte(data: seq<byte>, j: nat): byte {
    if j < |data| then data[j] else BLANK_BYTE
  }

  function ChopSlot(data: seq<byte>, i: nat): Slot {
    var s := seq<byte>(SLOT_SIZE, o requires 0 <= o < SLOT_SIZE => PaddedByte(data, SLOT_SIZE * i + o));
    assert |s| == SLOT_SIZE;
    s
  }

  /** Payload bytes cut into slots. */
  function Chop(data: seq<byte>): (s: seq<Slot>)
    ensures |s| == NumSlots(|data|)
  {
    seq(NumSlots(|data|), i requires 0 <= i < NumSlots(|data|) => ChopSlot(data, i))
  }

  function Slots(x: Externals, e: Entry): (s: seq<Slot>)
    requires e.WellFormed()
    ensures |s| == e.Span()
  {
    [Header(x, e)] + Chop(e.Payload())
  }

  // ----- pages -----

  /** The entries of one page, in the order they were written. */
  type PageContent = seq<Entry>

  function Used(p: PageContent): nat {
    if p == [] then 0 else Used(p[..|p| - 1]) + p[|p| - 1].Span()
  }

  predicate WellFormedPage(p: PageContent) {
    (forall e :: e in p ==> e.WellFormed()) && Used(p) <= MAX_ENTRIES
  }

  lemma {:induction false} WellFormedEntries(p: PageContent)
    requires WellFormedPage(p)
    ensures forall e :: e in p ==> e.WellFormed()
  {
  }

  function PageSlots(x: Externals, p: PageContent): (s: seq<Slot>)
    requires forall e :: e in p ==> e.WellFormed()
    ensures |s| == Used(p)
  {
    if p == [] then [] else PageSlots(x, p[..|p| - 1]) + Slots(x, p[|p| - 1])
  }

  lemma {:induction false} UsedSnoc(p: PageContent, e: Entry)
    ensures Used(p + [e]) == Used(p) + e.Span()
  {
    assert (p + [e])[..|p|] == p;
  }

  lemma {:induction false} PageSlotsSnoc(x: Externals, p: PageContent, e: Entry)
    requires (forall f :: f in p ==> f.WellFormed()) && e.WellFormed()
    ensures PageSlots(x, p + [e]) == PageSlots(x, p) + Slots(x, e)
  {
    assert (p + [e])[..|p|] == p;
  }

  lemma {:induction false} EmptyPageSlots(x: Externals)
    ensures PageSlots(x, []) == []
  {
  }

  /** Byte j of the bitmap when `used` slots are written: slot i owns bits 2i and 2i+1, and being
      written clears bit 2i. */
  function BitmapByte(used: nat, j: nat): byte {
    var n := used - 4 * j;
    if n <= 0 then 0xFF else if n == 1 then 0xFE else if n == 2 then 0xFA else if n == 3 then 0xEA else 0xAA
  }

  function Bitmap(used: nat): (s: seq<byte>)
    ensures |s| == 32
  {
    seq(32, j requires 0 <= j < 32 => BitmapByte(used, j))
  }

  /** Page state, sequence number and version; the checksum does not cover the state. */
  function PageHeader(x: Externals, num: u32, version: Version, full: bool): (s: Slot)
  {
    var body := LE(num, 4) + [version.Code()] + Blank(19);
    LE(if full then FULL else ACTIVE, 4) + body + LE(x.crc32(body, CRC_START), 4)
  }

  /** Byte address of a slot in the partition, from which its tweak is derived. */
  function SlotAddress(page: nat, i: nat): nat {
    page * PAGE_SIZE + FIRST_ENTRY_OFFSET + i * SLOT_SIZE
  }

  function Tweak(page: nat, i: nat): (s: seq<byte>)
    ensures |s| == 16
  {
    LE(SlotAddress(page, i), 16)
  }

  /** What is stored for slot i of a page. */
  function Stored(x: Externals, encrypted: bool, page: nat, i: nat, s: Slot): Slot {
    if encrypted then x.encrypt(Tweak(page, i), s) else s
  }

  function PageByte(
      x: Externals, encrypted: bool, num: u32, version: Version, slots: seq<Slot>, full: bool, j: nat): byte
    requires j < PAGE_SIZE
  {
    if j < BITMAP_OFFSET then PageHeader(x, num, version, full)[j]
    else if j < FIRST_ENTRY_OFFSET then BitmapByte(|slots|, j - BITMAP_OFFSET)
    else
      var i := (j - FIRST_ENTRY_OFFSET) / SLOT_SIZE;
      if i < |slots| then Stored(x, encrypted, num, i, slots[i])[(j - FIRST_ENTRY_OFFSET) % SLOT_SIZE]
      else BLANK_BYTE
  }

  /** The 4096 bytes of a page whose first |slots| slots are written. */
  function PageBytes(
      x: Externals, encrypted: bool, num: u32, version: Version, slots: seq<Slot>, full: bool): (s: seq<byte>)
    ensures |s| == PAGE_SIZE
  {
    seq(PAGE_SIZE, j requires 0 <= j < PAGE_SIZE => PageByte(x, encrypted, num, version, slots, full, j))
  }
}
