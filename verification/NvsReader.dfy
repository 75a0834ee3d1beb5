/** A reader of NVS partitions, written from the format alone: it finds entries through the slot
    bitmap, follows their spans, checks every checksum and joins blob chunks. */
module NvsReader {
  import opened Bytes
  import opened NvsFormat
  import opened Options

  function SlotAt(page: seq<byte>, i: nat): Slot
    requires |page| == PAGE_SIZE && i < MAX_ENTRIES
  {
    page[FIRST_ENTRY_OFFSET + SLOT_SIZE * i..FIRST_ENTRY_OFFSET + SLOT_SIZE * i + SLOT_SIZE]
  }

  /** The low bit of the slot's pair in the bitmap is clear once the slot is written. */
  predicate Written(page: seq<byte>, i: nat)
    requires |page| == PAGE_SIZE && i < MAX_ENTRIES
  {
    Bit(page[BITMAP_OFFSET + i / 4], 2 * (i % 4)) == 0
  }

  predicate HeaderChecks(x: Externals, h: Slot) {
    UnLE(h[4..8]) == x.crc32(h[0..4] + h[8..32], CRC_START)
  }

  /** The key is what stands before the first zero byte of its field. */
  function KeyOf(field: seq<byte>): seq<byte> {
    if field == [] || field[0] == 0 then [] else [field[0]] + KeyOf(field[1..])
  }

  function KindOf(code: byte): Option<DataKind> {
    if code == 0x21 then Some(SZ) else if code == 0x41 then Some(BLOB)
    else if code == 0x42 then Some(BLOB_DATA) else None
  }

  /** An entry from its header and the bytes of the other slots of its span; bytes that mean nothing must
      be erased. */
  function DecodeEntry(x: Externals, h: Slot, payload: seq<byte>): Option<Entry>
  {
    var key := KeyOf(h[8..24]);
    var t := IntTypeOf(h[1]);
    var size := UnLE(h[24..26]);
    if !HeaderChecks(x, h) || |key| > 15 || 0 in key then None
    else if t != [] then
      if payload != [] || h[3] != 0xFF || h[24 + t[0].Width()..32] != Blank(8 - t[0].Width()) then None
      else Some(IntEntry(h[0], key, t[0], t[0].Unpack(h[24..24 + t[0].Width()])))
    else if h[1] == BLOB_IDX then
      if payload != [] || h[3] != 0xFF || UnLE(h[24..28]) > 0xFFFF_FFFF || h[29..32] != [0] + Blank(2) then None
      else Some(IndexEntry(h[0], key, UnLE(h[24..28]), h[28]))
    else if KindOf(h[1]).None? || (size + 31) / 32 * 32 != |payload| || h[26..28] != Blank(2) then None
    else if UnLE(h[28..32]) != x.crc32(payload[..size], CRC_START) then None
    else Some(DataEntry(h[0], key, KindOf(h[1]).value, h[3], payload[..size]))
  }

  /** The entries of a page from slot i on. */
  function ReadSlots(x: Externals, page: seq<byte>, i: nat): Option<seq<Entry>>
    requires |page| == PAGE_SIZE
    decreases MAX_ENTRIES - i
  {
    if i >= MAX_ENTRIES then Some([])
    else if !Written(page, i) then ReadSlots(x, page, i + 1)
    else
      var h := SlotAt(page, i);
      var next := i + h[2];
      if next == i || next > MAX_ENTRIES then None
      else
        var e := DecodeEntry(x, h,
          page[FIRST_ENTRY_OFFSET + SLOT_SIZE * i + SLOT_SIZE..FIRST_ENTRY_OFFSET + SLOT_SIZE * next]);
        var rest := ReadSlots(x, page, next);
        if e.None? || rest.None? then None else Some([e.value] + rest.value)
  }

  /** A page header: the sequence number expected, a known state and a matching checksum. */
  predicate PageHeaderChecks(x: Externals, page: seq<byte>, num: nat, version: Version)
    requires |page| == PAGE_SIZE
  {
    (UnLE(page[0..4]) == ACTIVE || UnLE(page[0..4]) == FULL) &&
    UnLE(page[4..8]) == num &&
    page[8] == (if version.V1? then 0xFF else 0xFE) && page[9..28] == Blank(19) &&
    UnLE(page[28..32]) == x.crc32(page[4..28], CRC_START)
  }

  /** The entries of page `num`; a page that is erased throughout holds none. */
  function ReadPage(x: Externals, page: seq<byte>, num: nat, version: Version): Option<seq<Entry>>
    requires |page| == PAGE_SIZE
  {
    if page == Blank(PAGE_SIZE) then Some([])
    else if !PageHeaderChecks(x, page, num, version) then None
    else ReadSlots(x, page, 0)
  }

  /** The entries of the first n pages of an image. */
  function ReadPages(x: Externals, image: seq<byte>, n: nat, version: Version): Option<seq<Entry>>
    requires |image| >= PAGE_SIZE * n
  {
    if n == 0 then Some([])
    else
      var before := ReadPages(x, image, n - 1, version);
      var page := ReadPage(x, image[PAGE_SIZE * (n - 1)..PAGE_SIZE * n], n - 1, version);
      if before.None? || page.None? then None else Some(before.value + page.value)
  }

  // ----- from entries to values -----

  datatype Value = IntValue(t: IntType, value: int) | StringValue(text: seq<byte>) | BlobValue(data: seq<byte>)

  datatype Record = Record(ns: byte, key: Key, value: Value)

  /** A blob of which `count` chunks were seen. */
  datatype Partial = Partial(ns: byte, key: Key, data: seq<byte>, count: nat)

  datatype Gathered = Gathered(records: seq<Record>, open: Option<Partial>) | Malformed

  function Gather(g: Gathered, e: Entry): Gathered
  {
    if g.Malformed? then Malformed
    else match e
      case IntEntry(ns, key, t, v) =>
        if g.open.Some? then Malformed else Gathered(g.records + [Record(ns, key, IntValue(t, v))], None)
      case IndexEntry(ns, key, size, count) =>
        if g.open.Some? && g.open.value == Partial(ns, key, g.open.value.data, count) && |g.open.value.data| == size
        then Gathered(g.records + [Record(ns, key, BlobValue(g.open.value.data))], None)
        else Malformed
      case DataEntry(ns, key, kind, chunk, data) =>
        if kind.BLOB_DATA? then
          if g.open.None? && chunk == 0 then g.(open := Some(Partial(ns, key, data, 1)))
          else if g.open.Some? && g.open.value == Partial(ns, key, g.open.value.data, chunk)
          then g.(open := Some(Partial(ns, key, g.open.value.data + data, chunk + 1)))
          else Malformed
        else if g.open.Some? || chunk != 0xFF then Malformed
        else if kind.BLOB? then Gathered(g.records + [Record(ns, key, BlobValue(data))], None)
        else if data == [] || data[|data| - 1] != 0 then Malformed
        else Gathered(g.records + [Record(ns, key, StringValue(data[..|data| - 1]))], None)
  }

  function GatherAll(es: seq<Entry>): Gathered {
    if es == [] then Gathered([], None) else Gather(GatherAll(es[..|es| - 1]), es[|es| - 1])
  }

  /** The values stored in an image, in the order written, or nothing if a check fails. */
  function ReadImage(x: Externals, image: seq<byte>, version: Version): Option<seq<Record>>
  {
    var es := ReadPages(x, image, |image| / PAGE_SIZE, version);
    if es.None? then None
    else
      var g := GatherAll(es.value);
      if g.Malformed? || g.open.Some? then None else Some(g.records)
  }
}
