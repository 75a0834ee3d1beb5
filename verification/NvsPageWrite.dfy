/** What one write does to the bytes of a page. */
module NvsPageWrite {
  import opened Bytes
  import opened NvsFormat

  /** b & ~(1 << k). */
  function ClearBit(b: byte, k: nat): byte
    requires k < 8
  {
    if Bit(b, k) == 1 then ClearedValue(b, k) else b
  }

  function ClearedValue(b: byte, k: nat): byte
    requires k < 8 && Bit(b, k) == 1
  {
    assert b >= Pow2(k);
    b - Pow2(k)
  }

  /** Marking slot n in a bitmap of n written slots. */
  lemma {:induction false} MarkSlot(n: nat)
    requires n < 128
    ensures Bitmap(n)[2 * n / 8 := ClearBit(Bitmap(n)[2 * n / 8], 2 * n % 8)] == Bitmap(n + 1)
  {
    var j, k := 2 * n / 8, n % 4;
    assert 2 * n % 8 == 2 * k && n == 4 * j + k;
    assert k == 0 || k == 1 || k == 2 || k == 3;
    assert ClearBit(Bitmap(n)[j], 2 * k) == BitmapByte(n + 1, j);
    forall i | 0 <= i < 32 && i != j
      ensures BitmapByte(n, i) == BitmapByte(n + 1, i)
    {
    }
  }

  /** Bit 2i of the bitmap is clear exactly for the written slots; the odd bits stay set. */
  lemma {:induction false} BitmapBits(used: nat, i: nat)
    requires i < 128
    ensures Bit(Bitmap(used)[i / 4], 2 * (i % 4)) == (if i < used then 0 else 1)
    ensures Bit(Bitmap(used)[i / 4], 2 * (i % 4) + 1) == 1
  {
    var k := i % 4;
    assert i == 4 * (i / 4) + k;
    assert k == 0 || k == 1 || k == 2 || k == 3;
  }

  // ----- one write to a page, as bytes -----

  /** The ciphertext of slot i of `data` when it goes to slot first + i of page num, under the address of
      that slot. */
  function CipherSlot(x: Externals, num: nat, first: nat, data: seq<byte>, i: nat): Slot {
    x.encrypt(LE(4096 * num + 64 + 32 * (first + i), 16), ChopSlot(data, i))
  }

  /** `stored` holds, slot by slot, the ciphertext of as much of `data`. */
  ghost predicate Enciphered(x: Externals, num: nat, first: nat, data: seq<byte>, stored: seq<byte>) {
    forall j :: 0 <= j < |stored| ==> stored[j] == CipherSlot(x, num, first, data, j / 32)[j % 32]
  }

  lemma {:induction false} EncipheredSnoc(
      x: Externals, num: nat, first: nat, data: seq<byte>, stored: seq<byte>, i: nat)
    requires Enciphered(x, num, first, data, stored) && |stored| == 32 * i
    ensures Enciphered(x, num, first, data, stored + CipherSlot(x, num, first, data, i))
  {
    hide CipherSlot;
    var more := stored + CipherSlot(x, num, first, data, i);
    forall j | |stored| <= j < |more|
      ensures more[j] == CipherSlot(x, num, first, data, j / 32)[j % 32]
    {
      assert j / 32 == i && j % 32 == j - 32 * i;
    }
  }

  /** `stored` is what goes to flash for `data` written from slot `first` on. */
  ghost predicate StoredFor(x: Externals, encrypted: bool, num: nat, first: nat, data: seq<byte>, stored: seq<byte>) {
    if encrypted then |stored| == SLOT_SIZE * NumSlots(|data|) && Enciphered(x, num, first, data, stored)
    else stored == data
  }

  function Overwrite(buf: seq<byte>, start: nat, data: seq<byte>): (s: seq<byte>)
    requires start + |data| <= |buf|
    ensures |s| == |buf|
    ensures forall j :: 0 <= j < |buf| ==> s[j] == if start <= j < start + |data| then data[j - start] else buf[j]
  {
    buf[..start] + data + buf[start + |data|..]
  }

  /** Byte j of the data area after writing `stored` behind the last slot. */
  lemma {:induction false} DataByteAfterWrite(
      x: Externals, encrypted: bool, num: u32, version: Version, slots: seq<Slot>, full: bool,
      data: seq<byte>, stored: seq<byte>, j: nat)
    requires |slots| + NumSlots(|data|) <= MAX_ENTRIES && FIRST_ENTRY_OFFSET <= j < PAGE_SIZE
    requires StoredFor(x, encrypted, num, |slots|, data, stored)
    ensures var at := j - FIRST_ENTRY_OFFSET - SLOT_SIZE * |slots|;
      PageByte(x, encrypted, num, version, slots + Chop(data), full, j)
        == if 0 <= at < |stored| then stored[at] else PageByte(x, encrypted, num, version, slots, full, j)
  {
    var k := (j - FIRST_ENTRY_OFFSET) / SLOT_SIZE;
    var at := j - FIRST_ENTRY_OFFSET - SLOT_SIZE * |slots|;
    if |slots| <= k < |slots| + NumSlots(|data|) {
      assert at / SLOT_SIZE == k - |slots| && at % SLOT_SIZE == (j - FIRST_ENTRY_OFFSET) % SLOT_SIZE;
      assert (slots + Chop(data))[k] == ChopSlot(data, k - |slots|);
      assert ChopSlot(data, k - |slots|)[at % SLOT_SIZE] == PaddedByte(data, at);
    }
  }

  /** Writing the stored bytes after the last slot and updating the bitmap extends the slots. */
  lemma {:induction false} PageAfterWrite(
      x: Externals, encrypted: bool, num: u32, version: Version, slots: seq<Slot>, full: bool,
      data: seq<byte>, stored: seq<byte>)
    requires |slots| + NumSlots(|data|) <= MAX_ENTRIES
    requires StoredFor(x, encrypted, num, |slots|, data, stored)
    ensures var buf := PageBytes(x, encrypted, num, version, slots, full);
      FIRST_ENTRY_OFFSET + SLOT_SIZE * |slots| + |stored| <= PAGE_SIZE &&
      Overwrite(Overwrite(buf, FIRST_ENTRY_OFFSET + SLOT_SIZE * |slots|, stored), BITMAP_OFFSET,
        Bitmap(|slots| + NumSlots(|data|)))
        == PageBytes(x, encrypted, num, version, slots + Chop(data), full)
  {
    var slots' := slots + Chop(data);
    var buf := PageBytes(x, encrypted, num, version, slots, full);
    var written := Overwrite(buf, FIRST_ENTRY_OFFSET + SLOT_SIZE * |slots|, stored);
    var after := Overwrite(written, BITMAP_OFFSET, Bitmap(|slots'|));
    forall j | 0 <= j < PAGE_SIZE
      ensures after[j] == PageByte(x, encrypted, num, version, slots', full, j)
    {
      assert buf[j] == PageByte(x, encrypted, num, version, slots, full, j);
      if j >= FIRST_ENTRY_OFFSET {
        hide PageByte;
        DataByteAfterWrite(x, encrypted, num, version, slots, full, data, stored, j);
      }
    }
  }

  /** Adding slots only clears bits. */
  lemma {:induction false} AddSlotsOnlyClears(
      x: Externals, encrypted: bool, num: u32, version: Version, slots: seq<Slot>, more: seq<Slot>, full: bool)
    ensures OnlyClears(PageBytes(x, encrypted, num, version, slots, full),
                       PageBytes(x, encrypted, num, version, slots + more, full))
  {
    var a := PageBytes(x, encrypted, num, version, slots, full);
    var b := PageBytes(x, encrypted, num, version, slots + more, full);
    forall j | 0 <= j < PAGE_SIZE
      ensures OnlyClearsBits(a[j], b[j])
    {
      assert a[j] == PageByte(x, encrypted, num, version, slots, full, j);
      assert b[j] == PageByte(x, encrypted, num, version, slots + more, full, j);
      if BITMAP_OFFSET <= j < FIRST_ENTRY_OFFSET {
        BitmapMonotone(|slots|, |slots + more|, j - BITMAP_OFFSET);
      } else if j >= FIRST_ENTRY_OFFSET {
        var k := (j - FIRST_ENTRY_OFFSET) / SLOT_SIZE;
        if k < |slots| { assert (slots + more)[k] == slots[k]; }
        BlankBits();
      }
    }
  }

  lemma {:induction false} BitmapAt(n: nat, j: nat)
    requires j < 32
    ensures Bitmap(n)[j] == BitmapByte(n, j)
  {
  }

  lemma {:induction false} BitmapMonotone(n: nat, n': nat, j: nat)
    requires n <= n' && j < 32
    ensures OnlyClearsBits(BitmapByte(n, j), BitmapByte(n', j))
  {
    forall k | 0 <= k < 8
      ensures Bit(BitmapByte(n', j), k) <= Bit(BitmapByte(n, j), k)
    {
      hide BitmapByte, Bit, Bitmap;
      var i := 4 * j + k / 2;
      assert i / 4 == j && i % 4 == k / 2;
      BitmapAt(n, j);
      BitmapAt(n', j);
      assert k == 2 * (i % 4) || k == 2 * (i % 4) + 1;
      BitmapBits(n, i);
      BitmapBits(n', i);
    }
  }

  lemma {:induction false} EmptyPage(x: Externals, encrypted: bool, num: u32, version: Version)
    ensures PageHeader(x, num, version, false) + Blank(PAGE_SIZE - 32)
        == PageBytes(x, encrypted, num, version, [], false)
  {
    var buf := PageHeader(x, num, version, false) + Blank(PAGE_SIZE - 32);
    forall j | 0 <= j < PAGE_SIZE
      ensures buf[j] == PageByte(x, encrypted, num, version, [], false, j)
    {
    }
  }

  /** Filling data up to one slot beforehand does not change the slots it is cut into. */
  lemma {:induction false} PaddedInput(data: seq<byte>, i: nat)
    requires i < NumSlots(|data|)
    ensures i < NumSlots(|SliceAssign(Blank(32), 0, |data|, data)|)
    ensures ChopSlot(SliceAssign(Blank(32), 0, |data|, data), i) == ChopSlot(data, i)
  {
    var padded := SliceAssign(Blank(32), 0, |data|, data);
    forall o | 0 <= o < SLOT_SIZE
      ensures ChopSlot(padded, i)[o] == ChopSlot(data, i)[o]
    {
      assert ChopSlot(padded, i)[o] == PaddedByte(padded, SLOT_SIZE * i + o);
      assert ChopSlot(data, i)[o] == PaddedByte(data, SLOT_SIZE * i + o);
    }
  }

  lemma {:induction false} BitmapUnchanged(
      x: Externals, encrypted: bool, num: u32, version: Version, slots: seq<Slot>, full: bool, at: nat,
      stored: seq<byte>)
    requires FIRST_ENTRY_OFFSET <= at && at + |stored| <= PAGE_SIZE
    ensures var written := Overwrite(PageBytes(x, encrypted, num, version, slots, full), at, stored);
      Overwrite(written, BITMAP_OFFSET, Bitmap(|slots|)) == written
  {
    var buf := PageBytes(x, encrypted, num, version, slots, full);
    forall j | BITMAP_OFFSET <= j < FIRST_ENTRY_OFFSET
      ensures buf[j] == Bitmap(|slots|)[j - BITMAP_OFFSET]
    {
      assert buf[j] == PageByte(x, encrypted, num, version, slots, full, j);
    }
  }

  /** Marking a page FULL only changes its state. */
  lemma {:induction false} SealedPage(x: Externals, encrypted: bool, num: u32, version: Version, slots: seq<Slot>)
    ensures var buf := PageBytes(x, encrypted, num, version, slots, false);
      Overwrite(buf, 0, LE(FULL, 4)) == PageBytes(x, encrypted, num, version, slots, true) &&
      OnlyClears(buf, PageBytes(x, encrypted, num, version, slots, true))
  {
    var buf := PageBytes(x, encrypted, num, version, slots, false);
    var after := PageBytes(x, encrypted, num, version, slots, true);
    forall j | 0 <= j < PAGE_SIZE
      ensures Overwrite(buf, 0, LE(FULL, 4))[j] == after[j]
      ensures OnlyClearsBits(buf[j], after[j])
    {
      assert buf[j] == PageByte(x, encrypted, num, version, slots, false, j);
      assert after[j] == PageByte(x, encrypted, num, version, slots, true, j);
      if j < 4 { StateBytes(j); }
    }
  }

  lemma {:induction false} StateBytes(j: nat)
    requires j < 4
    ensures OnlyClearsBits(LE(ACTIVE, 4)[j], LE(FULL, 4)[j])
  {
    assert LE(ACTIVE, 4) == [0xFE, 0xFF, 0xFF, 0xFF];
    assert LE(FULL, 4) == [0xFC, 0xFF, 0xFF, 0xFF];
    forall k | 0 <= k < 8
      ensures Bit(0xFC, k) <= Bit(0xFE, k)
    {
    }
  }

  // ----- preparing headers -----

  /** A header slot whose value field and checksum are still to be set. */
  ghost predicate Prepared(h: seq<byte>, ns: byte, code: byte, span: byte, chunk: byte, key: Key) {
    |h| == 32 && h[0] == ns && h[1] == code && h[2] == span && h[3] == chunk &&
    h[8..24] == PadKey(key) && h[26..28] == Blank(2)
  }

  lemma {:induction false} PreparedData(before: seq<byte>, h: seq<byte>, x: Externals, e: Entry)
    requires e.DataEntry? && e.WellFormed()
    requires Prepared(before, e.ns, e.kind.Code(), e.Span(), e.chunk, e.key)
    requires h == Overwrite(Overwrite(before, 24, LE(|e.data|, 2)), 28, LE(x.crc32(e.data, CRC_START), 4))
    ensures h[8..32] == PadKey(e.key) + DataField(x, e.data)
    ensures h[0] == e.ns && h[1] == e.kind.Code() && h[2] == e.Span() && h[3] == e.chunk
    ensures HeaderSlot(x, h[0], h[1], h[2], h[3], h[8..32]) == Header(x, e)
  {
    hide Overwrite, LE, PadKey, HeaderSlot, NumSlots;
    assert h[8..24] == before[8..24];
    assert h[24..26] == LE(|e.data|, 2) && h[26..28] == before[26..28] &&
        h[28..32] == LE(x.crc32(e.data, CRC_START), 4);
    assert h[8..32] == h[8..24] + h[24..26] + h[26..28] + h[28..32];
  }

  /** One whole slot of data is that slot. */
  lemma {:induction false} ChopOne(h: Slot)
    ensures Chop(h) == [h]
  {
    forall o | 0 <= o < 32
      ensures ChopSlot(h, 0)[o] == h[o]
    {
      assert ChopSlot(h, 0)[o] == PaddedByte(h, o);
    }
    assert ChopSlot(h, 0) == h;
  }

  lemma {:induction false} PreparedInt(h: seq<byte>, x: Externals, e: Entry)
    requires e.IntEntry? && e.WellFormed()
    requires h
        == Overwrite([e.ns, e.t.Code(), 1, CHUNK_ANY] + Blank(4) + PadKey(e.key) + Blank(8), 24, e.t.Pack(e.value))
    ensures HeaderSlot(x, h[0], h[1], h[2], h[3], h[8..32]) == Header(x, e)
  {
    assert h[8..24] == PadKey(e.key);
    assert h[24..32] == e.t.Pack(e.value) + Blank(8 - e.t.Width());
    assert h[8..32] == PadKey(e.key) + e.t.Pack(e.value) + Blank(8 - e.t.Width());
  }

  lemma {:induction false} PreparedIndex(before: seq<byte>, h: seq<byte>, x: Externals, e: Entry)
    requires e.IndexEntry? && |before| == 32 && before[0] == e.ns && before[8..24] == PadKey(e.key)
    requires var h1 := Overwrite(before, 24, Blank(8))[1 := BLOB_IDX][2 := 1][3 := CHUNK_ANY];
      h == Overwrite(h1, 24, LE(e.size, 4))[28 := e.count][29 := 0]
    ensures HeaderSlot(x, h[0], h[1], h[2], h[3], h[8..32]) == Header(x, e)
  {
    assert h[8..24] == before[8..24];
    assert h[24..28] == LE(e.size, 4) && h[30..32] == Blank(2);
    assert h[8..32] == h[8..24] + h[24..28] + [h[28], h[29]] + h[30..32];
  }

  lemma {:induction false} DataHeaderKeeps(x: Externals, e: Entry)
    requires e.DataEntry? && e.WellFormed()
    ensures var h := Header(x, e); h[0] == e.ns && h[8..24] == PadKey(e.key) && h[26..28] == Blank(2)
  {
    var h := Header(x, e);
    assert h[8..24] == PadKey(e.key);
    assert h[26..28] == DataField(x, e.data)[2..4];
  }
}
