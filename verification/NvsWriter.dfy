/** The generator's two classes. A page keeps its bytes, its bitmap and its slot counter and changes
    them in place; the NVS object opens pages and retries writes. Every method is proved against the
    functions of NvsSpec. */
module NvsWriter {
  import opened Bytes
  import opened Options
  import opened NvsFormat
  import opened NvsSpec
  import opened NvsTweak
  import opened NvsPageWrite
  import opened NvsPageRoundTrip
  import opened NvsRoundTrip

  /** buf[start:start + |data|] = data, inside the buffer. */
  method Assign(buf: array<byte>, start: nat, data: seq<byte>)
    requires start + |data| <= buf.Length
    modifies buf
    ensures buf[..] == Overwrite(old(buf[..]), start, data)
  {
    for i := 0 to |data|
      invariant buf[..start] == old(buf[..start])
      invariant buf[start..start + i] == data[..i]
      invariant buf[start + i..] == old(buf[start + i..])
    {
      buf[start + i] := data[i];
    }
    assert buf[..] == buf[..start] + buf[start..start + |data|] + buf[start + |data|..];
  }

  class Page {
    var entryNum: nat
    const version: Version
    const pageBuf: array<byte>
    const bitmapArray: array<byte>
    ghost const num: u32
    ghost const x: Externals
    ghost const encrypted: bool
    ghost var slots: seq<Slot>
    ghost var full: bool

    ghost function Footprint(): set<object> { {this, pageBuf, bitmapArray} }

    /** The representation invariant of a page in use: its bytes are those of its slots. */
    ghost predicate Valid()
      reads Footprint()
    {
      pageBuf != bitmapArray && pageBuf.Length == PAGE_SIZE && bitmapArray.Length == 32 &&
      entryNum == |slots| <= MAX_ENTRIES &&
      bitmapArray[..] == Bitmap(|slots|) &&
      pageBuf[..] == PageBytes(x, encrypted, num, version, slots, full)
    }

    /** What the invariant says of single slots: the bitmap's even bits are clear exactly below the
        slot counter, its odd bits are set, and every slot from the counter on is erased. */
    lemma {:induction false} SlotInvariant(i: nat)
      requires Valid() && i < MAX_ENTRIES
      ensures Bit(bitmapArray[i / 4], 2 * (i % 4)) == (if i < entryNum then 0 else 1)
      ensures Bit(bitmapArray[i / 4], 2 * (i % 4) + 1) == 1
      ensures pageBuf[BITMAP_OFFSET + i / 4] == bitmapArray[i / 4]
      ensures var at := FIRST_ENTRY_OFFSET + SLOT_SIZE * i;
        entryNum <= i ==> pageBuf[at..at + SLOT_SIZE] == Blank(SLOT_SIZE)
    {
      hide Bit, PageHeader, Stored;
      BitmapBits(|slots|, i);
      assert bitmapArray[i / 4] == bitmapArray[..][i / 4];
      PageSlotAt(x, encrypted, num, version, slots, full, i);
      var at := BITMAP_OFFSET + i / 4;
      assert pageBuf[at] == pageBuf[..][at] == PageByte(x, encrypted, num, version, slots, full, at);
      var page := PageBytes(x, encrypted, num, version, slots, full);
      assert pageBuf[FIRST_ENTRY_OFFSET + SLOT_SIZE * i..FIRST_ENTRY_OFFSET + SLOT_SIZE * i + SLOT_SIZE]
          == page[FIRST_ENTRY_OFFSET + SLOT_SIZE * i..FIRST_ENTRY_OFFSET + SLOT_SIZE * i + SLOT_SIZE];
    }

    constructor (pageNum: u32, version: Version, isRsrvPage: bool, x: Externals, ghost encrypted: bool)
      ensures fresh(Footprint())
      ensures this.version == version && num == pageNum && this.x == x && this.encrypted == encrypted
      ensures !isRsrvPage ==> Valid() && slots == [] && !full
      ensures isRsrvPage ==> pageBuf[..] == Blank(PAGE_SIZE)
    {
      entryNum := 0;
      this.version := version;
      pageBuf := new byte[PAGE_SIZE](i => BLANK_BYTE);
      bitmapArray := new byte[if isRsrvPage then 0 else 32](i => BLANK_BYTE);
      num, this.x, this.encrypted := pageNum, x, encrypted;
      slots, full := [], false;
      new;
      assert pageBuf[..] == Blank(PAGE_SIZE);
      if !isRsrvPage {
        SetHeader(pageNum, version, x);
        EmptyPage(x, encrypted, pageNum, version);
        assert bitmapArray[..] == Bitmap(0);
      }
    }

    method SetHeader(pageNum: u32, version: Version, x: Externals)
      requires pageBuf.Length == PAGE_SIZE
      modifies pageBuf
      ensures pageBuf[..] == PageHeader(x, pageNum, version, false) + old(pageBuf[32..])
    {
      var pageHeader := new byte[32](i => BLANK_BYTE);
      Assign(pageHeader, 0, LE(ACTIVE, 4));
      assert pageHeader[..] == LE(ACTIVE, 4) + Blank(28);
      Assign(pageHeader, 4, LE(pageNum, 4));
      assert pageHeader[..] == LE(ACTIVE, 4) + LE(pageNum, 4) + Blank(24);
      pageHeader[8] := version.Code();
      assert pageHeader[..] == LE(ACTIVE, 4) + LE(pageNum, 4) + [version.Code()] + Blank(23);
      var crcData := pageHeader[4..28];
      assert crcData == pageHeader[..][4..28] == LE(pageNum, 4) + [version.Code()] + Blank(19);
      var crc := x.crc32(crcData, CRC_START);
      Assign(pageHeader, 28, LE(crc, 4));
      assert pageHeader[..] == LE(ACTIVE, 4) + crcData + LE(crc, 4);
      assert pageHeader[..] == PageHeader(x, pageNum, version, false);
      Assign(pageBuf, 0, pageHeader[..]);
    }

    /** Marks slot `entryNum` as written. */
    method WriteBitmapArray()
      requires pageBuf != bitmapArray && pageBuf.Length == PAGE_SIZE && bitmapArray.Length == 32
      requires entryNum < MAX_ENTRIES && bitmapArray[..] == Bitmap(entryNum)
      modifies pageBuf, bitmapArray
      ensures bitmapArray[..] == Bitmap(entryNum + 1)
      ensures pageBuf[..] == Overwrite(old(pageBuf[..]), BITMAP_OFFSET, Bitmap(entryNum + 1))
    {
      var bitnum := entryNum * 2;
      var byteIdx, bitOffset := bitnum / 8, bitnum % 8;
      MarkSlot(entryNum);
      bitmapArray[byteIdx] := ClearBit(bitmapArray[byteIdx], bitOffset);
      assert bitmapArray[..] == Bitmap(entryNum)[byteIdx := ClearBit(Bitmap(entryNum)[byteIdx], bitOffset)];
      Assign(pageBuf, BITMAP_OFFSET, bitmapArray[..]);
    }

    method MarkFull()
      requires Valid() && !full
      modifies this, pageBuf
      ensures Valid() && full && slots == old(slots)
      ensures OnlyClears(old(pageBuf[..]), pageBuf[..])
    {
      SealedPage(x, encrypted, num, version, slots);
      Assign(pageBuf, 0, LE(FULL, 4));
      assert pageBuf[..] == Overwrite(old(pageBuf[..]), 0, LE(FULL, 4));
      full := true;
    }

    /** The ciphertext of one slot of `data`, given as hexadecimal text of which the slot ends at `endIdx`. */
    method EncryptSlot(
        hexData: seq<digit>, entryNo: nat, startIdx: nat, endIdx: nat, nvs: NVS, ghost data: seq<byte>, ghost i: nat)
      returns (encrDataRet: Slot)
      requires hexData == Hexlify(SliceAssign(Blank(32), 0, |data|, data)) && i < NumSlots(|data|)
      requires entryNo == entryNum + i < MAX_ENTRIES && startIdx == 64 * i && endIdx == startIdx + 64
      requires 0 <= nvs.pageNum < 0x1_0000_0000
      ensures encrDataRet == CipherSlot(nvs.x, nvs.pageNum, entryNum, data, i)
    {
      hide Hexlify, Unhexlify, TweakText, Tweak, ChopSlot, Hex, LE, SliceAssign;
      var relAddr := nvs.pageNum * PAGE_SIZE + FIRST_ENTRY_OFFSET;
      var offset := entryNo * SLOT_SIZE;
      assert relAddr + offset == SlotAddress(nvs.pageNum, entryNo);
      SlotTweak(nvs.pageNum, entryNo);
      var tweakVal := MakeTweak(relAddr + offset);
      PaddedInput(data, i);
      SlotText(SliceAssign(Blank(32), 0, |data|, data), i);
      var dataBytes := hexData[startIdx..Min(endIdx, |hexData|)];
      var dataVal := dataBytes + Digits(15, 64 - |dataBytes|);
      encrDataRet := nvs.x.encrypt(Unhexlify(tweakVal), Unhexlify(dataVal));
    }

    /** The ciphertext of `data`, slot by slot from slot `entryNum` on. */
    method EncryptData(data: seq<byte>, noOfEntries: nat, nvs: NVS) returns (encrData: seq<byte>)
      requires noOfEntries == NumSlots(|data|) && entryNum + noOfEntries <= MAX_ENTRIES
      requires 0 <= nvs.pageNum < 0x1_0000_0000
      ensures StoredFor(nvs.x, true, nvs.pageNum, entryNum, data, encrData)
    {
      hide Hexlify, CipherSlot, SliceAssign, NumSlots;
      encrData := [];
      assert Enciphered(nvs.x, nvs.pageNum, entryNum, data, []);
      hide Enciphered;
      // A bytearray is used as it is: it has 32 bytes, which this assignment keeps.
      var dataInput := SliceAssign(Blank(32), 0, |data|, data);
      var hexData := Hexlify(dataInput);
      var entryNo, startIdx, endIdx := entryNum, 0, 64;
      for i := 0 to noOfEntries
        invariant entryNo == entryNum + i && startIdx == 64 * i && endIdx == startIdx + 64
        invariant |encrData| == SLOT_SIZE * i && Enciphered(nvs.x, nvs.pageNum, entryNum, data, encrData)
      {
        var encrDataRet := EncryptSlot(hexData, entryNo, startIdx, endIdx, nvs, data, i);
        EncipheredSnoc(nvs.x, nvs.pageNum, entryNum, data, encrData, i);
        encrData := encrData + encrDataRet;
        startIdx := endIdx;
        endIdx := startIdx + 64;
        entryNo := entryNo + 1;
      }
    }

    /** What is stored for `data`: its ciphertext when the partition is encrypted. */
    method StoredData(data: seq<byte>, entryCount: nat, nvs: NVS) returns (stored: seq<byte>)
      requires entryCount == NumSlots(|data|) && entryNum + entryCount <= MAX_ENTRIES
      requires 0 <= nvs.pageNum < 0x1_0000_0000
      ensures StoredFor(nvs.x, nvs.encrypt, nvs.pageNum, entryNum, data, stored)
    {
      stored := data;
      if nvs.encrypt {
        var encrData := EncryptData(data, entryCount, nvs);
        stored := SliceAssign([], 0, |encrData|, encrData);
        assert stored == encrData;
      }
    }

    /** Writes data behind the last slot; `entryCount` is the number of slots it fills. */
    method WriteEntryToBuf(data: seq<byte>, entryCount: nat, nvs: NVS)
      requires Valid() && entryCount == NumSlots(|data|) && entryNum + entryCount <= MAX_ENTRIES
      requires nvs.x == x && nvs.encrypt == encrypted && nvs.pageNum == num
      modifies this, pageBuf, bitmapArray
      ensures Valid() && slots == old(slots) + Chop(data) && full == old(full)
      ensures OnlyClears(old(pageBuf[..]), pageBuf[..])
    {
      hide PageBytes, Bitmap, Chop, OnlyClears, StoredFor, NumSlots, Overwrite;
      var stored := StoredData(data, entryCount, nvs);
      PageAfterWrite(x, encrypted, num, version, slots, full, data, stored);
      AddSlotsOnlyClears(x, encrypted, num, version, slots, Chop(data), full);
      var dataOffset := FIRST_ENTRY_OFFSET + SLOT_SIZE * entryNum;
      ghost var before := pageBuf[..];
      Assign(pageBuf, dataOffset, stored);
      ghost var written := Overwrite(before, dataOffset, stored);
      assert pageBuf[..] == written;
      BitmapUnchanged(x, encrypted, num, version, slots, full, dataOffset, stored);
      MarkSlots(entryCount);
      slots := slots + Chop(data);
    }

    /** Marks the next `entryCount` slots as written, one after the other. */
    method MarkSlots(entryCount: nat)
      requires pageBuf != bitmapArray && pageBuf.Length == PAGE_SIZE && bitmapArray.Length == 32
      requires entryNum + entryCount <= MAX_ENTRIES && bitmapArray[..] == Bitmap(entryNum)
      requires Overwrite(pageBuf[..], BITMAP_OFFSET, Bitmap(entryNum)) == pageBuf[..]
      modifies this`entryNum, pageBuf, bitmapArray
      ensures entryNum == old(entryNum) + entryCount && bitmapArray[..] == Bitmap(entryNum)
      ensures pageBuf[..] == Overwrite(old(pageBuf[..]), BITMAP_OFFSET, Bitmap(entryNum))
    {
      hide Bitmap;
      for i := 0 to entryCount
        invariant entryNum == old(entryNum) + i
        invariant bitmapArray[..] == Bitmap(entryNum)
        invariant pageBuf[..] == Overwrite(old(pageBuf[..]), BITMAP_OFFSET, Bitmap(entryNum))
      {
        WriteBitmapArray();
        entryNum := entryNum + 1;
      }
    }

    /** The same write, seen from the partition: the current page holds more slots. */
    method WriteSlots(data: seq<byte>, entryCount: nat, nvs: NVS, ghost extra: seq<Slot>)
      requires nvs.Holds(extra) && this == nvs.curPage && entryCount == NumSlots(|data|)
      requires nvs.model.HasRoom(|extra| + entryCount)
      modifies this, pageBuf, bitmapArray
      ensures nvs.Holds(extra + Chop(data))
    {
      hide PageBytes, PageSlots, Bitmap, WellFormedPage, Chop, OnlyClears;
      ghost var last := |nvs.pages| - 1;
      assert nvs.PageHolds(last, extra);
      WriteEntryToBuf(data, entryCount, nvs);
      forall i | 0 <= i < |nvs.pages|
        ensures nvs.PageHolds(i, extra + Chop(data))
      {
        assert old(nvs.PageHolds(i, extra));
        assert i < last ==> nvs.pages[i].Footprint() !! Footprint();
      }
    }

    /** Computes the checksum of a header slot. */
    method SetCrcHeader(entryStruct: array<byte>, x: Externals)
      requires entryStruct.Length == 32
      modifies entryStruct
      ensures entryStruct[..]
          == old(HeaderSlot(x, entryStruct[0], entryStruct[1], entryStruct[2], entryStruct[3], entryStruct[8..32]))
    {
      var crcData: seq<byte> := [0x32, 0x38];
      crcData := SliceAssign(crcData, 0, 4, entryStruct[0..4]);
      crcData := SliceAssign(crcData, 4, 28, entryStruct[8..32]);
      ghost var front := [entryStruct[0], entryStruct[1], entryStruct[2], entryStruct[3]];
      assert crcData == front + entryStruct[8..32];
      var crc := x.crc32(crcData, CRC_START);
      Assign(entryStruct, 4, LE(crc, 4));
      assert entryStruct[..] == front + LE(crc, 4) + old(entryStruct[8..32]);
    }

    /** Completes a prepared header for `data`. */
    method SetDataHeader(entryStruct: array<byte>, data: seq<byte>, x: Externals, ghost e: Entry)
      requires e.DataEntry? && e.data == data && e.WellFormed()
      requires Prepared(entryStruct[..], e.ns, e.kind.Code(), e.Span(), e.chunk, e.key)
      modifies entryStruct
      ensures entryStruct[..] == Header(x, e)
    {
      hide LE, Blank, PadKey, HeaderSlot, Header, Overwrite;
      Assign(entryStruct, 24, LE(|data|, 2));
      var crc := x.crc32(data, CRC_START);
      Assign(entryStruct, 28, LE(crc, 4));
      PreparedData(old(entryStruct[..]), entryStruct[..], x, e);
      SetCrcHeader(entryStruct, x);
    }

    /** Completes a prepared header for `data` and writes both. */
    method WriteDataEntry(entryStruct: array<byte>, data: seq<byte>, dataEntryCount: nat, nvs: NVS, ghost e: Entry)
      requires nvs.Holds([]) && this == nvs.curPage && entryStruct !in nvs.repr
      requires e.DataEntry? && e.data == data && e.WellFormed() && dataEntryCount == NumSlots(|data|)
      requires nvs.model.HasRoom(e.Span())
      requires Prepared(entryStruct[..], e.ns, e.kind.Code(), e.Span(), e.chunk, e.key)
      modifies this, pageBuf, bitmapArray, entryStruct, nvs`model
      ensures nvs.Holds([]) && nvs.model == old(nvs.model).Add(e)
      ensures entryStruct[..] == Header(nvs.x, e)
    {
      hide PageBytes, PageSlots, Bitmap, WellFormedPage, Chop, Page.Valid, NVS.PageHolds, Writable, Header, Prepared;
      SetDataHeader(entryStruct, data, nvs.x, e);
      WriteSlots(entryStruct[..], 1, nvs, []);
      ChopOne(entryStruct[..]);
      WriteSlots(data, dataEntryCount, nvs, [] + Chop(entryStruct[..]));
      assert [] + Chop(entryStruct[..]) + Chop(data) == Slots(nvs.x, e);
      nvs.Commit(e);
    }

    /** An erased header slot with its first bytes and its key set. */
    method NewEntryStruct(ns: byte, code: byte, span: byte, key: Key) returns (entryStruct: array<byte>)
      ensures fresh(entryStruct) && entryStruct.Length == 32
      ensures entryStruct[..] == [ns, code, span, CHUNK_ANY] + Blank(4) + PadKey(key) + Blank(8)
    {
      entryStruct := new byte[32](i => BLANK_BYTE);
      entryStruct[0] := ns;
      entryStruct[1] := code;
      entryStruct[2] := span;
      entryStruct[3] := CHUNK_ANY;
      ghost var head := [ns, code, span, CHUNK_ANY] + Blank(4);
      assert entryStruct[..] == head + Blank(24);
      Assign(entryStruct, 8, Zeros(16));
      assert entryStruct[..] == head + Zeros(16) + Blank(8);
      Assign(entryStruct, 8, key);
      assert entryStruct[..] == head + PadKey(key) + Blank(8);
    }

    method WritePrimitiveData(key: Key, data: int, encoding: IntType, nsIndex: nat, nvs: NVS) returns (o: Outcome)
      requires nvs.Holds([]) && this == nvs.curPage
      modifies this, pageBuf, bitmapArray, nvs`model
      ensures nvs.Holds([]) && Step(nvs.model, o) == WriteInt(old(nvs.model), key, encoding, data, nsIndex)
    {
      hide PageBytes, PageSlots, Bitmap, WellFormedPage, Chop, Used, NVS.PageHolds, Header, Writable, HeaderSlot,
        Page.Valid;
      nvs.CurrentUsed();
      if entryNum >= MAX_ENTRIES {
        return PageFull;
      }
      if nsIndex > 255 || !encoding.InRange(data) {
        return ValueError;
      }
      ghost var e := IntEntry(nsIndex, key, encoding, data);
      var entryStruct := NewEntryStruct(nsIndex, encoding.Code(), 1, key);
      Assign(entryStruct, 24, encoding.Pack(data));
      PreparedInt(entryStruct[..], nvs.x, e);
      SetCrcHeader(entryStruct, nvs.x);
      ChopOne(entryStruct[..]);
      WriteSlots(entryStruct[..], 1, nvs, []);
      assert [] + Chop(entryStruct[..]) == Slots(nvs.x, e) by { assert |Chop([])| == 0; }
      nvs.Commit(e);
      return Done;
    }

    /** Turns the header slot of the last chunk into the header of the blob's index entry. */
    method SetIndexHeader(entryStruct: array<byte>, dataSize: u32, chunkCount: byte, x: Externals, ghost e: Entry)
      requires e.IndexEntry? && e.size == dataSize && e.count == chunkCount
      requires HeaderFor(entryStruct, e.ns, e.key)
      modifies entryStruct
      ensures entryStruct[..] == Header(x, e)
    {
      hide Header, HeaderSlot, Overwrite, LE, Blank;
      Assign(entryStruct, 24, Blank(8));
      entryStruct[1] := BLOB_IDX;
      entryStruct[2] := 1;
      entryStruct[3] := CHUNK_ANY;
      Assign(entryStruct, 24, LE(dataSize, 4));
      entryStruct[28] := chunkCount;
      entryStruct[29] := 0;
      PreparedIndex(old(entryStruct[..]), entryStruct[..], x, e);
      SetCrcHeader(entryStruct, x);
    }

    /** The index entry of a blob. */
    method WriteIndexEntry(entryStruct: array<byte>, dataSize: u32, chunkCount: byte, nvs: NVS, ghost e: Entry)
      requires nvs.Holds([]) && this == nvs.curPage && entryStruct !in nvs.repr
      requires e.IndexEntry? && e.size == dataSize && e.count == chunkCount
      requires nvs.model.HasRoom(1)
      requires HeaderFor(entryStruct, e.ns, e.key)
      modifies this, pageBuf, bitmapArray, entryStruct, nvs`model
      ensures nvs.Holds([]) && nvs.model == old(nvs.model).Add(e)
    {
      hide PageBytes, PageSlots, Bitmap, WellFormedPage, Chop, Page.Valid, NVS.PageHolds, Header, Writable;
      SetIndexHeader(entryStruct, dataSize, chunkCount, nvs.x, e);
      ChopOne(entryStruct[..]);
      WriteSlots(entryStruct[..], 1, nvs, []);
      assert [] + Chop(entryStruct[..]) == Slots(nvs.x, e) by { assert |Chop([])| == 0; }
      nvs.Commit(e);
    }

    /** Sets the fields of the shared header that differ between chunks, and writes one of them. */
    method WriteChunkEntry(
        entryStruct: array<byte>, nsIndex: byte, key: Key, dataChunk: seq<byte>, chunkCount: byte, nvs: NVS)
      requires nvs.Holds([]) && this == nvs.curPage && nvs.model.HasRoom(NumSlots(|dataChunk|) + 1)
      requires entryStruct !in nvs.repr && HeaderFor(entryStruct, nsIndex, key)
      modifies this, pageBuf, bitmapArray, entryStruct, nvs`model
      ensures nvs.Holds([])
      ensures nvs.model == old(nvs.model).Add(DataEntry(nsIndex, key, BLOB_DATA, chunkCount, dataChunk))
      ensures HeaderFor(entryStruct, nsIndex, key)
    {
      hide PageBytes, PageSlots, Bitmap, WellFormedPage, Used, Page.Valid, NVS.PageHolds, Header, Writable, Blank,
        PadKey;
      var datachunkEntryCount := (|dataChunk| + 31) / 32;
      entryStruct[1] := BLOB_DATA.Code();
      entryStruct[2] := datachunkEntryCount + 1;
      entryStruct[3] := chunkCount;
      ghost var e := DataEntry(nsIndex, key, BLOB_DATA, chunkCount, dataChunk);
      WriteDataEntry(entryStruct, dataChunk, datachunkEntryCount, nvs, e);
      DataHeaderKeeps(nvs.x, e);
    }

    /** One round of splitting: as much data as the page takes, and a new page when it is used up. */
    method WriteChunk(
        entryStruct: array<byte>, nsIndex: byte, key: Key, data: seq<byte>, offset: nat, chunkCount: nat, nvs: NVS)
      returns (o: Outcome, chunkSize: nat)
      requires nvs.Valid() && this == nvs.curPage && nvs.model.HasRoom(1) && offset <= |data|
      requires entryStruct !in nvs.repr && HeaderFor(entryStruct, nsIndex, key)
      modifies nvs, nvs.repr, entryStruct
      ensures nvs.Valid() && fresh(nvs.repr - old(nvs.repr))
      ensures HeaderFor(entryStruct, nsIndex, key)
      ensures Step(nvs.model, o) == PutChunk(old(nvs.model), nsIndex, key, data, offset, chunkCount)
      ensures offset + chunkSize == ChunkEnd(old(nvs.model), data, offset)
    {
      hide PageBytes, PageSlots, Bitmap, WellFormedPage, Used, Page.Valid, NVS.PageHolds, Writable, HeaderFor;
      nvs.CurrentUsed();
      var tailroom := (MAX_ENTRIES - entryNum - 1) * SLOT_SIZE;
      var remainingSize := |data| - offset;
      chunkSize := if tailroom < remainingSize then tailroom else remainingSize;
      remainingSize := remainingSize - chunkSize;
      if chunkCount > 255 {
        return ValueError, chunkSize;
      }
      var dataChunk := data[offset..offset + chunkSize];
      WriteChunkEntry(entryStruct, nsIndex, key, dataChunk, chunkCount, nvs);
      o := Done;
      if remainingSize > 0 || tailroom - chunkSize < SLOT_SIZE {
        o := nvs.CreateNewPage(false);
      }
    }

    /** Splits a blob into chunks over as many pages as it takes, then writes its index. */
    method WriteVarlenBinaryData(entryStruct: array<byte>, nsIndex: byte, key: Key, data: seq<byte>, nvs: NVS)
      returns (o: Outcome)
      requires nvs.Valid() && this == nvs.curPage && nvs.model.HasRoom(1)
      requires entryStruct !in nvs.repr && HeaderFor(entryStruct, nsIndex, key)
      modifies nvs, nvs.repr, entryStruct
      ensures nvs.Valid() && fresh(nvs.repr - old(nvs.repr))
      ensures Step(nvs.model, o) == WriteChunks(old(nvs.model), nsIndex, key, data, 0, 0)
    {
      hide PageBytes, PageSlots, Bitmap, WellFormedPage, Used, Page.Valid, PutChunk, NVS.PageHolds;
      var page: Page := this;
      var chunkCount, offset := 0, 0;
      while true
        invariant nvs.Valid() && fresh(nvs.repr - old(nvs.repr)) && page == nvs.curPage
        invariant nvs.model.Open() && nvs.model.HasRoom(1)
        invariant entryStruct !in nvs.repr && HeaderFor(entryStruct, nsIndex, key)
        invariant offset <= |data|
        invariant WriteChunks(old(nvs.model), nsIndex, key, data, 0, 0)
            == WriteChunks(nvs.model, nsIndex, key, data, offset, chunkCount)
        decreases |data| - offset, Used(nvs.model.Current())
      {
        var chunkSize;
        o, chunkSize := page.WriteChunk(entryStruct, nsIndex, key, data, offset, chunkCount, nvs);
        if o != Done {
          return;
        }
        page := nvs.curPage;
        chunkCount := chunkCount + 1;
        offset := offset + chunkSize;
        if offset == |data| {
          if |data| > 0xFFFF_FFFF || chunkCount > 255 {
            return ValueError;
          }
          page.WriteIndexEntry(entryStruct, |data|, chunkCount, nvs, IndexEntry(nsIndex, key, |data|, chunkCount));
          return Done;
        }
      }
    }

    /** Strings and blobs; `data` of a string ends with its terminating zero. */
    method WriteVarlenData(key: Key, data: seq<byte>, isString: bool, nsIndex: nat, nvs: NVS) returns (o: Outcome)
      requires nvs.Valid() && this == nvs.curPage && nsIndex == nvs.namespaceIdx
      modifies nvs, nvs.repr
      ensures nvs.Valid() && fresh(nvs.repr - old(nvs.repr))
      ensures Step(nvs.model, o) == WriteVarlen(old(nvs.model), key, isString, data)
    {
      hide PageBytes, PageSlots, Bitmap, WellFormedPage, Used, Page.Valid, WriteChunks, NVS.PageHolds;
      nvs.CurrentUsed();
      var datalen := |data|;
      var maxBlobSize := nvs.version.MaxBlobSize();
      var blobLimitApplies := nvs.version.V1? || isString;
      if blobLimitApplies && datalen > maxBlobSize {
        return InputError;
      }
      var dataEntryCount := (datalen + 31) / 32;
      var totalEntryCount := dataEntryCount + 1;
      if entryNum >= MAX_ENTRIES {
        return PageFull;
      } else if entryNum + totalEntryCount >= MAX_ENTRIES {
        if !(nvs.version.V2? && !isString) {
          return PageFull;
        }
      }
      if nsIndex > 255 {
        return ValueError;
      }
      var kind := if isString then SZ else BLOB;
      if nvs.version.V2? && !isString {
        var entryStruct := NewEntryStruct(nsIndex, kind.Code(), BLANK_BYTE, key);
        HeaderOfNew(entryStruct, nsIndex, kind.Code(), BLANK_BYTE, key);
        o := WriteVarlenBinaryData(entryStruct, nsIndex, key, data, nvs);
      } else {
        var entryStruct := NewEntryStruct(nsIndex, kind.Code(), totalEntryCount, key);
        HeaderOfNew(entryStruct, nsIndex, kind.Code(), totalEntryCount, key);
        ghost var e := DataEntry(nsIndex, key, kind, CHUNK_ANY, data);
        WriteDataEntry(entryStruct, data, dataEntryCount, nvs, e);
        o := Done;
      }
    }
  }

  lemma {:induction false} HeaderOfNew(entryStruct: array<byte>, ns: byte, code: byte, span: byte, key: Key)
    requires entryStruct[..] == [ns, code, span, CHUNK_ANY] + Blank(4) + PadKey(key) + Blank(8)
    ensures HeaderFor(entryStruct, ns, key)
    ensures Prepared(entryStruct[..], ns, code, span, CHUNK_ANY, key)
  {
    var h := [ns, code, span, CHUNK_ANY] + Blank(4) + PadKey(key) + Blank(8);
    assert h[8..24] == PadKey(key) && h[26..28] == Blank(2);
    assert entryStruct[8..24] == entryStruct[..][8..24] && entryStruct[26..28] == entryStruct[..][26..28];
  }

  /** A header slot shared by the chunks of a blob: its namespace and key stay. */
  predicate HeaderFor(entryStruct: array<byte>, ns: byte, key: Key)
    reads entryStruct
  {
    entryStruct.Length == 32 && entryStruct[0] == ns && entryStruct[8..24] == PadKey(key) &&
      entryStruct[26..28] == Blank(2)
  }

  class NVS {
    var size: Option<int>
    const encrypt: bool
    const x: Externals
    const version: Version
    var namespaceIdx: nat
    var pageNum: int
    var pages: seq<Page>
    var curPage: Page?
    ghost var model: State
    ghost var repr: set<object>

    /** Page i holds the entries of the model; the current one may hold some slots more. */
    ghost predicate PageHolds(i: nat, extra: seq<Slot>)
      requires i < |model.pages| <= |pages| && model.WellFormed()
      reads `pages, `model, pages[i].Footprint()
    {
      var p := pages[i];
      p.Valid() && p.num == i && p.version == version && p.x == x && p.encrypted == encrypt &&
      p.slots == model.SlotsOf(x, i) + (if i == |model.pages| - 1 then extra else []) &&
      p.full == (i < |model.pages| - 1 || model.sealed)
    }

    ghost predicate Separated()
      reads `pages, `repr
    {
      this !in repr &&
      (forall i :: 0 <= i < |pages| ==> pages[i].Footprint() <= repr) &&
      (forall i, j :: 0 <= i < j < |pages| ==> pages[i].Footprint() !! pages[j].Footprint())
    }

    /** The pages hold what the model says; `extra` slots of an unfinished entry are not yet in it. */
    ghost predicate Holds(extra: seq<Slot>)
      reads `pageNum, `pages, `curPage, `repr, `model, `namespaceIdx, repr
    {
      Separated() && Writable(model) &&
      |pages| == |model.pages| && pageNum == |pages| - 1 && model.version == version && model.ns == namespaceIdx &&
      (if pages == [] then curPage == null && !model.sealed else curPage == pages[|pages| - 1]) &&
      forall i :: 0 <= i < |pages| ==> PageHolds(i, extra)
    }

    /** All pages of the model, then the blank reserved page. */
    ghost predicate Closed()
      reads this, repr
    {
      Separated() && Writable(model) && model.version == version && model.sealed && model.free == 0 &&
      |pages| == |model.pages| + 1 &&
      (forall i :: 0 <= i < |model.pages| ==> PageHolds(i, [])) &&
      pages[|pages| - 1].pageBuf[..] == Blank(PAGE_SIZE)
    }

    ghost predicate Valid()
      reads this, repr
    {
      Holds([]) && size == Some(PAGE_SIZE * model.free)
    }

    constructor (inputSize: int, version: Version, encrypt: bool, x: Externals)
      requires Addressable(inputSize) && inputSize % PAGE_SIZE == 0
      ensures Valid() && fresh(repr)
      ensures model == Opened(version, inputSize) && this.encrypt == encrypt && this.x == x
    {
      size := Some(inputSize);
      this.encrypt, this.version, this.x := encrypt, version, x;
      namespaceIdx, pageNum, pages, curPage := 0, -1, [], null;
      model, repr := State(version, [], inputSize / PAGE_SIZE, 0, false), {};
      new;
      var o := CreateNewPage(false);
    }

    /** Advancing the namespace counter leaves every page as it was. */
    twostate lemma RowStarts()
      requires old(Holds([])) && pages == old(pages) && curPage == old(curPage) && repr == old(repr) &&
          pageNum == old(pageNum)
      requires model == old(model).(ns := namespaceIdx)
      requires unchanged(repr)
      ensures Holds([])
    {
      hide PageBytes, PageSlots, Bitmap, WellFormedPage, Used, Page.Valid;
      forall i | 0 <= i < |pages|
        ensures PageHolds(i, [])
      {
        assert old(PageHolds(i, []));
      }
    }

    /** The slot counter of the current page is the space its entries take. */
    lemma {:induction false} CurrentUsed()
      requires Holds([]) && model.Open()
      ensures curPage.entryNum == Used(model.Current()) <= MAX_ENTRIES
    {
      hide PageBytes, PageSlots, Bitmap, Used;
      assert PageHolds(|pages| - 1, []);
    }

    /** The slots of a whole entry were written: it becomes part of the contents. */
    ghost method Commit(e: Entry)
      requires model.Open() && e.WellFormed() && model.HasRoom(e.Span()) && Holds(Slots(x, e))
      modifies this`model
      ensures Holds([]) && model == old(model).Add(e)
    {
      hide PageBytes, PageSlots, Bitmap, WellFormedPage, Page.Valid, Slots;
      AddKeeps(model, e);
      assert model.Current() in model.pages;
      WellFormedEntries(model.Current());
      PageSlotsSnoc(x, model.Current(), e);
      model := model.Add(e);
      forall i | 0 <= i < |pages|
        ensures PageHolds(i, [])
      {
        assert old(PageHolds(i, Slots(x, e)));
      }
    }

    method CreateNewPage(isRsrvPage: bool) returns (o: Outcome)
      requires Holds([])
      requires
        if isRsrvPage then size.None? && model.sealed && model.free == 0 else size == Some(PAGE_SIZE * model.free)
      modifies this, repr
      ensures fresh(repr - old(repr)) && repr >= old(repr)
      ensures !isRsrvPage ==> Valid() && Step(model, o) == NewPage(old(model))
      ensures isRsrvPage ==> Closed() && model == old(model)
    {
      MarkPreviousFull();
      if size == Some(0) {
        return InsufficientSize;
      }
      if isRsrvPage {
        AppendReservedPage();
      } else {
        size := Some(size.value - PAGE_SIZE);
        AppendPage();
      }
      o := Done;
    }

    /** A page that no write concerns holds what it held. */
    twostate lemma PageKept(i: nat)
      requires old(model.WellFormed()) && model.WellFormed()
      requires i < old(|model.pages|) <= old(|pages|) && i < |model.pages| <= |pages|
      requires old(PageHolds(i, []))
      requires pages[i] == old(pages[i]) && model.pages[i] == old(model.pages[i])
      requires (i < |model.pages| - 1 || model.sealed) == old(i < |model.pages| - 1 || model.sealed)
      requires unchanged(pages[i]) && unchanged(pages[i].pageBuf) && unchanged(pages[i].bitmapArray)
      ensures PageHolds(i, [])
    {
      hide PageBytes, PageSlots, Bitmap, WellFormedPage;
    }

    /** A new page shares nothing with the pages before. */
    twostate lemma StaysSeparated(new p: Page)
      requires old(Separated()) && this !in p.Footprint() && p.Footprint() !! old(repr)
      requires pages == old(pages) + [p] && repr == old(repr) + p.Footprint()
      ensures Separated()
    {
    }

    /** Adds a page in use; the last one was marked FULL. */
    method AppendPage()
      requires Holds([]) && model.free > 0 && (model.Open() ==> model.sealed)
      modifies this`pageNum, this`pages, this`curPage, this`repr, this`model
      ensures fresh(repr - old(repr)) && repr >= old(repr)
      ensures Holds([]) && model == NewPage(old(model)).st
    {
      hide PageBytes, PageSlots, Bitmap, WellFormedPage, Page.Valid, Used, NVS.PageHolds;
      pageNum := pageNum + 1;
      var newPage := new Page(pageNum, version, false, x, encrypt);
      pages := pages + [newPage];
      curPage := newPage;
      repr := repr + newPage.Footprint();
      StaysSeparated(newPage);
      hide Separated;
      NewPageKeeps(model);
      model := NewPage(model).st;
      forall i | 0 <= i < |pages| - 1
        ensures PageHolds(i, [])
      {
        PageKept(i);
      }
      EmptyPageHolds();
    }

    /** A page just opened. */
    lemma {:induction false} EmptyPageHolds()
      requires model.WellFormed() && model.Open() && |model.pages| == |pages| && model.Current() == [] && !model.sealed
      requires var p := pages[|pages| - 1];
        p.Valid() && p.num == |pages| - 1 && p.version == version && p.x == x && p.encrypted == encrypt &&
          p.slots == [] && !p.full
      ensures PageHolds(|pages| - 1, [])
    {
      hide PageBytes, PageSlots, Bitmap, WellFormedPage, Used, Page.Valid;
      EmptyPageSlots(x);
    }

    method AppendReservedPage()
      requires Holds([]) && model.free == 0 && model.sealed
      modifies this`pageNum, this`pages, this`curPage, this`repr
      ensures fresh(repr - old(repr)) && repr >= old(repr)
      ensures Closed()
    {
      hide PageBytes, PageSlots, Bitmap, WellFormedPage, Page.Valid;
      pageNum := pageNum + 1;
      var newPage := new Page(pageNum, version, true, x, encrypt);
      pages := pages + [newPage];
      curPage := newPage;
      repr := repr + newPage.Footprint();
      forall i | 0 <= i < |model.pages|
        ensures PageHolds(i, [])
      {
        assert old(PageHolds(i, []));
      }
    }

    /** The page in use until now becomes FULL. */
    method MarkPreviousFull()
      requires Holds([])
      modifies this`model, if curPage == null then {} else curPage.Footprint()
      ensures Holds([]) && model == old(model).(sealed := old(model).Open())
    {
      hide PageBytes, PageSlots, Bitmap, WellFormedPage, UnLE, OnlyClears;
      if pages != [] {
        var last := |pages| - 1;
        assert PageHolds(last, []);
        var currPageState := UnLE(curPage.pageBuf[0..4]);
        PageState(x, encrypt, curPage.num, version, curPage.slots, curPage.full);
        assert curPage.pageBuf[0..4] == curPage.pageBuf[..][0..4];
        if currPageState == ACTIVE {
          curPage.MarkFull();
        }
        model := model.(sealed := true);
        assert PageHolds(last, []);
        hide PageHolds, Page.Valid;
        forall i | 0 <= i < last
          ensures PageHolds(i, [])
        {
          assert pages[i].Footprint() !! curPage.Footprint();
          PageKept(i);
        }
      }
    }

    /** Accounting while writing: size and pages add up, pages are numbered, only the last is ACTIVE. */
    lemma {:induction false} Accounting(i: nat)
      requires Valid() && i < |pages|
      ensures size.value + PAGE_SIZE * |pages| == PAGE_SIZE * model.Total()
      ensures pages[i].pageBuf.Length == PAGE_SIZE
      ensures UnLE(pages[i].pageBuf[0..4]) == if i < |pages| - 1 || model.sealed then FULL else ACTIVE
      ensures UnLE(pages[i].pageBuf[4..8]) == i
    {
      hide PageBytes, PageSlots, Bitmap, WellFormedPage, Used;
      assert PageHolds(i, []);
      var p := pages[i];
      PageState(x, encrypt, p.num, version, p.slots, p.full);
      assert p.pageBuf[0..4] == p.pageBuf[..][0..4] && p.pageBuf[4..8] == p.pageBuf[..][4..8];
    }

    /** Opens a namespace: all later entries are mapped to it. */
    method WriteNamespace(key: Key) returns (o: Outcome)
      requires Valid() && model.Open()
      modifies this, repr
      ensures Valid() && fresh(repr - old(repr))
      ensures Step(model, o) == WriteRow(old(model), NamespaceRow(key))
    {
      hide PageBytes, PageSlots, Bitmap, WellFormedPage, Used, Page.Valid;
      namespaceIdx := namespaceIdx + 1;
      model := model.(ns := model.ns + 1);
      RowStarts();
      o := curPage.WritePrimitiveData(key, namespaceIdx, U8, 0, this);
      if o == PageFull {
        o := CreateNewPage(false);
        if o == Done {
          o := curPage.WritePrimitiveData(key, namespaceIdx, U8, 0, this);
        }
      }
    }

    /** Writes a value, on a new page when the current one is full. */
    method WriteEntry(row: Row) returns (o: Outcome)
      requires Valid() && model.Open() && !row.NamespaceRow? && |row.key| <= 15
      modifies this, repr
      ensures Valid() && fresh(repr - old(repr))
      ensures Step(model, o) == WriteRow(old(model), row)
    {
      hide PageBytes, PageSlots, Bitmap, WellFormedPage, Used, Page.Valid, NVS.PageHolds, WriteVarlen;
      o := WriteOnCurrentPage(row);
      if o == PageFull {
        assert model == old(model) by { AttemptKeeps(old(model), row); }
        o := CreateNewPage(false);
        if o == Done {
          o := WriteOnCurrentPage(row);
        }
      }
    }

    method WriteOnCurrentPage(row: Row) returns (o: Outcome)
      requires Valid() && model.Open() && !row.NamespaceRow? && |row.key| <= 15
      modifies this, repr
      ensures Valid() && fresh(repr - old(repr))
      ensures Step(model, o) == Attempt(old(model), row)
    {
      hide PageBytes, PageSlots, Bitmap, WellFormedPage, Used, Page.Valid, NVS.PageHolds, WriteVarlen;
      match row
      case IntRow(key, t, value) => o := curPage.WritePrimitiveData(key, value, t, namespaceIdx, this);
      case StringRow(key, text) => o := curPage.WriteVarlenData(key, text + [0], true, namespaceIdx, this);
      case BlobRow(key, data) => o := curPage.WriteVarlenData(key, data, false, namespaceIdx, this);
      case UnsupportedRow(_) => o := InputError;
    }

    lemma {:induction false} ClosedPageBytes(i: nat)
      requires Closed() && i < |pages|
      ensures pages[i].pageBuf[..] == ClosedPage(x, encrypt, model, i)
    {
      hide PageBytes, PageSlots, Bitmap, WellFormedPage, Used, Blank;
      if i < |model.pages| {
        assert PageHolds(i, []);
        assert ClosedPages(model) == model.pages;
        assert pages[i].slots == model.SlotsOf(x, i);
      }
    }

    /** The bytes of all pages in order. */
    method GetBinaryData() returns (data: seq<byte>)
      requires Closed()
      ensures data == Image(x, encrypt, model)
    {
      hide PageBytes, PageSlots, Bitmap, WellFormedPage, Used, Blank;
      data := [];
      ghost var ps := ImagePages(x, encrypt, model);
      for i := 0 to |pages|
        invariant data == Join(ps[..i])
      {
        ClosedPageBytes(i);
        assert ps[..i + 1] == ps[..i] + [ps[i]];
        JoinSnoc(ps[..i], ps[i]);
        data := data + pages[i].pageBuf[..];
      }
      assert ps[..|pages|] == ps;
    }

    /** Fills the partition with empty pages, adds the reserved page and delivers the image. */
    method Exit() returns (result: seq<byte>)
      requires Valid() && model.Open()
      modifies this, repr
      ensures result == Image(x, encrypt, old(model))
    {
      hide PageBytes, PageSlots, Bitmap, WellFormedPage, Used, Page.Valid, NVS.PageHolds, Image;
      while true
        invariant Valid() && model.Open() && fresh(repr - old(repr))
        invariant Image(x, encrypt, model) == Image(x, encrypt, old(model))
        decreases model.free
      {
        NewPageSameImage(x, encrypt, model);
        var o := CreateNewPage(false);
        if o == InsufficientSize {
          size := None;
          o := CreateNewPage(true);
          break;
        }
      }
      result := GetBinaryData();
    }
  }

  /** Partition size from the command line, less the reserved page; rejected when not a multiple of
      the page size or smaller than three pages. */
  function CheckSize(size: int): (inputSize: Option<int>)
    ensures inputSize.Some? <==> size % 4096 == 0 && size >= 0x3000
    ensures inputSize.Some? ==> inputSize.value == size - 4096
  {
    if size % PAGE_SIZE != 0 then None
    else if size - PAGE_SIZE < 2 * PAGE_SIZE then None
    else Some(size - PAGE_SIZE)
  }

  /** A whole run: an image of exactly the requested size, or the error of the first row that fails. */
  method Generate(rows: seq<Row>, size: int, version: Version, encrypt: bool, x: Externals)
    returns (o: Outcome, image: seq<byte>)
    requires CheckSize(size).Some? && size <= PAGE_SIZE * 0x1_0000_0000
    ensures o == Run(Opened(version, size - PAGE_SIZE), rows).outcome
    ensures o == Done ==> Writable(Run(Opened(version, size - PAGE_SIZE), rows).st)
    ensures o == Done ==> image == Image(x, encrypt, Run(Opened(version, size - PAGE_SIZE), rows).st)
    ensures o == Done ==> |image| == size
    ensures o != Done ==> image == []
  {
    hide PageBytes, PageSlots, Bitmap, WellFormedPage, Used, Page.Valid, NVS.PageHolds, Image, WriteRow;
    var inputSize := CheckSize(size).value;
    var nvs := new NVS(inputSize, version, encrypt, x);
    image := [];
    assert Run(nvs.model, []) == Step(nvs.model, Done);
    for i := 0 to |rows|
      invariant nvs.Valid() && nvs.model.Open() && fresh(nvs) && fresh(nvs.repr)
      invariant nvs.x == x && nvs.encrypt == encrypt
      invariant Run(Opened(version, inputSize), rows) == Run(nvs.model, rows[i..])
    {
      var row := rows[i];
      assert rows[i..][0] == row && rows[i..][1..] == rows[i + 1..];
      if |row.key| > 15 {
        return InputError, [];
      }
      WriteRowKeeps(nvs.model, row);
      if row.NamespaceRow? {
        o := nvs.WriteNamespace(row.key);
      } else {
        o := nvs.WriteEntry(row);
      }
      if o != Done {
        return;
      }
    }
    o := Done;
    assert rows[|rows|..] == [];
    ImageSize(x, encrypt, version, inputSize, rows);
    image := nvs.Exit();
  }
}
