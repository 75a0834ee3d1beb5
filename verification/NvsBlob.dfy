/** What storing a chunked blob costs, in closed form, and how its chunks divide the data. */
module NvsBlob {
  import opened Bytes
  import opened NvsFormat
  import opened NvsSpec
  import opened NvsRoundTrip

  const CHUNK_MAX := 4000

  /** The number of chunks for n bytes when the first one starts at slot e: what the first page
      takes behind the chunk's header, then pieces of 125 slots. */
  function ChunkCount(n: nat, e: nat): nat
    requires e < MAX_ENTRIES
  {
    var first := SLOT_SIZE * (MAX_ENTRIES - 1 - e);
    if n <= first then 1 else 1 + (n - first + CHUNK_MAX - 1) / CHUNK_MAX
  }

  /** The slot, counted from the start of the first page, at which the index entry goes: behind one
      header for each chunk and the slots of the data. */
  function IndexSlot(n: nat, e: nat): nat
    requires e < MAX_ENTRIES
  {
    e + ChunkCount(n, e) + NumSlots(n)
  }

  /** Filling up a page with part of the data leaves the same problem for the rest on a new page. */
  lemma {:induction false} CostStep(n: nat, e: nat)
    requires e < MAX_ENTRIES && n > SLOT_SIZE * (MAX_ENTRIES - 1 - e)
    ensures var rest := n - SLOT_SIZE * (MAX_ENTRIES - 1 - e);
      ChunkCount(n, e) == 1 + ChunkCount(rest, 0) && IndexSlot(n, e) == MAX_ENTRIES + IndexSlot(rest, 0)
  {
    var rest := n - SLOT_SIZE * (MAX_ENTRIES - 1 - e);
    if rest > CHUNK_MAX {
      assert (rest + CHUNK_MAX - 1) / CHUNK_MAX == 1 + (rest - CHUNK_MAX + CHUNK_MAX - 1) / CHUNK_MAX;
    } else {
      assert (rest + CHUNK_MAX - 1) / CHUNK_MAX == 1;
    }
    assert NumSlots(n) == (MAX_ENTRIES - 1 - e) + NumSlots(rest);
  }

  lemma {:induction false} CostBase(n: nat, e: nat)
    requires e < MAX_ENTRIES && n <= SLOT_SIZE * (MAX_ENTRIES - 1 - e)
    ensures ChunkCount(n, e) == 1 && IndexSlot(n, e) == e + 1 + NumSlots(n) <= MAX_ENTRIES
  {
  }

  /** The cost of a blob, from any slot of the current page: it is stored exactly when its chunks
      can be counted and enough pages are left; it then opens one page for every 126 slots passed,
      and its index entry, for which there is always room, follows on the last of them. */
  lemma {:induction false} BlobCost(st: State, ns: byte, key: Key, data: seq<byte>, offset: nat, count: nat)
    requires st.Open() && st.HasRoom(1) && offset <= |data|
    ensures var n, e := |data| - offset, Used(st.Current());
      var s := WriteChunks(st, ns, key, data, offset, count);
      (s.outcome.Done? <==>
        count + ChunkCount(n, e) <= 255 && |data| <= 0xFFFF_FFFF && IndexSlot(n, e) / MAX_ENTRIES <= st.free) &&
      (s.outcome.Done? ==>
        |s.st.pages| == |st.pages| + IndexSlot(n, e) / MAX_ENTRIES &&
        Used(s.st.Current()) == IndexSlot(n, e) % MAX_ENTRIES + 1 &&
        s.st.Current() != [] &&
        s.st.Current()[|s.st.Current()| - 1] == IndexEntry(ns, key, |data|, count + ChunkCount(n, e)))
    decreases |data| - offset, Used(st.Current())
  {
    hide PutChunk, NumSlots, Used, ChunkCount, IndexSlot, ChunkEnd;
    var n, e := |data| - offset, Used(st.Current());
    var end := ChunkEnd(st, data, offset);
    var s := PutChunk(st, ns, key, data, offset, count);
    ChunkSlots(st, data, offset);
    ChunkSpace(st, ns, key, data, offset, count);
    if end < |data| {
      CostStep(n, e);
      if s.outcome.Done? {
        BlobCost(s.st, ns, key, data, end, count + 1);
      }
    } else {
      CostBase(n, e);
      if s.outcome.Done? && |data| <= 0xFFFF_FFFF && count + 1 <= 255 {
        IndexSpan(ns, key, |data|, count + 1);
        UsedSnoc(s.st.Current(), IndexEntry(ns, key, |data|, count + 1));
      }
    }
  }

  lemma {:induction false} IndexSpan(ns: byte, key: Key, size: u32, count: byte)
    ensures IndexEntry(ns, key, size, count).Span() == 1
  {
  }

  /** The slots taken by a chunk: at most the rest of the page, and all of it when data remains. */
  lemma {:induction false} ChunkSlots(st: State, data: seq<byte>, offset: nat)
    requires st.Open() && st.HasRoom(1) && offset <= |data|
    ensures var e, size := Used(st.Current()), ChunkEnd(st, data, offset) - offset;
      var after := e + 1 + NumSlots(size);
      after <= MAX_ENTRIES &&
      (ChunkEnd(st, data, offset) < |data| ==> after == MAX_ENTRIES && size == SLOT_SIZE * (MAX_ENTRIES - 1 - e)) &&
      (ChunkEnd(st, data, offset) == |data| ==> |data| - offset <= SLOT_SIZE * (MAX_ENTRIES - 1 - e)) &&
      (SLOT_SIZE * (MAX_ENTRIES - 1 - e) - size < SLOT_SIZE <==> after == MAX_ENTRIES)
  {
    hide Used;
  }

  /** When a chunk opens a new page. */
  lemma {:induction false} ChunkSpace(st: State, ns: byte, key: Key, data: seq<byte>, offset: nat, count: nat)
    requires st.Open() && st.HasRoom(1) && offset <= |data|
    ensures var after := Used(st.Current()) + 1 + NumSlots(ChunkEnd(st, data, offset) - offset);
      var s := PutChunk(st, ns, key, data, offset, count);
      (s.outcome.Done? <==> count <= 255 && (after == MAX_ENTRIES ==> st.free > 0)) &&
      (s.outcome.Done? && after == MAX_ENTRIES ==>
        |s.st.pages| == |st.pages| + 1 && s.st.free == st.free - 1 && Used(s.st.Current()) == 0) &&
      (s.outcome.Done? && after != MAX_ENTRIES ==>
        |s.st.pages| == |st.pages| && s.st.free == st.free && Used(s.st.Current()) == after)
  {
    hide Used, NumSlots, ChunkEnd;
    EmptyUsed();
    ChunkSlots(st, data, offset);
    var end := ChunkEnd(st, data, offset);
    if count <= 255 {
      UsedSnoc(st.Current(), DataEntry(ns, key, BLOB_DATA, count, data[offset..end]));
    }
  }

  /** The pages that a blob asks for before it is stored or its chunks can no longer be counted. */
  function PagesAsked(n: nat, e: nat, count: nat): nat
    requires e < MAX_ENTRIES && count <= 256
  {
    if count + ChunkCount(n, e) <= 256 then IndexSlot(n, e) / MAX_ENTRIES else 256 - count
  }

  /** Which error a blob that is not stored ends with: the partition is used up, unless the count of chunks
      or the size stops to fit its field before that. */
  lemma {:induction false} BlobOutcome(st: State, ns: byte, key: Key, data: seq<byte>, offset: nat, count: nat)
    requires st.Open() && st.HasRoom(1) && offset <= |data| && count <= 256
    ensures var n, e := |data| - offset, Used(st.Current());
      WriteChunks(st, ns, key, data, offset, count).outcome
        == if PagesAsked(n, e, count) > st.free then InsufficientSize
           else if count + ChunkCount(n, e) <= 255 && |data| <= 0xFFFF_FFFF then Done else ValueError
    decreases |data| - offset, Used(st.Current())
  {
    hide PutChunk, NumSlots, Used, ChunkCount, IndexSlot, ChunkEnd;
    var n, e := |data| - offset, Used(st.Current());
    var end := ChunkEnd(st, data, offset);
    var s := PutChunk(st, ns, key, data, offset, count);
    ChunkSlots(st, data, offset);
    ChunkSpace(st, ns, key, data, offset, count);
    PutChunkError(st, ns, key, data, offset, count);
    ChunkCountPositive(n, e);
    if end < |data| {
      CostStep(n, e);
      ChunkCountPositive(|data| - end, 0);
      if s.outcome.Done? {
        BlobOutcome(s.st, ns, key, data, end, count + 1);
      }
    } else {
      CostBase(n, e);
    }
  }

  lemma {:induction false} ChunkCountPositive(n: nat, e: nat)
    requires e < MAX_ENTRIES
    ensures ChunkCount(n, e) >= 1
  {
  }

  lemma {:induction false} PutChunkError(st: State, ns: byte, key: Key, data: seq<byte>, offset: nat, count: nat)
    requires st.Open() && st.HasRoom(1) && offset <= |data|
    ensures var s := PutChunk(st, ns, key, data, offset, count);
      if count > 255 then s.outcome.ValueError? else s.outcome.Done? || s.outcome.InsufficientSize?
  {
    hide Used;
  }

  /** A V2 blob row goes to chunks, on a new page when the current one is full. */
  lemma {:induction false} BlobRowIsChunks(st: State, key: Text, data: seq<byte>)
    requires st.Open() && st.version.V2? && |key| <= 15
    ensures var turned := NewPage(st);
      var start := if st.HasRoom(1) then st else turned.st;
      WriteRow(st, BlobRow(key, data))
        == if !st.HasRoom(1) && !turned.outcome.Done? then turned
           else if st.ns > 255 then Step(start, ValueError)
           else WriteChunks(start, st.ns, key, data, 0, 0)
  {
    hide WriteChunks, Used;
    if st.HasRoom(1) {
      if st.ns <= 255 {
        WriteChunksKeeps(st, st.ns, key, data, 0, 0);
      }
    } else if NewPage(st).outcome.Done? {
      EmptyUsed();
      assert NewPage(st).st.Current() == [];
    }
  }

  /** A whole V2 blob row: where it starts, exactly when it can be stored, and the pages it opens. */
  lemma {:induction false} BlobRowCost(st: State, key: Text, data: seq<byte>)
    requires st.Open() && st.version.V2? && |key| <= 15 && Used(st.Current()) <= MAX_ENTRIES
    ensures var turn := if st.HasRoom(1) then 0 else 1;
      var e := if st.HasRoom(1) then Used(st.Current()) else 0;
      var s := WriteRow(st, BlobRow(key, data));
      var newPages := turn + IndexSlot(|data|, e) / MAX_ENTRIES;
      (s.outcome.Done? <==> st.ns <= 255 && ChunkCount(|data|, e) <= 255 && newPages <= st.free) &&
      (s.outcome.Done? ==> |s.st.pages| == |st.pages| + newPages && s.st.free == st.free - newPages)
  {
    hide WriteChunks, ChunkCount, IndexSlot, Used, WriteRow;
    BlobRowIsChunks(st, key, data);
    WriteRowKeeps(st, BlobRow(key, data));
    EmptyUsed();
    var start := if st.HasRoom(1) then st else NewPage(st).st;
    if st.ns <= 255 && (st.HasRoom(1) || NewPage(st).outcome.Done?) {
      BlobCost(start, st.ns, key, data, 0, 0);
      if ChunkCount(|data|, Used(start.Current())) <= 255 {
        CountBoundsSize(|data|, Used(start.Current()));
      }
    }
  }

  /** How a V2 blob row ends, in every case. */
  lemma {:induction false} BlobRowOutcome(st: State, key: Text, data: seq<byte>)
    requires st.Open() && st.version.V2? && |key| <= 15 && Used(st.Current()) <= MAX_ENTRIES
    ensures var u := Used(st.Current());
      var turn, e := if u == 126 then 1 else 0, if u == 126 then 0 else u;
      WriteRow(st, BlobRow(key, data)).outcome
        == if turn > st.free then InsufficientSize
           else if st.ns > 255 then ValueError
           else if turn + PagesAsked(|data|, e, 0) > st.free then InsufficientSize
           else if ChunkCount(|data|, e) <= 255 then Done else ValueError
  {
    hide WriteChunks, ChunkCount, PagesAsked, Used, WriteRow;
    BlobRowIsChunks(st, key, data);
    EmptyUsed();
    var start := if st.HasRoom(1) then st else NewPage(st).st;
    if st.ns <= 255 && (st.HasRoom(1) || NewPage(st).outcome.Done?) {
      BlobOutcome(start, st.ns, key, data, 0, 0);
      if ChunkCount(|data|, Used(start.Current())) <= 255 {
        CountBoundsSize(|data|, Used(start.Current()));
      }
    }
  }

  lemma {:induction false} EmptyUsed()
    ensures Used([]) == 0
  {
  }

  lemma {:induction false} CountBoundsSize(n: nat, e: nat)
    requires e < MAX_ENTRIES && ChunkCount(n, e) <= 255
    ensures n <= 255 * CHUNK_MAX
  {
  }

  // ----- how chunks divide the data -----

  function ChunkEntries(ns: byte, key: Key, chunks: seq<seq<byte>>, first: nat): (es: seq<Entry>)
    requires first + |chunks| <= 256
    ensures |es| == |chunks|
  {
    seq(|chunks|, i requires 0 <= i < |chunks| => DataEntry(ns, key, BLOB_DATA, first + i, chunks[i]))
  }

  /** Whatever slot a blob starts from: the entries added are its chunks, numbered consecutively,
      which together are the data and of which all but the last fill whole slots, then the index
      with their number. */
  lemma {:induction false} ChunksDivideData(st: State, ns: byte, key: Key, data: seq<byte>, offset: nat, count: nat)
    returns (chunks: seq<seq<byte>>)
    requires st.Open() && st.HasRoom(1) && offset <= |data|
    requires WriteChunks(st, ns, key, data, offset, count).outcome.Done?
    ensures chunks != [] && count + |chunks| <= 255 && |data| <= 0xFFFF_FFFF
    ensures Join(chunks) == data[offset..]
    ensures forall i :: 0 <= i < |chunks| - 1 ==> |chunks[i]| % SLOT_SIZE == 0
    ensures AllEntries(WriteChunks(st, ns, key, data, offset, count).st.pages)
         == AllEntries(st.pages) + ChunkEntries(ns, key, chunks, count)
            + [IndexEntry(ns, key, |data|, count + |chunks|)]
    decreases |data| - offset, Used(st.Current())
  {
    hide AllEntries, PutChunk, Used, ChunkEnd, State.Add;
    var end := ChunkEnd(st, data, offset);
    var s := PutChunk(st, ns, key, data, offset, count);
    PutChunkEntries(st, ns, key, data, offset, count);
    ChunkSlots(st, data, offset);
    var chunk := data[offset..end];
    var e := DataEntry(ns, key, BLOB_DATA, count, chunk);
    if end < |data| {
      var rest := ChunksDivideData(s.st, ns, key, data, end, count + 1);
      chunks := [chunk] + rest;
      assert chunks[1..] == rest;
      assert data[offset..] == chunk + data[end..];
      assert ChunkEntries(ns, key, chunks, count) == [e] + ChunkEntries(ns, key, rest, count + 1);
      assert AllEntries(st.pages) + [e] + ChunkEntries(ns, key, rest, count + 1)
          == AllEntries(st.pages) + ([e] + ChunkEntries(ns, key, rest, count + 1));
    } else {
      chunks := [chunk];
      assert Join(chunks) == chunk == data[offset..];
      assert ChunkEntries(ns, key, chunks, count) == [e];
      EntriesAdd(s.st, IndexEntry(ns, key, |data|, count + 1));
    }
  }

  lemma {:induction false} PutChunkEntries(st: State, ns: byte, key: Key, data: seq<byte>, offset: nat, count: nat)
    requires st.Open() && st.HasRoom(1) && offset <= |data|
    requires PutChunk(st, ns, key, data, offset, count).outcome.Done?
    ensures count <= 255
    ensures AllEntries(PutChunk(st, ns, key, data, offset, count).st.pages)
         == AllEntries(st.pages) + [DataEntry(ns, key, BLOB_DATA, count, data[offset..ChunkEnd(st, data, offset)])]
  {
    var e := DataEntry(ns, key, BLOB_DATA, count, data[offset..ChunkEnd(st, data, offset)]);
    EntriesAdd(st, e);
    AllEntriesSnoc(st.Add(e).pages, []);
    assert AllEntries(st.Add(e).pages) + [] == AllEntries(st.Add(e).pages);
  }
}
