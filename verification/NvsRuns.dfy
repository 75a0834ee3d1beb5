/** Properties of whole runs: how a partition grows, what a larger partition changes, when the retry
    on a new page suffices, and what closing delivers. */
module NvsRuns {
  import opened Bytes
  import opened NvsFormat
  import opened NvsSpec
  import opened NvsReader
  import opened NvsPageWrite
  import opened NvsPageRoundTrip
  import opened NvsRoundTrip

  // ----- flash discipline: entries are only added behind those already written -----

  predicate IsFull(st: State, i: nat)
    requires i < |st.pages|
  {
    i < |st.pages| - 1 || st.sealed
  }

  /** `after` was reached from `before` by writes: pages are only extended, and stay FULL. */
  ghost predicate Grows(before: State, after: State) {
    after.version == before.version && |before.pages| <= |after.pages| &&
    forall i :: 0 <= i < |before.pages| ==>
      before.pages[i] <= after.pages[i] && (IsFull(before, i) ==> IsFull(after, i)) &&
      (i < |before.pages| - 1 ==> before.pages[i] == after.pages[i])
  }

  lemma {:induction false} GrowsTransitive(a: State, b: State, c: State)
    requires Grows(a, b) && Grows(b, c)
    ensures Grows(a, c)
  {
    forall i | 0 <= i < |a.pages|
      ensures a.pages[i] <= c.pages[i] && (IsFull(a, i) ==> IsFull(c, i))
      ensures i < |a.pages| - 1 ==> a.pages[i] == c.pages[i]
    {
      assert a.pages[i] <= b.pages[i] <= c.pages[i];
    }
  }

  lemma {:induction false} AddGrows(st: State, e: Entry)
    requires st.Open()
    ensures Grows(st, st.Add(e))
  {
  }

  lemma {:induction false} NewPageGrows(st: State)
    ensures Grows(st, NewPage(st).st)
  {
  }

  lemma {:induction false} WriteChunksGrows(st: State, ns: byte, key: Key, data: seq<byte>, offset: nat, count: nat)
    requires st.Open() && st.HasRoom(1) && offset <= |data|
    ensures Grows(st, WriteChunks(st, ns, key, data, offset, count).st)
    decreases |data| - offset, Used(st.Current())
  {
    hide Grows, Used;
    var end := ChunkEnd(st, data, offset);
    var s := PutChunk(st, ns, key, data, offset, count);
    if count <= 255 {
      var st1 := st.Add(DataEntry(ns, key, BLOB_DATA, count, data[offset..end]));
      AddGrows(st, DataEntry(ns, key, BLOB_DATA, count, data[offset..end]));
      NewPageGrows(st1);
      GrowsTransitive(st, st1, NewPage(st1).st);
      if s.outcome.Done? {
        if end < |data| {
          WriteChunksGrows(s.st, ns, key, data, end, count + 1);
        } else if |data| <= 0xFFFF_FFFF && count + 1 <= 255 {
          AddGrows(s.st, IndexEntry(ns, key, |data|, count + 1));
        }
        GrowsTransitive(st, s.st, WriteChunks(st, ns, key, data, offset, count).st);
      }
    } else {
      GrowsReflexive(st);
    }
  }

  lemma {:induction false} GrowsReflexive(st: State)
    ensures Grows(st, st)
  {
  }

  lemma {:induction false} AttemptGrows(st: State, row: Row)
    requires st.Open() && |row.key| <= 15
    ensures Grows(st, Attempt(st, row).st)
  {
    hide Grows;
    GrowsReflexive(st);
    if Attempt(st, row).outcome.Done? {
      match row
      case NamespaceRow(key) => AddGrows(st, IntEntry(0, key, U8, st.ns));
      case IntRow(key, t, value) => AddGrows(st, IntEntry(st.ns, key, t, value));
      case StringRow(key, text) => AddGrows(st, DataEntry(st.ns, key, SZ, CHUNK_ANY, text + [0]));
      case BlobRow(key, data) =>
        if st.version.V1? { AddGrows(st, DataEntry(st.ns, key, BLOB, CHUNK_ANY, data)); }
      case UnsupportedRow(_) =>
    }
    if row.BlobRow? && st.version.V2? && st.HasRoom(1) && st.ns <= 255 {
      WriteChunksGrows(st, st.ns, row.key, row.data, 0, 0);
    }
  }

  /** Every write, successful or not, only extends pages. */
  lemma {:induction false} WriteRowGrows(st: State, row: Row)
    requires st.Open() && |row.key| <= 15
    ensures Grows(st, WriteRow(st, row).st)
  {
    hide Grows, Attempt;
    var st0 := if row.NamespaceRow? then st.(ns := st.ns + 1) else st;
    AttemptGrows(st0, row);
    AttemptKeeps(st0, row);
    NsDoesNotMatter(st, st0, Attempt(st0, row).st);
    if Attempt(st0, row).outcome.PageFull? {
      NewPageGrows(st0);
      NsDoesNotMatter(st, st0, NewPage(st0).st);
      if NewPage(st0).outcome.Done? {
        AttemptGrows(NewPage(st0).st, row);
        GrowsTransitive(st, NewPage(st0).st, WriteRow(st, row).st);
      }
    }
  }

  lemma {:induction false} NsDoesNotMatter(st: State, st0: State, after: State)
    requires Grows(st0, after) && st0 == st.(ns := st0.ns)
    ensures Grows(st, after)
  {
    forall i | 0 <= i < |st.pages|
      ensures IsFull(st, i) == IsFull(st0, i)
    {
    }
  }

  lemma {:induction false} RunGrows(st: State, rows: seq<Row>)
    requires st.Open()
    ensures Grows(st, Run(st, rows).st)
    decreases rows
  {
    hide Grows, WriteRow;
    GrowsReflexive(st);
    if rows != [] && |rows[0].key| <= 15 {
      WriteRowKeeps(st, rows[0]);
      WriteRowGrows(st, rows[0]);
      if WriteRow(st, rows[0]).outcome.Done? {
        RunGrows(WriteRow(st, rows[0]).st, rows[1..]);
        GrowsTransitive(st, WriteRow(st, rows[0]).st, Run(st, rows).st);
      }
    }
  }

  /** The bytes of page i while the partition is being written. */
  function OpenPage(x: Externals, encrypted: bool, st: State, i: nat): seq<byte>
    requires Writable(st) && i < |st.pages|
  {
    PageBytes(x, encrypted, i, st.version, st.SlotsOf(x, i), IsFull(st, i))
  }

  lemma {:induction false} SlotsGrow(x: Externals, p: PageContent, q: PageContent)
    requires p <= q && forall e :: e in q ==> e.WellFormed()
    ensures PageSlots(x, p) <= PageSlots(x, q)
  {
    assert q[..|p|] == p;
    PageSlotsPrefix(x, q, |p|);
  }

  /** Flash discipline over any run: in every page present before, bits are only ever cleared and
      the slots already written keep their bytes. */
  lemma {:induction false} RunOnlyClearsBits(x: Externals, encrypted: bool, before: State, after: State, i: nat)
    requires Writable(before) && Writable(after) && Grows(before, after) && i < |before.pages|
    ensures OnlyClears(OpenPage(x, encrypted, before, i), OpenPage(x, encrypted, after, i))
    ensures forall k :: 0 <= k < |before.SlotsOf(x, i)| ==>
      SlotAt(OpenPage(x, encrypted, before, i), k) == SlotAt(OpenPage(x, encrypted, after, i), k)
  {
    hide PageSlots, PageBytes, OnlyClears, WellFormedPage, Stored;
    var a, b := before.SlotsOf(x, i), after.SlotsOf(x, i);
    assert before.pages[i] in before.pages && after.pages[i] in after.pages;
    WellFormedEntries(after.pages[i]);
    SlotsGrow(x, before.pages[i], after.pages[i]);
    assert b == a + b[|a|..];
    AddSlotsOnlyClears(x, encrypted, i, before.version, a, b[|a|..], IsFull(before, i));
    if IsFull(before, i) != IsFull(after, i) {
      SealedPage(x, encrypted, i, before.version, b);
      OnlyClearsTransitive(OpenPage(x, encrypted, before, i), PageBytes(x, encrypted, i, before.version, b, false),
        OpenPage(x, encrypted, after, i));
    }
    forall k | 0 <= k < |a|
      ensures SlotAt(OpenPage(x, encrypted, before, i), k) == SlotAt(OpenPage(x, encrypted, after, i), k)
    {
      PageSlotAt(x, encrypted, i, before.version, a, IsFull(before, i), k);
      PageSlotAt(x, encrypted, i, before.version, b, IsFull(after, i), k);
    }
  }

  /** The same, stated for a run of rows, whether or not all of them succeed. */
  lemma {:induction false} RunFlashDiscipline(x: Externals, encrypted: bool, st: State, rows: seq<Row>, i: nat)
    requires st.Open() && Writable(st) && i < |st.pages|
    ensures var after := Run(st, rows).st;
      Writable(after) && i < |after.pages| &&
      OnlyClears(OpenPage(x, encrypted, st, i), OpenPage(x, encrypted, after, i)) &&
      forall k :: 0 <= k < |st.SlotsOf(x, i)| ==>
        SlotAt(OpenPage(x, encrypted, st, i), k) == SlotAt(OpenPage(x, encrypted, after, i), k)
  {
    hide Run, OnlyClears, PageBytes, PageSlots, SlotAt;
    RunKeeps(st, rows);
    RunGrows(st, rows);
    RunOnlyClearsBits(x, encrypted, st, Run(st, rows).st, i);
  }

  // ----- a larger partition -----

  /** The same contents with k more pages left. */
  function Larger(st: State, k: nat): State { st.(free := st.free + k) }

  function LargerStep(s: Step, k: nat): Step { s.(st := Larger(s.st, k)) }

  lemma {:induction false} PutChunkLarger(
      st: State, ns: byte, key: Key, data: seq<byte>, offset: nat, count: nat, k: nat)
    requires st.Open() && st.HasRoom(1) && offset <= |data|
    requires PutChunk(st, ns, key, data, offset, count).outcome.Done?
    ensures Larger(st, k).Current() == st.Current()
    ensures PutChunk(Larger(st, k), ns, key, data, offset, count)
         == LargerStep(PutChunk(st, ns, key, data, offset, count), k)
  {
    hide Used;
    assert Larger(st, k).Current() == st.Current();
  }

  lemma {:induction false} ChunksLarger(st: State, ns: byte, key: Key, data: seq<byte>, offset: nat, count: nat, k: nat)
    requires st.Open() && st.HasRoom(1) && offset <= |data|
    requires WriteChunks(st, ns, key, data, offset, count).outcome.Done?
    ensures WriteChunks(Larger(st, k), ns, key, data, offset, count)
        == LargerStep(WriteChunks(st, ns, key, data, offset, count), k)
    decreases |data| - offset, Used(st.Current())
  {
    hide Used, PutChunk;
    var end := ChunkEnd(st, data, offset);
    var s := PutChunk(st, ns, key, data, offset, count);
    PutChunkLarger(st, ns, key, data, offset, count, k);
    if end < |data| {
      ChunksLarger(s.st, ns, key, data, end, count + 1, k);
    }
  }

  lemma {:induction false} AttemptLarger(st: State, row: Row, k: nat)
    requires st.Open() && |row.key| <= 15
    requires Attempt(st, row).outcome.Done? || Attempt(st, row).outcome.PageFull?
    ensures Attempt(Larger(st, k), row) == LargerStep(Attempt(st, row), k)
  {
    hide WriteChunks, Used;
    assert Larger(st, k).Current() == st.Current();
    if row.BlobRow? && st.version.V2? && st.HasRoom(1) && st.ns <= 255 {
      WriteChunksKeeps(st, st.ns, row.key, row.data, 0, 0);
      ChunksLarger(st, st.ns, row.key, row.data, 0, 0, k);
    }
  }

  lemma {:induction false} WriteRowLarger(st: State, row: Row, k: nat)
    requires st.Open() && |row.key| <= 15 && WriteRow(st, row).outcome.Done?
    ensures WriteRow(Larger(st, k), row) == LargerStep(WriteRow(st, row), k)
  {
    hide Attempt;
    var st0 := if row.NamespaceRow? then st.(ns := st.ns + 1) else st;
    AttemptLarger(st0, row, k);
    AttemptKeeps(st0, row);
    if Attempt(st0, row).outcome.PageFull? {
      AttemptLarger(NewPage(st0).st, row, k);
      assert NewPage(Larger(st0, k)) == LargerStep(NewPage(st0), k);
    }
  }

  /** Rows that fit a partition fit any larger one, and fill it in the same way. */
  lemma {:induction false} RunLarger(st: State, rows: seq<Row>, k: nat)
    requires st.Open() && Run(st, rows).outcome.Done?
    ensures Run(Larger(st, k), rows) == LargerStep(Run(st, rows), k)
    decreases rows
  {
    hide WriteRow;
    if rows != [] {
      WriteRowKeeps(st, rows[0]);
      WriteRowLarger(st, rows[0], k);
      RunLarger(WriteRow(st, rows[0]).st, rows[1..], k);
    }
  }

  /** Size independence: of two partitions for the same rows, the larger image begins with the pages
      of the smaller one, byte for byte, and adds only empty FULL pages before the reserved page. */
  lemma {:induction false} SizeIndependence(
      x: Externals, encrypted: bool, version: Version, size: nat, more: nat, rows: seq<Row>)
    requires Addressable(size) && Addressable(size + more) && size % PAGE_SIZE == more % PAGE_SIZE == 0
    requires Run(Opened(version, size), rows).outcome.Done?
    ensures var small := Run(Opened(version, size), rows);
      var large := Run(Opened(version, size + more), rows);
      large.outcome.Done? && Writable(small.st) && Writable(large.st) &&
      small.st.Total() == size / PAGE_SIZE && large.st.Total() == (size + more) / PAGE_SIZE &&
      (forall i :: 0 <= i < size / PAGE_SIZE ==>
        ClosedPage(x, encrypted, large.st, i) == ClosedPage(x, encrypted, small.st, i)) &&
      (forall i :: size / PAGE_SIZE <= i < (size + more) / PAGE_SIZE ==>
        ClosedPage(x, encrypted, large.st, i) == PageBytes(x, encrypted, i, version, [], true)) &&
      ClosedPage(x, encrypted, large.st, (size + more) / PAGE_SIZE) == Blank(PAGE_SIZE)
  {
    hide Run, PageBytes, PageSlots;
    var k := more / PAGE_SIZE;
    var st := Opened(version, size);
    OpenedState(version, size);
    OpenedState(version, size + more);
    assert Opened(version, size + more) == Larger(st, k);
    RunLarger(st, rows, k);
    RunKeeps(st, rows);
    RunKeeps(Larger(st, k), rows);
    LargerPages(x, encrypted, Run(st, rows).st, k);
  }

  lemma {:induction false} LargerPages(x: Externals, encrypted: bool, st: State, k: nat)
    requires Writable(st) && Writable(Larger(st, k))
    ensures forall i :: 0 <= i < st.Total() ==>
        ClosedPage(x, encrypted, Larger(st, k), i) == ClosedPage(x, encrypted, st, i)
    ensures forall i :: st.Total() <= i < st.Total() + k ==>
        ClosedPage(x, encrypted, Larger(st, k), i) == PageBytes(x, encrypted, i, st.version, [], true)
  {
    hide PageBytes, PageSlots, WellFormedPage;
    EmptyPageSlots(x);
    forall i | 0 <= i < st.Total() + k
      ensures ClosedPages(Larger(st, k))[i] == if i < st.Total() then ClosedPages(st)[i] else []
    {
    }
  }

  /** The same on whole images: up to the reserved page of the smaller one they are equal. */
  lemma {:induction false} SizeIndependentPrefix(
      x: Externals, encrypted: bool, version: Version, size: nat, more: nat, rows: seq<Row>)
    requires Addressable(size) && Addressable(size + more) && size % PAGE_SIZE == more % PAGE_SIZE == 0
    requires Run(Opened(version, size), rows).outcome.Done?
    ensures var small := Run(Opened(version, size), rows).st;
      var large := Run(Opened(version, size + more), rows).st;
      Writable(small) && Writable(large) &&
      |Image(x, encrypted, small)| == size + PAGE_SIZE && |Image(x, encrypted, large)| == size + more + PAGE_SIZE &&
      Image(x, encrypted, small)[..size] == Image(x, encrypted, large)[..size]
  {
    hide Run, Image, ClosedPage;
    SizeIndependence(x, encrypted, version, size, more, rows);
    var small, large := Run(Opened(version, size), rows).st, Run(Opened(version, size + more), rows).st;
    ImagePage(x, encrypted, small, 0);
    ImagePage(x, encrypted, large, 0);
    var a, b := Image(x, encrypted, small), Image(x, encrypted, large);
    forall j | 0 <= j < size
      ensures a[j] == b[j]
    {
      var i := j / PAGE_SIZE;
      ImagePage(x, encrypted, small, i);
      ImagePage(x, encrypted, large, i);
      assert a[j] == a[PAGE_SIZE * i..PAGE_SIZE * (i + 1)][j % PAGE_SIZE];
      assert b[j] == b[PAGE_SIZE * i..PAGE_SIZE * (i + 1)][j % PAGE_SIZE];
    }
  }

  // ----- the retry on a new page -----

  /** The strings that are within the limit of a V2 value but fit no page. */
  predicate Oversized(version: Version, row: Row) {
    version.V2? && row.StringRow? && 3968 < |row.text| + 1 <= 4000
  }

  /** On a new page the only writes that still find the page full are those of the oversized
      strings. */
  lemma {:induction false} RetrySuffices(st: State, row: Row)
    requires st.Open() && |row.key| <= 15 && st.Current() == []
    ensures Attempt(st, row).outcome.PageFull? <==> Oversized(st.version, row)
  {
    hide WriteChunks;
    assert Used(st.Current()) == 0;
    if row.BlobRow? && st.ns <= 255 && st.version.V2? {
      WriteChunksKeeps(st, st.ns, row.key, row.data, 0, 0);
    }
  }

  lemma {:induction false} OversizedNeverFits(st: State, row: Row)
    requires st.Open() && |row.key| <= 15 && Oversized(st.version, row)
    ensures Attempt(st, row).outcome.PageFull?
  {
  }

  /** When the error of a full page escapes to the caller: exactly for the oversized strings, as
      long as a page for the retry can be had. */
  lemma {:induction false} PageFullEscapes(st: State, row: Row)
    requires st.Open() && |row.key| <= 15
    ensures WriteRow(st, row).outcome.PageFull? <==> Oversized(st.version, row) && st.free > 0
  {
    hide Attempt;
    var st0 := if row.NamespaceRow? then st.(ns := st.ns + 1) else st;
    if Oversized(st.version, row) {
      OversizedNeverFits(st0, row);
    }
    if NewPage(st0).outcome.Done? {
      RetrySuffices(NewPage(st0).st, row);
    }
  }

  // ----- closing -----

  /** Shape of a closed partition: exactly the size given, page i carries number i, a valid header
      and the state FULL, and the last page is blank. */
  lemma {:induction false} ClosedImageShape(
      x: Externals, encrypted: bool, version: Version, size: nat, rows: seq<Row>, i: nat)
    requires Addressable(size) && size % PAGE_SIZE == 0 && Run(Opened(version, size), rows).outcome.Done?
    requires i <= size / PAGE_SIZE
    ensures var st := Run(Opened(version, size), rows).st;
      Writable(st) &&
      var image := Image(x, encrypted, st);
      |image| == size + PAGE_SIZE &&
      var page := image[PAGE_SIZE * i..PAGE_SIZE * (i + 1)];
      if i == size / PAGE_SIZE then page == Blank(PAGE_SIZE)
      else PageHeaderChecks(x, page, i, version) && UnLE(page[0..4]) == FULL
  {
    hide Run, PageBytes, PageSlots, Image, PageHeaderChecks, UnLE;
    OpenedState(version, size);
    RunKeeps(Opened(version, size), rows);
    var st := Run(Opened(version, size), rows).st;
    ImagePage(x, encrypted, st, i);
    if i < st.Total() {
      assert ClosedPages(st)[i] in st.pages || ClosedPages(st)[i] == [];
      PageHeaderOf(x, encrypted, i, version, PageSlots(x, ClosedPages(st)[i]), true);
    }
  }
}
