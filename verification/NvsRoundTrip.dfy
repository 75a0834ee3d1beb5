/** Write/read round trip: a closed plain partition reads back as the rows it was written from. */
module NvsRoundTrip {
  import opened Bytes
  import opened NvsFormat
  import opened NvsSpec
  import opened NvsReader
  import opened Options
  import opened NvsPageRoundTrip

  // ----- an image as a sequence of pages -----

  lemma {:induction false} SliceOfPrefix(a: seq<byte>, b: seq<byte>, from: nat, to: nat)
    requires from <= to <= |a|
    ensures (a + b)[from..to] == a[from..to]
  {
  }

  lemma {:induction false} ImagePage(x: Externals, encrypted: bool, st: State, i: nat)
    requires Writable(st) && i <= st.Total()
    ensures |Image(x, encrypted, st)| == PAGE_SIZE * (st.Total() + 1)
    ensures Image(x, encrypted, st)[PAGE_SIZE * i..PAGE_SIZE * (i + 1)] == ClosedPage(x, encrypted, st, i)
  {
    JoinAt(ImagePages(x, encrypted, st), PAGE_SIZE, i);
  }

  function AllEntries(ps: seq<PageContent>): seq<Entry> {
    if ps == [] then [] else AllEntries(ps[..|ps| - 1]) + ps[|ps| - 1]
  }

  lemma {:induction false} AllEntriesSnoc(ps: seq<PageContent>, p: PageContent)
    ensures AllEntries(ps + [p]) == AllEntries(ps) + p
  {
    assert (ps + [p])[..|ps|] == ps;
  }

  lemma {:induction false} EmptyPagesAddNothing(ps: seq<PageContent>, n: nat)
    ensures AllEntries(ps + seq(n, i => [])) == AllEntries(ps)
  {
    if n == 0 {
      assert ps + seq(0, i => []) == ps;
    } else {
      EmptyPagesAddNothing(ps, n - 1);
      assert ps + seq(n, i => []) == (ps + seq(n - 1, i => [])) + [[]];
      AllEntriesSnoc(ps + seq(n - 1, i => []), []);
    }
  }

  /** The reader finds, over the first n pages, the entries of those pages. */
  lemma {:induction false} ReadPagesRoundTrip(x: Externals, st: State, n: nat)
    requires Writable(st) && n <= st.Total()
    ensures |Image(x, false, st)| == PAGE_SIZE * (st.Total() + 1)
    ensures ReadPages(x, Image(x, false, st), n, st.version) == Some(AllEntries(ClosedPages(st)[..n]))
  {
    hide Image, ReadPage, PageBytes, PageSlots;
    ImagePage(x, false, st, n);
    if n > 0 {
      var p := ClosedPages(st)[n - 1];
      ReadPagesRoundTrip(x, st, n - 1);
      ImagePage(x, false, st, n - 1);
      assert p in st.pages || p == [];
      ReadPageRoundTrip(x, n - 1, st.version, p, true);
      assert ClosedPages(st)[..n] == ClosedPages(st)[..n - 1] + [p];
      AllEntriesSnoc(ClosedPages(st)[..n - 1], p);
    }
  }

  /** The reserved page holds no entries. */
  lemma {:induction false} ReservedPageIsEmpty(x: Externals, st: State)
    requires Writable(st)
    ensures |Image(x, false, st)| == PAGE_SIZE * (st.Total() + 1)
    ensures var n := st.Total();
      ReadPage(x, Image(x, false, st)[PAGE_SIZE * n..PAGE_SIZE * (n + 1)], n, st.version) == Some([])
  {
    hide Image, PageHeaderChecks, ReadSlots, PageBytes, PageSlots;
    ImagePage(x, false, st, st.Total());
  }

  /** Nor do the pages that only fill the partition. */
  lemma {:induction false} ClosedEntries(st: State)
    ensures AllEntries(ClosedPages(st)[..st.Total()]) == AllEntries(st.pages)
  {
    hide AllEntries;
    assert ClosedPages(st)[..st.Total()] == ClosedPages(st);
    EmptyPagesAddNothing(st.pages, st.free);
  }

  /** Reading a whole image: the entries of all pages in order. */
  lemma {:induction false} ReadImageEntries(x: Externals, st: State)
    requires Writable(st)
    ensures var image := Image(x, false, st);
      ReadPages(x, image, |image| / PAGE_SIZE, st.version) == Some(AllEntries(st.pages))
  {
    hide Image, ReadPage, AllEntries, ClosedPages, Writable;
    var image := Image(x, false, st);
    var n := st.Total();
    ReadPagesRoundTrip(x, st, n);
    ReservedPageIsEmpty(x, st);
    ClosedEntries(st);
    assert |image| / PAGE_SIZE == n + 1;
    assert AllEntries(st.pages) + [] == AllEntries(st.pages);
  }

  // ----- from rows to records -----

  function Gathering(st: State): Gathered { GatherAll(AllEntries(st.pages)) }

  lemma {:induction false} GatherSnoc(es: seq<Entry>, e: Entry)
    ensures GatherAll(es + [e]) == Gather(GatherAll(es), e)
  {
    assert (es + [e])[..|es|] == es;
  }

  lemma {:induction false} EntriesAdd(st: State, e: Entry)
    requires st.Open()
    ensures AllEntries(st.Add(e).pages) == AllEntries(st.pages) + [e]
  {
    var before := st.pages[..|st.pages| - 1];
    assert st.pages == before + [st.Current()];
    assert st.Add(e).pages == before + [st.Current() + [e]];
    AllEntriesSnoc(before, st.Current());
    AllEntriesSnoc(before, st.Current() + [e]);
    assert AllEntries(before) + (st.Current() + [e]) == AllEntries(st.pages) + [e];
  }

  lemma {:induction false} GatheringAdd(st: State, e: Entry)
    requires st.Open()
    ensures Gathering(st.Add(e)) == Gather(Gathering(st), e)
  {
    EntriesAdd(st, e);
    GatherSnoc(AllEntries(st.pages), e);
  }

  lemma {:induction false} GatheringNewPage(st: State)
    requires NewPage(st).outcome.Done?
    ensures Gathering(NewPage(st).st) == Gathering(st)
  {
    AllEntriesSnoc(st.pages, []);
    assert AllEntries(st.pages) + [] == AllEntries(st.pages);
  }

  /** What the reader has gathered once `count` chunks, up to `offset`, are written. */
  function ChunksSeen(before: seq<Record>, ns: byte, key: Key, data: seq<byte>, offset: nat, count: nat): Gathered
    requires offset <= |data|
  {
    Gathered(before, if count == 0 then None else Some(Partial(ns, key, data[..offset], count)))
  }

  lemma {:induction false} PutChunkGathers(
      st: State, ns: byte, key: Key, data: seq<byte>, offset: nat, count: nat, before: seq<Record>)
    requires st.Open() && st.HasRoom(1) && offset <= |data| && (count == 0 ==> offset == 0)
    requires Gathering(st) == ChunksSeen(before, ns, key, data, offset, count)
    requires PutChunk(st, ns, key, data, offset, count).outcome.Done?
    ensures Gathering(PutChunk(st, ns, key, data, offset, count).st)
         == ChunksSeen(before, ns, key, data, ChunkEnd(st, data, offset), count + 1)
  {
    hide Gathering;
    var end := ChunkEnd(st, data, offset);
    var e := DataEntry(ns, key, BLOB_DATA, count, data[offset..end]);
    GatheringAdd(st, e);
    assert data[..offset] + data[offset..end] == data[..end];
    if NewPage(st.Add(e)).outcome.Done? {
      GatheringNewPage(st.Add(e));
    }
  }

  /** Joining chunks: whatever slot a blob starts from, the reader recovers its data. */
  lemma {:induction false} ChunksGather(
      st: State, ns: byte, key: Key, data: seq<byte>, offset: nat, count: nat, before: seq<Record>)
    requires st.Open() && st.HasRoom(1) && offset <= |data| && (count == 0 ==> offset == 0)
    requires Gathering(st) == ChunksSeen(before, ns, key, data, offset, count)
    requires WriteChunks(st, ns, key, data, offset, count).outcome.Done?
    ensures Gathering(WriteChunks(st, ns, key, data, offset, count).st)
         == Gathered(before + [Record(ns, key, BlobValue(data))], None)
    decreases |data| - offset, Used(st.Current())
  {
    hide Gathering;
    var end := ChunkEnd(st, data, offset);
    var s := PutChunk(st, ns, key, data, offset, count);
    PutChunkGathers(st, ns, key, data, offset, count, before);
    if end < |data| {
      ChunksGather(s.st, ns, key, data, end, count + 1, before);
    } else {
      assert data[..end] == data;
      GatheringAdd(s.st, IndexEntry(ns, key, |data|, count + 1));
    }
  }

  /** The record that a row stands for; `ns` is the namespace counter when the row is written. */
  function RecordOf(row: Row, ns: byte): Record
    requires |row.key| <= 15 && !row.UnsupportedRow?
  {
    match row
    case NamespaceRow(key) => Record(0, key, IntValue(U8, ns))
    case IntRow(key, t, value) => Record(ns, key, IntValue(t, value))
    case StringRow(key, text) => Record(ns, key, StringValue(text))
    case BlobRow(key, data) => Record(ns, key, BlobValue(data))
  }

  lemma {:induction false} AttemptGathers(st: State, row: Row, before: seq<Record>)
    requires st.Open() && |row.key| <= 15 && Attempt(st, row).outcome.Done?
    requires Gathering(st) == Gathered(before, None)
    ensures !row.UnsupportedRow? && st.ns <= 255
    ensures Gathering(Attempt(st, row).st) == Gathered(before + [RecordOf(row, st.ns)], None)
  {
    hide Gathering;
    Pow256Values();
    match row
    case NamespaceRow(key) => GatheringAdd(st, IntEntry(0, key, U8, st.ns));
    case IntRow(key, t, value) => GatheringAdd(st, IntEntry(st.ns, key, t, value));
    case StringRow(key, text) => GatheringAdd(st, DataEntry(st.ns, key, SZ, CHUNK_ANY, text + [0]));
    case BlobRow(key, data) =>
      if st.version.V1? {
        GatheringAdd(st, DataEntry(st.ns, key, BLOB, CHUNK_ANY, data));
      } else {
        ChunksGather(st, st.ns, key, data, 0, 0, before);
      }
  }

  /** The namespace counter while `row` is written, given its value before. */
  function NsFor(row: Row, ns: nat): nat { if row.NamespaceRow? then ns + 1 else ns }

  lemma {:induction false} WriteRowGathers(st: State, row: Row, before: seq<Record>)
    requires st.Open() && |row.key| <= 15 && WriteRow(st, row).outcome.Done?
    requires Gathering(st) == Gathered(before, None)
    ensures !row.UnsupportedRow? && NsFor(row, st.ns) <= 255
    ensures WriteRow(st, row).st.ns == NsFor(row, st.ns)
    ensures Gathering(WriteRow(st, row).st) == Gathered(before + [RecordOf(row, NsFor(row, st.ns))], None)
  {
    hide Attempt, GatherAll, AllEntries;
    var st0 := if row.NamespaceRow? then st.(ns := st.ns + 1) else st;
    WriteRowKeeps(st, row);
    AttemptKeeps(st0, row);
    if Attempt(st0, row).outcome.PageFull? {
      GatheringNewPage(st0);
      AttemptGathers(NewPage(st0).st, row, before);
    } else {
      AttemptGathers(st0, row, before);
    }
  }

  /** The records of a list of rows, if they can all be written. */
  predicate Storable(rows: seq<Row>, ns: nat)
  {
    rows == [] ||
    (!rows[0].UnsupportedRow? && |rows[0].key| <= 15 && NsFor(rows[0], ns) <= 255 &&
      Storable(rows[1..], NsFor(rows[0], ns)))
  }

  function Records(rows: seq<Row>, ns: nat): seq<Record>
    requires Storable(rows, ns)
  {
    if rows == [] then []
    else [RecordOf(rows[0], NsFor(rows[0], ns))] + Records(rows[1..], NsFor(rows[0], ns))
  }

  lemma {:induction false} RunGathers(st: State, rows: seq<Row>, before: seq<Record>)
    requires st.Open() && Run(st, rows).outcome.Done?
    requires Gathering(st) == Gathered(before, None)
    ensures Storable(rows, st.ns)
    ensures Gathering(Run(st, rows).st) == Gathered(before + Records(rows, st.ns), None)
    decreases rows
  {
    hide Gathering, WriteRow;
    if rows == [] {
      assert before + [] == before;
    } else {
      WriteRowKeeps(st, rows[0]);
      WriteRowGathers(st, rows[0], before);
      var r := RecordOf(rows[0], NsFor(rows[0], st.ns));
      RunGathers(WriteRow(st, rows[0]).st, rows[1..], before + [r]);
      assert before + ([r] + Records(rows[1..], NsFor(rows[0], st.ns)))
          == (before + [r]) + Records(rows[1..], NsFor(rows[0], st.ns));
    }
  }

  lemma {:induction false} RunKeeps(st: State, rows: seq<Row>)
    requires st.Open()
    ensures var after := Run(st, rows).st;
      after.Open() && after.Total() == st.Total() && after.version == st.version &&
        (st.WellFormed() ==> after.WellFormed())
    decreases rows
  {
    hide WriteRow;
    if rows != [] && |rows[0].key| <= 15 {
      WriteRowKeeps(st, rows[0]);
      if WriteRow(st, rows[0]).outcome.Done? {
        RunKeeps(WriteRow(st, rows[0]).st, rows[1..]);
      }
    }
  }

  /** A single empty page holds nothing. */
  lemma {:induction false} EmptyPageGathers(st: State)
    requires st.pages == [[]]
    ensures st.WellFormed() && Gathering(st) == Gathered([], None)
  {
    hide GatherAll;
    AllEntriesSnoc([], []);
    assert [] + [[]] == st.pages;
    assert AllEntries([]) == [];
    assert GatherAll([]) == Gathered([], None) by { GatherNothing(); }
  }

  lemma {:induction false} GatherNothing()
    ensures GatherAll([]) == Gathered([], None)
  {
  }

  lemma {:induction false} OpenedState(version: Version, size: nat)
    requires PAGE_SIZE <= size
    ensures Opened(version, size) == State(version, [[]], size / PAGE_SIZE - 1, 0, false)
    ensures Opened(version, size).WellFormed() && Opened(version, size).Total() == size / PAGE_SIZE
    ensures Gathering(Opened(version, size)) == Gathered([], None)
  {
    hide Gathering, State.WellFormed;
    var none: seq<PageContent> := [];
    assert none + [[]] == [[]];
    EmptyPageGathers(Opened(version, size));
  }

  /** A closed image has exactly the size given and the reserved page. */
  lemma {:induction false} ImageSize(x: Externals, encrypted: bool, version: Version, size: nat, rows: seq<Row>)
    requires Addressable(size) && size % PAGE_SIZE == 0 && Run(Opened(version, size), rows).outcome.Done?
    ensures Writable(Run(Opened(version, size), rows).st)
    ensures |Image(x, encrypted, Run(Opened(version, size), rows).st)| == size + PAGE_SIZE
  {
    hide Run, Image;
    OpenedState(version, size);
    RunKeeps(Opened(version, size), rows);
    ImagePage(x, encrypted, Run(Opened(version, size), rows).st, 0);
  }

  /** Whenever all rows are written, reading the closed image gives back exactly the rows. */
  lemma {:induction false} WriteReadRoundTrip(x: Externals, version: Version, size: nat, rows: seq<Row>)
    requires Addressable(size) && Run(Opened(version, size), rows).outcome.Done?
    ensures Writable(Run(Opened(version, size), rows).st) && Storable(rows, 0)
    ensures ReadImage(x, Image(x, false, Run(Opened(version, size), rows).st), version) == Some(Records(rows, 0))
  {
    hide Run, Image, ReadPages, Opened;
    OpenedState(version, size);
    RunKeeps(Opened(version, size), rows);
    RunGathers(Opened(version, size), rows, []);
    ReadImageEntries(x, Run(Opened(version, size), rows).st);
    assert [] + Records(rows, 0) == Records(rows, 0);
  }
}
