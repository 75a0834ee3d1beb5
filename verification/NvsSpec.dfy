/** What the partition generator does, as a function on the contents of pages: which entries each
    write adds to which page, when a new page is opened, and when a write fails. */
module NvsSpec {
  import opened Bytes
  import opened NvsFormat

  /** How a call ends: normally, or with the exception it raises. ValueError stands for a number
      that does not fit the field it is packed into. */
  datatype Outcome = Done | PageFull | InsufficientSize | InputError | ValueError

  /** A key as given, not yet checked for its length; it holds no zero byte. */
  type Text = t: seq<byte> | 0 !in t witness []

  /** A row of the input, its value already decoded by its encoding. */
  datatype Row =
    | NamespaceRow(key: Text)
    | IntRow(key: Text, t: IntType, value: int)
    | StringRow(key: Text, text: seq<byte>)
    | BlobRow(key: Text, data: seq<byte>)
    | UnsupportedRow(key: Text)

  /** `free` counts the pages that may still be created; `sealed` says that the current page was
      already marked FULL by an attempt to create one more. */
  datatype State = State(version: Version, pages: seq<PageContent>, free: nat, ns: nat, sealed: bool) {
    predicate Open() { pages != [] }

    function Current(): PageContent
      requires Open()
    {
      pages[|pages| - 1]
    }

    predicate WellFormed() {
      forall p :: p in pages ==> WellFormedPage(p)
    }

    /** The slots of page i. */
    function SlotsOf(x: Externals, i: nat): (s: seq<Slot>)
      requires i < |pages| && WellFormed()
      ensures |s| == Used(pages[i]) <= MAX_ENTRIES
    {
      assert pages[i] in pages;
      PageSlots(x, pages[i])
    }

    /** Room for n more slots in the current page. */
    predicate HasRoom(n: nat)
      requires Open()
    {
      Used(Current()) + n <= MAX_ENTRIES
    }

    function Add(e: Entry): (st: State)
      requires Open()
      ensures st.Open() && |st.pages| == |pages|
    {
      this.(pages := pages[|pages| - 1 := Current() + [e]])
    }

    function Total(): nat { |pages| + free }
  }

  datatype Step = Step(st: State, outcome: Outcome)

  function NewPage(st: State): (s: Step)
    ensures s.outcome.Done? || s.outcome.InsufficientSize?
    ensures s.outcome.Done? ==> s.st.Open()
  {
    if st.free == 0 then Step(st.(sealed := st.Open()), InsufficientSize)
    else Step(st.(pages := st.pages + [[]], free := st.free - 1, sealed := false), Done)
  }

  function WriteInt(st: State, key: Key, t: IntType, value: int, ns: nat): Step
    requires st.Open()
  {
    if !st.HasRoom(1) then Step(st, PageFull)
    else if ns > 255 || !t.InRange(value) then Step(st, ValueError)
    else Step(st.Add(IntEntry(ns, key, t, value)), Done)
  }

  /** Where a chunk started at `offset` ends: it fills the current page, or the data is finished. */
  function ChunkEnd(st: State, data: seq<byte>, offset: nat): (end: nat)
    requires st.Open() && st.HasRoom(1) && offset <= |data|
    ensures offset <= end <= |data|
  {
    offset + Min((MAX_ENTRIES - Used(st.Current()) - 1) * SLOT_SIZE, |data| - offset)
  }

  /** One chunk, and a new page after it when data remains or no whole slot is left. */
  function PutChunk(st: State, ns: byte, key: Key, data: seq<byte>, offset: nat, count: nat): (s: Step)
    requires st.Open() && st.HasRoom(1) && offset <= |data|
    ensures s.st.Open()
    ensures s.outcome.Done? ==> s.st.HasRoom(1)
    ensures s.outcome.Done? && offset == ChunkEnd(st, data, offset) < |data| ==>
      Used(s.st.Current()) < Used(st.Current())
  {
    var end := ChunkEnd(st, data, offset);
    var tailroom := (MAX_ENTRIES - Used(st.Current()) - 1) * SLOT_SIZE;
    if count > 255 then Step(st, ValueError)
    else
      var e := DataEntry(ns, key, BLOB_DATA, count, data[offset..end]);
      UsedSnoc(st.Current(), e);
      var st1 := st.Add(e);
      if end < |data| || tailroom - (end - offset) < SLOT_SIZE then NewPage(st1) else Step(st1, Done)
  }

  function PutIndex(st: State, ns: byte, key: Key, size: nat, count: nat): (s: Step)
    requires st.Open()
    ensures s.st.Open()
  {
    if size > 0xFFFF_FFFF || count > 255 then Step(st, ValueError)
    else Step(st.Add(IndexEntry(ns, key, size, count)), Done)
  }

  /** The chunks of a blob from `offset` on, then its index entry. */
  function WriteChunks(st: State, ns: byte, key: Key, data: seq<byte>, offset: nat, count: nat): (s: Step)
    requires st.Open() && st.HasRoom(1) && offset <= |data|
    ensures s.st.Open()
    decreases |data| - offset, Used(st.Current())
  {
    var end := ChunkEnd(st, data, offset);
    var s := PutChunk(st, ns, key, data, offset, count);
    if !s.outcome.Done? then s
    else if end < |data| then WriteChunks(s.st, ns, key, data, end, count + 1)
    else PutIndex(s.st, ns, key, |data|, count + 1)
  }

  /** Strings and blobs. `data` of a string ends with its terminating zero. */
  function WriteVarlen(st: State, key: Key, isString: bool, data: seq<byte>): Step
    requires st.Open()
  {
    var chunked := st.version.V2? && !isString;
    if !chunked && |data| > st.version.MaxBlobSize() then Step(st, InputError)
    else if !st.HasRoom(1) then Step(st, PageFull)
    else if !chunked && !st.HasRoom(NumSlots(|data|) + 2) then Step(st, PageFull)
    else if st.ns > 255 then Step(st, ValueError)
    else if chunked then WriteChunks(st, st.ns, key, data, 0, 0)
    else Step(st.Add(DataEntry(st.ns, key, if isString then SZ else BLOB, CHUNK_ANY, data)), Done)
  }

  /** One attempt to write a row to the current page. The counter of namespaces was already
      advanced for a namespace row. */
  function Attempt(st: State, row: Row): Step
    requires st.Open() && |row.key| <= 15
  {
    match row
    case NamespaceRow(key) => WriteInt(st, key, U8, st.ns, 0)
    case IntRow(key, t, value) => WriteInt(st, key, t, value, st.ns)
    case StringRow(key, text) => WriteVarlen(st, key, true, text + [0])
    case BlobRow(key, data) => WriteVarlen(st, key, false, data)
    case UnsupportedRow(_) => Step(st, InputError)
  }

  /** A row is tried on the current page and, when that is full, once more on a new page. */
  function WriteRow(st: State, row: Row): Step
    requires st.Open() && |row.key| <= 15
  {
    var st0 := if row.NamespaceRow? then st.(ns := st.ns + 1) else st;
    var first := Attempt(st0, row);
    if !first.outcome.PageFull? then first
    else
      var turned := NewPage(st0);
      if !turned.outcome.Done? then turned else Attempt(turned.st, row)
  }

  /** All rows in order, up to the first that fails. */
  function Run(st: State, rows: seq<Row>): (s: Step)
    requires st.Open()
    decreases rows
  {
    if rows == [] then Step(st, Done)
    else if |rows[0].key| > 15 then Step(st, InputError)
    else
      var s := WriteRow(st, rows[0]);
      WriteRowKeeps(st, rows[0]);
      if !s.outcome.Done? then s else Run(s.st, rows[1..])
  }

  function Opened(version: Version, size: nat): State
    requires size >= PAGE_SIZE
  {
    NewPage(State(version, [], size / PAGE_SIZE, 0, false)).st
  }

  /** The sizes for which every page number fits its field. */
  predicate Addressable(size: int) { PAGE_SIZE <= size < PAGE_SIZE * 0x1_0000_0000 }

  // ----- the finished image -----

  /** The pages written on closing: those in use, then empty ones for the rest of the size. */
  function ClosedPages(st: State): (ps: seq<PageContent>)
    ensures |ps| == st.Total()
  {
    st.pages + seq(st.free, i => [])
  }

  predicate Writable(st: State) {
    st.WellFormed() && st.Total() < 0x1_0000_0000
  }

  function ClosedPage(x: Externals, encrypted: bool, st: State, i: nat): (s: seq<byte>)
    requires st.WellFormed() && i <= st.Total() < 0x1_0000_0000
    ensures |s| == PAGE_SIZE
  {
    if i == st.Total() then Blank(PAGE_SIZE)
    else
      assert ClosedPages(st)[i] in st.pages || ClosedPages(st)[i] == [];
      PageBytes(x, encrypted, i, st.version, PageSlots(x, ClosedPages(st)[i]), true)
  }

  function ImagePages(x: Externals, encrypted: bool, st: State): (ps: seq<seq<byte>>)
    requires Writable(st)
    ensures |ps| == st.Total() + 1
    ensures forall i :: 0 <= i < |ps| ==> ps[i] == ClosedPage(x, encrypted, st, i)
  {
    seq(st.Total() + 1, i requires 0 <= i <= st.Total() => ClosedPage(x, encrypted, st, i))
  }

  /** The bytes of a closed partition: every page marked FULL, then one blank reserved page. */
  function Image(x: Externals, encrypted: bool, st: State): seq<byte>
    requires Writable(st)
  {
    Join(ImagePages(x, encrypted, st))
  }

  /** Which pages were opened only to fill the partition does not show in the image. */
  lemma {:induction false} NewPageSameImage(x: Externals, encrypted: bool, st: State)
    requires Writable(st)
    ensures Writable(NewPage(st).st) && Image(x, encrypted, NewPage(st).st) == Image(x, encrypted, st)
  {
    var st' := NewPage(st).st;
    NewPageKeeps(st);
    assert ClosedPages(st') == ClosedPages(st);
    assert ImagePages(x, encrypted, st') == ImagePages(x, encrypted, st);
  }

  // ----- what every step keeps -----

  lemma {:induction false} NewPageKeeps(st: State)
    requires st.WellFormed()
    ensures NewPage(st).st.WellFormed()
    ensures NewPage(st).st.Total() == st.Total() && NewPage(st).st.version == st.version
  {
    assert forall p :: p in NewPage(st).st.pages ==> p in st.pages || p == [];
  }

  lemma {:induction false} AddKeeps(st: State, e: Entry)
    requires st.Open() && st.WellFormed() && e.WellFormed() && st.HasRoom(e.Span())
    ensures st.Add(e).WellFormed() && st.Add(e).Total() == st.Total()
    ensures Used(st.Add(e).Current()) == Used(st.Current()) + e.Span()
  {
    hide Used, Entry.Span, Entry.WellFormed;
    UsedSnoc(st.Current(), e);
    assert st.Current() in st.pages;
    assert forall p :: p in st.Add(e).pages ==> p in st.pages || p == st.Current() + [e];
  }

  /** Nothing but the contents, within their bounds, and the division into used and free pages changes. */
  predicate Keeps(st: State, after: State) {
    after.Open() && after.Total() == st.Total() && after.version == st.version && after.ns == st.ns &&
    (st.WellFormed() ==> after.WellFormed())
  }

  lemma {:induction false} PutChunkKeeps(st: State, ns: byte, key: Key, data: seq<byte>, offset: nat, count: nat)
    requires st.Open() && st.HasRoom(1) && offset <= |data|
    ensures Keeps(st, PutChunk(st, ns, key, data, offset, count).st)
  {
    var end := ChunkEnd(st, data, offset);
    if count <= 255 {
      var e := DataEntry(ns, key, BLOB_DATA, count, data[offset..end]);
      if st.WellFormed() {
        AddKeeps(st, e);
        NewPageKeeps(st.Add(e));
      }
    }
  }

  lemma {:induction false} WriteChunksKeeps(st: State, ns: byte, key: Key, data: seq<byte>, offset: nat, count: nat)
    requires st.Open() && st.HasRoom(1) && offset <= |data|
    ensures Keeps(st, WriteChunks(st, ns, key, data, offset, count).st)
    ensures !WriteChunks(st, ns, key, data, offset, count).outcome.PageFull?
    ensures !WriteChunks(st, ns, key, data, offset, count).outcome.InputError?
    decreases |data| - offset, Used(st.Current())
  {
    var end := ChunkEnd(st, data, offset);
    var s := PutChunk(st, ns, key, data, offset, count);
    PutChunkKeeps(st, ns, key, data, offset, count);
    if s.outcome.Done? {
      if end < |data| {
        WriteChunksKeeps(s.st, ns, key, data, end, count + 1);
      } else if |data| <= 0xFFFF_FFFF && count + 1 <= 255 && s.st.WellFormed() {
        AddKeeps(s.st, IndexEntry(ns, key, |data|, count + 1));
      }
    }
  }

  lemma {:induction false} AttemptKeeps(st: State, row: Row)
    requires st.Open() && |row.key| <= 15
    ensures Keeps(st, Attempt(st, row).st)
    ensures Attempt(st, row).outcome.PageFull? ==> Attempt(st, row).st == st
  {
    var s := Attempt(st, row);
    if s.outcome.Done? && st.WellFormed() {
      match row
      case NamespaceRow(key) => AddKeeps(st, IntEntry(0, key, U8, st.ns));
      case IntRow(key, t, value) => AddKeeps(st, IntEntry(st.ns, key, t, value));
      case StringRow(key, text) => AddKeeps(st, DataEntry(st.ns, key, SZ, CHUNK_ANY, text + [0]));
      case BlobRow(key, data) =>
        if st.version.V1? { AddKeeps(st, DataEntry(st.ns, key, BLOB, CHUNK_ANY, data)); }
      case UnsupportedRow(_) =>
    }
    if row.BlobRow? && st.version.V2? && st.HasRoom(1) && st.ns <= 255 {
      WriteChunksKeeps(st, st.ns, row.key, row.data, 0, 0);
    }
  }

  lemma {:induction false} WriteRowKeeps(st: State, row: Row)
    requires st.Open() && |row.key| <= 15
    ensures var after := WriteRow(st, row).st;
      Keeps(if row.NamespaceRow? then st.(ns := st.ns + 1) else st, after)
  {
    var st0 := if row.NamespaceRow? then st.(ns := st.ns + 1) else st;
    AttemptKeeps(st0, row);
    if Attempt(st0, row).outcome.PageFull? {
      if st0.WellFormed() { NewPageKeeps(st0); }
      if NewPage(st0).outcome.Done? { AttemptKeeps(NewPage(st0).st, row); }
    }
  }
}
