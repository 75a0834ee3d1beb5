/** When a row that is stored on one page succeeds, how it fails, and on which page it lands: integers,
    namespaces, strings and V1 blobs, in plain numbers. */
module NvsRowCost {
  import opened Bytes
  import opened NvsBlob
  import opened NvsFormat
  import opened NvsSpec

  /** The range of each integer type. */
  predicate Accepts(t: IntType, v: int) {
    match t
    case U8 => 0 <= v <= 255
    case I8 => -128 <= v <= 127
    case U16 => 0 <= v <= 65535
    case I16 => -32768 <= v <= 32767
    case U32 => 0 <= v <= 4294967295
    case I32 => -2147483648 <= v <= 2147483647
    case U64 => 0 <= v <= 18446744073709551615
    case I64 => -9223372036854775808 <= v <= 9223372036854775807
  }

  lemma {:induction false} AcceptsInRange(t: IntType, v: int)
    ensures t.InRange(v) <==> Accepts(t, v)
  {
    hide Pow256;
    Pow256Values();
  }

  /** Where a row of `slots` slots ends up: behind the entries of the current page, or alone on a new one. */
  ghost predicate Lands(st: State, after: State, turned: bool, e: Entry, slots: nat)
    requires st.Open()
  {
    after.Open() && |after.pages| == |st.pages| + (if turned then 1 else 0) &&
    after.free == st.free - (if turned then 1 else 0) &&
    after.Current() == (if turned then [] else st.Current()) + [e] &&
    Used(after.Current()) == (if turned then 0 else Used(st.Current())) + slots
  }

  lemma {:induction false} AddLands(st: State, turned: bool, e: Entry)
    requires st.Open() && (turned ==> st.free > 0)
    ensures var from := if turned then NewPage(st).st else st;
      from.Open() && Lands(st, from.Add(e), turned, e, e.Span())
    ensures turned ==> NewPage(st).st.Current() == [] && Used(NewPage(st).st.Current()) == 0
  {
    hide Used, Entry.Span;
    EmptyUsed();
    var from := if turned then NewPage(st).st else st;
    UsedSnoc(from.Current(), e);
  }

  /** Any of the 126 slots will do for an integer. */
  lemma {:induction false} IntAttempt(st: State, key: Key, t: IntType, value: int, ns: nat)
    requires st.Open() && Used(st.Current()) <= 126
    ensures WriteInt(st, key, t, value, ns)
         == if Used(st.Current()) == 126 then Step(st, PageFull)
            else if ns <= 255 && Accepts(t, value) then Step(st.Add(IntEntry(ns, key, t, value)), Done)
            else Step(st, ValueError)
  {
    hide Used, Accepts, IntType.InRange;
    AcceptsInRange(t, value);
  }

  /** Integers and namespaces: exactly when the row succeeds, the error otherwise, and the page on which it
      lands. The page is turned before the value is looked at. */
  lemma {:induction false} IntRowOutcome(st: State, row: Row)
    requires st.Open() && |row.key| <= 15 && Used(st.Current()) <= 126 && (row.IntRow? || row.NamespaceRow?)
    ensures var s := WriteRow(st, row);
      var ns := if row.NamespaceRow? then st.ns + 1 else st.ns;
      var turned := Used(st.Current()) == 126;
      var accepted := ns <= 255 && (row.IntRow? ==> Accepts(row.t, row.value));
      s.outcome == (if turned && st.free == 0 then InsufficientSize else if accepted then Done else ValueError) &&
      (s.outcome.Done? ==>
        var e := if row.NamespaceRow? then IntEntry(0, row.key, U8, ns) else IntEntry(ns, row.key, row.t, row.value);
        Lands(st, s.st, turned, e, 1)) &&
      |s.st.pages| == |st.pages| + (if turned && st.free > 0 then 1 else 0)
  {
    hide Used, WriteInt, Lands, State.Add;
    var st0 := if row.NamespaceRow? then st.(ns := st.ns + 1) else st;
    var turned := Used(st.Current()) == 126;
    var key, t, value, ns := row.key, if row.IntRow? then row.t else U8, if row.IntRow? then row.value else st0.ns,
      if row.IntRow? then st0.ns else 0;
    IntAttempt(st0, key, t, value, ns);
    if turned && st.free > 0 {
      EmptyUsed();
      IntAttempt(NewPage(st0).st, key, t, value, ns);
    }
    if WriteRow(st, row).outcome.Done? {
      AddLands(st0, turned, IntEntry(ns, key, t, value));
      LandsFrom(st, st0, WriteRow(st, row).st, turned, IntEntry(ns, key, t, value), 1);
    }
  }

  /** The counter of namespaces plays no part. */
  lemma {:induction false} LandsFrom(st: State, st0: State, after: State, turned: bool, e: Entry, slots: nat)
    requires st0.Open() && st0 == st.(ns := st0.ns) && Lands(st0, after, turned, e, slots)
    ensures Lands(st, after, turned, e, slots)
  {
  }

  /** Strings, whose terminating zero counts, and V1 blobs: the entry must leave the last slot of its page
      free, unlike an integer. */
  lemma {:induction false} DataAttempt(st: State, row: Row)
    requires st.Open() && |row.key| <= 15 && (row.StringRow? || (row.BlobRow? && st.version.V1?))
    ensures var data := if row.StringRow? then row.text + [0] else row.data;
      var slots := 1 + (|data| + 31) / 32;
      Attempt(st, row)
        == if |data| > (if st.version.V1? then 1984 else 4000) then Step(st, InputError)
           else if Used(st.Current()) + slots >= 126 then Step(st, PageFull)
           else if st.ns > 255 then Step(st, ValueError)
           else Step(st.Add(DataEntry(st.ns, row.key, if row.StringRow? then SZ else BLOB, 0xFF, data)), Done)
  {
    hide Used;
  }

  /** Strings and V1 blobs: exactly when the row succeeds, the error otherwise, and the page on which it
      lands. */
  lemma {:induction false} DataRowOutcome(st: State, row: Row)
    requires st.Open() && |row.key| <= 15 && (row.StringRow? || (row.BlobRow? && st.version.V1?))
    ensures var s := WriteRow(st, row);
      var data := if row.StringRow? then row.text + [0] else row.data;
      var slots := 1 + (|data| + 31) / 32;
      var fits := Used(st.Current()) + slots < 126;
      s.outcome
        == (if |data| > (if st.version.V1? then 1984 else 4000) then InputError
            else if fits then (if st.ns > 255 then ValueError else Done)
            else if st.free == 0 then InsufficientSize
            else if slots >= 126 then PageFull
            else if st.ns > 255 then ValueError else Done) &&
      (s.outcome.Done? ==>
        Lands(st, s.st, !fits, DataEntry(st.ns, row.key, if row.StringRow? then SZ else BLOB, 0xFF, data), slots)) &&
      |s.st.pages| == |st.pages| + (if !s.outcome.InputError? && !fits && st.free > 0 then 1 else 0)
  {
    hide Used, Attempt, Lands, State.Add;
    DataAttempt(st, row);
    EmptyUsed();
    var data := if row.StringRow? then row.text + [0] else row.data;
    var fits := Used(st.Current()) + 1 + (|data| + 31) / 32 < 126;
    if !fits && st.free > 0 {
      DataAttempt(NewPage(st).st, row);
    }
    if WriteRow(st, row).outcome.Done? {
      AddLands(st, !fits, DataEntry(st.ns, row.key, if row.StringRow? then SZ else BLOB, 0xFF, data));
    }
  }

  /** An encoding that is not supported, or a key of more than 15 bytes, is an error that writes nothing;
      a run ends with the first row that fails, and its error is that row's. */
  lemma {:induction false} FirstFailure(st: State, rows: seq<Row>) returns (k: nat)
    requires st.Open()
    ensures k <= |rows| && Run(st, rows[..k]).outcome.Done?
    ensures forall i :: 0 <= i < k ==> |rows[i].key| <= 15
    ensures var before, s := Run(st, rows[..k]).st, Run(st, rows);
      before.Open() &&
      if k == |rows| then s == Step(before, Done)
      else if |rows[k].key| > 15 then s == Step(before, InputError)
      else
        s == WriteRow(before, rows[k]) && !s.outcome.Done? &&
        (rows[k].UnsupportedRow? ==> s == Step(before, InputError))
    decreases rows
  {
    hide WriteRow;
    k := 0;
    if rows != [] && |rows[0].key| <= 15 {
      WriteRowKeeps(st, rows[0]);
      var s := WriteRow(st, rows[0]);
      if s.outcome.Done? {
        var k' := FirstFailure(s.st, rows[1..]);
        k := k' + 1;
        assert rows[..k][0] == rows[0] && rows[..k][1..] == rows[1..][..k'];
      } else if rows[0].UnsupportedRow? {
        UnsupportedWritesNothing(st, rows[0]);
      }
    }
  }

  lemma {:induction false} UnsupportedWritesNothing(st: State, row: Row)
    requires st.Open() && |row.key| <= 15 && row.UnsupportedRow?
    ensures WriteRow(st, row) == Step(st, InputError)
  {
  }
}
