/** Reading values by the name of their namespace instead of its number. */
module NvsNames {
  import opened Bytes
  import opened Options
  import opened NvsFormat
  import opened NvsSpec
  import opened NvsReader
  import opened NvsRoundTrip

  datatype Named = Named(ns: Key, key: Key, value: Value)

  /** A reader's name table: a byte value stored under number 0 names a namespace. */
  function Resolve(records: seq<Record>, names: map<byte, Key>): Option<seq<Named>> {
    if records == [] then Some([])
    else
      var r := records[0];
      if r.ns == 0 then
        if r.value.IntValue? && r.value.t.U8? && 0 <= r.value.value < 256
        then Resolve(records[1..], names[r.value.value := r.key]) else None
      else if r.ns !in names then None
      else
        var rest := Resolve(records[1..], names);
        if rest.None? then None else Some([Named(names[r.ns], r.key, r.value)] + rest.value)
  }

  /** The rows as their author means them: every value belongs to the namespace row before it. */
  function Meant(rows: seq<Row>, current: Key): seq<Named>
    requires forall row :: row in rows ==> |row.key| <= 15 && !row.UnsupportedRow?
  {
    if rows == [] then []
    else match rows[0]
      case NamespaceRow(key) => Meant(rows[1..], key)
      case IntRow(key, t, value) => [Named(current, key, IntValue(t, value))] + Meant(rows[1..], current)
      case StringRow(key, text) => [Named(current, key, StringValue(text))] + Meant(rows[1..], current)
      case BlobRow(key, data) => [Named(current, key, BlobValue(data))] + Meant(rows[1..], current)
  }

  lemma {:induction false} StorableRows(rows: seq<Row>, ns: nat)
    requires Storable(rows, ns)
    ensures forall row :: row in rows ==> |row.key| <= 15 && !row.UnsupportedRow?
  {
    if rows != [] {
      StorableRows(rows[1..], NsFor(rows[0], ns));
    }
  }

  lemma {:induction false} ResolveRecords(rows: seq<Row>, ns: nat, names: map<byte, Key>)
    requires Storable(rows, ns) && 1 <= ns <= 255 && ns in names
    ensures forall row :: row in rows ==> |row.key| <= 15 && !row.UnsupportedRow?
    ensures Resolve(Records(rows, ns), names) == Some(Meant(rows, names[ns]))
    decreases rows
  {
    StorableRows(rows, ns);
    if rows != [] {
      var next := NsFor(rows[0], ns);
      var records := Records(rows, ns);
      assert records[1..] == Records(rows[1..], next);
      ResolveRecords(rows[1..], next, if rows[0].NamespaceRow? then names[next := rows[0].key] else names);
    }
  }

  /** The main promise: an image of rows that begin with a namespace reads back as the list of
      (namespace, key, type, value) that the rows say, in order. */
  lemma {:induction false} NamedRoundTrip(x: Externals, version: Version, size: nat, rows: seq<Row>)
    requires Addressable(size) && Run(Opened(version, size), rows).outcome.Done?
    requires rows != [] && rows[0].NamespaceRow?
    ensures Writable(Run(Opened(version, size), rows).st)
    ensures forall row :: row in rows ==> |row.key| <= 15 && !row.UnsupportedRow?
    ensures var records := ReadImage(x, Image(x, false, Run(Opened(version, size), rows).st), version);
      records.Some? && Resolve(records.value, map[]) == Some(Meant(rows, rows[0].key))
  {
    hide Run, Image, ReadImage;
    WriteReadRoundTrip(x, version, size, rows);
    StorableRows(rows, 0);
    assert Records(rows, 0)[1..] == Records(rows[1..], 1);
    ResolveRecords(rows[1..], 1, map[1 := rows[0].key]);
  }

  /** The number of rows that store a value. */
  function Values(rows: seq<Row>): nat {
    if rows == [] then 0 else Values(rows[1..]) + if rows[0].NamespaceRow? then 0 else 1
  }

  lemma {:induction false} MeantLength(rows: seq<Row>, current: Key)
    requires forall row :: row in rows ==> |row.key| <= 15 && !row.UnsupportedRow?
    ensures |Meant(rows, current)| == Values(rows)
  {
    if rows != [] {
      MeantLength(rows[1..], if rows[0].NamespaceRow? then rows[0].key else current);
    }
  }

  /** A reader never finds more values than the rows store. */
  lemma {:induction false} ResolveLength(rows: seq<Row>, ns: nat, names: map<byte, Key>)
    requires Storable(rows, ns)
    ensures var r := Resolve(Records(rows, ns), names); r.Some? ==> |r.value| <= Values(rows)
    decreases rows
  {
    if rows != [] {
      var next := NsFor(rows[0], ns);
      var records := Records(rows, ns);
      assert records[1..] == Records(rows[1..], next);
      var r := records[0];
      var byName := r.ns == 0 && r.value.IntValue? && 0 <= r.value.value < 256;
      ResolveLength(rows[1..], next, if byName then names[r.value.value := r.key] else names);
    }
  }

  /** Rows before any namespace are stored under number 0, where readers keep names: the reader
      rejects them or takes them for names, so that whatever namespace was meant for them, it finds
      something else. */
  lemma {:induction false} RowBeforeNamespace(rows: seq<Row>, meant: Key)
    requires Storable(rows, 0) && rows != [] && !rows[0].NamespaceRow?
    ensures forall row :: row in rows ==> |row.key| <= 15 && !row.UnsupportedRow?
    ensures Resolve(Records(rows, 0), map[]) != Some(Meant(rows, meant))
  {
    StorableRows(rows, 0);
    MeantLength(rows, meant);
    var records := Records(rows, 0);
    assert records[1..] == Records(rows[1..], 0);
    if rows[0].IntRow? && 0 <= rows[0].value < 256 {
      ResolveLength(rows[1..], 0, map[rows[0].value := rows[0].key]);
    }
  }

  /** When rows read back by name: the image of a run that succeeds holds what its rows mean, for
      some namespace meant for those before the first namespace row, if and only if there are none
      before it. */
  lemma {:induction false} NamedIffNamespaceFirst(x: Externals, version: Version, size: nat, rows: seq<Row>)
    requires Addressable(size) && Run(Opened(version, size), rows).outcome.Done? && rows != []
    ensures Writable(Run(Opened(version, size), rows).st)
    ensures forall row :: row in rows ==> |row.key| <= 15 && !row.UnsupportedRow?
    ensures var records := ReadImage(x, Image(x, false, Run(Opened(version, size), rows).st), version);
      records.Some? &&
      ((exists meant: Key :: Resolve(records.value, map[]) == Some(Meant(rows, meant))) <==> rows[0].NamespaceRow?)
  {
    hide Run, Image, ReadImage, Resolve, Meant, Records;
    WriteReadRoundTrip(x, version, size, rows);
    StorableRows(rows, 0);
    if rows[0].NamespaceRow? {
      NamedRoundTrip(x, version, size, rows);
    } else {
      forall meant: Key
        ensures Resolve(Records(rows, 0), map[]) != Some(Meant(rows, meant))
      {
        RowBeforeNamespace(rows, meant);
      }
    }
  }
}
