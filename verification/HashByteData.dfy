/** The hash over string-keyed data that decides whether configuration is stale: which bytes reach
    the hasher, and which changes of the data they reveal. */
module HashByteData {
  import opened Bytes

  type Str = seq<byte>
  type Data = map<Str, seq<byte>>

  // ----- the order of strings -----

  predicate Less(a: Str, b: Str) {
    b != [] && (a == [] || a[0] < b[0] || (a[0] == b[0] && Less(a[1..], b[1..])))
  }

  /** The strings part at position k: there a ends, or has the smaller byte. */
  predicate PartAt(a: Str, b: Str, k: nat) {
    k <= |a| && k < |b| && a[..k] == b[..k] && (k == |a| || a[k] < b[k])
  }

  /** The order is that of bytes from the left, a prefix coming first. */
  lemma {:induction false} LessIffPart(a: Str, b: Str)
    ensures Less(a, b) <==> exists k: nat :: PartAt(a, b, k)
  {
    if Less(a, b) {
      if a == [] || a[0] < b[0] {
        assert PartAt(a, b, 0);
      } else {
        LessIffPart(a[1..], b[1..]);
        var k: nat :| PartAt(a[1..], b[1..], k);
        assert a[..k + 1] == [a[0]] + a[1..][..k] && b[..k + 1] == [b[0]] + b[1..][..k];
        assert PartAt(a, b, k + 1);
      }
    }
    if k: nat :| PartAt(a, b, k) {
      if k > 0 {
        assert a[0] == a[..k][0] == b[..k][0] == b[0];
        assert a[1..][..k - 1] == a[..k][1..] == b[..k][1..] == b[1..][..k - 1];
        assert PartAt(a[1..], b[1..], k - 1);
        LessIffPart(a[1..], b[1..]);
      }
    }
  }

  lemma {:induction false} LessTotal(a: Str, b: Str)
    requires a != b
    ensures Less(a, b) <==> !Less(b, a)
  {
    if a != [] && b != [] && a[0] == b[0] {
      assert a == [a[0]] + a[1..] && b == [b[0]] + b[1..];
      LessTotal(a[1..], b[1..]);
    }
  }

  lemma {:induction false} LessIrreflexive(a: Str)
    ensures !Less(a, a)
  {
    if a != [] { LessIrreflexive(a[1..]); }
  }

  lemma {:induction false} LessTransitive(a: Str, b: Str, c: Str)
    requires Less(a, b) && Less(b, c)
    ensures Less(a, c)
  {
    if a != [] && a[0] == b[0] == c[0] {
      LessTransitive(a[1..], b[1..], c[1..]);
    }
  }

  predicate Descending(s: seq<Str>) {
    forall i, j :: 0 <= i < j < |s| ==> Less(s[j], s[i])
  }

  /** Inserts a key into keys in descending order. */
  function Insert(k: Str, s: seq<Str>): (r: seq<Str>)
    requires Descending(s) && k !in s
    ensures Descending(r)
    ensures forall x :: x in r <==> x == k || x in s
  {
    if s == [] then [k]
    else if Less(s[0], k) then
      forall i | 0 <= i < |s| ensures Less(s[i], k) { if i > 0 { LessTransitive(s[i], s[0], k); } }
      [k] + s
    else
      LessTotal(s[0], k);
      assert s == [s[0]] + s[1..];
      var r := Insert(k, s[1..]);
      forall i | 0 <= i < |r| ensures Less(r[i], s[0]) { assert r[i] in r; }
      [s[0]] + r
  }

  /** The keys in descending order, as the library's sort leaves them. */
  function SortReverse(keys: seq<Str>): (r: seq<Str>)
    requires forall i, j :: 0 <= i < j < |keys| ==> keys[i] != keys[j]
    ensures Descending(r)
    ensures forall x :: x in r <==> x in keys
  {
    if keys == [] then []
    else
      assert keys == [keys[0]] + keys[1..];
      Insert(keys[0], SortReverse(keys[1..]))
  }

  // ----- what reaches the hasher -----

  ghost predicate IsMax(k: Str, keys: set<Str>) {
    k in keys && forall j :: j in keys && j != k ==> Less(j, k)
  }

  lemma {:induction false} MaxExists(keys: set<Str>)
    requires keys != {}
    ensures exists k :: IsMax(k, keys)
    decreases |keys|
  {
    var a :| a in keys;
    var rest := keys - {a};
    if rest == {} {
      assert keys == {a};
      assert IsMax(a, keys);
    } else {
      MaxExists(rest);
      var m :| IsMax(m, rest);
      LessTotal(a, m);
      if Less(a, m) {
        assert IsMax(m, keys);
      } else {
        forall j | j in keys && j != a ensures Less(j, a) {
          assert j in rest;
          if j != m { LessTransitive(j, m, a); }
        }
        assert IsMax(a, keys);
      }
    }
  }

  lemma {:induction false} MaxUnique(a: Str, b: Str, keys: set<Str>)
    requires IsMax(a, keys) && IsMax(b, keys)
    ensures a == b
  {
    if a != b { LessTotal(a, b); }
  }

  ghost function MaxKey(keys: set<Str>): (k: Str)
    requires keys != {}
    ensures IsMax(k, keys)
  {
    MaxExists(keys);
    var k :| IsMax(k, keys);
    k
  }

  /** The canonical byte string of a map: its largest key, that key's value, then the rest. */
  ghost function Canonical(data: Data): seq<byte>
    decreases |data|
  {
    if data == map[] then []
    else
      var k := MaxKey(data.Keys);
      assert |(data - {k}).Keys| < |data.Keys|;
      k + data[k] + Canonical(data - {k})
  }

  function Feed(keys: seq<Str>, data: Data): seq<byte>
    requires forall k :: k in keys ==> k in data
  {
    if keys == [] then [] else keys[0] + data[keys[0]] + Feed(keys[1..], data)
  }

  lemma {:induction false} FeedSame(keys: seq<Str>, a: Data, b: Data)
    requires forall k :: k in keys ==> k in a && k in b && a[k] == b[k]
    ensures Feed(keys, a) == Feed(keys, b)
  {
    if keys != [] { FeedSame(keys[1..], a, b); }
  }

  lemma {:induction false} FeedIsCanonical(keys: seq<Str>, data: Data)
    requires Descending(keys) && (forall k :: k in keys <==> k in data)
    ensures Feed(keys, data) == Canonical(data)
    decreases |keys|
  {
    if keys == [] {
      assert data == map[];
    } else {
      var k := keys[0];
      var rest := data - {k};
      assert k in data;
      assert IsMax(k, data.Keys) by {
        forall j | j in data.Keys && j != k ensures Less(j, k) { assert j in keys; }
      }
      MaxUnique(k, MaxKey(data.Keys), data.Keys);
      LessIrreflexive(k);
      assert keys == [k] + keys[1..];
      assert forall j :: j in keys[1..] <==> j in rest;
      FeedIsCanonical(keys[1..], rest);
      FeedSame(keys[1..], data, rest);
    }
  }

  /** The digest of a map. Its keys are gathered in whatever order the map is iterated; the result
      does not depend on it. */
  method Hash<Digest>(data: Data, sha256: seq<byte> -> Digest) returns (digest: Digest)
    ensures digest == sha256(Canonical(data))
  {
    hide Canonical, Feed, Descending;
    var keys: seq<Str> := [];
    var rest := data.Keys;
    while rest != {}
      invariant forall i, j :: 0 <= i < j < |keys| ==> keys[i] != keys[j]
      invariant forall k :: k in data <==> k in keys || k in rest
      invariant forall k :: k in keys ==> k !in rest
      decreases rest
    {
      var k :| k in rest;
      keys := keys + [k];
      rest := rest - {k};
    }
    keys := SortReverse(keys);
    FeedIsCanonical(keys, data);
    var written := WriteAll(keys, data);
    digest := sha256(written);
  }

  /** Writes each key and its value to the hasher, one after the other. */
  method WriteAll(keys: seq<Str>, data: Data) returns (written: seq<byte>)
    requires forall k :: k in keys ==> k in data
    ensures written == Feed(keys, data)
  {
    written := [];
    for i := 0 to |keys|
      invariant written + Feed(keys[i..], data) == Feed(keys, data)
    {
      var key := keys[i];
      assert keys[i..][1..] == keys[i + 1..];
      assert Feed(keys[i..], data) == key + data[key] + Feed(keys[i + 1..], data);
      written := written + key;
      written := written + data[key];
    }
  }

  // ----- which changes show -----

  /** The digest tells any two byte strings apart, as SHA-256 is trusted to do. */
  ghost predicate CollisionFree<Digest>(sha256: seq<byte> -> Digest) {
    forall a, b :: sha256(a) == sha256(b) ==> a == b
  }

  /** Values differ in length under at most the key k0. */
  ghost predicate LengthsAgreeBut(a: Data, b: Data, k0: Str)
    requires a.Keys == b.Keys
  {
    forall k :: k in a && k != k0 ==> |a[k]| == |b[k]|
  }

  lemma {:induction false} LengthDifference(a: Data, b: Data, k0: Str)
    requires a.Keys == b.Keys && LengthsAgreeBut(a, b, k0)
    ensures |Canonical(a)| - |Canonical(b)| == if k0 in a then |a[k0]| - |b[k0]| else 0
    decreases |a|
  {
    if a == map[] {
      assert b == map[];
    } else {
      assert b != map[];
      var k := MaxKey(a.Keys);
      assert k == MaxKey(b.Keys);
      assert |(a - {k}).Keys| < |a.Keys|;
      LengthDifference(a - {k}, b - {k}, k0);
    }
  }

  lemma {:induction false} SameLengthsInjective(a: Data, b: Data)
    requires a.Keys == b.Keys && (forall k :: k in a ==> |a[k]| == |b[k]|)
    requires Canonical(a) == Canonical(b)
    ensures a == b
    decreases |a|
  {
    if a == map[] {
      assert b == map[];
    } else {
      assert b != map[];
      var k := MaxKey(a.Keys);
      assert k == MaxKey(b.Keys);
      var n, m := |k|, |k| + |a[k]|;
      assert Canonical(a)[n..m] == a[k];
      assert Canonical(b)[n..m] == b[k];
      assert Canonical(a)[m..] == Canonical(a - {k});
      assert Canonical(b)[m..] == Canonical(b - {k});
      assert |(a - {k}).Keys| < |a.Keys|;
      SameLengthsInjective(a - {k}, b - {k});
      assert a == (a - {k})[k := a[k]] && b == (b - {k})[k := b[k]];
    }
  }

  /** Between maps with the same keys whose values differ in length under one key at most, no two
      different ones feed the same bytes: every change of a single value shows. */
  lemma {:induction false} InjectiveUpToOneLength(a: Data, b: Data, k0: Str)
    requires a.Keys == b.Keys && LengthsAgreeBut(a, b, k0)
    ensures Canonical(a) == Canonical(b) <==> a == b
  {
    if Canonical(a) == Canonical(b) {
      LengthDifference(a, b, k0);
      SameLengthsInjective(a, b);
    }
  }

  /** Changing the value of one key, a password say, always changes the bytes that are hashed. */
  lemma {:induction false} SingleChangeShows(data: Data, k: Str, v: seq<byte>)
    requires k in data && data[k] != v
    ensures Canonical(data[k := v]) != Canonical(data)
  {
    assert data[k := v].Keys == data.Keys;
    InjectiveUpToOneLength(data[k := v], data, k);
  }

  lemma {:induction false} AddedLength(data: Data, k0: Str, v: seq<byte>)
    requires k0 !in data
    ensures |Canonical(data[k0 := v])| == |Canonical(data)| + |k0| + |v|
    decreases |data|
  {
    var more := data[k0 := v];
    var k := MaxKey(more.Keys);
    if k == k0 {
      assert more - {k} == data;
    } else {
      assert k in data && IsMax(k, data.Keys);
      MaxUnique(k, MaxKey(data.Keys), data.Keys);
      assert |(data - {k}).Keys| < |data.Keys|;
      AddedLength(data - {k}, k0, v);
      assert (data - {k})[k0 := v] == more - {k};
    }
  }

  /** The empty key comes last, and with an empty value adds no byte. */
  lemma {:induction false} EmptyKeyHides(data: Data)
    requires [] !in data
    ensures Canonical(data[[] := []]) == Canonical(data)
    decreases |data|
  {
    var more := data[[] := []];
    var k := MaxKey(more.Keys);
    if k == [] {
      assert forall j :: j in data ==> Less(j, []);
      assert data == map[] && more - {k} == map[];
    } else {
      assert k in data && IsMax(k, data.Keys);
      MaxUnique(k, MaxKey(data.Keys), data.Keys);
      assert |(data - {k}).Keys| < |data.Keys|;
      EmptyKeyHides(data - {k});
      assert (data - {k})[[] := []] == more - {k};
    }
  }

  /** A key that appears, or the other way round disappears, changes the bytes that are hashed, unless
      key and value are both empty. */
  lemma {:induction false} AddedKeyShows(data: Data, k: Str, v: Str)
    requires k !in data
    ensures Canonical(data[k := v]) != Canonical(data) <==> k != [] || v != []
  {
    AddedLength(data, k, v);
    if k == [] && v == [] {
      EmptyKeyHides(data);
    }
  }

  lemma {:induction false} CanonicalIs(data: Data, keys: seq<Str>)
    requires Descending(keys) && (forall k :: k in keys <==> k in data)
    ensures Canonical(data) == Feed(keys, data)
  {
    FeedIsCanonical(keys, data);
  }

  /** In general the bytes do not determine the map: nothing separates a key from its value, nor one
      value from the next key. */
  lemma {:induction false} NotInjective(a: byte, b: byte, c: byte)
    ensures Canonical(map[[a] := [b, c]]) == Canonical(map[[a, b] := [c]])
    ensures map[[a] := [b, c]] != map[[a, b] := [c]]
  {
    CanonicalIs(map[[a] := [b, c]], [[a]]);
    CanonicalIs(map[[a, b] := [c]], [[a, b]]);
    assert [a] in map[[a] := [b, c]] && [a] !in map[[a, b] := [c]];
  }

  /** Not even between maps with the same keys: the lengths of two values may trade places. */
  lemma {:induction false} NotInjectiveOnKeys(a: byte, b: byte)
    requires a < b
    ensures var p: Data, q: Data := map[[b] := [a], [a] := []], map[[b] := [], [a] := [a]];
      p.Keys == q.Keys && p != q && Canonical(p) == Canonical(q)
  {
    hide Canonical;
    var p: Data, q: Data := map[[b] := [a], [a] := []], map[[b] := [], [a] := [a]];
    assert Less([a], [b]);
    CanonicalIs(p, [[b], [a]]);
    CanonicalIs(q, [[b], [a]]);
    assert Feed([[b], [a]], p) == [b] + [a] + Feed([[a]], p);
    assert Feed([[b], [a]], q) == [b] + [] + Feed([[a]], q);
    assert Feed([[a]], p) == [a] + [] && Feed([[a]], q) == [a] + [a];
    assert p[[b]] != q[[b]];
  }
}
