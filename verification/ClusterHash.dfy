/** The hash of what a device cluster contributes to the configuration of its devices. */
module ClusterHash {
  import opened Bytes
  import opened Options
  import opened HashByteData

  // pedge.io/mqtt-broker-hostname, pedge.io/mqtt-broker-port, sensors-topic and pedge.io/device-hash
  const HOSTNAME: Str :=
    [0x70, 0x65, 0x64, 0x67, 0x65, 0x2E, 0x69, 0x6F, 0x2F] +
    [0x6D, 0x71, 0x74, 0x74, 0x2D, 0x62, 0x72, 0x6F, 0x6B, 0x65, 0x72, 0x2D] +
    [0x68, 0x6F, 0x73, 0x74, 0x6E, 0x61, 0x6D, 0x65]
  const PORT: Str :=
    [0x70, 0x65, 0x64, 0x67, 0x65, 0x2E, 0x69, 0x6F, 0x2F] +
    [0x6D, 0x71, 0x74, 0x74, 0x2D, 0x62, 0x72, 0x6F, 0x6B, 0x65, 0x72, 0x2D, 0x70, 0x6F, 0x72, 0x74]
  const SENSORS_TOPIC: Str := [0x73, 0x65, 0x6E, 0x73, 0x6F, 0x72, 0x73, 0x2D, 0x74, 0x6F, 0x70, 0x69, 0x63]
  const DEVICE_HASH: Str :=
    [0x70, 0x65, 0x64, 0x67, 0x65, 0x2E, 0x69, 0x6F, 0x2F] +
    [0x64, 0x65, 0x76, 0x69, 0x63, 0x65, 0x2D, 0x68, 0x61, 0x73, 0x68]

  /** What the hash is over: the broker's host and port, the topic, and the data of the cluster's
      secret if there is one. */
  datatype Inputs = Inputs(hostname: Str, port: Str, topic: Str, secret: Option<Data>)

  /** The map that is hashed; the secret enters through its own digest. */
  ghost function Hashed(i: Inputs, sha256: seq<byte> -> Str): Data {
    var base := map[HOSTNAME := i.hostname, PORT := i.port, SENSORS_TOPIC := i.topic];
    if i.secret.None? then base else base[DEVICE_HASH := sha256(Canonical(i.secret.value))]
  }

  /** The bytes that are hashed, each value behind its own key: "sensors-topic", then the broker's port and
      host under their keys of pedge.io, then the digest of the secret's bytes where there is one. */
  lemma {:induction false} HashedBytes(i: Inputs, sha256: seq<byte> -> Str)
    ensures Canonical(Hashed(i, sha256))
         == SENSORS_TOPIC + i.topic + PORT + i.port + HOSTNAME + i.hostname
            + if i.secret.None? then [] else DEVICE_HASH + sha256(Canonical(i.secret.value))
  {
    KeysInOrder();
    var d := Hashed(i, sha256);
    var three := [SENSORS_TOPIC, PORT, HOSTNAME];
    var keys := if i.secret.None? then three else three + [DEVICE_HASH];
    KeysDiffer();
    hide HOSTNAME, PORT, SENSORS_TOPIC, DEVICE_HASH, Canonical, Less;
    assert Descending(keys);
    CanonicalIs(d, keys);
    FeedFour(keys, d);
  }

  lemma {:induction false} FeedFour(keys: seq<Str>, d: Data)
    requires 3 <= |keys| <= 4 && forall k :: k in keys ==> k in d
    ensures Feed(keys, d) == keys[0] + d[keys[0]] + keys[1] + d[keys[1]] + keys[2] + d[keys[2]]
      + if |keys| == 3 then [] else keys[3] + d[keys[3]]
  {
    assert keys[1..][1..] == keys[2..] && keys[2..][1..] == keys[3..];
    assert Feed(keys[1..], d) == keys[1] + d[keys[1]] + Feed(keys[2..], d);
    assert Feed(keys[2..], d) == keys[2] + d[keys[2]] + Feed(keys[3..], d);
    if |keys| == 4 {
      assert keys[3..][1..] == [];
      assert Feed(keys[3..], d) == keys[3] + d[keys[3]] + [];
    }
  }

  lemma {:induction false} KeysInOrder()
    ensures Less(PORT, SENSORS_TOPIC) && Less(HOSTNAME, SENSORS_TOPIC) && Less(DEVICE_HASH, SENSORS_TOPIC)
    ensures Less(HOSTNAME, PORT) && Less(DEVICE_HASH, PORT) && Less(DEVICE_HASH, HOSTNAME)
  {
    LessAt(PORT, SENSORS_TOPIC, 0);
    LessAt(HOSTNAME, SENSORS_TOPIC, 0);
    LessAt(DEVICE_HASH, SENSORS_TOPIC, 0);
    LessAt(HOSTNAME, PORT, 21);
    LessAt(DEVICE_HASH, PORT, 9);
    LessAt(DEVICE_HASH, HOSTNAME, 9);
  }

  lemma {:induction false} LessAt(a: Str, b: Str, k: nat)
    requires PartAt(a, b, k)
    ensures Less(a, b)
  {
    LessIffPart(a, b);
  }

  /** Writing to an annotation map that is absent is a panic. */
  datatype Outcome = Done | GetFailed | Panic

  function TextAt(annots: Option<map<Str, Str>>, k: Str): Str {
    if annots.Some? && k in annots.value then annots.value[k] else []
  }

  /** The annotations of the cluster after its hash is computed; a secret that cannot be read for
      another reason than its absence is an error. */
  method UpdateHash(
      annots: Option<map<Str, Str>>, topic: Str, secret: Option<Data>, getFails: bool, sha256: seq<byte> -> Str)
    returns (o: Outcome, annots': Option<map<Str, Str>>)
    ensures o == if getFails then GetFailed else if annots.None? then Panic else Done
    ensures o != Done ==> annots' == annots
    ensures o == Done ==>
      var hostname := if HOSTNAME in annots.value then annots.value[HOSTNAME] else [];
      var port := if PORT in annots.value then annots.value[PORT] else [];
      var i := Inputs(hostname, port, topic, secret);
      var bytes := SENSORS_TOPIC + topic + PORT + port + HOSTNAME + hostname
        + if secret.None? then [] else DEVICE_HASH + sha256(Canonical(secret.value));
      annots' == Some(annots.value[DEVICE_HASH := sha256(bytes)]) && bytes == Canonical(Hashed(i, sha256))
  {
    var hostname, port := TextAt(annots, HOSTNAME), TextAt(annots, PORT);
    HashedBytes(Inputs(hostname, port, topic, secret), sha256);
    var hashForDevice := map[HOSTNAME := hostname, PORT := port, SENSORS_TOPIC := topic];
    if getFails {
      return GetFailed, annots;
    }
    if secret.Some? {
      var digest := Hash(secret.value, sha256);
      hashForDevice := hashForDevice[DEVICE_HASH := digest];
    }
    var digest := Hash(hashForDevice, sha256);
    if annots.None? {
      return Panic, annots;
    }
    return Done, Some(annots.value[DEVICE_HASH := digest]);
  }

  /** One edit of the inputs: of a text, of the secret as a whole, or of one of its keys. */
  datatype Edit =
    | Hostname(v: Str)
    | Port(v: Str)
    | Topic(v: Str)
    | NewSecret(data: Data)
    | SecretGone
    | SetKey(k: Str, v: Str)
    | RemoveKey(k: Str)
  {
    /** The edit applies, and changes something. */
    predicate Changes(i: Inputs) {
      match this
      case Hostname(v) => v != i.hostname
      case Port(v) => v != i.port
      case Topic(v) => v != i.topic
      case NewSecret(_) => i.secret.None?
      case SecretGone => i.secret.Some?
      case SetKey(k, v) => i.secret.Some? && (k !in i.secret.value || i.secret.value[k] != v)
      case RemoveKey(k) => i.secret.Some? && k in i.secret.value
    }

    function Apply(i: Inputs): Inputs
      requires Changes(i)
    {
      match this
      case Hostname(v) => i.(hostname := v)
      case Port(v) => i.(port := v)
      case Topic(v) => i.(topic := v)
      case NewSecret(data) => i.(secret := Some(data))
      case SecretGone => i.(secret := None)
      case SetKey(k, v) => i.(secret := Some(i.secret.value[k := v]))
      case RemoveKey(k) => i.(secret := Some(i.secret.value - {k}))
    }

    /** An empty key with an empty value is added or removed. */
    predicate OfNothing(i: Inputs) {
      i.secret.Some? &&
      ((this == SetKey([], []) && [] !in i.secret.value) ||
       (this == RemoveKey([]) && [] in i.secret.value && i.secret.value[[]] == []))
    }
  }

  /** What of a secret reaches the hash of a cluster shows every edit of one key. */
  lemma {:induction false} KeyEditShows(i: Inputs, edit: Edit)
    requires (edit.SetKey? || edit.RemoveKey?) && edit.Changes(i)
    ensures Canonical(edit.Apply(i).secret.value) != Canonical(i.secret.value) <==> !edit.OfNothing(i)
  {
    hide Canonical;
    var data := i.secret.value;
    match edit
    case SetKey(k, v) =>
      if k in data {
        SingleChangeShows(data, k, v);
      } else {
        AddedKeyShows(data, k, v);
      }
    case RemoveKey(k) =>
      AddedKeyShows(data - {k}, k, data[k]);
      assert (data - {k})[k := data[k]] == data;
  }

  /** The bytes that are hashed when the digest of the cluster's secret changes, appears or goes. */
  lemma {:induction false} DigestShows(base: Data, a: Option<Str>, b: Option<Str>)
    requires DEVICE_HASH !in base && DEVICE_HASH != []
    ensures var d := if a.None? then base else base[DEVICE_HASH := a.value];
      var d' := if b.None? then base else base[DEVICE_HASH := b.value];
      Canonical(d) == Canonical(d') <==> a == b
  {
    hide Canonical, DEVICE_HASH;
    var d := if a.None? then base else base[DEVICE_HASH := a.value];
    var d' := if b.None? then base else base[DEVICE_HASH := b.value];
    if a.Some? && b.Some? && a != b {
      SingleChangeShows(d, DEVICE_HASH, b.value);
      assert d' == d[DEVICE_HASH := b.value];
    } else if a.Some? && b.None? {
      AddedKeyShows(base, DEVICE_HASH, a.value);
    } else if a.None? && b.Some? {
      AddedKeyShows(base, DEVICE_HASH, b.value);
    }
  }

  /** The digest of the secret, where there is one. */
  ghost function SecretDigest(i: Inputs, sha256: seq<byte> -> Str): Option<Str> {
    if i.secret.None? then None else Some(sha256(Canonical(i.secret.value)))
  }

  /** The bytes that are hashed show every single edit but those of nothing. */
  lemma {:induction false} EditShowsInBytes(i: Inputs, edit: Edit, sha256: seq<byte> -> Str)
    requires CollisionFree(sha256) && edit.Changes(i)
    ensures Canonical(Hashed(edit.Apply(i), sha256)) != Canonical(Hashed(i, sha256)) <==> !edit.OfNothing(i)
  {
    KeysDiffer();
    hide HOSTNAME, PORT, SENSORS_TOPIC, DEVICE_HASH, Canonical;
    var d, d' := Hashed(i, sha256), Hashed(edit.Apply(i), sha256);
    match edit {
      case Hostname(v) =>
        SingleChangeShows(d, HOSTNAME, v);
        assert d' == d[HOSTNAME := v];
      case Port(v) =>
        SingleChangeShows(d, PORT, v);
        assert d' == d[PORT := v];
      case Topic(v) =>
        SingleChangeShows(d, SENSORS_TOPIC, v);
        assert d' == d[SENSORS_TOPIC := v];
      case _ =>
        var base := map[HOSTNAME := i.hostname, PORT := i.port, SENSORS_TOPIC := i.topic];
        DigestShows(base, SecretDigest(i, sha256), SecretDigest(edit.Apply(i), sha256));
        if edit.SetKey? || edit.RemoveKey? {
          KeyEditShows(i, edit);
        }
    }
  }

  /** Every single edit of what a cluster contributes changes its hash, so that the comparison with
      the hash a device carries fails and its configuration is rebuilt, unless the edit adds or
      removes an empty key with an empty value. */
  lemma {:induction false} EditShows(i: Inputs, edit: Edit, sha256: seq<byte> -> Str)
    requires CollisionFree(sha256) && edit.Changes(i)
    ensures sha256(Canonical(Hashed(edit.Apply(i), sha256))) != sha256(Canonical(Hashed(i, sha256)))
      <==> !edit.OfNothing(i)
  {
    EditShowsInBytes(i, edit, sha256);
  }

  lemma {:induction false} KeysDiffer()
    ensures HOSTNAME != PORT && HOSTNAME != SENSORS_TOPIC && HOSTNAME != DEVICE_HASH
    ensures PORT != SENSORS_TOPIC && PORT != DEVICE_HASH && SENSORS_TOPIC != DEVICE_HASH && DEVICE_HASH != []
  {
    assert |HOSTNAME| == 29 && |PORT| == 25 && |SENSORS_TOPIC| == 13 && |DEVICE_HASH| == 20;
  }
}
