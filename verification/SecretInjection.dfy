/** The credentials of a cluster's MQTT users and their injection into other secrets. */
module SecretInjection {
  import opened Credentials
  import opened HashByteData

  datatype Ref = Ref(ns: Str, name: Str)

  datatype Secret = Secret(data: map<Str, Str>, annots: map<Str, Str>)

  type Secrets = map<Ref, Secret>

  /** Keys of the target secret; the last two are optional and empty when absent. */
  datatype Mapping = Mapping(username: Str, password: Str, sensorsTopic: Str, brokerUrl: Str)

  datatype Injection = Injection(target: Ref, mapping: Mapping, annots: map<Str, Str>)

  datatype User = User(name: Str, role: Str, injections: seq<Injection>)

  datatype Cluster = Cluster(name: Str, ns: Str, sensorsTopic: Str, users: seq<User>)

  // "reader" and "-user-credentials"
  const READER: Str := [0x72, 0x65, 0x61, 0x64, 0x65, 0x72]
  const SECRET_SUFFIX: Str :=
    [0x2D, 0x75, 0x73, 0x65, 0x72, 0x2D, 0x63, 0x72, 0x65, 0x64, 0x65, 0x6E, 0x74, 0x69, 0x61, 0x6C, 0x73]

  function CredRef(c: Cluster, u: User): Ref { Ref(c.ns, u.name + SECRET_SUFFIX) }

  /** tcp://<name>.<ns>.svc:1883 */
  function BrokerUrl(c: Cluster): Str {
    [0x74, 0x63, 0x70, 0x3A, 0x2F, 0x2F] + c.name + [0x2E] + c.ns
      + [0x2E, 0x73, 0x76, 0x63, 0x3A, 0x31, 0x38, 0x38, 0x33]
  }

  function Lookup(m: map<Str, Str>, k: Str): Str { if k in m then m[k] else [] }

  // ----- one injection on one secret -----

  /** Data under way, and whether anything was set. */
  datatype Draft = Draft(data: map<Str, Str>, changed: bool) {
    function Set(k: Str, v: Str): Draft {
      if k !in data || data[k] != v then Draft(data[k := v], true) else this
    }

    function SetOptional(k: Str, v: Str): Draft { if k != [] then Set(k, v) else this }
  }

  /** The annotations to set: those that read differently, a missing one reading as empty. */
  function NewAnnots(current: map<Str, Str>, wanted: map<Str, Str>): map<Str, Str> {
    map k | k in wanted && Lookup(current, k) != wanted[k] :: wanted[k]
  }

  function InjectedData(c: Cluster, u: User, password: Str, start: Draft, m: Mapping): Draft {
    start.Set(m.username, u.name).Set(m.password, password)
      .SetOptional(m.sensorsTopic, c.sensorsTopic).SetOptional(m.brokerUrl, BrokerUrl(c))
  }

  /** The data of a secret after an injection; an annotation that is set counts as a change as well. */
  function InjectedDraft(c: Cluster, u: User, password: Str, s: Secret, inj: Injection): Draft {
    InjectedData(c, u, password, Draft(s.data, NewAnnots(s.annots, inj.annots) != map[]), inj.mapping)
  }

  // ----- a pass over all users as a list of tasks -----

  datatype Task = Credentials(user: User) | Resources(user: User) | Inject(user: User, injection: Injection)

  function UserTasks(u: User): (ts: seq<Task>)
    ensures |ts| == 2 + |u.injections|
  {
    [Credentials(u), Resources(u)]
      + seq(|u.injections|, j requires 0 <= j < |u.injections| => Inject(u, u.injections[j]))
  }

  function AllTasks(users: seq<User>): seq<Task> {
    if users == [] then [] else AllTasks(users[..|users| - 1]) + UserTasks(users[|users| - 1])
  }

  /** Which calls of a task fail. */
  datatype Fault = Fault(get: bool, write: bool)

  /** The faults, and the passwords that would be generated, by number of the task. */
  datatype Oracle = Oracle(fault: nat -> Fault, random: nat -> Str)

  /** The state of a pass: `password` is that of the user's local copy of the credentials. */
  datatype Pass = Pass(secrets: Secrets, password: Str, writes: nat, ok: bool)

  /** Existing credentials with whatever is missing filled in. */
  function FilledCredentials(u: User, data: map<Str, Str>, random: Str): Draft {
    var d := Draft(data, false);
    var d1 := if USERNAME !in d.data then Draft(d.data[USERNAME := u.name], true) else d;
    if PASSWORD !in d1.data then Draft(d1.data[PASSWORD := random], true) else d1
  }

  function RunTask(c: Cluster, p: Pass, t: Task, f: Fault, random: Str): Pass {
    if !p.ok then p
    else match t
      case Credentials(u) =>
        var ref := CredRef(c, u);
        // Any error of the Get, not only a missing secret, leads to the creation of one.
        if f.get || ref !in p.secrets then
          if f.write || ref in p.secrets then p.(ok := false)
          else
            var s := Secret(map[USERNAME := u.name, PASSWORD := random], map[]);
            Pass(p.secrets[ref := s], random, p.writes + 1, true)
        else
          var s := p.secrets[ref];
          var d := FilledCredentials(u, s.data, random);
          if !d.changed then p.(password := d.data[PASSWORD])
          else if f.write then p.(ok := false)
          else Pass(p.secrets[ref := s.(data := d.data)], d.data[PASSWORD], p.writes + 1, true)
      case Resources(u) => if u.role != READER || f.get || f.write then p.(ok := false) else p
      case Inject(u, inj) =>
        if f.get || inj.target !in p.secrets then p.(ok := false)
        else
          var s := p.secrets[inj.target];
          var d := InjectedDraft(c, u, p.password, s, inj);
          if !d.changed then p
          else if f.write then p.(ok := false)
          else
            var injected := Secret(d.data, s.annots + NewAnnots(s.annots, inj.annots));
            p.(secrets := p.secrets[inj.target := injected], writes := p.writes + 1)
  }

  function RunAll(c: Cluster, p: Pass, ts: seq<Task>, o: Oracle): Pass {
    if ts == [] then p
    else
      var n := |ts| - 1;
      RunTask(c, RunAll(c, p, ts[..n], o), ts[n], o.fault(n), o.random(n))
  }

  function Start(secrets: Secrets): Pass { Pass(secrets, [], 0, true) }

  lemma {:induction false} RunAllSnoc(c: Cluster, p: Pass, ts: seq<Task>, t: Task, o: Oracle)
    ensures RunAll(c, p, ts + [t], o) == RunTask(c, RunAll(c, p, ts, o), t, o.fault(|ts|), o.random(|ts|))
  {
    assert (ts + [t])[..|ts|] == ts;
  }

  lemma {:induction false} FailedStays(c: Cluster, p: Pass, ts: seq<Task>, more: seq<Task>, o: Oracle)
    requires !RunAll(c, p, ts, o).ok
    ensures RunAll(c, p, ts + more, o) == RunAll(c, p, ts, o)
  {
    if more == [] {
      assert ts + more == ts;
    } else {
      var n := |more| - 1;
      FailedStays(c, p, ts, more[..n], o);
      assert ts + more == (ts + more[..n]) + [more[n]];
      RunAllSnoc(c, p, ts + more[..n], more[n], o);
    }
  }

  lemma {:induction false} TasksPrefix(users: seq<User>, i: nat)
    requires i <= |users|
    ensures AllTasks(users[..i]) <= AllTasks(users)
  {
    if i == |users| {
      assert users[..i] == users;
    } else {
      var before := users[..|users| - 1];
      TasksPrefix(before, i);
      assert before[..i] == users[..i];
    }
  }

  function Restrict(m: map<Str, Str>, keys: set<Str>): (r: map<Str, Str>) {
    map k | k in m && k in keys :: m[k]
  }

  lemma {:induction false} RestrictSnoc(current: map<Str, Str>, target: map<Str, Str>, done: set<Str>, key: Str)
    requires key !in done
    ensures Lookup(current + Restrict(target, done), key) == Lookup(current, key)
    ensures current + Restrict(target, done + {key})
         == if key in target then (current + Restrict(target, done))[key := target[key]]
            else current + Restrict(target, done)
  {
  }

  class Injector {
    var secrets: Secrets
    ghost var writes: nat

    constructor (secrets: Secrets)
      ensures this.secrets == secrets && writes == 0
    {
      this.secrets, writes := secrets, 0;
    }

    /** The state of the pass that started from `start` and did the tasks `ts`. */
    ghost predicate Reached(c: Cluster, start: Pass, ts: seq<Task>, o: Oracle, password: Str, ok: bool)
      reads this
    {
      RunAll(c, start, ts, o) == Pass(secrets, password, writes, ok)
    }

    /** Creates a user's credentials, or fills in what they lack. */
    method SyncCredentials(c: Cluster, u: User, f: Fault, random: Str, ghost previous: Str)
      returns (ok: bool, password: Str)
      modifies this
      ensures Pass(secrets, if ok then password else previous, writes, ok)
           == RunTask(c, Pass(old(secrets), previous, old(writes), true), Credentials(u), f, random)
    {
      var ref := CredRef(c, u);
      if f.get || ref !in secrets {
        if f.write || ref in secrets { return false, []; }
        secrets := secrets[ref := Secret(map[USERNAME := u.name, PASSWORD := random], map[])];
        writes := writes + 1;
        return true, random;
      }
      var userSecret := secrets[ref];
      var changed := false;
      if USERNAME !in userSecret.data {
        userSecret := userSecret.(data := userSecret.data[USERNAME := u.name]);
        changed := true;
      }
      if PASSWORD !in userSecret.data {
        userSecret := userSecret.(data := userSecret.data[PASSWORD := random]);
        changed := true;
      }
      if changed {
        if f.write { return false, []; }
        secrets := secrets[ref := userSecret];
        writes := writes + 1;
      }
      return true, userSecret.data[PASSWORD];
    }

    /** Sets the annotations that read differently, in whatever order the map is iterated. */
    method SetAnnotations(current: map<Str, Str>, wanted: map<Str, Str>) returns (annots: map<Str, Str>, changed: bool)
      ensures annots == current + NewAnnots(current, wanted)
      ensures changed <==> NewAnnots(current, wanted) != map[]
    {
      annots, changed := current, false;
      var keys := wanted.Keys;
      ghost var done: set<Str> := {};
      ghost var target := NewAnnots(current, wanted);
      while keys != {}
        invariant keys + done == wanted.Keys && keys !! done
        invariant annots == current + Restrict(target, done)
        invariant changed <==> exists k :: k in target && k in done
        decreases keys
      {
        var key :| key in keys;
        var value := wanted[key];
        RestrictSnoc(current, target, done, key);
        if Lookup(annots, key) != value {
          annots := annots[key := value];
          changed := true;
        }
        keys := keys - {key};
        done := done + {key};
      }
      assert Restrict(target, done) == target;
    }

    /** Injects a user's credentials into one secret, which must exist. */
    method InjectSecret(c: Cluster, u: User, password: Str, inject: Injection, f: Fault, ghost random: Str)
      returns (ok: bool)
      modifies this
      ensures Pass(secrets, password, writes, ok)
           == RunTask(c, Pass(old(secrets), password, old(writes), true), Inject(u, inject), f, random)
    {
      hide InjectedData, NewAnnots;
      if f.get || inject.target !in secrets { return false; }
      var remote := secrets[inject.target];
      var annots, changed := SetAnnotations(remote.annots, inject.annots);
      var data;
      data, changed := SetData(c, u, password, inject.mapping, remote.data, changed);
      if changed {
        if f.write { return false; }
        secrets := secrets[inject.target := Secret(data, annots)];
        writes := writes + 1;
      }
      return true;
    }

    /** Sets the keys of the mapping that do not hold their value yet. */
    method SetData(c: Cluster, u: User, password: Str, m: Mapping, current: map<Str, Str>, before: bool)
      returns (data: map<Str, Str>, changed: bool)
      ensures Draft(data, changed) == InjectedData(c, u, password, Draft(current, before), m)
    {
      data, changed := current, before;
      if m.username !in data || data[m.username] != u.name {
        data := data[m.username := u.name];
        changed := true;
      }
      if m.password !in data || data[m.password] != password {
        data := data[m.password := password];
        changed := true;
      }
      if m.sensorsTopic != [] {
        if m.sensorsTopic !in data || data[m.sensorsTopic] != c.sensorsTopic {
          data := data[m.sensorsTopic := c.sensorsTopic];
          changed := true;
        }
      }
      if m.brokerUrl != [] {
        var mqttUrl := BrokerUrl(c);
        if m.brokerUrl !in data || data[m.brokerUrl] != mqttUrl {
          data := data[m.brokerUrl := mqttUrl];
          changed := true;
        }
      }
    }

    /** One pass over all users and their injections. */
    method Sync(c: Cluster, o: Oracle) returns (ok: bool)
      modifies this
      ensures var q := RunAll(c, Pass(old(secrets), [], old(writes), true), AllTasks(c.users), o);
        secrets == q.secrets && writes == q.writes && ok == q.ok
    {
      hide RunAll, RunTask, UserTasks;
      ghost var start := Pass(secrets, [], writes, true);
      ghost var password: Str := [];
      var n := 0;
      EmptyRun(c, start, o);
      for i := 0 to |c.users|
        invariant n == |AllTasks(c.users[..i])|
        invariant Reached(c, start, AllTasks(c.users[..i]), o, password, true)
      {
        var u := c.users[i];
        ghost var before := AllTasks(c.users[..i]);
        assert c.users[..i + 1][..i] == c.users[..i];
        assert AllTasks(c.users[..i + 1]) == before + UserTasks(u);
        ok, n, password := SyncUser(c, u, o, n, start, before, password);
        if !ok {
          TasksPrefix(c.users, i + 1);
          ghost var done := AllTasks(c.users[..i + 1]);
          FailedStays(c, start, done, AllTasks(c.users)[|done|..], o);
          assert done + AllTasks(c.users)[|done|..] == AllTasks(c.users);
          return;
        }
      }
      assert c.users[..|c.users|] == c.users;
      ok := true;
    }

    /** The part of a pass that concerns one user; n counts the tasks done. */
    method SyncUser(
        c: Cluster, u: User, o: Oracle, n: nat, ghost start: Pass, ghost before: seq<Task>, ghost password: Str)
      returns (ok: bool, n': nat, ghost password': Str)
      requires n == |before| && Reached(c, start, before, o, password, true)
      modifies this
      ensures Reached(c, start, before + UserTasks(u), o, password', ok)
      ensures ok ==> n' == |before + UserTasks(u)|
    {
      hide RunAll, RunTask;
      ghost var ts := UserTasks(u);
      n', password' := n, password;
      var userPassword;
      RunAllSnoc(c, start, before, Credentials(u), o);
      ok, userPassword := SyncCredentials(c, u, o.fault(n), o.random(n), password);
      if !ok {
        assert before + [Credentials(u)] == before + ts[..1];
        FailedUser(c, start, before, u, 1, o);
        return;
      }
      password' := userPassword;
      RunAllSnoc(c, start, before + [Credentials(u)], Resources(u), o);
      ResourcesTask(c, Pass(secrets, password', writes, true), u, o.fault(n + 1), o.random(n + 1));
      assert before + [Credentials(u)] + [Resources(u)] == before + ts[..2];
      if u.role != READER || o.fault(n + 1).get || o.fault(n + 1).write {
        ok := false;
        FailedUser(c, start, before, u, 2, o);
        return;
      }
      n' := n + 2;
      for j := 0 to |u.injections|
        invariant n' == n + 2 + j
        invariant Reached(c, start, before + ts[..2 + j], o, password', true)
        invariant password' == userPassword
      {
        RunAllSnoc(c, start, before + ts[..2 + j], Inject(u, u.injections[j]), o);
        assert before + ts[..2 + j] + [Inject(u, u.injections[j])] == before + ts[..2 + (j + 1)];
        ok := InjectSecret(c, u, userPassword, u.injections[j], o.fault(n'), o.random(n'));
        if !ok {
          FailedUser(c, start, before, u, 2 + (j + 1), o);
          return;
        }
        n' := n' + 1;
      }
      assert ts[..2 + |u.injections|] == ts;
      ok := true;
    }
  }

  lemma {:induction false} EmptyRun(c: Cluster, p: Pass, o: Oracle)
    ensures RunAll(c, p, [], o) == p
  {
  }

  lemma {:induction false} ResourcesTask(c: Cluster, p: Pass, u: User, f: Fault, random: Str)
    requires p.ok
    ensures RunTask(c, p, Resources(u), f, random)
         == if u.role != READER || f.get || f.write then p.(ok := false) else p
  {
  }

  /** Nothing happens for a user after the first of their tasks that fails. */
  lemma {:induction false} FailedUser(c: Cluster, start: Pass, before: seq<Task>, u: User, k: nat, o: Oracle)
    requires 1 <= k <= |UserTasks(u)|
    requires !RunAll(c, start, before + UserTasks(u)[..k], o).ok
    ensures RunAll(c, start, before + UserTasks(u), o) == RunAll(c, start, before + UserTasks(u)[..k], o)
  {
    hide RunAll;
    var ts := UserTasks(u);
    FailedStays(c, start, before + ts[..k], ts[k..], o);
    assert before + ts[..k] + ts[k..] == before + ts;
  }
}
