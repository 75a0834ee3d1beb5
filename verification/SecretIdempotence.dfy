/** What a pass over users and injections achieves, exactly when another pass has nothing left to
    write, and what no pass touches. */
module SecretIdempotence {
  import opened Credentials
  import opened HashByteData
  import opened SecretInjection

  // ----- what one injection assigns -----

  /** The data an injection assigns; of keys that coincide the last one stays. */
  function Assigned(c: Cluster, u: User, password: Str, m: Mapping): (a: map<Str, Str>)
    ensures a.Keys == DataKeys(m)
  {
    var credentials := map[m.username := u.name][m.password := password];
    WithOptional(WithOptional(credentials, m.sensorsTopic, c.sensorsTopic), m.brokerUrl, BrokerUrl(c))
  }

  function WithOptional(a: map<Str, Str>, k: Str, v: Str): map<Str, Str> { if k != [] then a[k := v] else a }

  /** The data keys an injection sets. */
  function DataKeys(m: Mapping): set<Str> {
    {m.username, m.password} + (if m.sensorsTopic != [] then {m.sensorsTopic} else {})
      + (if m.brokerUrl != [] then {m.brokerUrl} else {})
  }

  /** Keys that coincide are set to equal values. */
  predicate Coherent(c: Cluster, u: User, password: Str, m: Mapping) {
    (m.username == m.password ==> u.name == password) &&
    (m.sensorsTopic != [] ==>
      (m.sensorsTopic == m.username ==> c.sensorsTopic == u.name) &&
      (m.sensorsTopic == m.password ==> c.sensorsTopic == password)) &&
    (m.brokerUrl != [] ==>
      (m.brokerUrl == m.username ==> BrokerUrl(c) == u.name) &&
      (m.brokerUrl == m.password ==> BrokerUrl(c) == password) &&
      (m.brokerUrl == m.sensorsTopic ==> BrokerUrl(c) == c.sensorsTopic))
  }

  predicate Holds(data: map<Str, Str>, a: map<Str, Str>) {
    forall k :: k in a ==> k in data && data[k] == a[k]
  }

  predicate Reads(annots: map<Str, Str>, wanted: map<Str, Str>) {
    forall k :: k in wanted ==> Lookup(annots, k) == wanted[k]
  }

  lemma {:induction false} SetOnTop(d: Draft, base: map<Str, Str>, a: map<Str, Str>, k: Str, v: Str)
    requires d.data == base + a
    ensures d.Set(k, v).data == base + a[k := v]
    ensures d.SetOptional(k, v).data == base + WithOptional(a, k, v)
  {
    assert (base + a)[k := v] == base + a[k := v];
  }

  lemma {:induction false} InjectedDataIs(c: Cluster, u: User, password: Str, start: Draft, m: Mapping)
    ensures InjectedData(c, u, password, start, m).data == start.data + Assigned(c, u, password, m)
  {
    hide BrokerUrl, Draft.Set, Draft.SetOptional, WithOptional;
    var d1 := start.Set(m.username, u.name);
    var d2 := d1.Set(m.password, password);
    var d3 := d2.SetOptional(m.sensorsTopic, c.sensorsTopic);
    var a2 := map[m.username := u.name][m.password := password];
    SetOnTop(start, start.data, map[], m.username, u.name);
    SetOnTop(d1, start.data, map[m.username := u.name], m.password, password);
    SetOnTop(d2, start.data, a2, m.sensorsTopic, c.sensorsTopic);
    SetOnTop(d3, start.data, WithOptional(a2, m.sensorsTopic, c.sensorsTopic), m.brokerUrl, BrokerUrl(c));
  }

  /** When an injection changes nothing: everything is in place already, and keys that coincide are
      set to equal values. */
  lemma {:induction false} UnchangedIff(c: Cluster, u: User, password: Str, start: Draft, m: Mapping)
    ensures !InjectedData(c, u, password, start, m).changed <==>
      !start.changed && Coherent(c, u, password, m) && Holds(start.data, Assigned(c, u, password, m))
  {
    hide BrokerUrl;
  }

  /** Repeating one injection writes nothing if and only if keys that coincide are set to equal values. */
  lemma {:induction false} RepeatedInjectionIsIdleIff(c: Cluster, u: User, password: Str, start: Draft, m: Mapping)
    ensures var first := InjectedData(c, u, password, start, m);
      !InjectedData(c, u, password, Draft(first.data, false), m).changed <==> Coherent(c, u, password, m)
  {
    hide InjectedData, Coherent, Assigned;
    var first := InjectedData(c, u, password, start, m);
    InjectedDataIs(c, u, password, start, m);
    UnchangedIff(c, u, password, Draft(first.data, false), m);
  }

  /** Then every key that is declared reads as declared. */
  lemma {:induction false} CoherentAssigns(c: Cluster, u: User, password: Str, m: Mapping)
    requires Coherent(c, u, password, m)
    ensures var a := Assigned(c, u, password, m);
      a[m.username] == u.name && a[m.password] == password &&
      (m.sensorsTopic != [] ==> a[m.sensorsTopic] == c.sensorsTopic) &&
      (m.brokerUrl != [] ==> a[m.brokerUrl] == BrokerUrl(c))
  {
    hide BrokerUrl;
  }

  lemma {:induction false} AnnotsRead(current: map<Str, Str>, wanted: map<Str, Str>)
    ensures Reads(current + NewAnnots(current, wanted), wanted)
    ensures NewAnnots(current, wanted) == map[] <==> Reads(current, wanted)
  {
    if Reads(current, wanted) {
      assert NewAnnots(current, wanted).Keys == {};
    } else {
      var k :| k in wanted && Lookup(current, k) != wanted[k];
      assert k in NewAnnots(current, wanted);
    }
  }

  // ----- what tasks achieve -----

  /** A user's credentials are complete. */
  predicate HasCredentials(c: Cluster, secrets: Secrets, u: User) {
    CredRef(c, u) in secrets && USERNAME in secrets[CredRef(c, u)].data && PASSWORD in secrets[CredRef(c, u)].data
  }

  function PasswordOf(c: Cluster, secrets: Secrets, u: User): Str {
    if HasCredentials(c, secrets, u) then secrets[CredRef(c, u)].data[PASSWORD] else []
  }

  /** What a task is there to achieve: for an injection, that every key and annotation it declares
      reads as declared, with the user's stored password. */
  predicate Achieved(c: Cluster, secrets: Secrets, t: Task) {
    HasCredentials(c, secrets, t.user) &&
    match t
    case Credentials(_) => true
    case Resources(u) => u.role == READER
    case Inject(u, inj) => inj.target in secrets && Injected(c, u, PasswordOf(c, secrets, u), secrets[inj.target], inj)
  }

  predicate Injected(c: Cluster, u: User, password: Str, s: Secret, inj: Injection) {
    Coherent(c, u, password, inj.mapping) && Holds(s.data, Assigned(c, u, password, inj.mapping)) &&
    Reads(s.annots, inj.annots)
  }

  /** The local copy of a user's password is the stored one. */
  predicate Current(c: Cluster, p: Pass, u: User) {
    HasCredentials(c, p.secrets, u) && p.password == PasswordOf(c, p.secrets, u)
  }

  lemma {:induction false} UnchangedIffInjected(c: Cluster, u: User, password: Str, s: Secret, inj: Injection)
    ensures !InjectedDraft(c, u, password, s, inj).changed <==> Injected(c, u, password, s, inj)
  {
    hide InjectedData, Coherent, Assigned, Holds, Reads;
    UnchangedIff(c, u, password, Draft(s.data, NewAnnots(s.annots, inj.annots) != map[]), inj.mapping);
    AnnotsRead(s.annots, inj.annots);
  }

  /** A task that succeeds writes nothing if and only if it was already achieved. */
  lemma {:induction false} TaskIdleIff(c: Cluster, p: Pass, t: Task, f: Fault, random: Str)
    requires p.ok && RunTask(c, p, t, f, random).ok && (!t.Credentials? ==> Current(c, p, t.user))
    ensures var q := RunTask(c, p, t, f, random);
      p.writes <= q.writes <= p.writes + 1 && (q.writes == p.writes <==> Achieved(c, p.secrets, t)) &&
      (q.writes == p.writes ==> q.secrets == p.secrets && Current(c, q, t.user))
  {
    hide InjectedDraft, Injected, CredRef;
    assert USERNAME != PASSWORD;
    if t.Inject? && t.injection.target in p.secrets {
      UnchangedIffInjected(c, t.user, p.password, p.secrets[t.injection.target], t.injection);
    }
  }

  /** An achieved task writes nothing, whichever of its calls fail, and succeeds if none does. */
  lemma {:induction false} AchievedTaskIsIdle(c: Cluster, p: Pass, t: Task, f: Fault, random: Str)
    requires p.ok && Achieved(c, p.secrets, t) && (!t.Credentials? ==> Current(c, p, t.user))
    ensures var q := RunTask(c, p, t, f, random);
      q.secrets == p.secrets && q.writes == p.writes && (q.ok ==> Current(c, q, t.user)) &&
      (!f.get && !f.write ==> q.ok)
  {
    hide InjectedDraft, Injected, CredRef;
    if t.Inject? {
      UnchangedIffInjected(c, t.user, p.password, p.secrets[t.injection.target], t.injection);
    }
  }

  /** No task replaces complete credentials, unless it injects into them. */
  lemma {:induction false} TaskKeepsCredentials(c: Cluster, p: Pass, t: Task, f: Fault, random: Str, u: User)
    requires HasCredentials(c, p.secrets, u) && (t.Inject? ==> t.injection.target != CredRef(c, u))
    ensures var q := RunTask(c, p, t, f, random);
      HasCredentials(c, q.secrets, u) && q.secrets[CredRef(c, u)] == p.secrets[CredRef(c, u)]
  {
    hide InjectedDraft, CredRef;
  }

  /** A task that succeeds leaves its user with complete credentials, and a copy of the password. */
  lemma {:induction false} TaskMakesCurrent(c: Cluster, p: Pass, t: Task, f: Fault, random: Str)
    requires p.ok && RunTask(c, p, t, f, random).ok && (!t.Credentials? ==> Current(c, p, t.user))
    requires t.Inject? ==> t.injection.target != CredRef(c, t.user)
    ensures Current(c, RunTask(c, p, t, f, random), t.user)
  {
    hide InjectedDraft, CredRef;
    assert USERNAME != PASSWORD;
  }

  /** An injection that succeeds has achieved what it is there for, if it does not contradict itself. */
  lemma {:induction false} InjectAchieves(c: Cluster, p: Pass, u: User, inj: Injection, f: Fault, random: Str)
    requires p.ok && RunTask(c, p, Inject(u, inj), f, random).ok && Current(c, p, u)
    requires Coherent(c, u, p.password, inj.mapping) && inj.target != CredRef(c, u)
    ensures Achieved(c, RunTask(c, p, Inject(u, inj), f, random).secrets, Inject(u, inj))
  {
    hide InjectedData, Coherent, CredRef, Assigned, Reads, NewAnnots;
    var s := p.secrets[inj.target];
    var annots := NewAnnots(s.annots, inj.annots);
    InjectedDataIs(c, u, p.password, Draft(s.data, annots != map[]), inj.mapping);
    UnchangedIffInjected(c, u, p.password, s, inj);
    AnnotsRead(s.annots, inj.annots);
  }

  lemma {:induction false} TaskAchieves(c: Cluster, p: Pass, t: Task, f: Fault, random: Str)
    requires p.ok && RunTask(c, p, t, f, random).ok && (!t.Credentials? ==> Current(c, p, t.user))
    requires t.Inject? ==>
      Coherent(c, t.user, p.password, t.injection.mapping) && t.injection.target != CredRef(c, t.user)
    ensures Achieved(c, RunTask(c, p, t, f, random).secrets, t)
  {
    hide Coherent, CredRef, InjectedDraft, Injected;
    TaskMakesCurrent(c, p, t, f, random);
    if t.Inject? {
      InjectAchieves(c, p, t.user, t.injection, f, random);
    }
  }

  // ----- tasks that agree -----

  predicate AgreeOn(a: map<Str, Str>, b: map<Str, Str>) {
    forall k :: k in a && k in b ==> a[k] == b[k]
  }

  /** The keys and annotations that two injections set in one secret are set to equal values. */
  predicate Agree(c: Cluster, secrets: Secrets, a: Task, b: Task)
    requires a.Inject? && b.Inject?
  {
    a.injection.target == b.injection.target ==>
      AgreeOn(Assigned(c, a.user, PasswordOf(c, secrets, a.user), a.injection.mapping),
              Assigned(c, b.user, PasswordOf(c, secrets, b.user), b.injection.mapping)) &&
      AgreeOn(a.injection.annots, b.injection.annots)
  }

  /** No injection contradicts itself or another one. */
  predicate Agreeing(c: Cluster, secrets: Secrets, ts: seq<Task>) {
    (forall i :: 0 <= i < |ts| && ts[i].Inject? ==>
      Coherent(c, ts[i].user, PasswordOf(c, secrets, ts[i].user), ts[i].injection.mapping)) &&
    (forall i, j :: 0 <= i < |ts| && 0 <= j < |ts| && ts[i].Inject? && ts[j].Inject? ==>
      Agree(c, secrets, ts[i], ts[j]))
  }

  /** No injection targets the credentials of a user. */
  predicate SparesCredentials(c: Cluster, ts: seq<Task>) {
    forall i, j :: 0 <= i < |ts| && 0 <= j < |ts| && ts[i].Inject? ==> ts[i].injection.target != CredRef(c, ts[j].user)
  }

  lemma {:induction false} HoldsStays(data: map<Str, Str>, a: map<Str, Str>, more: map<Str, Str>)
    requires Holds(data, a) && AgreeOn(a, more)
    ensures Holds(data + more, a)
  {
  }

  lemma {:induction false} ReadsStays(annots: map<Str, Str>, a: map<Str, Str>, more: map<Str, Str>)
    requires Reads(annots, a) && AgreeOn(a, more)
    ensures Reads(annots + NewAnnots(annots, more), a)
  {
  }

  /** A secret after an injection. */
  function AfterInjection(c: Cluster, u: User, password: Str, s: Secret, inj: Injection): Secret {
    Secret(s.data + Assigned(c, u, password, inj.mapping), s.annots + NewAnnots(s.annots, inj.annots))
  }

  lemma {:induction false} ReadsAfter(annots: map<Str, Str>, a: map<Str, Str>, more: map<Str, Str>)
    requires Reads(annots, a)
    ensures Reads(annots + NewAnnots(annots, more), a) <==> AgreeOn(a, more)
  {
    var after := annots + NewAnnots(annots, more);
    AnnotsRead(annots, more);
    if !AgreeOn(a, more) {
      var k :| k in a && k in more && a[k] != more[k];
      assert Lookup(after, k) == more[k];
    }
  }

  lemma {:induction false} HoldsAfter(data: map<Str, Str>, a: map<Str, Str>, more: map<Str, Str>)
    ensures Holds(data + a + more, a) <==> AgreeOn(a, more)
  {
    if !AgreeOn(a, more) {
      var k :| k in a && k in more && a[k] != more[k];
      assert (data + a + more)[k] == more[k];
    }
  }

  /** Two injections into one secret, one after the other: repeating the first writes nothing if and only
      if it does not contradict itself and the two set shared keys and annotations to equal values. */
  lemma {:induction false} PairSettlesIff(
      c: Cluster, u: User, password: Str, first: Injection, u': User, password': Str, second: Injection, s: Secret)
    ensures var s1 := AfterInjection(c, u, password, s, first);
      var s2 := AfterInjection(c, u', password', s1, second);
      !InjectedDraft(c, u, password, s2, first).changed <==>
        Coherent(c, u, password, first.mapping) &&
        AgreeOn(Assigned(c, u, password, first.mapping), Assigned(c, u', password', second.mapping)) &&
        AgreeOn(first.annots, second.annots)
  {
    hide InjectedDraft, Coherent, Assigned, Holds, Reads, AgreeOn, NewAnnots;
    var s1 := AfterInjection(c, u, password, s, first);
    var s2 := AfterInjection(c, u', password', s1, second);
    UnchangedIffInjected(c, u, password, s2, first);
    AnnotsRead(s.annots, first.annots);
    ReadsAfter(s1.annots, first.annots, second.annots);
    HoldsAfter(s.data, Assigned(c, u, password, first.mapping), Assigned(c, u', password', second.mapping));
  }

  /** A later task that agrees with an achieved one leaves it achieved. */
  lemma {:induction false} TaskPreserves(c: Cluster, p: Pass, first: Task, t: Task, f: Fault, random: Str)
    requires p.ok && Achieved(c, p.secrets, first) && (t.Inject? ==> Current(c, p, t.user))
    requires t.Inject? ==> t.injection.target != CredRef(c, first.user)
    requires first.Inject? ==> first.injection.target != CredRef(c, t.user)
    requires first.Inject? && t.Inject? ==> Agree(c, p.secrets, first, t)
    ensures Achieved(c, RunTask(c, p, t, f, random).secrets, first)
  {
    hide InjectedData, CredRef, Coherent, Assigned, Reads, NewAnnots, Holds, AgreeOn;
    TaskKeepsCredentials(c, p, t, f, random, first.user);
    if t.Inject? && first.Inject? && t.injection.target == first.injection.target {
      var s, inj := p.secrets[t.injection.target], t.injection;
      InjectedDataIs(c, t.user, p.password, Draft(s.data, NewAnnots(s.annots, inj.annots) != map[]), inj.mapping);
      HoldsStays(s.data, Assigned(c, first.user, PasswordOf(c, p.secrets, first.user), first.injection.mapping),
        Assigned(c, t.user, p.password, inj.mapping));
      ReadsStays(s.annots, first.injection.annots, inj.annots);
    }
  }

  // ----- the order of tasks -----

  /** Every task follows the credentials of its user, with only tasks of the same user in between. */
  predicate InOrder(ts: seq<Task>) {
    forall i :: 0 <= i < |ts| && !ts[i].Credentials? ==> i > 0 && ts[i - 1].user == ts[i].user
  }

  lemma {:induction false} TasksInOrder(users: seq<User>)
    ensures InOrder(AllTasks(users))
  {
    if users != [] {
      var n := |users| - 1;
      TasksInOrder(users[..n]);
      var before := AllTasks(users[..n]);
      var all: seq<Task> := before + UserTasks(users[n]);
      forall i | 0 <= i < |all| && !all[i].Credentials?
        ensures i > 0 && all[i - 1].user == all[i].user
      {
        if i >= |before| {
          assert i - |before| > 0;
        }
      }
    }
  }

  /** No user and no injection is left out. */
  lemma {:induction false} TasksCover(users: seq<User>, i: nat)
    requires i < |users|
    ensures Credentials(users[i]) in AllTasks(users) && Resources(users[i]) in AllTasks(users)
    ensures forall j :: 0 <= j < |users[i].injections| ==> Inject(users[i], users[i].injections[j]) in AllTasks(users)
  {
    var before, last := users[..|users| - 1], users[|users| - 1];
    if i < |before| {
      TasksCover(before, i);
      assert before[i] == users[i];
    } else {
      var ts := UserTasks(last);
      assert ts[0] == Credentials(last) && ts[1] == Resources(last);
      assert forall j :: 0 <= j < |last.injections| ==> ts[2 + j] == Inject(last, last.injections[j]);
    }
  }

  lemma {:induction false} FailedTask(c: Cluster, p: Pass, t: Task, f: Fault, random: Str)
    requires !p.ok
    ensures RunTask(c, p, t, f, random) == p
  {
  }

  /** All users of the tasks have complete credentials. */
  predicate AllHaveCredentials(c: Cluster, secrets: Secrets, ts: seq<Task>) {
    forall i :: 0 <= i < |ts| ==> HasCredentials(c, secrets, ts[i].user)
  }

  lemma {:induction false} PassGivesCredentials(c: Cluster, secrets: Secrets, ts: seq<Task>, o: Oracle)
    requires InOrder(ts) && SparesCredentials(c, ts) && RunAll(c, Start(secrets), ts, o).ok
    ensures AllHaveCredentials(c, RunAll(c, Start(secrets), ts, o).secrets, ts)
    ensures ts != [] ==> Current(c, RunAll(c, Start(secrets), ts, o), ts[|ts| - 1].user)
  {
    hide RunTask, HasCredentials, CredRef, PasswordOf;
    if ts != [] {
      var n := |ts| - 1;
      var before, t := ts[..n], ts[n];
      var p := RunAll(c, Start(secrets), before, o);
      if !p.ok { FailedTask(c, p, t, o.fault(n), o.random(n)); }
      PassGivesCredentials(c, secrets, before, o);
      TaskMakesCurrent(c, p, t, o.fault(n), o.random(n));
      forall i | 0 <= i < n
        ensures HasCredentials(c, RunAll(c, Start(secrets), ts, o).secrets, ts[i].user)
      {
        assert before[i] == ts[i];
        TaskKeepsCredentials(c, p, t, o.fault(n), o.random(n), ts[i].user);
      }
    }
  }

  /** Whether tasks agree depends on the secrets only through the users' passwords. */
  lemma {:induction false} AgreeingSame(c: Cluster, a: Secrets, b: Secrets, ts: seq<Task>)
    requires forall i :: 0 <= i < |ts| ==> PasswordOf(c, a, ts[i].user) == PasswordOf(c, b, ts[i].user)
    ensures Agreeing(c, a, ts) <==> Agreeing(c, b, ts)
  {
    hide PasswordOf, Coherent, Assigned, AgreeOn;
    if Agreeing(c, a, ts) { AgreeingFrom(c, a, b, ts); }
    if Agreeing(c, b, ts) { AgreeingFrom(c, b, a, ts); }
  }

  lemma {:induction false} AgreeingFrom(c: Cluster, a: Secrets, b: Secrets, ts: seq<Task>)
    requires forall i :: 0 <= i < |ts| ==> PasswordOf(c, a, ts[i].user) == PasswordOf(c, b, ts[i].user)
    requires Agreeing(c, a, ts)
    ensures Agreeing(c, b, ts)
  {
    hide PasswordOf, Coherent, Assigned, AgreeOn;
    forall i, j | 0 <= i < |ts| && 0 <= j < |ts| && ts[i].Inject? && ts[j].Inject?
      ensures Agree(c, b, ts[i], ts[j])
    {
      assert Agree(c, a, ts[i], ts[j]);
    }
  }

  lemma {:induction false} AgreeingPrefix(c: Cluster, secrets: Secrets, ts: seq<Task>, n: nat)
    requires Agreeing(c, secrets, ts) && n <= |ts|
    ensures Agreeing(c, secrets, ts[..n])
  {
    hide PasswordOf, Coherent, Agree;
  }

  /** The next task, when it agrees with all before. */
  lemma {:induction false} LastTaskAchieves(c: Cluster, p: Pass, before: seq<Task>, t: Task, f: Fault, random: Str)
    requires p.ok && RunTask(c, p, t, f, random).ok && (!t.Credentials? ==> Current(c, p, t.user))
    requires forall i :: 0 <= i < |before| ==> Achieved(c, p.secrets, before[i])
    requires SparesCredentials(c, before + [t]) && Agreeing(c, RunTask(c, p, t, f, random).secrets, before + [t])
    ensures forall i :: 0 <= i <= |before| ==> Achieved(c, RunTask(c, p, t, f, random).secrets, (before + [t])[i])
  {
    hide RunTask, Coherent, CredRef, AgreeOn, Assigned, Injected;
    var n, all := |before|, before + [t];
    var q := RunTask(c, p, t, f, random);
    assert all[n] == t;
    if t.Inject? { TaskKeepsCredentials(c, p, t, f, random, t.user); }
    TaskAchieves(c, p, t, f, random);
    forall i | 0 <= i < n
      ensures Achieved(c, q.secrets, before[i])
    {
      assert all[i] == before[i];
      if before[i].Inject? && t.Inject? {
        TaskKeepsCredentials(c, p, t, f, random, before[i].user);
        assert Agree(c, q.secrets, all[i], all[n]);
      }
      TaskPreserves(c, p, before[i], t, f, random);
    }
  }

  /** After a successful pass all tasks are achieved, if they agree on the passwords it ended with. */
  lemma {:induction false} PassAchieves(c: Cluster, secrets: Secrets, ts: seq<Task>, o: Oracle)
    requires InOrder(ts) && SparesCredentials(c, ts) && RunAll(c, Start(secrets), ts, o).ok
    requires Agreeing(c, RunAll(c, Start(secrets), ts, o).secrets, ts)
    ensures forall i :: 0 <= i < |ts| ==> Achieved(c, RunAll(c, Start(secrets), ts, o).secrets, ts[i])
  {
    hide RunTask, Achieved, HasCredentials, Agree, Coherent, CredRef;
    if ts != [] {
      var n := |ts| - 1;
      var before, t := ts[..n], ts[n];
      var p, q := RunAll(c, Start(secrets), before, o), RunAll(c, Start(secrets), ts, o);
      if !p.ok { FailedTask(c, p, t, o.fault(n), o.random(n)); }
      PassGivesCredentials(c, secrets, before, o);
      PasswordsKept(c, p, t, o.fault(n), o.random(n), before);
      AgreeingPrefix(c, q.secrets, ts, n);
      AgreeingSame(c, p.secrets, q.secrets, before);
      PassAchieves(c, secrets, before, o);
      assert ts == before + [t];
      LastTaskAchieves(c, p, before, t, o.fault(n), o.random(n));
    }
  }

  lemma {:induction false} PasswordsKept(c: Cluster, p: Pass, t: Task, f: Fault, random: Str, before: seq<Task>)
    requires AllHaveCredentials(c, p.secrets, before)
    requires forall i :: 0 <= i < |before| && t.Inject? ==> t.injection.target != CredRef(c, before[i].user)
    ensures var q := RunTask(c, p, t, f, random);
      AllHaveCredentials(c, q.secrets, before) &&
      forall i :: 0 <= i < |before| ==>
        PasswordOf(c, q.secrets, before[i].user) == PasswordOf(c, p.secrets, before[i].user)
  {
    hide RunTask, CredRef;
    forall i | 0 <= i < |before|
      ensures var q := RunTask(c, p, t, f, random);
        HasCredentials(c, q.secrets, before[i].user) &&
        PasswordOf(c, q.secrets, before[i].user) == PasswordOf(c, p.secrets, before[i].user)
    {
      TaskKeepsCredentials(c, p, t, f, random, before[i].user);
    }
  }

  // ----- when a pass has nothing to write -----

  /** Over secrets for which every task is achieved, a pass writes nothing, whatever fails. */
  lemma {:induction false} PassIsIdle(c: Cluster, secrets: Secrets, ts: seq<Task>, o: Oracle)
    requires InOrder(ts) && forall i :: 0 <= i < |ts| ==> Achieved(c, secrets, ts[i])
    ensures var q := RunAll(c, Start(secrets), ts, o);
      q.secrets == secrets && q.writes == 0 &&
      ((forall i: nat :: i < |ts| ==> !o.fault(i).get && !o.fault(i).write) ==> q.ok) &&
      (q.ok && ts != [] ==> Current(c, q, ts[|ts| - 1].user))
  {
    hide RunTask, Achieved, Current;
    if ts != [] {
      var n := |ts| - 1;
      var p := RunAll(c, Start(secrets), ts[..n], o);
      PassIsIdle(c, secrets, ts[..n], o);
      if p.ok {
        AchievedTaskIsIdle(c, p, ts[n], o.fault(n), o.random(n));
      } else {
        FailedTask(c, p, ts[n], o.fault(n), o.random(n));
      }
    }
  }

  lemma {:induction false} IdlePassFoundAchieved(c: Cluster, secrets: Secrets, ts: seq<Task>, o: Oracle)
    requires InOrder(ts) && SparesCredentials(c, ts) && RunAll(c, Start(secrets), ts, o).ok
    ensures RunAll(c, Start(secrets), ts, o).writes == 0 ==>
      RunAll(c, Start(secrets), ts, o).secrets == secrets &&
      forall i :: 0 <= i < |ts| ==> Achieved(c, secrets, ts[i])
  {
    hide RunTask, Achieved, HasCredentials, CredRef;
    if ts != [] {
      var n := |ts| - 1;
      var before, t := ts[..n], ts[n];
      var p := RunAll(c, Start(secrets), before, o);
      if !p.ok { FailedTask(c, p, t, o.fault(n), o.random(n)); }
      PassGivesCredentials(c, secrets, before, o);
      IdlePassFoundAchieved(c, secrets, before, o);
      TaskIdleIff(c, p, t, o.fault(n), o.random(n));
      assert ts == before + [t];
    }
  }

  /** A successful pass writes nothing if and only if every task was achieved before it. */
  lemma {:induction false} IdleIffAchieved(c: Cluster, secrets: Secrets, ts: seq<Task>, o: Oracle)
    requires InOrder(ts) && SparesCredentials(c, ts) && RunAll(c, Start(secrets), ts, o).ok
    ensures RunAll(c, Start(secrets), ts, o).writes == 0 <==> forall i :: 0 <= i < |ts| ==> Achieved(c, secrets, ts[i])
  {
    hide RunAll, Achieved;
    IdlePassFoundAchieved(c, secrets, ts, o);
    if forall i :: 0 <= i < |ts| ==> Achieved(c, secrets, ts[i]) {
      PassIsIdle(c, secrets, ts, o);
    }
  }

  lemma {:induction false} AchievedAgree(c: Cluster, secrets: Secrets, ts: seq<Task>)
    requires forall i :: 0 <= i < |ts| ==> Achieved(c, secrets, ts[i])
    ensures Agreeing(c, secrets, ts)
  {
    hide HasCredentials, PasswordOf, Coherent, Assigned, CredRef;
    forall i, j | 0 <= i < |ts| && 0 <= j < |ts| && ts[i].Inject? && ts[j].Inject?
      ensures Agree(c, secrets, ts[i], ts[j])
    {
      assert Achieved(c, secrets, ts[i]) && Achieved(c, secrets, ts[j]);
    }
  }

  ghost predicate NoFaults(o: Oracle) { forall i: nat :: !o.fault(i).get && !o.fault(i).write }

  /** Idempotence, exactly: after a successful pass, a second one without failing calls succeeds and
      writes nothing if and only if no two injections, nor one with itself, set a key or an annotation
      to different values. */
  lemma {:induction false} SecondPassIsIdleIff(c: Cluster, secrets: Secrets, first: Oracle, second: Oracle)
    requires SparesCredentials(c, AllTasks(c.users)) && NoFaults(second)
    requires RunAll(c, Start(secrets), AllTasks(c.users), first).ok
    ensures var after := RunAll(c, Start(secrets), AllTasks(c.users), first).secrets;
      var again := RunAll(c, Start(after), AllTasks(c.users), second);
      again.ok && again.writes == 0 <==> Agreeing(c, after, AllTasks(c.users))
  {
    hide RunAll, AllTasks, Achieved, Agreeing;
    var ts := AllTasks(c.users);
    var after := RunAll(c, Start(secrets), ts, first).secrets;
    var again := RunAll(c, Start(after), ts, second);
    TasksInOrder(c.users);
    if Agreeing(c, after, ts) {
      PassAchieves(c, secrets, ts, first);
      PassIsIdle(c, after, ts, second);
    } else if again.ok && again.writes == 0 {
      IdleIffAchieved(c, after, ts, second);
      AchievedAgree(c, after, ts);
    }
  }

  // ----- pairwise distinct targets -----

  /** No key is set twice by one injection. */
  predicate DistinctKeys(m: Mapping) {
    m.username != m.password &&
    (m.sensorsTopic != [] ==> m.sensorsTopic != m.username && m.sensorsTopic != m.password) &&
    (m.brokerUrl != [] ==>
      m.brokerUrl != m.username && m.brokerUrl != m.password && m.brokerUrl != m.sensorsTopic)
  }

  /** Two injections that set no common key or annotation of a common target. */
  predicate Disjoint(a: Injection, b: Injection) {
    a.target != b.target || (DataKeys(a.mapping) !! DataKeys(b.mapping) && a.annots.Keys !! b.annots.Keys)
  }

  /** Injections have pairwise distinct targets, none of which are the users' own credentials. */
  predicate WellSeparated(c: Cluster, ts: seq<Task>) {
    SparesCredentials(c, ts) &&
    (forall i :: 0 <= i < |ts| && ts[i].Inject? ==> DistinctKeys(ts[i].injection.mapping)) &&
    (forall i, j :: 0 <= i < j < |ts| && ts[i].Inject? && ts[j].Inject? ==> Disjoint(ts[i].injection, ts[j].injection))
  }

  lemma {:induction false} SeparatedAgree(c: Cluster, secrets: Secrets, ts: seq<Task>)
    requires WellSeparated(c, ts)
    ensures Agreeing(c, secrets, ts)
  {
    hide PasswordOf, Assigned, DataKeys, CredRef;
    forall i, j | 0 <= i < |ts| && 0 <= j < |ts| && ts[i].Inject? && ts[j].Inject?
      ensures Agree(c, secrets, ts[i], ts[j])
    {
      if i < j {
        assert Disjoint(ts[i].injection, ts[j].injection);
      } else if j < i {
        assert Disjoint(ts[j].injection, ts[i].injection);
      }
    }
  }

  /** Idempotence: after a successful pass over distinct targets, another one writes no secret, whatever
      passwords it would generate and whichever calls fail, and succeeds if none does. */
  lemma {:induction false} SecondPassIsIdle(c: Cluster, secrets: Secrets, first: Oracle, second: Oracle)
    requires WellSeparated(c, AllTasks(c.users))
    requires RunAll(c, Start(secrets), AllTasks(c.users), first).ok
    ensures var after := RunAll(c, Start(secrets), AllTasks(c.users), first).secrets;
      var again := RunAll(c, Start(after), AllTasks(c.users), second);
      again.secrets == after && again.writes == 0 && (NoFaults(second) ==> again.ok)
  {
    hide RunAll, AllTasks, Achieved, Agreeing;
    var ts := AllTasks(c.users);
    var after := RunAll(c, Start(secrets), ts, first).secrets;
    TasksInOrder(c.users);
    SeparatedAgree(c, after, ts);
    PassAchieves(c, secrets, ts, first);
    PassIsIdle(c, after, ts, second);
  }

  // ----- injections that disagree -----

  /** Two users with different passwords who are injected under one key of one secret. */
  lemma {:induction false} SharedKeyDisagrees(c: Cluster, secrets: Secrets, ts: seq<Task>, i: nat, j: nat)
    requires i < |ts| && j < |ts| && ts[i].Inject? && ts[j].Inject?
    requires ts[i].injection.target == ts[j].injection.target
    requires ts[i].injection.mapping.password == ts[j].injection.mapping.password
    requires PasswordOf(c, secrets, ts[i].user) != PasswordOf(c, secrets, ts[j].user)
    ensures !Agreeing(c, secrets, ts)
  {
    hide PasswordOf, Coherent, Assigned, CredRef;
    if Agreeing(c, secrets, ts) {
      var a, b := ts[i], ts[j];
      CoherentAssigns(c, a.user, PasswordOf(c, secrets, a.user), a.injection.mapping);
      CoherentAssigns(c, b.user, PasswordOf(c, secrets, b.user), b.injection.mapping);
    }
  }

  /** The secrets after some passes, successful or not. */
  function AfterPasses(c: Cluster, secrets: Secrets, ts: seq<Task>, passes: seq<Oracle>): Secrets
    decreases |passes|
  {
    if passes == [] then secrets
    else AfterPasses(c, RunAll(c, Start(secrets), ts, passes[0]).secrets, ts, passes[1..])
  }

  /** No pass replaces a password or a user name that a user's credentials already hold, unless an
      injection targets those credentials. */
  lemma {:induction false} CredentialsKept(c: Cluster, start: Pass, ts: seq<Task>, o: Oracle, u: User)
    requires HasCredentials(c, start.secrets, u)
    requires forall i :: 0 <= i < |ts| && ts[i].Inject? ==> ts[i].injection.target != CredRef(c, u)
    ensures var q := RunAll(c, start, ts, o);
      HasCredentials(c, q.secrets, u) && q.secrets[CredRef(c, u)] == start.secrets[CredRef(c, u)]
  {
    hide RunTask, CredRef;
    if ts != [] {
      var n := |ts| - 1;
      CredentialsKept(c, start, ts[..n], o, u);
      TaskKeepsCredentials(c, RunAll(c, start, ts[..n], o), ts[n], o.fault(n), o.random(n), u);
    }
  }

  /** A pass over complete credentials leaves all passwords as they are, even if it fails. */
  lemma {:induction false} PassKeepsPasswords(c: Cluster, start: Pass, ts: seq<Task>, o: Oracle)
    requires SparesCredentials(c, ts) && AllHaveCredentials(c, start.secrets, ts)
    ensures var q := RunAll(c, start, ts, o);
      AllHaveCredentials(c, q.secrets, ts) &&
      forall i :: 0 <= i < |ts| ==> PasswordOf(c, q.secrets, ts[i].user) == PasswordOf(c, start.secrets, ts[i].user)
  {
    hide RunAll, CredRef;
    var q := RunAll(c, start, ts, o);
    forall i | 0 <= i < |ts|
      ensures HasCredentials(c, q.secrets, ts[i].user)
      ensures PasswordOf(c, q.secrets, ts[i].user) == PasswordOf(c, start.secrets, ts[i].user)
    {
      CredentialsKept(c, start, ts, o, ts[i].user);
    }
  }

  /** Disagreement never settles: after any number of passes, successful or not, every successful pass
      writes again. */
  lemma {:induction false} EveryPassWrites(
      c: Cluster, secrets: Secrets, ts: seq<Task>, passes: seq<Oracle>, next: Oracle)
    requires InOrder(ts) && SparesCredentials(c, ts) && AllHaveCredentials(c, secrets, ts)
    requires !Agreeing(c, secrets, ts)
    ensures var q := RunAll(c, Start(AfterPasses(c, secrets, ts, passes)), ts, next);
      q.ok ==> q.writes > 0
    decreases |passes|
  {
    hide RunAll, Agreeing, HasCredentials, PasswordOf, Achieved, InOrder, CredRef;
    if passes == [] {
      if RunAll(c, Start(secrets), ts, next).ok {
        IdleIffAchieved(c, secrets, ts, next);
        if forall i :: 0 <= i < |ts| ==> Achieved(c, secrets, ts[i]) {
          AchievedAgree(c, secrets, ts);
        }
      }
    } else {
      var after := RunAll(c, Start(secrets), ts, passes[0]).secrets;
      PassKeepsPasswords(c, Start(secrets), ts, passes[0]);
      AgreeingSame(c, secrets, after, ts);
      EveryPassWrites(c, after, ts, passes[1..], next);
    }
  }

  // ----- frame -----

  /** Data that agree on a key: both lack it or hold the same value. */
  predicate SameAt(a: map<Str, Str>, b: map<Str, Str>, k: Str) {
    (k in a <==> k in b) && (k in a ==> a[k] == b[k])
  }

  function DeclaredData(c: Cluster, t: Task, ref: Ref): set<Str> {
    match t
    case Credentials(u) => if ref == CredRef(c, u) then {USERNAME, PASSWORD} else {}
    case Resources(_) => {}
    case Inject(_, inj) => if ref == inj.target then DataKeys(inj.mapping) else {}
  }

  function DeclaredAnnots(t: Task, ref: Ref): set<Str> {
    if t.Inject? && ref == t.injection.target then t.injection.annots.Keys else {}
  }

  /** No task sets the key, or the annotation, k of the secret under `ref`. */
  predicate UndeclaredData(c: Cluster, ts: seq<Task>, ref: Ref, k: Str) {
    forall i :: 0 <= i < |ts| ==> k !in DeclaredData(c, ts[i], ref)
  }

  predicate UndeclaredAnnot(ts: seq<Task>, ref: Ref, k: Str) {
    forall i :: 0 <= i < |ts| ==> k !in DeclaredAnnots(ts[i], ref)
  }

  /** Nothing but what `ts` declare differs in the secret under `ref`. */
  ghost predicate Framed(c: Cluster, ts: seq<Task>, before: Secret, after: Secret, ref: Ref) {
    (forall k :: UndeclaredData(c, ts, ref, k) ==> SameAt(before.data, after.data, k)) &&
    (forall k :: UndeclaredAnnot(ts, ref, k) ==> SameAt(before.annots, after.annots, k))
  }

  lemma {:induction false} TaskFrame(c: Cluster, p: Pass, t: Task, f: Fault, random: Str, ref: Ref)
    requires ref in p.secrets
    ensures var q := RunTask(c, p, t, f, random);
      ref in q.secrets &&
      (forall k :: k !in DeclaredData(c, t, ref) ==> SameAt(p.secrets[ref].data, q.secrets[ref].data, k)) &&
      (forall k :: k !in DeclaredAnnots(t, ref) ==> SameAt(p.secrets[ref].annots, q.secrets[ref].annots, k))
  {
    hide InjectedData, Assigned, CredRef;
    if t.Inject? && t.injection.target in p.secrets {
      var s, inj := p.secrets[t.injection.target], t.injection;
      InjectedDataIs(c, t.user, p.password, Draft(s.data, NewAnnots(s.annots, inj.annots) != map[]), inj.mapping);
    }
  }

  /** Frame: no pass, successful or not, touches a key or an annotation that no task declares, and
      no secret disappears. */
  lemma {:induction false} PassFrame(c: Cluster, start: Pass, ts: seq<Task>, o: Oracle, ref: Ref)
    requires ref in start.secrets
    ensures var q := RunAll(c, start, ts, o);
      ref in q.secrets && Framed(c, ts, start.secrets[ref], q.secrets[ref], ref)
  {
    hide RunTask, DeclaredData, DeclaredAnnots;
    if ts != [] {
      var n := |ts| - 1;
      var p := RunAll(c, start, ts[..n], o);
      PassFrame(c, start, ts[..n], o, ref);
      TaskFrame(c, p, ts[n], o.fault(n), o.random(n), ref);
      var q := RunAll(c, start, ts, o);
      assert q == RunTask(c, p, ts[n], o.fault(n), o.random(n));
      forall k | UndeclaredData(c, ts, ref, k)
        ensures SameAt(start.secrets[ref].data, q.secrets[ref].data, k)
      {
        assert UndeclaredData(c, ts[..n], ref, k);
        assert k !in DeclaredData(c, ts[n], ref);
      }
      forall k | UndeclaredAnnot(ts, ref, k)
        ensures SameAt(start.secrets[ref].annots, q.secrets[ref].annots, k)
      {
        assert UndeclaredAnnot(ts[..n], ref, k);
        assert k !in DeclaredAnnots(ts[n], ref);
      }
    }
  }

  // ----- what is stored, written out -----

  /** The credentials of a user after their task, in the secret "<name>-user-credentials" of the cluster's
      namespace: new ones hold exactly the user's name and the generated password; existing ones keep every
      key they had and gain what is missing. A task that fails leaves everything as it was. */
  lemma {:induction false} CredentialsStored(c: Cluster, p: Pass, u: User, f: Fault, random: Str)
    requires p.ok
    ensures var ref := Ref(c.ns, u.name +
        [0x2D, 0x75, 0x73, 0x65, 0x72, 0x2D, 0x63, 0x72, 0x65, 0x64, 0x65, 0x6E, 0x74, 0x69, 0x61, 0x6C, 0x73]);
      var q := RunTask(c, p, Credentials(u), f, random);
      if !q.ok then q.secrets == p.secrets && q.writes == p.writes
      else
        ref in q.secrets && q.secrets - {ref} == p.secrets - {ref} &&
        var data := q.secrets[ref].data;
        USERNAME in data && PASSWORD in data && q.password == data[PASSWORD] &&
        if ref !in p.secrets then
          data.Keys == {USERNAME, PASSWORD} && data[USERNAME] == u.name && data[PASSWORD] == random &&
          q.secrets[ref].annots == map[]
        else
          var was := p.secrets[ref].data;
          data.Keys == was.Keys + {USERNAME, PASSWORD} && (forall k :: k in was ==> data[k] == was[k]) &&
          (USERNAME !in was ==> data[USERNAME] == u.name) && (PASSWORD !in was ==> data[PASSWORD] == random) &&
          q.secrets[ref].annots == p.secrets[ref].annots
  {
    assert USERNAME != PASSWORD;
  }

  /** A task that fails has written nothing. */
  lemma {:induction false} FailedTaskWritesNothing(c: Cluster, p: Pass, t: Task, f: Fault, random: Str)
    requires !RunTask(c, p, t, f, random).ok
    ensures RunTask(c, p, t, f, random) == p.(ok := false)
  {
    hide InjectedDraft, CredRef, FilledCredentials;
  }

  /** When an injection succeeds: its target exists and is read, and is written if anything is to be set. */
  lemma {:induction false} InjectOkIff(c: Cluster, p: Pass, u: User, inj: Injection, f: Fault, random: Str)
    requires p.ok && Current(c, p, u)
    ensures RunTask(c, p, Inject(u, inj), f, random).ok <==>
      !f.get && inj.target in p.secrets && (Achieved(c, p.secrets, Inject(u, inj)) || !f.write)
  {
    hide InjectedDraft, Injected, CredRef;
    if inj.target in p.secrets {
      UnchangedIffInjected(c, u, p.password, p.secrets[inj.target], inj);
    }
  }

  /** When a task of a user succeeds: for the credentials, unless a write that is needed fails or the Get of
      existing ones does. */
  lemma {:induction false} CredentialsOk(c: Cluster, p: Pass, u: User, f: Fault, random: Str)
    requires p.ok
    ensures RunTask(c, p, Credentials(u), f, random).ok <==>
      if CredRef(c, u) !in p.secrets then !f.write
      else !f.get && (HasCredentials(c, p.secrets, u) || !f.write)
  {
    hide CredRef;
  }

  /** What an injection that succeeds and does not contradict itself stores under its keys: the user's name,
      the stored password, the topic, and tcp://<cluster>.<namespace>.svc:1883. */
  lemma {:induction false} InjectedValues(c: Cluster, p: Pass, u: User, inj: Injection, f: Fault, random: Str)
    requires p.ok && RunTask(c, p, Inject(u, inj), f, random).ok && Current(c, p, u)
    requires Coherent(c, u, p.password, inj.mapping) && inj.target != CredRef(c, u)
    ensures var q := RunTask(c, p, Inject(u, inj), f, random);
      var m := inj.mapping;
      CredRef(c, u) in q.secrets && PASSWORD in q.secrets[CredRef(c, u)].data && inj.target in q.secrets &&
      var data := q.secrets[inj.target].data;
      m.username in data && data[m.username] == u.name &&
      m.password in data && data[m.password] == q.secrets[CredRef(c, u)].data[PASSWORD] &&
      (m.sensorsTopic != [] ==> m.sensorsTopic in data && data[m.sensorsTopic] == c.sensorsTopic) &&
      (m.brokerUrl != [] ==> m.brokerUrl in data && IsBrokerUrl(data[m.brokerUrl], c.name, c.ns))
  {
    hide RunTask, Assigned, Coherent, CredRef, BrokerUrl, IsBrokerUrl;
    InjectAchieves(c, p, u, inj, f, random);
    TaskMakesCurrent(c, p, Inject(u, inj), f, random);
    TaskKeepsCredentials(c, p, Inject(u, inj), f, random, u);
    CoherentAssigns(c, u, p.password, inj.mapping);
    UrlParts(c);
  }

  /** The text is "tcp://", a name, ".", a namespace and ".svc:1883". */
  predicate IsBrokerUrl(v: Str, name: Str, ns: Str) {
    var n, m := 6 + |name|, 6 + |name| + 1 + |ns|;
    |v| == m + 9 &&
    v[..6] == [0x74, 0x63, 0x70, 0x3A, 0x2F, 0x2F] && v[6..n] == name && v[n] == 0x2E && v[n + 1..m] == ns &&
    v[m..] == [0x2E, 0x73, 0x76, 0x63, 0x3A, 0x31, 0x38, 0x38, 0x33]
  }

  lemma {:induction false} UrlParts(c: Cluster)
    ensures IsBrokerUrl(BrokerUrl(c), c.name, c.ns)
  {
  }

  /** Which annotations an injection sets: those that differ, where a missing one counts as empty. */
  lemma {:induction false} InjectedAnnots(c: Cluster, p: Pass, u: User, inj: Injection, f: Fault, random: Str)
    requires p.ok && RunTask(c, p, Inject(u, inj), f, random).ok
    ensures var q := RunTask(c, p, Inject(u, inj), f, random);
      inj.target in p.secrets && inj.target in q.secrets &&
      var was, now := p.secrets[inj.target].annots, q.secrets[inj.target].annots;
      (forall k :: k in now <==> k in was || (k in inj.annots && inj.annots[k] != [])) &&
      forall k :: k in now ==> now[k] == if k in inj.annots then inj.annots[k] else was[k]
  {
    hide InjectedData;
    var s := p.secrets[inj.target];
    UnchangedIffInjected(c, u, p.password, s, inj);
    if !InjectedDraft(c, u, p.password, s, inj).changed {
      AnnotsRead(s.annots, inj.annots);
    }
  }
}
