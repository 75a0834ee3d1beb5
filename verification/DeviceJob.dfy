/** The configuration job of a device: what one reconcile of the device does, call by call, next to
    an environment that edits, completes and deletes. */
module DeviceJob {
  import opened Credentials
  import opened HashByteData
  import opened Options

  /** A hash annotation; an annotation that is missing reads as the empty string. */
  type Hash = string

  /** The three hashes that decide whether a device's configuration is stale. */
  datatype Hashes = Hashes(secret: Hash, deviceClass: Hash, cluster: Hash)

  /** The device's name, and the digest behind the hash over secret data. */
  datatype Env = Env(name: Str, sha256: Str -> Hash) {
    ghost function Digest(data: Data): Hash { sha256(Canonical(data)) }
  }

  datatype Secret = Secret(data: Data, hash: Hash)

  /** Only a job that succeeds gets a completion time; Failed has none. */
  datatype Phase = Running | Failed | Completed | Deleting

  /** A job remembers the hashes it was created under. */
  datatype Job = NoJob | Job(phase: Phase, built: Hashes)

  /** The stored objects: `annots` are the hash annotations of the device. */
  datatype World = World(secret: Option<Secret>, classHash: Hash, clusterHash: Hash, annots: Hashes, job: Job)

  datatype Verdict = Error | Requeue | UpToDate(want: Hashes) | Created(want: Hashes)

  // ----- the pieces of a reconcile that do not call the API server -----

  /** The data of an existing secret once the missing credentials are filled in. */
  function Filled(e: Env, data: Data, random: Str): Data {
    var withPassword := if PASSWORD !in data then data[PASSWORD := random] else data;
    if USERNAME !in withPassword || withPassword[USERNAME] != e.name
    then withPassword[USERNAME := e.name] else withPassword
  }

  ghost function PatchedSecret(e: Env, s: Secret, random: Str): Secret {
    var data := Filled(e, s.data, random);
    Secret(data, e.Digest(data))
  }

  ghost function NewSecret(e: Env, random: Str): Secret {
    var data := map[PASSWORD := random, USERNAME := e.name];
    Secret(data, e.Digest(data))
  }

  /** A merge patch computed from `base` to `modified`, applied to what is stored by then. */
  function MergeHash(current: Hash, base: Hash, modified: Hash): Hash {
    if modified != base then modified else current
  }

  function MergeSecret(current: Secret, base: Secret, modified: Secret): Secret {
    var changed :=
      map k | k in modified.data && (k !in base.data || base.data[k] != modified.data[k]) :: modified.data[k];
    Secret(current.data + changed, MergeHash(current.hash, base.hash, modified.hash))
  }

  function MergeAnnots(current: Hashes, base: Hashes, modified: Hashes): Hashes {
    Hashes(MergeHash(current.secret, base.secret, modified.secret),
           MergeHash(current.deviceClass, base.deviceClass, modified.deviceClass),
           MergeHash(current.cluster, base.cluster, modified.cluster))
  }

  // ----- one API call at a time -----

  /** Where a reconcile stands: the call it makes next and its local copies. `dev` is its copy of
      the device's annotations, `base` that copy as first read. */
  datatype Pc =
    | Idle(last: Option<Verdict>)
    | GetClass(dev: Hashes)
    | GetCluster(dev: Hashes, deviceClass: Hash)
    | GetSecret(dev: Hashes, deviceClass: Hash, cluster: Hash)
    | CreateSecret(dev: Hashes, deviceClass: Hash, cluster: Hash)
    | PatchSecret(dev: Hashes, deviceClass: Hash, cluster: Hash, read: Secret, modified: Secret)
    | GetJob(dev: Hashes, want: Hashes)
    | DeleteJob(dev: Hashes)
    | CreateJob(base: Hashes, want: Hashes)
    | SyncResources(base: Hashes, dev: Hashes, verdict: Verdict)
    | PatchDevice(base: Hashes, dev: Hashes, verdict: Verdict)
    | PatchStatus(verdict: Verdict)

  datatype Sys = Sys(w: World, pc: Pc)

  /** The next call of the reconcile. A call that fails changes nothing; the device is patched at
      the end whatever happened. */
  ghost function CtlStep(e: Env, s: Sys, fault: bool, random: Str): Sys {
    var w := s.w;
    match s.pc
    case Idle(_) => s.(pc := if fault then Idle(Some(Error)) else GetClass(w.annots))
    case GetClass(dev) =>
      s.(pc := if fault then PatchDevice(dev, dev, Error) else GetCluster(dev, w.classHash))
    case GetCluster(dev, deviceClass) =>
      s.(pc := if fault then PatchDevice(dev, dev, Error) else GetSecret(dev, deviceClass, w.clusterHash))
    case GetSecret(dev, deviceClass, cluster) =>
      // Any error, not only a missing secret, leads to the creation of one.
      if fault || w.secret.None? then s.(pc := CreateSecret(dev, deviceClass, cluster))
      else s.(pc := PatchSecret(dev, deviceClass, cluster, w.secret.value, PatchedSecret(e, w.secret.value, random)))
    case CreateSecret(dev, deviceClass, cluster) =>
      if fault || w.secret.Some? then s.(pc := PatchDevice(dev, dev, Error))
      else
        var secret := NewSecret(e, random);
        Sys(w.(secret := Some(secret)), GetJob(dev, Hashes(secret.hash, deviceClass, cluster)))
    case PatchSecret(dev, deviceClass, cluster, read, modified) =>
      if fault || w.secret.None? then s.(pc := PatchDevice(dev, dev, Error))
      else
        var secret := MergeSecret(w.secret.value, read, modified);
        Sys(w.(secret := Some(secret)), GetJob(dev, Hashes(secret.hash, deviceClass, cluster)))
    case GetJob(dev, want) =>
      if fault then s.(pc := PatchDevice(dev, dev, Error))
      else if w.job.NoJob? then s.(pc := CreateJob(dev, want))
      else if w.job.phase != Completed then s.(pc := PatchDevice(dev, dev, Requeue))
      else if dev != want then s.(pc := DeleteJob(dev))
      else s.(pc := SyncResources(dev, dev, UpToDate(want)))
    case DeleteJob(dev) =>
      if fault || w.job.NoJob? then s.(pc := PatchDevice(dev, dev, Error))
      else Sys(w.(job := w.job.(phase := Deleting)), PatchDevice(dev, dev, Requeue))
    case CreateJob(base, want) =>
      // The new hashes are set on the local device before the job is created.
      if fault || w.job.Job? then s.(pc := PatchDevice(base, want, Error))
      else Sys(w.(job := Job(Running, want)), SyncResources(base, want, Created(want)))
    case SyncResources(base, dev, verdict) =>
      // The RabbitMQ resources of the device; of their calls only the failure matters here.
      s.(pc := PatchDevice(base, dev, if fault then Error else verdict))
    case PatchDevice(base, dev, verdict) =>
      if fault then s.(pc := PatchStatus(Error))
      else Sys(w.(annots := MergeAnnots(w.annots, base, dev)), PatchStatus(verdict))
    case PatchStatus(verdict) => s.(pc := Idle(Some(if fault then Error else verdict)))
  }

  // ----- the environment -----

  datatype EnvStep =
    | EditClass(hash: Hash)
    | EditCluster(hash: Hash)
    | EditSecret(secret: Option<Secret>)
    | CompleteJob
    | FailJob
    | UserDeletesJob
    | FinishDelete

  function EnvApply(w: World, step: EnvStep): World {
    match step
    case EditClass(h) => w.(classHash := h)
    case EditCluster(h) => w.(clusterHash := h)
    case EditSecret(secret) => w.(secret := secret)
    case CompleteJob => if w.job.Job? && w.job.phase == Running then w.(job := w.job.(phase := Completed)) else w
    case FailJob => if w.job.Job? && w.job.phase == Running then w.(job := w.job.(phase := Failed)) else w
    case UserDeletesJob => if w.job.Job? then w.(job := w.job.(phase := Deleting)) else w
    case FinishDelete => if w.job.Job? && w.job.phase == Deleting then w.(job := NoJob) else w
  }

  /** A step of the environment, the next call of the reconcile, or a restart of the operator, which
      forgets the reconcile under way. */
  datatype Label = EnvLabel(step: EnvStep) | CtlLabel(fault: bool, random: Str) | Restart

  ghost function Next(e: Env, s: Sys, l: Label): Sys {
    match l
    case EnvLabel(step) => s.(w := EnvApply(s.w, step))
    case CtlLabel(fault, random) => CtlStep(e, s, fault, random)
    case Restart => s.(pc := Idle(None))
  }

  /** The patch that is to store the hashes of a job just created does not happen: it fails, or the
      operator restarts before it. */
  predicate LosesPatch(s: Sys, l: Label) {
    ((s.pc.PatchDevice? && l.CtlLabel? && l.fault) || ((s.pc.SyncResources? || s.pc.PatchDevice?) && l.Restart?)) &&
    s.pc.base != s.pc.dev && s.w.job.Job?
  }

  /** Any call may fail and the operator may restart at any point, but no such patch is lost. */
  predicate Allowed(s: Sys, l: Label) { !LosesPatch(s, l) }

  /** The states of a run, the first included. */
  ghost function Trace(e: Env, s: Sys, labels: seq<Label>): (t: seq<Sys>)
    ensures |t| == |labels| + 1 && t[0] == s
    ensures forall i :: 0 <= i < |labels| ==> t[i + 1] == Next(e, t[i], labels[i])
    decreases labels
  {
    if labels == [] then [s]
    else
      var rest := Trace(e, Next(e, s, labels[0]), labels[1..]);
      assert forall i :: 1 <= i < |labels| ==> labels[i] == labels[1..][i - 1];
      [s] + rest
  }

  ghost predicate AllAllowed(e: Env, s: Sys, labels: seq<Label>) {
    var t := Trace(e, s, labels);
    forall i :: 0 <= i < |labels| ==> Allowed(t[i], labels[i])
  }

  // ----- safety -----

  /** The annotations that will be stored when the reconcile under way is over. */
  function Intended(s: Sys): Hashes {
    if s.pc.SyncResources? || s.pc.PatchDevice? then s.pc.dev else s.w.annots
  }

  /** The local copies of the device's annotations are as stored; annotations that are about to be
      stored for a job are those it was created under. */
  predicate Local(s: Sys) {
    match s.pc
    case Idle(_) => true
    case CreateJob(base, _) => base == s.w.annots && s.w.job.NoJob?
    case SyncResources(base, dev, _) => AboutToStore(s.w, base, dev)
    case PatchDevice(base, dev, _) => AboutToStore(s.w, base, dev)
    case PatchStatus(_) => true
    case GetClass(dev) => dev == s.w.annots
    case GetCluster(dev, _) => dev == s.w.annots
    case GetSecret(dev, _, _) => dev == s.w.annots
    case CreateSecret(dev, _, _) => dev == s.w.annots
    case PatchSecret(dev, _, _, _, _) => dev == s.w.annots
    case GetJob(dev, _) => dev == s.w.annots
    case DeleteJob(dev) => dev == s.w.annots
  }

  predicate AboutToStore(w: World, base: Hashes, dev: Hashes) {
    base == w.annots && (w.job.Job? && base != dev ==> w.job.built == dev)
  }

  /** A job in the store was created under other hashes than the device carries, or is about to carry. */
  predicate Mismatched(s: Sys) { s.w.job.Job? && s.w.job.built != Intended(s) }

  predicate Inv(s: Sys) { Local(s) && !Mismatched(s) }

  /** Whatever happens, a mismatch comes about only by losing a patch, and stays as long as the job. */
  lemma {:induction false} NextMismatch(e: Env, s: Sys, l: Label)
    requires Local(s)
    ensures var after := Next(e, s, l);
      Local(after) && (Mismatched(after) <==> after.w.job.Job? && (LosesPatch(s, l) || Mismatched(s)))
  {
    hide MergeSecret, PatchedSecret, NewSecret;
  }

  /** Every call, every edit and every restart keeps the invariant, but for a lost patch. */
  lemma {:induction false} NextKeepsInv(e: Env, s: Sys, l: Label)
    requires Inv(s)
    ensures Inv(Next(e, s, l)) <==> Allowed(s, l)
  {
    hide CtlStep;
    NextMismatch(e, s, l);
    if LosesPatch(s, l) {
      assert Next(e, s, l).w.job.Job? by { LostPatchKeepsJob(e, s, l); }
    }
  }

  lemma {:induction false} LostPatchKeepsJob(e: Env, s: Sys, l: Label)
    requires LosesPatch(s, l)
    ensures Next(e, s, l).w == s.w
  {
  }

  /** Before step i a patch was lost, and a job has been in the store ever since. */
  ghost predicate LostPatch(e: Env, s: Sys, labels: seq<Label>, i: nat)
    requires i <= |labels|
  {
    var t := Trace(e, s, labels);
    exists j: nat :: j < i && LosesPatch(t[j], labels[j]) && JobStays(t, j, i)
  }

  predicate JobStays(t: seq<Sys>, j: nat, i: nat)
    requires i < |t|
  {
    forall k :: j < k <= i ==> t[k].w.job.Job?
  }

  lemma {:induction false} RunMismatch(e: Env, s: Sys, labels: seq<Label>, i: nat)
    requires Inv(s) && i <= |labels|
    ensures var t := Trace(e, s, labels);
      Local(t[i]) && (Mismatched(t[i]) <==> LostPatch(e, s, labels, i))
  {
    hide Next, Local, Mismatched, LosesPatch, Trace;
    var t := Trace(e, s, labels);
    if i > 0 {
      RunMismatch(e, s, labels, i - 1);
      NextMismatch(e, t[i - 1], labels[i - 1]);
      LostPatchStep(e, s, labels, i);
    }
  }

  /** What a further step adds to the lost patches. */
  lemma {:induction false} LostPatchStep(e: Env, s: Sys, labels: seq<Label>, i: nat)
    requires 0 < i <= |labels|
    ensures var t := Trace(e, s, labels);
      LostPatch(e, s, labels, i) <==>
        t[i].w.job.Job? && (LosesPatch(t[i - 1], labels[i - 1]) || LostPatch(e, s, labels, i - 1))
  {
    hide LosesPatch, Trace;
    var t := Trace(e, s, labels);
    if LostPatch(e, s, labels, i) {
      var j: nat :| j < i && LosesPatch(t[j], labels[j]) && JobStays(t, j, i);
      assert t[i].w.job.Job?;
      assert j < i - 1 ==> JobStays(t, j, i - 1);
    } else if t[i].w.job.Job? {
      assert JobStays(t, i - 1, i);
    }
  }

  lemma {:induction false} RunKeepsInv(e: Env, s: Sys, labels: seq<Label>, i: nat)
    requires Inv(s) && AllAllowed(e, s, labels) && i <= |labels|
    ensures Inv(Trace(e, s, labels)[i])
  {
    hide Trace, LosesPatch, Local, Mismatched;
    RunMismatch(e, s, labels, i);
    var t := Trace(e, s, labels);
    assert forall j :: 0 <= j < i ==> Allowed(t[j], labels[j]);
  }

  // ----- verdicts -----

  /** The step by which a reconcile finds the job up to date. */
  predicate Approves(s: Sys, l: Label, after: Sys) {
    l.CtlLabel? && s.pc.GetJob? && after.pc.SyncResources? && after.pc.verdict.UpToDate?
  }

  /** Over all interleavings: when a report that the job is up to date is wrong. Step i finds the job up
      to date; the job was not created under the hashes that this reconcile read if and only if a patch
      was lost and the job has not been deleted since. */
  lemma {:induction false} WrongVerdictIff(e: Env, s: Sys, labels: seq<Label>, i: nat)
    requires Inv(s) && i < |labels|
    requires Approves(Trace(e, s, labels)[i], labels[i], Trace(e, s, labels)[i + 1])
    ensures var before := Trace(e, s, labels)[i];
      Trace(e, s, labels)[i + 1].pc.verdict.want == before.pc.want &&
      (before.w.job != Job(Completed, before.pc.want) <==> LostPatch(e, s, labels, i))
  {
    hide Trace, LostPatch;
    RunMismatch(e, s, labels, i);
  }

  /** In particular, as long as no patch is lost: whenever a reconcile reports the job up to date, the
      job in the store is completed and was created under exactly the hashes that it read. */
  lemma {:induction false} NoStaleVerdict(e: Env, s: Sys, labels: seq<Label>, i: nat)
    requires Inv(s) && AllAllowed(e, s, labels) && i < |labels|
    requires Approves(Trace(e, s, labels)[i], labels[i], Trace(e, s, labels)[i + 1])
    ensures var before := Trace(e, s, labels)[i];
      before.w.job == Job(Completed, before.pc.want) &&
      Trace(e, s, labels)[i + 1].pc.verdict.want == before.pc.want
  {
    hide Trace, LosesPatch;
    WrongVerdictIff(e, s, labels, i);
    var t := Trace(e, s, labels);
    assert forall j :: 0 <= j < i ==> Allowed(t[j], labels[j]);
  }

  /** The hashes as stored. */
  function Want(w: World): Hashes
    requires w.secret.Some?
  {
    Hashes(w.secret.value.hash, w.classHash, w.clusterHash)
  }

  /** What the reconcile has read so far is what is stored. */
  predicate ReadsCurrent(s: Sys) {
    match s.pc
    case GetCluster(_, deviceClass) => deviceClass == s.w.classHash
    case GetSecret(_, deviceClass, cluster) => deviceClass == s.w.classHash && cluster == s.w.clusterHash
    case CreateSecret(_, deviceClass, cluster) => deviceClass == s.w.classHash && cluster == s.w.clusterHash
    case PatchSecret(_, deviceClass, cluster, _, _) => deviceClass == s.w.classHash && cluster == s.w.clusterHash
    case GetJob(_, want) => s.w.secret.Some? && want == Want(s.w)
    case _ => true
  }

  /** The label is an edit of what the hashes are over. */
  predicate IsEdit(l: Label) {
    l.EnvLabel? && (l.step.EditClass? || l.step.EditCluster? || l.step.EditSecret?)
  }

  lemma {:induction false} NextReadsCurrent(e: Env, s: Sys, l: Label)
    requires ReadsCurrent(s) && !IsEdit(l)
    ensures ReadsCurrent(Next(e, s, l))
  {
    hide MergeSecret, PatchedSecret, NewSecret, MergeAnnots;
  }

  lemma {:induction false} RunReadsCurrent(e: Env, s: Sys, labels: seq<Label>, j: nat, i: nat)
    requires j <= i <= |labels| && ReadsCurrent(Trace(e, s, labels)[j])
    requires forall k :: j <= k < i ==> !IsEdit(labels[k])
    ensures ReadsCurrent(Trace(e, s, labels)[i])
  {
    hide Trace, Next, ReadsCurrent, IsEdit;
    if j < i {
      RunReadsCurrent(e, s, labels, j, i - 1);
      NextReadsCurrent(e, Trace(e, s, labels)[i - 1], labels[i - 1]);
    }
  }

  /** A verdict is about the hashes as stored when it is given, if none of them was edited since the
      reconcile began: completions, deletions, failing calls and restarts may come in between. It is
      right about them if and only if no patch was lost for this job. */
  lemma {:induction false} VerdictIsCurrent(e: Env, s: Sys, labels: seq<Label>, j: nat, i: nat)
    requires Inv(s) && j <= i < |labels|
    requires Trace(e, s, labels)[j].pc.Idle? || Trace(e, s, labels)[j].pc.GetClass?
    requires forall k :: j <= k < i ==> !IsEdit(labels[k])
    requires Approves(Trace(e, s, labels)[i], labels[i], Trace(e, s, labels)[i + 1])
    ensures var before := Trace(e, s, labels)[i];
      before.w.secret.Some? && before.pc.want == Want(before.w) &&
      (before.w.job == Job(Completed, Want(before.w)) <==> !LostPatch(e, s, labels, i))
  {
    hide Trace, LostPatch, IsEdit;
    RunReadsCurrent(e, s, labels, j, i);
    WrongVerdictIff(e, s, labels, i);
  }
}
