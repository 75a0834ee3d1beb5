/** The device reconciler as a program over the stored objects, proved to make exactly the calls of
    the step machine, and the convergence of repeated reconciles. */
module DeviceReconciler {
  import opened Credentials
  import opened DeviceJob
  import opened HashByteData
  import opened Options

  /** Which calls of one reconcile fail. */
  datatype Faults = Faults(
    getDevice: bool, getClass: bool, getCluster: bool, getSecret: bool, createSecret: bool, patchSecret: bool,
    getJob: bool, deleteJob: bool, createJob: bool, syncResources: bool, patchDevice: bool, patchStatus: bool)
  {
    function At(pc: Pc): bool {
      match pc
      case Idle(_) => getDevice
      case GetClass(_) => getClass
      case GetCluster(_, _) => getCluster
      case GetSecret(_, _, _) => getSecret
      case CreateSecret(_, _, _) => createSecret
      case PatchSecret(_, _, _, _, _) => patchSecret
      case GetJob(_, _) => getJob
      case DeleteJob(_) => deleteJob
      case CreateJob(_, _) => createJob
      case SyncResources(_, _, _) => syncResources
      case PatchDevice(_, _, _) => patchDevice
      case PatchStatus(_) => patchStatus
    }
  }

  const NO_FAULTS :=
    Faults(false, false, false, false, false, false, false, false, false, false, false, false)

  function Remaining(pc: Pc): nat {
    match pc
    case Idle(_) => 0
    case GetClass(_) => 9
    case GetCluster(_, _) => 8
    case GetSecret(_, _, _) => 7
    case CreateSecret(_, _, _) => 6
    case PatchSecret(_, _, _, _, _) => 6
    case GetJob(_, _) => 5
    case DeleteJob(_) => 4
    case CreateJob(_, _) => 4
    case SyncResources(_, _, _) => 3
    case PatchDevice(_, _, _) => 2
    case PatchStatus(_) => 1
  }

  /** The rest of a reconcile that nothing interrupts. */
  ghost function Drive(e: Env, s: Sys, f: Faults, random: Str): (after: Sys)
    ensures after.pc.Idle?
    decreases Remaining(s.pc)
  {
    if s.pc.Idle? then s else Drive(e, CtlStep(e, s, f.At(s.pc), random), f, random)
  }

  /** A whole reconcile that nothing interrupts. */
  ghost function Reconciled(e: Env, w: World, f: Faults, random: Str): (after: Sys)
    ensures after.pc.Idle?
  {
    Drive(e, CtlStep(e, Sys(w, Idle(None)), f.getDevice, random), f, random)
  }

  /** The calls for the secret, from its Get on. */
  lemma {:induction false} SecretCalls(
      e: Env, w: World, f: Faults, random: Str, dev: Hashes, deviceClass: Hash, cluster: Hash)
    ensures Drive(e, Sys(w, Pc.GetSecret(dev, deviceClass, cluster)), f, random)
         == if (if f.getSecret || w.secret.None? then f.createSecret || w.secret.Some? else f.patchSecret)
            then Drive(e, Sys(w, Pc.PatchDevice(dev, dev, Error)), f, random)
            else
              var secret :=
                if w.secret.None? then NewSecret(e, random)
                else MergeSecret(w.secret.value, w.secret.value, PatchedSecret(e, w.secret.value, random));
              var want := Hashes(secret.hash, deviceClass, cluster);
              Drive(e, Sys(w.(secret := Some(secret)), Pc.GetJob(dev, want)), f, random)
  {
    hide MergeSecret, PatchedSecret, NewSecret;
    var s := Sys(w, Pc.GetSecret(dev, deviceClass, cluster));
    var s1 := CtlStep(e, s, f.getSecret, random);
    var s2 := CtlStep(e, s1, f.At(s1.pc), random);
    assert Drive(e, s, f, random) == Drive(e, s1, f, random) == Drive(e, s2, f, random);
  }

  class Reconciler {
    var w: World
    const e: Env

    constructor (e: Env, w: World)
      ensures this.e == e && this.w == w
    {
      this.e, this.w := e, w;
    }

    /** Makes sure that the device's credentials exist and carry the hash of their data. */
    method CreateSecret(f: Faults, random: Str, ghost dev: Hashes, ghost deviceClass: Hash, ghost cluster: Hash)
      returns (ok: bool, secret: Secret)
      modifies this
      ensures Drive(e, Sys(old(w), Pc.GetSecret(dev, deviceClass, cluster)), f, random)
           == if ok then Drive(e, Sys(w, Pc.GetJob(dev, Hashes(secret.hash, deviceClass, cluster))), f, random)
              else Drive(e, Sys(w, Pc.PatchDevice(dev, dev, Error)), f, random)
    {
      hide Drive, CtlStep, MergeSecret, Canonical;
      SecretCalls(e, w, f, random, dev, deviceClass, cluster);
      if f.getSecret || w.secret.None? {
        var data := map[PASSWORD := random, USERNAME := e.name];
        var digest := HashByteData.Hash(data, e.sha256);
        secret := Secret(data, digest);
        if f.createSecret || w.secret.Some? {
          return false, secret;
        }
        w := w.(secret := Some(secret));
      } else {
        var base := w.secret.value;
        var data := base.data;
        if PASSWORD !in data {
          data := data[PASSWORD := random];
        }
        if USERNAME !in data || data[USERNAME] != e.name {
          data := data[USERNAME := e.name];
        }
        var digest := HashByteData.Hash(data, e.sha256);
        secret := Secret(data, digest);
        assert secret == PatchedSecret(e, base, random);
        if f.patchSecret {
          return false, secret;
        }
        secret := MergeSecret(w.secret.value, base, secret);
        w := w.(secret := Some(secret));
      }
      ok := true;
    }

    /** Decides whether the job is still wanted, up to date, or to be replaced or created. */
    method CreateJob(f: Faults, dev: Hashes, want: Hashes, ghost random: Str)
      returns (verdict: Verdict, dev': Hashes)
      modifies this
      ensures Drive(e, Sys(old(w), Pc.GetJob(dev, want)), f, random)
           == Drive(e, Sys(w, AfterJob(dev, dev', verdict)), f, random)
    {
      dev' := dev;
      if f.getJob {
        return Error, dev;
      }
      var jobExists := false;
      if w.job.Job? {
        if w.job.phase == Deleting {
          return Requeue, dev;
        }
        if w.job.phase != Completed {
          return Requeue, dev;
        }
        jobExists := true;
      }
      if jobExists {
        if dev.secret != want.secret || dev.deviceClass != want.deviceClass || dev.cluster != want.cluster {
          if f.deleteJob {
            return Error, dev;
          }
          w := w.(job := w.job.(phase := Deleting));
          return Requeue, dev;
        } else {
          return UpToDate(want), dev;
        }
      }
      dev' := dev.(secret := want.secret);
      dev' := dev'.(deviceClass := want.deviceClass);
      dev' := dev'.(cluster := want.cluster);
      if f.createJob {
        return Error, dev';
      }
      w := w.(job := Job(Running, dev'));
      return Created(want), dev';
    }

    /** One reconcile of the device; the device is patched at the end whatever happened. */
    method Reconcile(f: Faults, random: Str) returns (verdict: Verdict)
      modifies this
      ensures Sys(w, Idle(Some(verdict))) == Reconciled(e, old(w), f, random)
    {
      hide Filled, PatchedSecret;
      if f.getDevice {
        return Error;
      }
      var base := w.annots;
      var dev := base;
      verdict := Error;
      ghost var start := w;
      assert Reconciled(e, w, f, random) == Drive(e, Sys(w, Pc.GetClass(dev)), f, random);
      if !f.getClass {
        var deviceClass := w.classHash;
        assert Drive(e, Sys(w, Pc.GetClass(dev)), f, random)
            == Drive(e, Sys(w, Pc.GetCluster(dev, deviceClass)), f, random);
        if !f.getCluster {
          var cluster := w.clusterHash;
          var ok, secret := CreateSecret(f, random, dev, deviceClass, cluster);
          if ok {
            verdict, dev := CreateJob(f, dev, Hashes(secret.hash, deviceClass, cluster), random);
          }
        }
      }
      assert Drive(e, Sys(start, Pc.GetClass(base)), f, random)
          == Drive(e, Sys(w, AfterJob(base, dev, verdict)), f, random);
      DriveEnds(e, Sys(w, AfterJob(base, dev, verdict)), f, random);
      if (verdict.Created? || verdict.UpToDate?) && f.syncResources {
        verdict := Error;
      }
      if !f.patchDevice {
        w := w.(annots := MergeAnnots(w.annots, base, dev));
      }
      if f.patchDevice || f.patchStatus {
        verdict := Error;
      }
    }
  }

  /** How a reconcile goes on after the job: the other resources follow unless it is to be repeated. */
  function AfterJob(base: Hashes, dev: Hashes, verdict: Verdict): Pc {
    if verdict.Created? || verdict.UpToDate? then Pc.SyncResources(base, dev, verdict)
    else Pc.PatchDevice(base, dev, verdict)
  }

  /** The end of a reconcile, from the call after the job on. */
  lemma {:induction false} DriveEnds(e: Env, s: Sys, f: Faults, random: Str)
    requires s.pc.SyncResources? || s.pc.PatchDevice?
    ensures var failed := (s.pc.SyncResources? && f.syncResources) || f.patchDevice || f.patchStatus;
      var annots := if f.patchDevice then s.w.annots else MergeAnnots(s.w.annots, s.pc.base, s.pc.dev);
      Drive(e, s, f, random) == Sys(s.w.(annots := annots), Idle(Some(if failed then Error else s.pc.verdict)))
  {
    hide MergeAnnots;
    var s1 := if s.pc.SyncResources? then CtlStep(e, s, f.syncResources, random) else s;
    var s2 := CtlStep(e, s1, f.patchDevice, random);
    assert Drive(e, s, f, random) == Drive(e, s1, f, random) == Drive(e, s2, f, random);
    assert Drive(e, s2, f, random) == CtlStep(e, s2, f.patchStatus, random);
  }

  // ----- an uninterrupted reconcile as a run of the step machine -----

  /** The labels of the calls that a reconcile makes from here on. */
  ghost function DriveLabels(e: Env, s: Sys, f: Faults, random: Str): seq<Label>
    decreases Remaining(s.pc)
  {
    if s.pc.Idle? then []
    else [CtlLabel(f.At(s.pc), random)] + DriveLabels(e, CtlStep(e, s, f.At(s.pc), random), f, random)
  }

  lemma {:induction false} DriveIsRun(e: Env, s: Sys, f: Faults, random: Str)
    ensures var labels := DriveLabels(e, s, f, random);
      Trace(e, s, labels)[|labels|] == Drive(e, s, f, random)
    decreases Remaining(s.pc)
  {
    if !s.pc.Idle? {
      var next := CtlStep(e, s, f.At(s.pc), random);
      var labels := DriveLabels(e, s, f, random);
      DriveIsRun(e, next, f, random);
      assert labels[1..] == DriveLabels(e, next, f, random);
      assert Trace(e, s, labels) == [s] + Trace(e, next, labels[1..]);
    }
  }

  /** The labels of a whole reconcile. */
  ghost function ReconcileLabels(e: Env, w: World, f: Faults, random: Str): seq<Label> {
    [CtlLabel(f.getDevice, random)] + DriveLabels(e, CtlStep(e, Sys(w, Idle(None)), f.getDevice, random), f, random)
  }

  lemma {:induction false} ReconcileIsRun(e: Env, w: World, f: Faults, random: Str)
    ensures var labels := ReconcileLabels(e, w, f, random);
      Trace(e, Sys(w, Idle(None)), labels)[|labels|] == Reconciled(e, w, f, random)
  {
    hide Drive, CtlStep, DriveLabels;
    var s, labels := Sys(w, Idle(None)), ReconcileLabels(e, w, f, random);
    var next := CtlStep(e, s, f.getDevice, random);
    DriveIsRun(e, next, f, random);
    assert labels[1..] == DriveLabels(e, next, f, random);
    assert Trace(e, s, labels) == [s] + Trace(e, next, labels[1..]);
  }

  // ----- what a reconcile achieves -----

  /** The credentials are complete and hashed. */
  ghost predicate Ready(e: Env, w: World) {
    w.secret.Some? && PASSWORD in w.secret.value.data && USERNAME in w.secret.value.data &&
    w.secret.value.data[USERNAME] == e.name && w.secret.value.hash == e.Digest(w.secret.value.data)
  }

  /** The secret after a reconcile all of whose calls succeed. */
  ghost function SecretAfter(e: Env, w: World, random: Str): Secret {
    if w.secret.None? then NewSecret(e, random) else PatchedSecret(e, w.secret.value, random)
  }

  lemma {:induction false} PatchWithoutRace(e: Env, s: Secret, random: Str)
    ensures MergeSecret(s, s, PatchedSecret(e, s, random)) == PatchedSecret(e, s, random)
  {
    var m := PatchedSecret(e, s, random);
    assert s.data.Keys <= m.data.Keys;
    assert MergeSecret(s, s, m).data == m.data;
  }

  /** The effect of a reconcile all of whose calls succeed, once the secret is in place. */
  function JobEffect(w: World): World
    requires w.secret.Some?
  {
    if w.job.NoJob? then w.(job := Job(Running, Want(w)), annots := Want(w))
    else if w.job.phase != Completed || w.annots == Want(w) then w
    else w.(job := w.job.(phase := Deleting))
  }

  /** The calls before the job succeed. */
  predicate SecretDone(w: World, f: Faults) {
    !f.getDevice && !f.getClass && !f.getCluster &&
    if f.getSecret || w.secret.None? then !f.createSecret && w.secret.None? else !f.patchSecret
  }

  /** Up to the job: with the secret in place, or reporting an error and leaving everything as it was. */
  lemma {:induction false} BeforeJob(e: Env, w: World, f: Faults, random: Str)
    ensures var w1 := w.(secret := Some(SecretAfter(e, w, random)));
      if SecretDone(w, f) then
        Reconciled(e, w, f, random) == Drive(e, Sys(w1, Pc.GetJob(w.annots, Want(w1))), f, random)
      else Reconciled(e, w, f, random) == Sys(w, Idle(Some(Error)))
  {
    hide MergeSecret, PatchedSecret, NewSecret, MergeAnnots;
    var dev := w.annots;
    var s1 := Sys(w, Pc.GetClass(dev));
    if !f.getDevice {
      assert Reconciled(e, w, f, random) == Drive(e, s1, f, random);
      if f.getClass {
        FailedEarly(e, s1, w, f, random);
      } else {
        var s2 := Sys(w, Pc.GetCluster(dev, w.classHash));
        assert Drive(e, s1, f, random) == Drive(e, s2, f, random);
        if f.getCluster {
          FailedEarly(e, s2, w, f, random);
        } else {
          var s3 := Sys(w, Pc.GetSecret(dev, w.classHash, w.clusterHash));
          assert Drive(e, s2, f, random) == Drive(e, s3, f, random);
          SecretCalls(e, w, f, random, dev, w.classHash, w.clusterHash);
          if w.secret.Some? { PatchWithoutRace(e, w.secret.value, random); }
          ErrorPatch(e, w, f, random);
        }
      }
    }
  }

  lemma {:induction false} ErrorPatch(e: Env, w: World, f: Faults, random: Str)
    ensures Drive(e, Sys(w, Pc.PatchDevice(w.annots, w.annots, Error)), f, random) == Sys(w, Idle(Some(Error)))
  {
    DriveEnds(e, Sys(w, Pc.PatchDevice(w.annots, w.annots, Error)), f, random);
  }

  lemma {:induction false} FailedEarly(e: Env, s: Sys, w: World, f: Faults, random: Str)
    requires (s.pc.GetClass? && f.getClass) || (s.pc.GetCluster? && f.getCluster)
    requires s.w == w && s.pc.dev == w.annots
    ensures Drive(e, s, f, random) == Sys(w, Idle(Some(Error)))
  {
    ErrorPatch(e, w, f, random);
    assert Drive(e, s, f, random) == Drive(e, Sys(w, Pc.PatchDevice(w.annots, w.annots, Error)), f, random);
  }

  lemma {:induction false} JobPart(e: Env, w: World, random: Str)
    requires w.secret.Some?
    ensures Drive(e, Sys(w, Pc.GetJob(w.annots, Want(w))), NO_FAULTS, random).w == JobEffect(w)
  {
    var f := NO_FAULTS;
    var s := Sys(w, Pc.GetJob(w.annots, Want(w)));
    var s' := CtlStep(e, s, false, random);
    assert Drive(e, s, f, random) == Drive(e, s', f, random);
    if s'.pc.SyncResources? || s'.pc.PatchDevice? {
      DriveEnds(e, s', f, random);
    } else {
      assert Drive(e, s', f, random) == Drive(e, CtlStep(e, s', false, random), f, random);
      DriveEnds(e, CtlStep(e, s', false, random), f, random);
    }
  }

  lemma {:induction false} ReconcileEffect(e: Env, w: World, random: Str)
    ensures var w1 := w.(secret := Some(SecretAfter(e, w, random)));
      Ready(e, w1) && Reconciled(e, w, NO_FAULTS, random).w == JobEffect(w1)
    ensures Ready(e, w) ==> SecretAfter(e, w, random) == w.secret.value
  {
    var w1 := w.(secret := Some(SecretAfter(e, w, random)));
    BeforeJob(e, w, NO_FAULTS, random);
    JobPart(e, w1, random);
  }

  // ----- convergence -----

  /** A job carries the hashes the device carries. */
  predicate Consistent(w: World) { w.job.Job? ==> w.job.built == w.annots }

  /** The job was built under what is wanted now. */
  predicate Matches(w: World)
    requires w.secret.Some?
  {
    w.job.Job? && w.job.built == Want(w) == w.annots
  }

  /** How far a device is from a completed job that matches. A failed job is infinitely far: it
      never gets a completion time, so no reconcile replaces it. */
  function Distance(w: World): Option<nat>
    requires w.secret.Some?
  {
    if w.job.NoJob? then Some(2)
    else match w.job.phase
      case Completed => if w.annots == Want(w) then Some(0) else Some(4)
      case Running => if w.annots == Want(w) then Some(1) else Some(5)
      case Deleting => Some(3)
      case Failed => None
  }

  // ----- reconciles some of whose calls fail -----

  /** What a reconcile may leave behind, whichever of its calls fail. */
  predicate MayLeave(w: World, after: World) {
    after.classHash == w.classHash && after.clusterHash == w.clusterHash &&
    ((after.job == w.job && after.annots == w.annots) ||
     (after.secret.Some? && MayCreate(w, after)) || (after.secret.Some? && MayDelete(w, after)))
  }

  /** A missing job may have been created, and the annotations stored, each with or without the other. */
  predicate MayCreate(w: World, after: World)
    requires after.secret.Some?
  {
    w.job.NoJob? && (after.job.NoJob? || after.job == Job(Running, Want(after))) &&
    (after.annots == w.annots || after.annots == Want(after))
  }

  /** A completed job that no longer matches is being deleted. */
  predicate MayDelete(w: World, after: World)
    requires after.secret.Some?
  {
    w.job.Job? && w.job.phase == Completed && w.annots != Want(after) &&
    after.job == w.job.(phase := Deleting) && after.annots == w.annots
  }

  /** Fit to be left behind, whether the annotations are stored or not. */
  predicate AboutToPatch(w: World, now: World, base: Hashes, dev: Hashes) {
    base == now.annots == w.annots && MayLeave(w, now) && MayLeave(w, now.(annots := dev))
  }

  /** Where an uninterrupted reconcile of `w` stands. */
  predicate Underway(w: World, s: Sys) {
    s.w.classHash == w.classHash && s.w.clusterHash == w.clusterHash &&
    var same := s.w.job == w.job && s.w.annots == w.annots;
    match s.pc
    case Idle(_) => MayLeave(w, s.w)
    case PatchStatus(_) => MayLeave(w, s.w)
    case GetClass(dev) => same && dev == w.annots
    case GetCluster(dev, deviceClass) => same && dev == w.annots && deviceClass == w.classHash
    case GetSecret(dev, deviceClass, cluster) =>
      same && dev == w.annots && deviceClass == w.classHash && cluster == w.clusterHash
    case CreateSecret(dev, deviceClass, cluster) =>
      same && dev == w.annots && deviceClass == w.classHash && cluster == w.clusterHash
    case PatchSecret(dev, deviceClass, cluster, _, _) =>
      same && dev == w.annots && deviceClass == w.classHash && cluster == w.clusterHash
    case GetJob(dev, want) => same && dev == w.annots && s.w.secret.Some? && want == Want(s.w)
    case DeleteJob(dev) =>
      same && dev == w.annots && s.w.secret.Some? && w.job.Job? && w.job.phase == Completed && dev != Want(s.w)
    case CreateJob(base, want) =>
      same && base == w.annots && s.w.secret.Some? && w.job.NoJob? && want == Want(s.w)
    case SyncResources(base, dev, _) => AboutToPatch(w, s.w, base, dev)
    case PatchDevice(base, dev, _) => AboutToPatch(w, s.w, base, dev)
  }

  lemma {:induction false} StepUnderway(e: Env, w: World, s: Sys, fault: bool, random: Str)
    requires Underway(w, s) && !s.pc.Idle?
    ensures Underway(w, CtlStep(e, s, fault, random))
  {
    hide PatchedSecret, NewSecret, MergeSecret;
  }

  lemma {:induction false} DriveUnderway(e: Env, w: World, s: Sys, f: Faults, random: Str)
    requires Underway(w, s)
    ensures MayLeave(w, Drive(e, s, f, random).w)
    decreases Remaining(s.pc)
  {
    hide MayLeave, PatchedSecret, NewSecret, MergeSecret, MergeAnnots;
    if !s.pc.Idle? {
      StepUnderway(e, w, s, f.At(s.pc), random);
      DriveUnderway(e, w, CtlStep(e, s, f.At(s.pc), random), f, random);
    }
  }

  /** The effect of a reconcile under any faults. */
  lemma {:induction false} FaultyReconcile(e: Env, w: World, f: Faults, random: Str)
    ensures MayLeave(w, Reconciled(e, w, f, random).w)
  {
    hide Drive;
    DriveUnderway(e, w, CtlStep(e, Sys(w, Idle(None)), f.getDevice, random), f, random);
  }

  /** Complete credentials: the reconcile finds and leaves this secret. */
  ghost predicate SecretStays(s: Sys, secret: Secret) {
    s.w.secret == Some(secret) && (s.pc.PatchSecret? ==> s.pc.read == s.pc.modified == secret)
  }

  lemma {:induction false} DriveSecretStays(e: Env, s: Sys, f: Faults, random: Str, secret: Secret)
    requires Ready(e, s.w) && SecretStays(s, secret)
    ensures SecretStays(Drive(e, s, f, random), secret)
    decreases Remaining(s.pc)
  {
    hide Canonical, Want;
    if !s.pc.Idle? {
      assert PatchedSecret(e, secret, random) == secret;
      PatchWithoutRace(e, secret, random);
      DriveSecretStays(e, CtlStep(e, s, f.At(s.pc), random), f, random, secret);
    }
  }

  /** What still happens once edits and hash refreshes stop. */
  datatype Event = ReconcileEvent(f: Faults, random: Str) | JobCompletes | DeletionFinishes

  ghost function Happen(e: Env, w: World, ev: Event): World {
    match ev
    case ReconcileEvent(f, random) => Reconciled(e, w, f, random).w
    case JobCompletes => EnvApply(w, CompleteJob)
    case DeletionFinishes => EnvApply(w, FinishDelete)
  }

  /** Any call of the reconcile may fail, except the patch that stores the hashes of a job just created. */
  ghost predicate Tolerated(e: Env, w: World, ev: Event) {
    ev.ReconcileEvent? ==> AllAllowed(e, Sys(w, Idle(None)), ReconcileLabels(e, w, ev.f, ev.random))
  }

  predicate HasFailed(w: World) { w.job.Job? && w.job.phase == Failed }

  /** No tolerated event, whichever calls fail in it, breaks what convergence rests on. */
  lemma {:induction false} ToleratedKeeps(e: Env, w: World, ev: Event)
    requires Consistent(w) && Tolerated(e, w, ev)
    ensures Consistent(Happen(e, w, ev)) && (HasFailed(Happen(e, w, ev)) <==> HasFailed(w))
  {
    hide Reconciled, ReconcileLabels, Trace;
    if ev.ReconcileEvent? {
      var labels := ReconcileLabels(e, w, ev.f, ev.random);
      RunKeepsInv(e, Sys(w, Idle(None)), labels, |labels|);
      ReconcileIsRun(e, w, ev.f, ev.random);
      FaultyReconcile(e, w, ev.f, ev.random);
    }
  }

  /** Nor does it take the device farther from a job that matches. */
  lemma {:induction false} ToleratedNeverFarther(e: Env, w: World, ev: Event)
    requires Ready(e, w) && Consistent(w) && Tolerated(e, w, ev)
    ensures var after := Happen(e, w, ev);
      Ready(e, after) && after.secret == w.secret &&
      (Distance(w).Some? <==> Distance(after).Some?) &&
      (Distance(w).Some? ==> Distance(after).value <= Distance(w).value)
  {
    hide Drive, Tolerated, ReconcileLabels, Canonical;
    ToleratedKeeps(e, w, ev);
    if ev.ReconcileEvent? {
      FaultyReconcile(e, w, ev.f, ev.random);
      DriveSecretStays(e, CtlStep(e, Sys(w, Idle(None)), ev.f.getDevice, ev.random), ev.f, ev.random, w.secret.value);
    }
  }

  /** Every event that changes anything brings the device strictly nearer, once calls stop failing;
      the secret is settled. */
  lemma {:induction false} EventsApproach(e: Env, w: World, ev: Event)
    requires Ready(e, w) && Consistent(w) && (ev.ReconcileEvent? ==> ev.f == NO_FAULTS)
    ensures var after := Happen(e, w, ev);
      Ready(e, after) && Consistent(after) && after.secret == w.secret &&
      (after == w || (Distance(w).Some? && Distance(after).Some? && Distance(after).value < Distance(w).value))
  {
    if ev.ReconcileEvent? {
      ReconcileEffect(e, w, ev.random);
      assert w.(secret := Some(SecretAfter(e, w, ev.random))) == w;
    }
  }

  /** While the distance is not zero, some event does change something: which one depends only on
      the state of the job. */
  lemma {:induction false} NotSettledMoves(e: Env, w: World, random: Str)
    requires Ready(e, w) && Consistent(w) && Distance(w).Some? && Distance(w).value > 0
    ensures var ev :=
        if w.job.Job? && w.job.phase == Running then JobCompletes
        else if w.job.Job? && w.job.phase == Deleting then DeletionFinishes
        else ReconcileEvent(NO_FAULTS, random);
      Happen(e, w, ev) != w
  {
    ReconcileEffect(e, w, random);
    assert w.(secret := Some(SecretAfter(e, w, random))) == w;
  }

  /** A reconcile, then whatever it started finishes. */
  ghost function Round(e: Env, w: World, random: Str): World {
    Happen(e, Happen(e, Happen(e, w, ReconcileEvent(NO_FAULTS, random)), JobCompletes), DeletionFinishes)
  }

  lemma {:induction false} RoundEffect(e: Env, w: World, random: Str)
    ensures var w1 := w.(secret := Some(SecretAfter(e, w, random)));
      Ready(e, w1) && Round(e, w, random) == EnvApply(EnvApply(JobEffect(w1), CompleteJob), FinishDelete) &&
      Ready(e, Round(e, w, random)) && (Ready(e, w) ==> w1 == w)
  {
    ReconcileEffect(e, w, random);
  }

  /** The job was created under other hashes than the device carries, and these are the ones wanted: no
      reconcile can tell that it does not match. */
  ghost predicate Deceived(e: Env, w: World, random: Str) {
    w.job.Job? && (w.job.phase == Running || w.job.phase == Completed) &&
    w.job.built != w.annots == Want(w.(secret := Some(SecretAfter(e, w, random))))
  }

  /** Convergence: from any state, with or without a secret, three rounds lead to a completed job that
      matches the secret, class and cluster, if and only if the job at the start is neither one that
      failed nor one whose mismatch is hidden. */
  lemma {:induction false} Convergence(e: Env, w: World, r1: Str, r2: Str, r3: Str)
    ensures var end := Round(e, Round(e, Round(e, w, r1), r2), r3);
      Ready(e, end) &&
      (Matches(end) && end.job.phase == Completed <==> !HasFailed(w) && !Deceived(e, w, r1)) &&
      (Consistent(w) ==> !Deceived(e, w, r1))
  {
    hide Round, Ready, SecretAfter, EnvApply, JobEffect;
    var wa := Round(e, w, r1);
    var wb := Round(e, wa, r2);
    RoundMoves(e, w, r1);
    RoundMoves(e, wa, r2);
    RoundMoves(e, wb, r3);
  }

  /** One round, by cases on the job. */
  lemma {:induction false} RoundMoves(e: Env, w: World, random: Str)
    ensures var w1 := w.(secret := Some(SecretAfter(e, w, random)));
      var after := Round(e, w, random);
      Ready(e, after) && after.classHash == w.classHash && after.clusterHash == w.clusterHash &&
      after.secret == w1.secret && (Ready(e, w) ==> w1 == w) &&
      match w.job
      case NoJob => Matches(after) && after.job.phase == Completed
      case Job(Failed, _) => after.job == w.job
      case Job(Deleting, _) => after.job.NoJob?
      case Job(Running, built) => after == w1.(job := Job(Completed, built))
      case Job(Completed, _) => if w.annots == Want(w1) then after == w1 else after.job.NoJob?
  {
    hide Ready, SecretAfter;
    RoundEffect(e, w, random);
  }

  /** The events of `evs` in order. */
  ghost function HappenAll(e: Env, w: World, evs: seq<Event>): World
    decreases evs
  {
    if evs == [] then w else HappenAll(e, Happen(e, w, evs[0]), evs[1..])
  }

  ghost predicate AllTolerated(e: Env, w: World, evs: seq<Event>)
    decreases evs
  {
    evs == [] || (Tolerated(e, w, evs[0]) && AllTolerated(e, Happen(e, w, evs[0]), evs[1..]))
  }

  lemma {:induction false} ToleratedRunKeeps(e: Env, w: World, evs: seq<Event>)
    requires Consistent(w) && AllTolerated(e, w, evs)
    ensures Consistent(HappenAll(e, w, evs)) && (HasFailed(HappenAll(e, w, evs)) <==> HasFailed(w))
    decreases evs
  {
    hide Happen, Tolerated, Consistent, HasFailed;
    if evs != [] {
      ToleratedKeeps(e, w, evs[0]);
      ToleratedRunKeeps(e, Happen(e, w, evs[0]), evs[1..]);
    }
  }

  /** Convergence once calls stop failing: after any number of reconciles some of whose calls failed,
      with completions and deletions in between, the same three rounds lead to a completed job that
      matches, if and only if the job at the start is not one that failed. */
  lemma {:induction false} ConvergesAfterFaults(e: Env, w: World, evs: seq<Event>, r1: Str, r2: Str, r3: Str)
    requires Consistent(w) && AllTolerated(e, w, evs)
    ensures var end := Round(e, Round(e, Round(e, HappenAll(e, w, evs), r1), r2), r3);
      Ready(e, end) && (Matches(end) && end.job.phase == Completed <==> !HasFailed(w))
  {
    hide Round, Ready, HappenAll, AllTolerated, Consistent, Matches;
    ToleratedRunKeeps(e, w, evs);
    Convergence(e, HappenAll(e, w, evs), r1, r2, r3);
  }

  /** Convergence after any interleaved run, with edits, failing calls and restarts, that leaves no job
      whose patch was lost: once it has come to rest, the same three rounds lead to a completed job that
      matches, if and only if the job is not one that failed. */
  lemma {:induction false} ConvergesAfterRun(e: Env, s: Sys, labels: seq<Label>, r1: Str, r2: Str, r3: Str)
    requires Inv(s) && Trace(e, s, labels)[|labels|].pc.Idle? && !LostPatch(e, s, labels, |labels|)
    ensures var w := Trace(e, s, labels)[|labels|].w;
      var end := Round(e, Round(e, Round(e, w, r1), r2), r3);
      Ready(e, end) && (Matches(end) && end.job.phase == Completed <==> !HasFailed(w))
  {
    hide Round, Ready, Trace, LostPatch, Matches, Deceived;
    RunMismatch(e, s, labels, |labels|);
    Convergence(e, Trace(e, s, labels)[|labels|].w, r1, r2, r3);
  }

  /** A reconcile under way that has read nothing but the settled state. */
  predicate Unchanging(e: Env, s: Sys)
    requires s.w.secret.Some?
  {
    match s.pc
    case Idle(_) => true
    case GetClass(dev) => dev == s.w.annots
    case GetCluster(dev, deviceClass) => dev == s.w.annots && deviceClass == s.w.classHash
    case GetSecret(dev, deviceClass, cluster) =>
      dev == s.w.annots && deviceClass == s.w.classHash && cluster == s.w.clusterHash
    case CreateSecret(dev, _, _) => dev == s.w.annots
    case PatchSecret(dev, deviceClass, cluster, read, modified) =>
      dev == s.w.annots && deviceClass == s.w.classHash && cluster == s.w.clusterHash &&
        read == modified == s.w.secret.value
    case GetJob(dev, want) => dev == s.w.annots && want == Want(s.w)
    case SyncResources(base, dev, _) => base == dev
    case PatchDevice(base, dev, _) => base == dev
    case PatchStatus(_) => true
    case DeleteJob(_) => false
    case CreateJob(_, _) => false
  }

  lemma {:induction false} StepUnchanging(e: Env, s: Sys, fault: bool, random: Str)
    requires Ready(e, s.w) && Matches(s.w) && s.w.job.phase == Completed && Unchanging(e, s)
    ensures CtlStep(e, s, fault, random).w == s.w && Unchanging(e, CtlStep(e, s, fault, random))
  {
    var secret := s.w.secret.value;
    assert PatchedSecret(e, secret, random) == secret;
    PatchWithoutRace(e, secret, random);
  }

  lemma {:induction false} DriveUnchanging(e: Env, s: Sys, f: Faults, random: Str)
    requires Ready(e, s.w) && Matches(s.w) && s.w.job.phase == Completed && Unchanging(e, s)
    ensures Drive(e, s, f, random).w == s.w
    decreases Remaining(s.pc)
  {
    if !s.pc.Idle? {
      StepUnchanging(e, s, f.At(s.pc), random);
      DriveUnchanging(e, CtlStep(e, s, f.At(s.pc), random), f, random);
    }
  }

  /** The fixed point: once a completed job matches, no reconcile changes the job, the annotations or
      the secret, whichever of its calls fail. */
  lemma {:induction false} SettledIsFixed(e: Env, w: World, f: Faults, random: Str)
    requires Ready(e, w) && Matches(w) && w.job.phase == Completed
    ensures Reconciled(e, w, f, random).w == w
  {
    StepUnchanging(e, Sys(w, Idle(None)), f.getDevice, random);
    DriveUnchanging(e, CtlStep(e, Sys(w, Idle(None)), f.getDevice, random), f, random);
  }

  /** What an uninterrupted reconcile reports: it approves the job exactly when the job is completed
      and the device carries the hashes as they are once the secret is in place. */
  lemma {:induction false} ApprovesIff(e: Env, w: World, random: Str)
    ensures var w1 := w.(secret := Some(SecretAfter(e, w, random)));
      Reconciled(e, w, NO_FAULTS, random).pc == Idle(Some(UpToDate(Want(w1)))) <==>
        w.job.Job? && w.job.phase == Completed && w.annots == Want(w1)
  {
    hide Reconciled, SecretAfter, Want;
    ReportByPhase(e, w, random);
  }

  /** What the part of a reconcile that concerns the job reports and leaves, by the phase of the job and the
      calls that fail. The hashes of a job are stored even if its creation failed. */
  lemma {:induction false} JobReport(e: Env, w: World, f: Faults, random: Str)
    requires w.secret.Some?
    ensures var want := Want(w);
      var verdict :=
        if f.getJob then Error
        else match w.job
          case NoJob => if f.createJob || f.syncResources then Error else Created(want)
          case Job(Completed, _) =>
            if w.annots == want then (if f.syncResources then Error else UpToDate(want))
            else if f.deleteJob then Error else Requeue
          case Job(Running, _) => Requeue
          case Job(Failed, _) => Requeue
          case Job(Deleting, _) => Requeue;
      Drive(e, Sys(w, Pc.GetJob(w.annots, want)), f, random).pc
        == Idle(Some(if f.patchDevice || f.patchStatus then Error else verdict))
    ensures var want := Want(w);
      var stored := if f.patchDevice then w.annots else want;
      Drive(e, Sys(w, Pc.GetJob(w.annots, want)), f, random).w
        == if f.getJob then w
           else match w.job
             case NoJob => w.(job := if f.createJob then NoJob else Job(Running, want), annots := stored)
             case Job(Completed, built) =>
               if w.annots == want || f.deleteJob then w else w.(job := Job(Deleting, built))
             case Job(Running, _) => w
             case Job(Failed, _) => w
             case Job(Deleting, _) => w
  {
    var s := Sys(w, Pc.GetJob(w.annots, Want(w)));
    var s' := CtlStep(e, s, f.getJob, random);
    assert Drive(e, s, f, random) == Drive(e, s', f, random);
    if s'.pc.SyncResources? || s'.pc.PatchDevice? {
      DriveEnds(e, s', f, random);
    } else {
      var s2 := CtlStep(e, s', f.At(s'.pc), random);
      assert Drive(e, s', f, random) == Drive(e, s2, f, random);
      DriveEnds(e, s2, f, random);
    }
  }

  /** The report of an uninterrupted reconcile in which no call fails, for every phase of the job. */
  lemma {:induction false} ReportByPhase(e: Env, w: World, random: Str)
    ensures var want := Want(w.(secret := Some(SecretAfter(e, w, random))));
      Reconciled(e, w, NO_FAULTS, random).pc
        == Idle(Some(
             match w.job
             case NoJob => Created(want)
             case Job(Completed, _) => if w.annots == want then UpToDate(want) else Requeue
             case Job(Running, _) => Requeue
             case Job(Failed, _) => Requeue
             case Job(Deleting, _) => Requeue))
  {
    hide Reconciled, Drive, SecretAfter;
    BeforeJob(e, w, NO_FAULTS, random);
    JobReport(e, w.(secret := Some(SecretAfter(e, w, random))), NO_FAULTS, random);
  }

  /** So that it is right unless the job was created under other hashes than the device carries. */
  lemma {:induction false} ApprovesIffMatches(e: Env, w: World, random: Str)
    requires Consistent(w)
    ensures var w1 := w.(secret := Some(SecretAfter(e, w, random)));
      Reconciled(e, w, NO_FAULTS, random).pc == Idle(Some(UpToDate(Want(w1)))) <==>
        Matches(w1) && w.job.phase == Completed
  {
    hide Reconciled, SecretAfter, Want;
    ApprovesIff(e, w, random);
  }

  /** A password edited in the secret, even with its hash annotation left as it was, is noticed by
      the next reconcile, which has the job replaced. */
  lemma {:induction false} PasswordEditRebuilds(e: Env, w: World, password: Str, random: Str)
    requires CollisionFree(e.sha256) && Ready(e, w) && Matches(w) && w.job.phase == Completed
    requires password != w.secret.value.data[PASSWORD]
    ensures var edited := w.(secret := Some(w.secret.value.(data := w.secret.value.data[PASSWORD := password])));
      Reconciled(e, edited, NO_FAULTS, random).w.job == Job(Deleting, w.job.built)
  {
    var data := w.secret.value.data[PASSWORD := password];
    var edited := w.(secret := Some(w.secret.value.(data := data)));
    assert Filled(e, data, random) == data;
    SingleChangeShows(w.secret.value.data, PASSWORD, password);
    ReconcileEffect(e, edited, random);
  }

  // ----- where the promises end -----

  /** A reconcile of a device without a job whose patch fails. */
  lemma {:induction false} FailedPatch(e: Env, w: World, random: Str)
    requires Ready(e, w) && w.job.NoJob?
    ensures Reconciled(e, w, NO_FAULTS.(patchDevice := true), random).w == w.(job := Job(Running, Want(w)))
  {
    var f := NO_FAULTS.(patchDevice := true);
    assert PatchedSecret(e, w.secret.value, random) == w.secret.value;
    BeforeJob(e, w, f, random);
    assert w.(secret := Some(SecretAfter(e, w, random))) == w;
    var s1 := Sys(w, Pc.GetJob(w.annots, Want(w)));
    var s2 := Sys(w, Pc.CreateJob(w.annots, Want(w)));
    var s3 := Sys(w.(job := Job(Running, Want(w))), Pc.SyncResources(w.annots, Want(w), Created(Want(w))));
    assert Drive(e, s1, f, random) == Drive(e, s2, f, random) == Drive(e, s3, f, random);
    DriveEnds(e, s3, f, random);
  }

  /** When a report is wrong after a lost patch: the job was created, the patch failed, the job completed
      and the secret, class and cluster were edited. An uninterrupted reconcile then reports it up to date
      for hashes it was not created under, if and only if they went back to those the device still
      carries and these are other ones. */
  lemma {:induction false} StaleAfterFailedPatch(e: Env, w: World, w2: World, r1: Str, r2: Str)
    requires Ready(e, w) && w.job.NoJob?
    requires Ready(e, w2) && w2.annots == w.annots && w2.job == Job(Completed, Want(w))
    ensures var w1 := EnvApply(Reconciled(e, w, NO_FAULTS.(patchDevice := true), r1).w, CompleteJob);
      var w1' := EnvApply(EnvApply(w1, EditClass(w2.classHash)), EditCluster(w2.clusterHash));
      EnvApply(w1', EditSecret(w2.secret)) == w2
    ensures Reconciled(e, w2, NO_FAULTS, r2).pc == Idle(Some(UpToDate(Want(w2)))) && w2.job.built != Want(w2) <==>
      w.annots == Want(w2) && w.annots != Want(w)
  {
    hide Reconciled, Canonical;
    FailedPatch(e, w, r1);
    ApprovesIff(e, w2, r2);
    assert PatchedSecret(e, w2.secret.value, r2) == w2.secret.value;
    assert w2.(secret := Some(SecretAfter(e, w2, r2))) == w2;
  }
}
