/** What becomes of the password in a device's secret: no reconcile replaces it, but for one race. */
module DevicePassword {
  import opened Credentials
  import opened DeviceJob
  import opened DeviceReconciler
  import opened HashByteData
  import opened Options

  ghost predicate HasPassword(secret: Option<Secret>, password: Str) {
    secret.Some? && PASSWORD in secret.value.data && secret.value.data[PASSWORD] == password
  }

  // ----- calls of an interleaved reconcile -----

  /** A patch under way was computed from the copy of the secret that the reconcile read. */
  ghost predicate FromRead(e: Env, s: Sys) {
    s.pc.PatchSecret? ==> exists r: Str :: s.pc.modified == PatchedSecret(e, s.pc.read, r)
  }

  lemma {:induction false} RunFromRead(e: Env, s: Sys, labels: seq<Label>, i: nat)
    requires s.pc.Idle? && i <= |labels|
    ensures FromRead(e, Trace(e, s, labels)[i])
  {
    hide PatchedSecret, MergeSecret;
    if i > 0 {
      RunFromRead(e, s, labels, i - 1);
    }
  }

  /** The call is the patch of a secret that had no password when it was read, with another password
      than the one stored by now. */
  ghost predicate Races(s: Sys, l: Label) {
    s.pc.PatchSecret? && l.CtlLabel? && !l.fault &&
    PASSWORD !in s.pc.read.data && PASSWORD in s.pc.modified.data &&
    !HasPassword(s.w.secret, s.pc.modified.data[PASSWORD])
  }

  /** Over all interleavings: a call of a reconcile never removes a stored password, and it replaces
      one exactly if it races. */
  lemma {:induction false} PasswordKept(e: Env, s: Sys, labels: seq<Label>, i: nat, password: Str)
    requires s.pc.Idle? && i < |labels| && labels[i].CtlLabel?
    requires HasPassword(Trace(e, s, labels)[i].w.secret, password)
    ensures var before, after := Trace(e, s, labels)[i], Trace(e, s, labels)[i + 1];
      after.w.secret.Some? && PASSWORD in after.w.secret.value.data &&
      (HasPassword(after.w.secret, password) <==> !Races(before, labels[i]))
  {
    RunFromRead(e, s, labels, i);
  }

  /** The first four calls of a reconcile, which bring it to the patch of an existing secret. */
  lemma {:induction false} CallsToPatch(e: Env, w: World, random: Str)
    requires w.secret.Some?
    ensures var call := CtlLabel(false, random);
      var modified := PatchedSecret(e, w.secret.value, random);
      Next(e, Next(e, Next(e, Next(e, Sys(w, Idle(None)), call), call), call), call)
        == Sys(w, Pc.PatchSecret(w.annots, w.classHash, w.clusterHash, w.secret.value, modified))
  {
    hide PatchedSecret;
  }

  /** The patch of a secret that was read without a password sets the generated one. */
  lemma {:induction false} PatchReplaces(e: Env, s: Sys, random: Str)
    requires s.pc.PatchSecret? && s.w.secret.Some? && PASSWORD !in s.pc.read.data
    requires s.pc.modified == PatchedSecret(e, s.pc.read, random)
    ensures HasPassword(Next(e, s, CtlLabel(false, random)).w.secret, random)
  {
    hide Canonical, MergeHash, MergeAnnots;
  }

  /** The race can happen: the password is added after the secret was read without one, and the
      patch puts the generated one in its place. */
  lemma {:induction false} PasswordRace(e: Env, w: World, password: Str, generated: Str)
    requires w.secret.Some? && PASSWORD !in w.secret.value.data && password != generated
    ensures var call := CtlLabel(false, generated);
      var added := Secret(w.secret.value.data[PASSWORD := password], w.secret.value.hash);
      var labels := [call, call, call, call, EnvLabel(EditSecret(Some(added))), call];
      var t := Trace(e, Sys(w, Idle(None)), labels);
      AllAllowed(e, Sys(w, Idle(None)), labels) &&
      HasPassword(t[5].w.secret, password) && HasPassword(t[6].w.secret, generated)
  {
    hide CtlStep, PatchedSecret, Trace;
    var call := CtlLabel(false, generated);
    var added := Secret(w.secret.value.data[PASSWORD := password], w.secret.value.hash);
    var labels := [call, call, call, call, EnvLabel(EditSecret(Some(added))), call];
    var t := Trace(e, Sys(w, Idle(None)), labels);
    CallsToPatch(e, w, generated);
    assert t[4] == Next(e, Next(e, Next(e, Next(e, t[0], labels[0]), labels[1]), labels[2]), labels[3]);
    assert t[5] == Next(e, t[4], labels[4]);
    PatchReplaces(e, t[5], generated);
  }

  // ----- a reconcile that nothing interrupts -----

  /** The secret holds the password, and so does every copy that a patch would be computed from. */
  ghost predicate Keeps(s: Sys, password: Str) {
    HasPassword(s.w.secret, password) &&
    (s.pc.PatchSecret? ==> HasPassword(Some(s.pc.read), password) && HasPassword(Some(s.pc.modified), password))
  }

  lemma {:induction false} DriveKeepsPassword(e: Env, s: Sys, f: Faults, random: Str, password: Str)
    requires Keeps(s, password)
    ensures HasPassword(Drive(e, s, f, random).w.secret, password)
    decreases Remaining(s.pc)
  {
    hide Canonical;
    if !s.pc.Idle? {
      DriveKeepsPassword(e, CtlStep(e, s, f.At(s.pc), random), f, random, password);
    }
  }

  /** No reconcile replaces an existing password, whichever of its calls fail. */
  lemma {:induction false} ReconcileKeepsPassword(e: Env, w: World, f: Faults, random: Str, password: Str)
    requires HasPassword(w.secret, password)
    ensures HasPassword(Reconciled(e, w, f, random).w.secret, password)
  {
    DriveKeepsPassword(e, CtlStep(e, Sys(w, Idle(None)), f.getDevice, random), f, random, password);
  }

  // ----- the credentials that a reconcile leaves -----

  /** From the job on, a reconcile does not touch the secret. */
  lemma {:induction false} SecretUntouched(e: Env, s: Sys, f: Faults, random: Str)
    requires Remaining(s.pc) <= Remaining(Pc.GetJob(s.w.annots, s.w.annots))
    ensures Drive(e, s, f, random).w.secret == s.w.secret
    decreases Remaining(s.pc)
  {
    hide MergeAnnots;
    if !s.pc.Idle? {
      SecretUntouched(e, CtlStep(e, s, f.At(s.pc), random), f, random);
    }
  }

  /** The credentials after an uninterrupted reconcile, whatever fails later: a new secret holds exactly the
      device's name and the generated password; an existing one gets the name, and the password if it had
      none, and keeps every other key. If a call before fails, the secret stays as it was. */
  lemma {:induction false} CredentialsAfter(e: Env, w: World, f: Faults, random: Str)
    ensures var after := Reconciled(e, w, f, random).w.secret;
      if !SecretDone(w, f) then after == w.secret
      else
        after.Some? &&
        var data := after.value.data;
        after.value.hash == e.sha256(Canonical(data)) &&
        USERNAME in data && PASSWORD in data && data[USERNAME] == e.name &&
        if w.secret.None? then data.Keys == {USERNAME, PASSWORD} && data[PASSWORD] == random
        else
          var was := w.secret.value.data;
          data[PASSWORD] == (if PASSWORD in was then was[PASSWORD] else random) && OthersKept(was, data)
  {
    hide Canonical, Reconciled, Drive;
    assert USERNAME != PASSWORD;
    BeforeJob(e, w, f, random);
    if SecretDone(w, f) {
      var w1 := w.(secret := Some(SecretAfter(e, w, random)));
      SecretUntouched(e, Sys(w1, Pc.GetJob(w.annots, Want(w1))), f, random);
    }
  }

  /** All keys but those of the credentials are the same. */
  ghost predicate OthersKept(before: Data, after: Data) {
    forall k :: k != USERNAME && k != PASSWORD ==>
      (k in after <==> k in before) && (k in before ==> after[k] == before[k])
  }

  /** Over all interleavings: no call of a reconcile touches other keys of a stored secret, not even those
      that changed since it was read; the hash is replaced only by one that differs from the one read. */
  lemma {:induction false} OtherKeysKept(e: Env, s: Sys, labels: seq<Label>, i: nat)
    requires s.pc.Idle? && i < |labels| && labels[i].CtlLabel? && Trace(e, s, labels)[i].w.secret.Some?
    ensures var before, after := Trace(e, s, labels)[i], Trace(e, s, labels)[i + 1];
      after.w.secret.Some? && OthersKept(before.w.secret.value.data, after.w.secret.value.data) &&
      var patches := before.pc.PatchSecret? && !labels[i].fault && before.pc.modified.hash != before.pc.read.hash;
      after.w.secret.value.hash == if patches then before.pc.modified.hash else before.w.secret.value.hash
  {
    hide Trace, Canonical;
    RunFromRead(e, s, labels, i);
  }
}
