/** Creating or updating a stored object with optimistic concurrency: a bounded retry that both
    reconcilers carry. */
module CreateOrUpdate {
  import opened Options

  /** A stored object and its resource version, which every write increases. */
  datatype Object<P> = Object(version: nat, payload: P)

  /** What another writer does between a read and the write that follows it. */
  datatype Interference<P> = Nobody | Writes(payload: P) | Deletes

  /** The calls that fail for other reasons, and the other writers, for each of the five rounds. */
  datatype Schedule<!P> = Schedule(getFails: bool, createFails: bool, createdMeanwhile: Option<P>,
                                  others: nat -> Interference<P>, updateFails: nat -> bool, getAgainFails: nat -> bool)

  datatype Outcome = Done | CallFailed | GaveUp

  const ATTEMPTS := 5

  function Interfere<P>(stored: Option<Object<P>>, other: Interference<P>): Option<Object<P>> {
    match other
    case Nobody => stored
    case Writes(p) => if stored.Some? then Some(Object(stored.value.version + 1, p)) else Some(Object(1, p))
    case Deletes => None
  }

  class Store<P(==)> {
    var stored: Option<Object<P>>

    constructor (stored: Option<Object<P>>)
      ensures this.stored == stored
    {
      this.stored := stored;
    }

    method CreateOrUpdate(desired: P, s: Schedule<P>) returns (o: Outcome)
      modifies this
      ensures (stored, o) == Effect(old(stored), desired, s)
    {
      if s.getFails {
        return CallFailed;
      }
      if stored.None? {
        if s.createdMeanwhile.Some? {
          stored := Some(Object(1, s.createdMeanwhile.value));
        }
        if s.createFails || stored.Some? {
          return CallFailed;
        }
        stored := Some(Object(1, desired));
        return Done;
      }
      var read := stored.value.version;
      for i := 0 to ATTEMPTS
        invariant Retry(old(stored), desired, old(stored).value.version, 0, s) == Retry(stored, desired, read, i, s)
      {
        stored := Interfere(stored, s.others(i));
        if s.updateFails(i) || stored.None? {
          return CallFailed;
        }
        if stored.value.version == read {
          stored := Some(Object(read + 1, desired));
          return Done;
        }
        if s.getAgainFails(i) {
          return CallFailed;
        }
        read := stored.value.version;
      }
      return GaveUp;
    }
  }

  /** The rounds from the i-th on; `read` is the version last read. */
  function Retry<P>(
      stored: Option<Object<P>>, desired: P, read: nat, i: nat, s: Schedule<P>): (Option<Object<P>>, Outcome)
    requires i <= ATTEMPTS
    decreases ATTEMPTS - i
  {
    if i == ATTEMPTS then (stored, GaveUp)
    else
      var now := Interfere(stored, s.others(i));
      if s.updateFails(i) || now.None? then (now, CallFailed)
      else if now.value.version == read then (Some(Object(read + 1, desired)), Done)
      else if s.getAgainFails(i) then (now, CallFailed)
      else Retry(now, desired, now.value.version, i + 1, s)
  }

  function Effect<P>(stored: Option<Object<P>>, desired: P, s: Schedule<P>): (Option<Object<P>>, Outcome) {
    if s.getFails then (stored, CallFailed)
    else if stored.Some? then Retry(stored, desired, stored.value.version, 0, s)
    else if s.createdMeanwhile.Some? then (Some(Object(1, s.createdMeanwhile.value)), CallFailed)
    else if s.createFails then (stored, CallFailed)
    else (Some(Object(1, desired)), Done)
  }

  /** What the other writers alone make of the object by the end of round n. */
  function Others<P>(stored: Option<Object<P>>, s: Schedule<P>, from: nat, n: nat): Option<Object<P>>
    requires from <= n
    decreases n - from
  {
    if from == n then stored else Others(Interfere(stored, s.others(from)), s, from + 1, n)
  }

  /** No write lands on a version that this call has not read last: when the retry succeeds in round
      n, nobody wrote in that round, and the new version follows the one that the others had left.
      Each earlier round met another writer. When it does not succeed, the object is what the others
      left: nothing of this call remains. */
  lemma {:induction false} WritesOnlyOnLastRead<P>(
      stored: Option<Object<P>>, desired: P, read: nat, i: nat, s: Schedule<P>)
    returns (n: nat)
    requires i <= ATTEMPTS && stored.Some? && stored.value.version == read
    ensures i <= n <= ATTEMPTS
    ensures var (after, o) := Retry(stored, desired, read, i, s);
      if o.Done? then
        n < ATTEMPTS && s.others(n) == Nobody && (forall k: nat :: i <= k < n ==> s.others(k).Writes?) &&
        Others(stored, s, i, n).Some? &&
        after == Some(Object(Others(stored, s, i, n).value.version + 1, desired))
      else after == Others(stored, s, i, n)
    decreases ATTEMPTS - i
  {
    if i == ATTEMPTS {
      n := i;
    } else {
      var now := Interfere(stored, s.others(i));
      assert Others(stored, s, i, i + 1) == now;
      if s.updateFails(i) || now.None? || (now.value.version != read && s.getAgainFails(i)) {
        n := i + 1;
      } else if now.value.version == read {
        n := i;
      } else {
        n := WritesOnlyOnLastRead(now, desired, now.value.version, i + 1, s);
      }
    }
  }

  /** Others that write in every round leave the payload of the last of them. */
  lemma {:induction false} LastWriterStays<P>(stored: Option<Object<P>>, s: Schedule<P>, from: nat, n: nat)
    requires from <= n && stored.Some? && forall k: nat :: from <= k < n ==> s.others(k).Writes?
    ensures Others(stored, s, from, n).Some?
    ensures Others(stored, s, from, n).value.version == stored.value.version + (n - from)
    ensures from < n ==> s.others(n - 1) == Writes(Others(stored, s, from, n).value.payload)
    decreases n - from
  {
    if from < n {
      assert s.others(from).Writes?;
      LastWriterStays(Interfere(stored, s.others(from)), s, from + 1, n);
    }
  }

  /** The version is read again after a conflict, but not the payload: a success in round n replaces
      what another writer left, unseen, if and only if somebody wrote in an earlier round of the call. */
  lemma {:induction false} DiscardsIffOthersWrote<P>(stored: Option<Object<P>>, desired: P, s: Schedule<P>)
    returns (n: nat, replaced: Object<P>)
    requires stored.Some? && Effect(stored, desired, s).1.Done?
    ensures n < ATTEMPTS && Others(stored, s, 0, n) == Some(replaced)
    ensures Effect(stored, desired, s).0 == Some(Object(replaced.version + 1, desired))
    ensures Some(replaced) != stored <==> exists k: nat :: k < n && s.others(k).Writes?
    ensures Some(replaced) != stored ==> n > 0 && s.others(n - 1) == Writes(replaced.payload)
  {
    n := WritesOnlyOnLastRead(stored, desired, stored.value.version, 0, s);
    LastWriterStays(stored, s, 0, n);
    replaced := Others(stored, s, 0, n).value;
    if n > 0 {
      assert s.others(0).Writes?;
    }
  }

  /** The loss can happen: somebody writes before the first update, whose conflict is then overcome. */
  lemma {:induction false} LostUpdate<P>(before: P, theirs: P, mine: P, version: nat, s: Schedule<P>)
    requires !s.getFails && !s.updateFails(0) && !s.getAgainFails(0) && !s.updateFails(1)
    requires s.others(0) == Writes(theirs) && s.others(1) == Nobody
    ensures Effect(Some(Object(version, before)), mine, s) == (Some(Object(version + 2, mine)), Done)
  {
    var first := Some(Object(version, before));
    var second := Some(Object(version + 1, theirs));
    assert Retry(first, mine, version, 0, s) == Retry(second, mine, version + 1, 1, s);
  }

  /** When nothing fails and nobody deletes, the call succeeds exactly if one of its five rounds is
      free of other writers. */
  lemma {:induction false} SucceedsIffOneFreeRound<P>(
      stored: Option<Object<P>>, desired: P, read: nat, i: nat, s: Schedule<P>)
    requires i <= ATTEMPTS && stored.Some? && stored.value.version == read
    requires forall k: nat :: k < ATTEMPTS ==> !s.updateFails(k) && !s.getAgainFails(k) && !s.others(k).Deletes?
    ensures Retry(stored, desired, read, i, s).1 == Done <==>
      exists k: nat :: i <= k < ATTEMPTS && s.others(k) == Nobody
    ensures Retry(stored, desired, read, i, s).1 != Done ==> Retry(stored, desired, read, i, s).1 == GaveUp
    decreases ATTEMPTS - i
  {
    if i < ATTEMPTS && s.others(i) != Nobody {
      var now := Interfere(stored, s.others(i));
      SucceedsIffOneFreeRound(now, desired, now.value.version, i + 1, s);
    }
  }

  /** Round n updates the object: nobody writes in it and nothing fails, after rounds that each met
      another writer. */
  ghost predicate UpdatesIn<P>(s: Schedule<P>, i: nat, n: nat) {
    s.others(n) == Nobody && !s.updateFails(n) && Conflicts(s, i, n)
  }

  /** Rounds in which another writer came first, and the version was read again. */
  ghost predicate Conflicts<P>(s: Schedule<P>, i: nat, n: nat) {
    forall k: nat :: i <= k < n ==> s.others(k).Writes? && !s.updateFails(k) && !s.getAgainFails(k)
  }

  /** The outcome of the rounds, for every schedule: success in the first round without another writer,
      giving up after five with one, and any failing call or deletion before ends the call. */
  lemma {:induction false} RetryOutcome<P>(stored: Option<Object<P>>, desired: P, read: nat, i: nat, s: Schedule<P>)
    requires i <= ATTEMPTS && stored.Some? && stored.value.version == read
    ensures var o := Retry(stored, desired, read, i, s).1;
      (o.Done? <==> exists n: nat :: i <= n < ATTEMPTS && UpdatesIn(s, i, n)) &&
      (o.GaveUp? <==> Conflicts(s, i, ATTEMPTS))
    decreases ATTEMPTS - i
  {
    if i < ATTEMPTS {
      var now := Interfere(stored, s.others(i));
      if s.others(i).Writes? && !s.updateFails(i) && !s.getAgainFails(i) {
        var next := i + 1;
        RetryOutcome(now, desired, now.value.version, next, s);
        ConflictsStep(s, i, ATTEMPTS);
        if n: nat :| i <= n < ATTEMPTS && UpdatesIn(s, i, n) {
          ConflictsStep(s, i, n);
          assert UpdatesIn(s, next, n);
        }
        if n: nat :| next <= n < ATTEMPTS && UpdatesIn(s, next, n) {
          ConflictsStep(s, i, n);
          assert UpdatesIn(s, i, n);
        }
      } else if s.others(i) == Nobody && !s.updateFails(i) {
        assert UpdatesIn(s, i, i);
      } else {
        assert forall n: nat :: i <= n < ATTEMPTS ==> !UpdatesIn(s, i, n);
      }
    }
  }

  lemma {:induction false} ConflictsStep<P>(s: Schedule<P>, i: nat, n: nat)
    requires i < n && s.others(i).Writes? && !s.updateFails(i) && !s.getAgainFails(i)
    ensures Conflicts(s, i, n) <==> Conflicts(s, i + 1, n)
  {
  }

  /** A success always leaves the object as it was asked for. */
  lemma {:induction false} DoneStoresDesired<P>(stored: Option<Object<P>>, desired: P, s: Schedule<P>)
    requires Effect(stored, desired, s).1.Done?
    ensures Effect(stored, desired, s).0.Some? && Effect(stored, desired, s).0.value.payload == desired
  {
    if stored.Some? {
      var n := WritesOnlyOnLastRead(stored, desired, stored.value.version, 0, s);
    }
  }

  /** The whole call: an object that is absent is created exactly if the Get and the Create succeed and
      nobody created it meanwhile; an existing one is updated exactly if one of the five rounds is the first
      without another writer and no call fails before. Otherwise nothing of this call remains: the object is
      what others left. */
  lemma {:induction false} EffectOutcome<P>(stored: Option<Object<P>>, desired: P, s: Schedule<P>)
    ensures var (after, o) := Effect(stored, desired, s);
      (o.Done? <==>
        !s.getFails &&
        if stored.None? then s.createdMeanwhile.None? && !s.createFails
        else exists n: nat :: n < 5 && UpdatesIn(s, 0, n)) &&
      (o.GaveUp? <==> !s.getFails && stored.Some? && Conflicts(s, 0, 5)) &&
      (stored.None? && o.Done? ==> after == Some(Object(1, desired))) &&
      (!o.Done? ==>
        if s.getFails then after == stored
        else if stored.None? then
          after == if s.createdMeanwhile.None? then None else Some(Object(1, s.createdMeanwhile.value))
        else exists n: nat :: n <= ATTEMPTS && after == Others(stored, s, 0, n))
  {
    if stored.Some? {
      RetryOutcome(stored, desired, stored.value.version, 0, s);
      var n := WritesOnlyOnLastRead(stored, desired, stored.value.version, 0, s);
    }
  }
}
