/**
 The enrollment-timeout sweep: for each entry of a directory search, decide
 whether the user's enrollment window has run out and, if so, make sure a
 row exists and a Lock job is queued for it.
 */
module Enrollment {
  import opened Wrappers
  import opened Directory
  import opened Store
  import opened State

  /**
   The provider gives the user no reason to be locked: it does not know the
   user, the user has enrolled, or the enrollment window is still open.
   */
  predicate Exempt(provider: map<string, ProviderUser>, cn: string, now: int, interval: int)
  {
    cn !in provider || provider[cn].isEnrolled || now - provider[cn].created < interval
  }

  /** The row was unlocked less than one interval ago. */
  predicate InGrace(row: LockedUser, now: int, interval: int)
  {
    row.unlocked.Some? && now - row.unlocked.value < interval
  }

  /**
   The user has a local account: it resolves directly or by populating from
   the directory, or it already owns a row, whose foreign key keeps the
   account alive.
   */
  predicate HasLocalUser(w: World, cn: string, resolvable: set<string>)
  {
    cn in resolvable || Owners(w.table, cn) != {}
  }

  /** No row of the user is in its post-unlock grace period. */
  ghost predicate NoneInGrace(w: World, cn: string, now: int, interval: int)
  {
    forall pk :: pk in w.table && w.table[pk].username == cn ==> !InGrace(w.table[pk], now, interval)
  }

  /**
   The last steps for an expired user: resolve the local user, get or create
   its row, and queue a Lock job when the row is new or was never locked.
   */
  function Enforce(w: World, cn: string, dryRun: bool, resolvable: set<string>): (r: Option<World>)
    ensures r.Some? ==> SameDirectory(w, r.value)
    ensures r.Some? ==> w.table.Keys <= r.value.table.Keys
    ensures r.Some? ==> forall pk :: pk in w.table ==> r.value.table[pk] == w.table[pk]
    ensures r.Some? && (dryRun || !HasLocalUser(w, cn, resolvable)) ==> r.value == w
    ensures r.Some? && r.value.jobs != w.jobs ==>
              exists pk :: && r.value.jobs == w.jobs + [LockJob(pk)]
                           && pk in r.value.table && r.value.table[pk].username == cn
                           && (pk !in w.table || w.table[pk].locked.None?)
    ensures r.Some? ==> forall pk :: pk in r.value.table && pk !in w.table ==> r.value.table[pk] == LockedUser(cn, None, None)
    ensures Valid(w) ==> r.Some? && Valid(r.value)
    ensures Valid(w) && !dryRun && HasLocalUser(w, cn, resolvable) ==>
              exists pk :: && pk in r.value.table && r.value.table[pk].username == cn
                           && (r.value.table[pk].locked.None? ==> r.value.jobs == w.jobs + [LockJob(pk)])
  {
    if dryRun then Some(w)
    else
      match FindByUsername(w.table, cn)
      case NoRecord =>
        if cn !in resolvable then Some(w)
        else
          var pk := FreshKey(w.table, w.nextPk);
          assert forall q :: q in w.table ==> w.table[q].username != cn by {
            forall q | q in w.table ensures w.table[q].username != cn {
              assert q !in Owners(w.table, cn);
            }
          }
          Some(w.(table := w.table[pk := LockedUser(cn, None, None)],
                  nextPk := pk + 1,
                  jobs := w.jobs + [LockJob(pk)]))
      case Unique(pk) =>
        Some(if w.table[pk].locked.None? then w.(jobs := w.jobs + [LockJob(pk)]) else w)
      case Ambiguous =>
        AmbiguousBreaksUniqueness(w.table, cn);
        None
  }

  /**
   One entry of the sweep. `None` means the lookup by username met several
   rows and the sweep stops there.
   */
  function TimeoutStep(w: World, e: Entry, now: int, interval: int, dryRun: bool, resolvable: set<string>): (r: Option<World>)
    ensures r.Some? ==> SameDirectory(w, r.value)
    ensures Exempt(w.provider, e.cn, now, interval) ==> r == Some(w)
    // a row in its post-unlock grace period, for an entry outside the locked group, is spared
    ensures forall pk :: (pk in w.table && w.table[pk].username == e.cn &&
                          InGrace(w.table[pk], now, interval) && e.dn !in w.lockedGroup) ==> r.None? || r == Some(w)
    // the sweep stops when several rows share the username of an expired user
    ensures r.None? <==> !Exempt(w.provider, e.cn, now, interval) && |Owners(w.table, e.cn)| >= 2
    // rows of other users are untouched; no row disappears and no row changes owner
    ensures r.Some? ==> w.table.Keys <= r.value.table.Keys
    ensures r.Some? ==> forall pk :: pk in w.table ==> r.value.table[pk].username == w.table[pk].username
    // an existing row changes only by a released row being re-stamped as locked, for an entry in the locked group
    ensures r.Some? ==> forall pk :: pk in w.table && r.value.table[pk] != w.table[pk] ==>
              && e.dn in w.lockedGroup
              && w.table[pk].unlocked.Some?
              && r.value.table[pk] == w.table[pk].(locked := Some(now), unlocked := None)
    ensures r.Some? ==> forall pk :: pk in w.table && w.table[pk].username != e.cn ==> r.value.table[pk] == w.table[pk]
    ensures r.Some? ==> forall pk :: pk in r.value.table && pk !in w.table ==> r.value.table[pk] == LockedUser(e.cn, None, None)
    // at most one Lock job, for this user's row, outside a dry run, for a new or never-locked row
    ensures r.Some? && r.value.jobs != w.jobs ==>
              && !dryRun
              && exists pk :: && r.value.jobs == w.jobs + [LockJob(pk)]
                              && pk in r.value.table && r.value.table[pk].username == e.cn
                              && (pk !in w.table || w.table[pk].locked.None?)
    ensures dryRun && r.Some? ==> r.value.jobs == w.jobs && r.value.table.Keys == w.table.Keys
    ensures Valid(w) ==> r.Some? && Valid(r.value)
    // an expired user out of grace, either outside the locked group or without any row, ends with a row,
    // queued for locking unless already locked
    ensures && Valid(w) && !dryRun && !Exempt(w.provider, e.cn, now, interval)
            && (e.dn !in w.lockedGroup || Owners(w.table, e.cn) == {})
            && NoneInGrace(w, e.cn, now, interval) && HasLocalUser(w, e.cn, resolvable) ==>
              exists pk :: && pk in r.value.table && r.value.table[pk].username == e.cn
                           && (r.value.table[pk].locked.None? ==> r.value.jobs == w.jobs + [LockJob(pk)])
  {
    if Exempt(w.provider, e.cn, now, interval) then Some(w)
    else
      match FindByUsername(w.table, e.cn)
      case Ambiguous =>
        AmbiguousBreaksUniqueness(w.table, e.cn);
        None
      case NoRecord => Enforce(w, e.cn, dryRun, resolvable)
      case Unique(pk) =>
        var row := w.table[pk];
        if e.dn in w.lockedGroup then
          // directory and policy agree; an unlocked row is re-stamped as locked
          Some(if row.unlocked.Some? then w.(table := w.table[pk := row.(locked := Some(now), unlocked := None)]) else w)
        else if InGrace(row, now, interval) then Some(w)
        else Enforce(w, e.cn, dryRun, resolvable)
  }

  /** The sweep over the entries of one directory search, in search order. */
  function EnrollmentTimeout(w: World, entries: seq<Entry>, now: int, interval: int, dryRun: bool, resolvable: set<string>): (r: Run)
    decreases |entries|
    ensures SameDirectory(w, r.world)
    ensures w.jobs <= r.world.jobs
    ensures w.table.Keys <= r.world.table.Keys
    ensures forall pk :: pk in w.table ==> r.world.table[pk].username == w.table[pk].username
    ensures dryRun ==> r.world.jobs == w.jobs && r.world.table.Keys == w.table.Keys
    ensures Valid(w) ==> !r.crashed && Valid(r.world)
    ensures forall pk :: pk in w.table && r.world.table[pk] != w.table[pk] ==>
              && w.table[pk].unlocked.Some?
              && r.world.table[pk] == w.table[pk].(locked := Some(now), unlocked := None)
  {
    if entries == [] then Run(w, false)
    else
      match TimeoutStep(w, entries[0], now, interval, dryRun, resolvable)
      case None => Run(w, true)
      case Some(w1) => EnrollmentTimeout(w1, entries[1..], now, interval, dryRun, resolvable)
  }

  /**
   A row the sweep must leave alone: its user is exempt, or it is in its
   post-unlock grace period and no entry of its user is in the locked group.
   */
  ghost predicate Spared(w: World, pk: Pk, entries: seq<Entry>, now: int, interval: int)
  {
    && pk in w.table
    && (|| Exempt(w.provider, w.table[pk].username, now, interval)
        || (&& InGrace(w.table[pk], now, interval)
            && forall i :: 0 <= i < |entries| && entries[i].cn == w.table[pk].username ==> entries[i].dn !in w.lockedGroup))
  }

  /** The sweep never changes a spared row and never queues a Lock job for it. */
  lemma {:induction false} SweepSparesRows(w: World, entries: seq<Entry>, now: int, interval: int, dryRun: bool,
                                           resolvable: set<string>, pk: Pk)
    requires Spared(w, pk, entries, now, interval)
    ensures var r := EnrollmentTimeout(w, entries, now, interval, dryRun, resolvable);
            && r.world.table[pk] == w.table[pk]
            && LockJob(pk) !in r.world.jobs[|w.jobs|..]
    decreases |entries|
  {
    if entries != [] {
      var e := entries[0];
      match TimeoutStep(w, e, now, interval, dryRun, resolvable)
      case None =>
      case Some(w1) =>
        var u := w.table[pk].username;
        if u == e.cn {
          if !Exempt(w.provider, u, now, interval) {
            assert e.dn !in w.lockedGroup;
          }
          assert w1 == w;
        } else {
          assert w1.table[pk] == w.table[pk];
          assert LockJob(pk) !in w1.jobs[|w.jobs|..] by {
            if w1.jobs != w.jobs {
              var q :| w1.jobs == w.jobs + [LockJob(q)] && q in w1.table && w1.table[q].username == e.cn;
              assert w1.jobs[|w.jobs|..] == [LockJob(q)];
            }
          }
        }
        assert w1.table[pk] == w.table[pk] && w1.lockedGroup == w.lockedGroup && w1.provider == w.provider;
        assert Spared(w1, pk, entries[1..], now, interval) by {
          if !Exempt(w.provider, u, now, interval) {
            forall i | 0 <= i < |entries[1..]| && entries[1..][i].cn == u
              ensures entries[1..][i].dn !in w.lockedGroup
            {
              assert entries[1..][i] == entries[i + 1];
            }
          }
        }
        SweepSparesRows(w1, entries[1..], now, interval, dryRun, resolvable, pk);
        var r := EnrollmentTimeout(w1, entries[1..], now, interval, dryRun, resolvable);
        assert r.world.jobs[|w.jobs|..] == w1.jobs[|w.jobs|..] + r.world.jobs[|w1.jobs|..];
    }
  }

  /** A user the sweep reached whose enrollment window has run out. */
  ghost predicate Expired(w: World, entries: seq<Entry>, cn: string, now: int, interval: int)
  {
    && !Exempt(w.provider, cn, now, interval)
    && exists i :: 0 <= i < |entries| && entries[i].cn == cn
  }

  /** Every row the sweep creates belongs to an expired user it reached. */
  lemma {:induction false} SweepCreatesOnlyForExpired(w: World, entries: seq<Entry>, now: int, interval: int, dryRun: bool,
                                                      resolvable: set<string>)
    ensures var r := EnrollmentTimeout(w, entries, now, interval, dryRun, resolvable);
            forall pk :: pk in r.world.table && pk !in w.table ==>
              Expired(w, entries, r.world.table[pk].username, now, interval)
    decreases |entries|
  {
    if entries != [] {
      var e := entries[0];
      match TimeoutStep(w, e, now, interval, dryRun, resolvable)
      case None =>
      case Some(w1) =>
        SweepCreatesOnlyForExpired(w1, entries[1..], now, interval, dryRun, resolvable);
        var r := EnrollmentTimeout(w1, entries[1..], now, interval, dryRun, resolvable);
        ExpiredLater(w, w1, entries, now, interval);
        forall pk | pk in r.world.table && pk !in w.table
          ensures Expired(w, entries, r.world.table[pk].username, now, interval)
        {
          if pk in w1.table {
            assert r.world.table[pk].username == w1.table[pk].username == e.cn;
            assert !Exempt(w.provider, e.cn, now, interval);
          }
        }
    }
  }

  /** A user expired for the rest of the entries was expired for all of them. */
  lemma ExpiredLater(w: World, w1: World, entries: seq<Entry>, now: int, interval: int)
    requires entries != [] && w1.provider == w.provider
    ensures forall cn :: Expired(w1, entries[1..], cn, now, interval) ==> Expired(w, entries, cn, now, interval)
  {
    forall cn | Expired(w1, entries[1..], cn, now, interval)
      ensures Expired(w, entries, cn, now, interval)
    {
      var i :| 0 <= i < |entries[1..]| && entries[1..][i].cn == cn;
      assert entries[i + 1].cn == cn;
    }
  }

  /** Every job the sweep queues is a Lock job, queued outside a dry run, for a row of an expired user it reached. */
  lemma {:induction false} SweepLocksOnlyExpired(w: World, entries: seq<Entry>, now: int, interval: int, dryRun: bool,
                                                 resolvable: set<string>)
    ensures var r := EnrollmentTimeout(w, entries, now, interval, dryRun, resolvable);
            forall job :: job in r.world.jobs[|w.jobs|..] ==>
              && !dryRun
              && job.LockJob?
              && job.pk in r.world.table
              && Expired(w, entries, r.world.table[job.pk].username, now, interval)
    decreases |entries|
  {
    if entries != [] {
      var e := entries[0];
      match TimeoutStep(w, e, now, interval, dryRun, resolvable)
      case None =>
      case Some(w1) =>
        SweepLocksOnlyExpired(w1, entries[1..], now, interval, dryRun, resolvable);
        var r := EnrollmentTimeout(w1, entries[1..], now, interval, dryRun, resolvable);
        ExpiredLater(w, w1, entries, now, interval);
        JobsOfPass(w, w1, r.world);
        if w1.jobs != w.jobs {
          var q :| w1.jobs == w.jobs + [LockJob(q)] && q in w1.table && w1.table[q].username == e.cn;
          assert w1.jobs[|w.jobs|..] == [LockJob(q)];
          assert !dryRun && !Exempt(w.provider, e.cn, now, interval);
          assert r.world.table[q].username == e.cn;
          assert Expired(w, entries, e.cn, now, interval);
        }
    }
  }

  /**
   Drift self-heal on one entry: a row whose user is already in the locked
   group is re-stamped as locked if it had been released, and nothing else
   happens for that entry, dry run or not.
   */
  lemma DriftSelfHeal(w: World, e: Entry, now: int, interval: int, dryRun: bool, resolvable: set<string>, pk: Pk)
    requires !Exempt(w.provider, e.cn, now, interval)
    requires pk in w.table && Owners(w.table, e.cn) == {pk}
    requires e.dn in w.lockedGroup
    ensures var r := TimeoutStep(w, e, now, interval, dryRun, resolvable);
            && r.Some?
            && r.value.jobs == w.jobs
            && r.value.table.Keys == w.table.Keys
            && r.value.table[pk].unlocked.None?
            && (w.table[pk].unlocked.Some? ==> r.value.table[pk].locked == Some(now))
            && (w.table[pk].unlocked.None? ==> r.value == w)
  {
  }

  /**
   Drift self-heal over a whole pass: when the sweep reaches an expired user
   whose entry is already in the locked group, that user's row ends the pass
   locked, and a released row is re-stamped with this pass's time.
   */
  lemma {:induction false} SweepHealsDrift(w: World, entries: seq<Entry>, now: int, interval: int, dryRun: bool,
                                           resolvable: set<string>, pk: Pk, i: nat)
    requires Valid(w)
    requires pk in w.table && !Exempt(w.provider, w.table[pk].username, now, interval)
    requires i < |entries| && entries[i].cn == w.table[pk].username && entries[i].dn in w.lockedGroup
    ensures var r := EnrollmentTimeout(w, entries, now, interval, dryRun, resolvable);
            && r.world.table[pk].unlocked.None?
            && (w.table[pk].unlocked.Some? ==> r.world.table[pk].locked == Some(now))
    decreases |entries|
  {
    var e := entries[0];
    var w1 := TimeoutStep(w, e, now, interval, dryRun, resolvable).value;
    var r := EnrollmentTimeout(w1, entries[1..], now, interval, dryRun, resolvable);
    if w.table[pk].unlocked.Some? {
      if i == 0 {
        assert Owners(w.table, e.cn) == {pk} by {
          assert FindByUsername(w.table, e.cn).Unique?;
        }
        DriftSelfHeal(w, e, now, interval, dryRun, resolvable, pk);
        assert w1.table[pk].unlocked.None?;
      } else if w1.table[pk] == w.table[pk] {
        SweepHealsDrift(w1, entries[1..], now, interval, dryRun, resolvable, pk, i - 1);
      } else {
        assert w1.table[pk].unlocked.None?;
      }
    }
  }

  /** One step keeps a user's local account and keeps that user's rows out of grace. */
  lemma StepKeepsEligible(w: World, e: Entry, now: int, interval: int, resolvable: set<string>, cn: string)
    requires TimeoutStep(w, e, now, interval, false, resolvable).Some?
    requires NoneInGrace(w, cn, now, interval) && HasLocalUser(w, cn, resolvable)
    ensures var w1 := TimeoutStep(w, e, now, interval, false, resolvable).value;
            NoneInGrace(w1, cn, now, interval) && HasLocalUser(w1, cn, resolvable)
  {
    var w1 := TimeoutStep(w, e, now, interval, false, resolvable).value;
    if cn !in resolvable {
      var q :| q in Owners(w.table, cn);
      assert q in Owners(w1.table, cn);
    }
    forall pk | pk in w1.table && w1.table[pk].username == cn
      ensures !InGrace(w1.table[pk], now, interval)
    {
      if pk in w.table && w1.table[pk] == w.table[pk] {
        assert w.table[pk].username == cn;
      }
    }
  }

  /** A step that gives a user its first row has queued a Lock job for exactly that row. */
  lemma StepCreated(w: World, e: Entry, now: int, interval: int, resolvable: set<string>, cn: string)
    requires Valid(w) && HasLocalUser(w, cn, resolvable)
    requires Owners(w.table, cn) == {} && Owners(TimeoutStep(w, e, now, interval, false, resolvable).value.table, cn) != {}
    ensures var w1 := TimeoutStep(w, e, now, interval, false, resolvable).value;
            exists pk :: pk in w1.table && w1.table[pk].username == cn && w1.jobs[|w.jobs|..] == [LockJob(pk)]
  {
    var w1 := TimeoutStep(w, e, now, interval, false, resolvable).value;
    var pk :| pk in Owners(w1.table, cn);
    assert pk in w.table ==> pk in Owners(w.table, cn);
    assert cn == e.cn;
    assert !Exempt(w.provider, e.cn, now, interval);
    var q :| && q in w1.table && w1.table[q].username == e.cn
             && (w1.table[q].locked.None? ==> w1.jobs == w.jobs + [LockJob(q)]);
    assert Valid(w1) && q == pk;
  }

  /** A job queued by the first part of a pass is among the jobs of the whole pass. */
  lemma JobsOfPass(w: World, w1: World, r: World)
    requires w.jobs <= w1.jobs <= r.jobs
    ensures r.jobs[|w.jobs|..] == w1.jobs[|w.jobs|..] + r.jobs[|w1.jobs|..]
  {
  }

  /**
   The sweep locks the users it must: when a pass outside dry run reaches an
   expired user with a local account and no row in grace, who is outside the
   locked group or has no row at all, that user ends the pass with a row, and
   a row without a lock timestamp has a Lock job queued by the pass.
   */
  lemma {:induction false} SweepLocksExpired(w: World, entries: seq<Entry>, now: int, interval: int,
                                             resolvable: set<string>, i: nat)
    requires Valid(w)
    requires i < |entries|
    requires !Exempt(w.provider, entries[i].cn, now, interval)
    requires entries[i].dn !in w.lockedGroup || Owners(w.table, entries[i].cn) == {}
    requires NoneInGrace(w, entries[i].cn, now, interval) && HasLocalUser(w, entries[i].cn, resolvable)
    ensures var r := EnrollmentTimeout(w, entries, now, interval, false, resolvable);
            exists pk :: && pk in r.world.table && r.world.table[pk].username == entries[i].cn
                         && (r.world.table[pk].locked.None? ==> LockJob(pk) in r.world.jobs[|w.jobs|..])
    decreases |entries|
  {
    var cn := entries[i].cn;
    var w1 := TimeoutStep(w, entries[0], now, interval, false, resolvable).value;
    var r := EnrollmentTimeout(w1, entries[1..], now, interval, false, resolvable);
    assert r == EnrollmentTimeout(w, entries, now, interval, false, resolvable);
    JobsOfPass(w, w1, r.world);
    if i == 0 {
      var pk :| && pk in w1.table && w1.table[pk].username == cn
                && (w1.table[pk].locked.None? ==> w1.jobs == w.jobs + [LockJob(pk)]);
      if r.world.table[pk].locked.None? {
        assert r.world.table[pk] == w1.table[pk];
        assert w1.jobs[|w.jobs|..] == [LockJob(pk)];
      }
    } else if Owners(w.table, cn) == {} && Owners(w1.table, cn) != {} {
      StepCreated(w, entries[0], now, interval, resolvable, cn);
      var pk :| pk in w1.table && w1.table[pk].username == cn && w1.jobs[|w.jobs|..] == [LockJob(pk)];
      assert r.world.table[pk].username == cn;
    } else {
      assert entries[1..][i - 1] == entries[i];
      StepKeepsEligible(w, entries[0], now, interval, resolvable, cn);
      SweepLocksExpired(w1, entries[1..], now, interval, resolvable, i - 1);
    }
  }
}
