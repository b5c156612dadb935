/**
 The bulk synchronisation: for each entry of a directory search, put users
 the MFA provider does not know into the MFA users group (and have them
 activated), and drop the row of a locked user once the provider reports
 the user enrolled.
 */
module Synchronization {
  import opened Wrappers
  import opened Directory
  import opened Store
  import opened State

  /** One entry of the search, with the answer the directory gives if this entry commits a change. */
  datatype Visit = Visit(entry: Entry, commitOk: bool)

  /** The activation that follows a group addition: an Activate job on a queue, a direct sync otherwise. */
  function ActivationJob(cn: string, queued: bool): Job
  {
    if queued then ActivateJob(cn) else InlineSync(cn)
  }

  /** The provider knows the user and reports the enrollment complete. */
  predicate Enrolled(provider: map<string, ProviderUser>, cn: string)
  {
    cn in provider && provider[cn].isEnrolled
  }

  /** Nothing the bulk sync reads or writes besides the MFA group, the table and the jobs differs. */
  ghost predicate SyncFrame(w: World, w': World)
  {
    && w'.lockedGroup == w.lockedGroup
    && w'.directory == w.directory
    && w'.provider == w.provider
    && w'.nextPk == w.nextPk
  }

  /** `t'` keeps a subset of the rows of `t`, each unchanged. */
  ghost predicate SubTable(t': Table, t: Table)
  {
    && t'.Keys <= t.Keys
    && forall pk :: pk in t' ==> t'[pk] == t[pk]
  }

  /**
   One entry of the bulk sync. `None` means the lookup by username met
   several rows and the sync stops there.
   */
  function SyncStep(w: World, v: Visit, dryRun: bool, queued: bool): (r: Option<World>)
    ensures r.Some? ==> SyncFrame(w, r.value)
    ensures r.None? <==> Enrolled(w.provider, v.entry.cn) && |Owners(w.table, v.entry.cn)| >= 2
    // an enrolled user's row is dropped, dry run or not; no other row changes
    ensures r.Some? ==> SubTable(r.value.table, w.table)
    ensures r.Some? ==> forall pk :: pk in w.table && pk !in r.value.table ==>
              w.table[pk].username == v.entry.cn && Enrolled(w.provider, v.entry.cn)
    ensures r.Some? && Enrolled(w.provider, v.entry.cn) ==> Owners(r.value.table, v.entry.cn) == {}
    // only a user unknown to the provider joins the MFA group, on a committed change outside a dry run
    ensures r.Some? ==> w.mfaGroup <= r.value.mfaGroup <= w.mfaGroup + {v.entry.dn}
    ensures r.Some? && r.value.mfaGroup != w.mfaGroup ==> v.entry.cn !in w.provider && v.commitOk && !dryRun
    ensures v.entry.cn !in w.provider && v.commitOk && !dryRun ==> r.Some? && v.entry.dn in r.value.mfaGroup
    // an activation follows exactly the additions to the group
    ensures r.Some? && r.value.mfaGroup != w.mfaGroup ==> r.value.jobs == w.jobs + [ActivationJob(v.entry.cn, queued)]
    ensures r.Some? && r.value.mfaGroup == w.mfaGroup ==> r.value.jobs == w.jobs
    ensures Valid(w) ==> r.Some? && Valid(r.value)
  {
    var cn := v.entry.cn;
    if cn in w.provider then
      if !w.provider[cn].isEnrolled then Some(w)
      else
        match FindByUsername(w.table, cn)
        case NoRecord => Some(w)
        case Unique(pk) =>
          var t := w.table - {pk};
          assert Owners(t, cn) == {} by {
            forall q | q in t ensures t[q].username != cn {
              assert q in w.table && q != pk;
            }
          }
          Some(w.(table := t))
        case Ambiguous =>
          AmbiguousBreaksUniqueness(w.table, cn);
          None
    else if v.entry.dn in w.mfaGroup || dryRun || !v.commitOk then Some(w)
    else Some(w.(mfaGroup := w.mfaGroup + {v.entry.dn}, jobs := w.jobs + [ActivationJob(cn, queued)]))
  }

  /** The bulk sync over the entries of one directory search, in search order. */
  function Synchronize(w: World, visits: seq<Visit>, dryRun: bool, queued: bool): (r: Run)
    decreases |visits|
    ensures SyncFrame(w, r.world)
    ensures SubTable(r.world.table, w.table)
    ensures w.mfaGroup <= r.world.mfaGroup
    ensures w.jobs <= r.world.jobs
    ensures dryRun ==> r.world.mfaGroup == w.mfaGroup && r.world.jobs == w.jobs
    ensures Valid(w) ==> !r.crashed && Valid(r.world)
  {
    if visits == [] then Run(w, false)
    else
      match SyncStep(w, visits[0], dryRun, queued)
      case None => Run(w, true)
      case Some(w1) => Synchronize(w1, visits[1..], dryRun, queued)
  }

  /**
   A completed bulk sync leaves every user unknown to the provider whose
   change committed in the MFA group (outside a dry run), and no row for any
   user the provider reports enrolled.
   */
  lemma {:induction false} SyncCompletes(w: World, visits: seq<Visit>, dryRun: bool, queued: bool)
    ensures var r := Synchronize(w, visits, dryRun, queued);
            !r.crashed ==>
              && (forall i :: 0 <= i < |visits| && visits[i].entry.cn !in w.provider && visits[i].commitOk && !dryRun ==>
                    visits[i].entry.dn in r.world.mfaGroup)
              && (forall i :: 0 <= i < |visits| && Enrolled(w.provider, visits[i].entry.cn) ==>
                    Owners(r.world.table, visits[i].entry.cn) == {})
    decreases |visits|
  {
    if visits != [] {
      match SyncStep(w, visits[0], dryRun, queued)
      case None =>
      case Some(w1) =>
        SyncCompletes(w1, visits[1..], dryRun, queued);
        var r := Synchronize(w1, visits[1..], dryRun, queued);
        if !r.crashed {
          forall i | 0 <= i < |visits| && Enrolled(w.provider, visits[i].entry.cn)
            ensures Owners(r.world.table, visits[i].entry.cn) == {}
          {
            if i == 0 {
              var cn := visits[0].entry.cn;
              assert Owners(w1.table, cn) == {};
              forall pk | pk in r.world.table ensures r.world.table[pk].username != cn {
                assert pk in w1.table && r.world.table[pk] == w1.table[pk];
                assert pk !in Owners(w1.table, cn);
              }
            } else {
              assert visits[1..][i - 1] == visits[i];
            }
          }
          forall i | 0 <= i < |visits| && visits[i].entry.cn !in w.provider && visits[i].commitOk && !dryRun
            ensures visits[i].entry.dn in r.world.mfaGroup
          {
            if i > 0 {
              assert visits[1..][i - 1] == visits[i];
            }
          }
        }
    }
  }

  /** Every DN the bulk sync adds to the MFA group is one of a user unknown to the provider whose change committed. */
  lemma {:induction false} SyncAddsOnlyUnknown(w: World, visits: seq<Visit>, dryRun: bool, queued: bool)
    ensures var r := Synchronize(w, visits, dryRun, queued);
            forall dn :: dn in r.world.mfaGroup && dn !in w.mfaGroup ==>
              exists i :: && 0 <= i < |visits| && visits[i].entry.dn == dn
                          && visits[i].entry.cn !in w.provider && visits[i].commitOk && !dryRun
    decreases |visits|
  {
    if visits != [] {
      match SyncStep(w, visits[0], dryRun, queued)
      case None =>
      case Some(w1) =>
        SyncAddsOnlyUnknown(w1, visits[1..], dryRun, queued);
        var r := Synchronize(w1, visits[1..], dryRun, queued);
        forall dn | dn in r.world.mfaGroup && dn !in w.mfaGroup
          ensures exists i :: && 0 <= i < |visits| && visits[i].entry.dn == dn
                              && visits[i].entry.cn !in w.provider && visits[i].commitOk && !dryRun
        {
          if dn in w1.mfaGroup {
            assert visits[0].entry.dn == dn;
          } else {
            var i :| && 0 <= i < |visits[1..]| && visits[1..][i].entry.dn == dn
                     && visits[1..][i].entry.cn !in w1.provider && visits[1..][i].commitOk && !dryRun;
            assert visits[i + 1] == visits[1..][i];
          }
        }
    }
  }

  /** The bulk sync deletes only rows of users the provider reports enrolled. */
  lemma {:induction false} SyncDeletesOnlyEnrolled(w: World, visits: seq<Visit>, dryRun: bool, queued: bool)
    ensures var r := Synchronize(w, visits, dryRun, queued);
            forall pk :: pk in w.table && pk !in r.world.table ==> Enrolled(w.provider, w.table[pk].username)
    decreases |visits|
  {
    if visits != [] {
      match SyncStep(w, visits[0], dryRun, queued)
      case None =>
      case Some(w1) =>
        SyncDeletesOnlyEnrolled(w1, visits[1..], dryRun, queued);
    }
  }

  /** An entry on which a bulk-sync step changes nothing. */
  ghost predicate Settled(w: World, v: Visit, dryRun: bool)
  {
    if v.entry.cn in w.provider then
      !w.provider[v.entry.cn].isEnrolled || Owners(w.table, v.entry.cn) == {}
    else
      v.entry.dn in w.mfaGroup || dryRun || !v.commitOk
  }

  lemma SettledStep(w: World, v: Visit, dryRun: bool, queued: bool)
    requires Settled(w, v, dryRun)
    ensures SyncStep(w, v, dryRun, queued) == Some(w)
  {
  }

  lemma {:induction false} SettledSync(w: World, visits: seq<Visit>, dryRun: bool, queued: bool)
    requires forall i :: 0 <= i < |visits| ==> Settled(w, visits[i], dryRun)
    ensures Synchronize(w, visits, dryRun, queued) == Run(w, false)
    decreases |visits|
  {
    if visits != [] {
      SettledStep(w, visits[0], dryRun, queued);
      assert forall i :: 0 <= i < |visits[1..]| ==> visits[1..][i] == visits[i + 1];
      SettledSync(w, visits[1..], dryRun, queued);
    }
  }

  /**
   The bulk sync is idempotent: running it again over the same entries, with
   the directory answering the same way, changes nothing and queues nothing.
   */
  lemma SyncIdempotent(w: World, visits: seq<Visit>, dryRun: bool, queued: bool)
    requires !Synchronize(w, visits, dryRun, queued).crashed
    ensures var w1 := Synchronize(w, visits, dryRun, queued).world;
            Synchronize(w1, visits, dryRun, queued) == Run(w1, false)
  {
    var w1 := Synchronize(w, visits, dryRun, queued).world;
    SyncCompletes(w, visits, dryRun, queued);
    forall i | 0 <= i < |visits| ensures Settled(w1, visits[i], dryRun) {
    }
    SettledSync(w1, visits, dryRun, queued);
  }
}
