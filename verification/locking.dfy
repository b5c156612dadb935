/**
 The single-record tasks: Lock adds a user's entry to the locked group and
 Unlock removes it, each keeping the user's row in step with the directory.
 */
module Locking {
  import opened Wrappers
  import opened Directory
  import opened Store
  import opened State

  /** Why a single-record task stopped: no row with that key, or no directory entry. */
  datatype TaskError = RecordMissing | EntryMissing

  /** The task touched only row `pk` and the locked group; every other part is as before. */
  ghost predicate Framed(w: World, w': World, pk: Pk)
    requires pk in w.table
  {
    && w'.mfaGroup == w.mfaGroup
    && w'.directory == w.directory
    && w'.provider == w.provider
    && w'.nextPk == w.nextPk
    && w'.jobs == w.jobs
    && pk in w'.table
    && w'.table == w.table[pk := w'.table[pk]]
    && w'.table[pk].username == w.table[pk].username
  }

  /** The row `pk` exists and its user has a directory entry. */
  ghost predicate Resolves(w: World, pk: Pk)
  {
    pk in w.table && w.table[pk].username in w.directory
  }

  ghost function DnOf(w: World, pk: Pk): Dn
    requires Resolves(w, pk)
  {
    w.directory[w.table[pk].username]
  }

  /**
   Lock one row's user. An entry already in the locked group only has the
   row brought into agreement; otherwise the entry is added and the row is
   stamped once the commit succeeds. Dry runs save nothing.
   */
  function Lock(w: World, pk: Pk, now: int, commitOk: bool, dryRun: bool): (r: Result<World, TaskError>)
    ensures r == Failure(RecordMissing) <==> pk !in w.table
    ensures r == Failure(EntryMissing) <==> pk in w.table && !Resolves(w, pk)
    ensures r.Success? ==> Resolves(w, pk) && Framed(w, r.value, pk)
    // the only group change is the user's own entry joining the locked group
    ensures r.Success? ==> w.lockedGroup <= r.value.lockedGroup <= w.lockedGroup + {DnOf(w, pk)}
    ensures r.Success? && r.value.lockedGroup != w.lockedGroup ==> commitOk && !dryRun
    // the row changes only outside a dry run and only once the directory shows the user locked
    ensures r.Success? && r.value != w ==> !dryRun && DnOf(w, pk) in r.value.lockedGroup
    ensures r.Success? && !dryRun && (DnOf(w, pk) in w.lockedGroup || commitOk) ==>
              && DnOf(w, pk) in r.value.lockedGroup
              && r.value.table[pk].locked.Some?
              && r.value.table[pk].unlocked.None?
    // a committed addition is exactly the user's entry, with the row stamped now
    ensures r.Success? && DnOf(w, pk) !in w.lockedGroup && commitOk && !dryRun ==>
              && r.value.lockedGroup == w.lockedGroup + {DnOf(w, pk)}
              && r.value.table[pk] == w.table[pk].(locked := Some(now), unlocked := None)
    ensures r.Success? && DnOf(w, pk) !in w.lockedGroup && (dryRun || !commitOk) ==> r.value == w
    // an earlier lock timestamp is never advanced while the user stays locked
    ensures r.Success? && DnOf(w, pk) in w.lockedGroup && w.table[pk].locked.Some? ==>
              r.value.table[pk].locked == w.table[pk].locked
    ensures r.Success? && DnOf(w, pk) in w.lockedGroup && w.table[pk].locked.None? && !dryRun ==>
              r.value.table[pk].locked == Some(now)
    ensures r.Success? && Valid(w) ==> Valid(r.value)
  {
    if pk !in w.table then Failure(RecordMissing)
    else
      var row := w.table[pk];
      match FindUser(w.directory, row.username)
      case Found(dn) =>
        if dn in w.lockedGroup then
          var row' := row.(locked := if row.locked.None? then Some(now) else row.locked, unlocked := None);
          Success(if dryRun then w else w.(table := w.table[pk := row']))
        else if dryRun || !commitOk then
          Success(w)
        else
          Success(w.(lockedGroup := w.lockedGroup + {dn},
                     table := w.table[pk := row.(locked := Some(now), unlocked := None)]))
      case _ => Failure(EntryMissing)
  }

  /**
   Unlock one row's user. A user gone from the directory has the row
   deleted; an entry outside the locked group only has the row brought into
   agreement; otherwise the entry is removed and the row is stamped once the
   commit succeeds. Dry runs save nothing, but still delete a vanished user.
   */
  function Unlock(w: World, pk: Pk, now: int, commitOk: bool, dryRun: bool): (r: Result<World, TaskError>)
    ensures r == Failure(RecordMissing) <==> pk !in w.table
    ensures r.Success? || r == Failure(RecordMissing)
    // a vanished user: the row goes, and nothing else changes
    ensures pk in w.table && !Resolves(w, pk) ==>
              r.Success? && r.value.table == w.table - {pk} && r.value.lockedGroup == w.lockedGroup
              && r.value.mfaGroup == w.mfaGroup && r.value.jobs == w.jobs && r.value.nextPk == w.nextPk
    ensures r.Success? && Resolves(w, pk) ==> Framed(w, r.value, pk)
    // the only group change is the user's own entry leaving the locked group
    ensures r.Success? && Resolves(w, pk) ==>
              w.lockedGroup - {DnOf(w, pk)} <= r.value.lockedGroup <= w.lockedGroup
    ensures r.Success? && Resolves(w, pk) && r.value.lockedGroup != w.lockedGroup ==> commitOk && !dryRun
    // the row changes only outside a dry run and only once the directory shows the user unlocked
    ensures r.Success? && Resolves(w, pk) && r.value != w ==> !dryRun && DnOf(w, pk) !in r.value.lockedGroup
    ensures r.Success? && Resolves(w, pk) && !dryRun && (DnOf(w, pk) !in w.lockedGroup || commitOk) ==>
              && DnOf(w, pk) !in r.value.lockedGroup
              && r.value.table[pk].locked.None?
              && r.value.table[pk].unlocked.Some?
    // a committed removal is exactly the user's entry, with the row stamped now
    ensures r.Success? && Resolves(w, pk) && DnOf(w, pk) in w.lockedGroup && commitOk && !dryRun ==>
              && r.value.lockedGroup == w.lockedGroup - {DnOf(w, pk)}
              && r.value.table[pk] == w.table[pk].(locked := None, unlocked := Some(now))
    ensures r.Success? && Resolves(w, pk) && DnOf(w, pk) in w.lockedGroup && (dryRun || !commitOk) ==> r.value == w
    // an earlier unlock timestamp is never advanced while the user stays unlocked
    ensures r.Success? && Resolves(w, pk) && DnOf(w, pk) !in w.lockedGroup && w.table[pk].unlocked.Some? ==>
              r.value.table[pk].unlocked == w.table[pk].unlocked
    ensures r.Success? && Resolves(w, pk) && DnOf(w, pk) !in w.lockedGroup && w.table[pk].unlocked.None? && !dryRun ==>
              r.value.table[pk].unlocked == Some(now)
    ensures r.Success? && Valid(w) ==> Valid(r.value)
  {
    if pk !in w.table then Failure(RecordMissing)
    else
      var row := w.table[pk];
      match FindUser(w.directory, row.username)
      case Found(dn) =>
        if dn !in w.lockedGroup then
          var row' := row.(locked := None, unlocked := if row.unlocked.None? then Some(now) else row.unlocked);
          Success(if dryRun then w else w.(table := w.table[pk := row']))
        else if dryRun || !commitOk then
          Success(w)
        else
          Success(w.(lockedGroup := w.lockedGroup - {dn},
                     table := w.table[pk := row.(locked := None, unlocked := Some(now))]))
      case _ => Success(w.(table := w.table - {pk}))
  }

  /** Once a saved Lock has left the user in the locked group, a further Lock changes nothing. */
  lemma LockIdempotent(w: World, pk: Pk, t1: int, c1: bool, t2: int, c2: bool, dryRun: bool)
    requires Lock(w, pk, t1, c1, false).Success?
    requires var w1 := Lock(w, pk, t1, c1, false).value; DnOf(w, pk) in w1.lockedGroup
    ensures var w1 := Lock(w, pk, t1, c1, false).value; Lock(w1, pk, t2, c2, dryRun) == Success(w1)
  {
    var w1 := Lock(w, pk, t1, c1, false).value;
    assert w1.table[pk := w1.table[pk]] == w1.table;
  }

  /** Once a saved Unlock has left the user outside the locked group, a further Unlock changes nothing. */
  lemma UnlockIdempotent(w: World, pk: Pk, t1: int, c1: bool, t2: int, c2: bool, dryRun: bool)
    requires Resolves(w, pk)
    requires var w1 := Unlock(w, pk, t1, c1, false).value; DnOf(w, pk) !in w1.lockedGroup
    ensures var w1 := Unlock(w, pk, t1, c1, false).value; Unlock(w1, pk, t2, c2, dryRun) == Success(w1)
  {
    var w1 := Unlock(w, pk, t1, c1, false).value;
    assert w1.table[pk := w1.table[pk]] == w1.table;
  }

  /**
   Lock followed by a committed Unlock leaves the user outside the locked
   group, with the row unlocked; when the Lock had put the user in the group,
   the unlock timestamp is the Unlock's.
   */
  lemma LockThenUnlock(w: World, pk: Pk, t1: int, c1: bool, d1: bool, t2: int)
    requires Lock(w, pk, t1, c1, d1).Success?
    ensures var w1 := Lock(w, pk, t1, c1, d1).value;
            var r := Unlock(w1, pk, t2, true, false);
            && r.Success?
            && r.value.lockedGroup == w.lockedGroup - {DnOf(w, pk)}
            && r.value.table[pk].locked.None?
            && r.value.table[pk].unlocked.Some?
            && (DnOf(w, pk) in w1.lockedGroup ==> r.value.table[pk].unlocked == Some(t2))
  {
  }
}
