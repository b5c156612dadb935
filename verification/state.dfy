/**
 The abstract world the reconciliation tasks read and change: the two
 directory groups, the directory itself, the MFA provider's user snapshot,
 the local table of locked users and the jobs queued so far.
 */
module State {
  import opened Directory
  import opened Store

  /** What the MFA provider reports about one username. */
  datatype ProviderUser = ProviderUser(isEnrolled: bool, created: int)

  /**
   Follow-up work a task hands on: a Lock job for a row, an Activate job for a
   username, or a synchronous provider sync for a username (when the bulk
   sync runs outside a queue).
   */
  datatype Job = LockJob(pk: Pk) | ActivateJob(username: string) | InlineSync(username: string)

  datatype World = World(
    mfaGroup: set<Dn>,
    lockedGroup: set<Dn>,
    directory: map<string, Dn>,
    provider: map<string, ProviderUser>,
    table: Table,
    nextPk: Pk,
    jobs: seq<Job>)

  /** The result of a bulk scan: the world it left, and whether it stopped on an error. */
  datatype Run = Run(world: World, crashed: bool)

  /**
   A well-formed world: every row's key was handed out by the table's
   counter, usernames identify rows, and no row is locked and unlocked at once.
   */
  ghost predicate Valid(w: World)
  {
    && (forall pk :: pk in w.table ==> pk < w.nextPk)
    && UniqueOwners(w.table)
    && (forall pk :: pk in w.table ==> Exclusive(w.table[pk]))
  }

  /** Neither the directory, its groups nor the provider snapshot differ. */
  ghost predicate SameDirectory(w: World, w': World)
  {
    && w'.mfaGroup == w.mfaGroup
    && w'.lockedGroup == w.lockedGroup
    && w'.directory == w.directory
    && w'.provider == w.provider
  }
}
