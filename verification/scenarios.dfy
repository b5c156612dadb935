/**
 Two end-to-end runs on concrete worlds: a user unknown to the provider
 being added to the MFA group, and a user whose enrollment window has run
 out being locked.
 */
module Scenarios {
  import opened Wrappers
  import opened Directory
  import opened Store
  import opened State
  import opened Locking
  import opened Enrollment
  import opened Synchronization

  const Day: int := 86400
  const AliceDn: Dn := "CN=alice,OU=People"
  const BobDn: Dn := "CN=bob,OU=People"

  function Empty(provider: map<string, ProviderUser>): World
  {
    World({}, {}, map["alice" := AliceDn, "bob" := BobDn], provider, map[], 1, [])
  }

  /**
   alice is unknown to the provider and outside the MFA group: a bulk sync
   run outside a queue adds her and hands her to the provider's sync.
   */
  lemma AliceIsActivated()
    ensures var r := Synchronize(Empty(map[]), [Visit(Entry("alice", AliceDn), true)], false, false);
            && !r.crashed
            && r.world.mfaGroup == {AliceDn}
            && r.world.jobs == [InlineSync("alice")]
  {
  }

  /**
   bob has a provider record, not enrolled, created five days ago, with a
   three-day window and no row: the sweep creates his row and queues a Lock
   job for it, and that Lock adds him to the locked group and stamps the row.
   A user created one day ago is left alone.
   */
  lemma BobIsLocked(now: int)
    ensures var w := Empty(map["bob" := ProviderUser(false, now - 5 * Day)]);
            var r := EnrollmentTimeout(w, [Entry("bob", BobDn)], now, 3 * Day, false, {"bob"});
            && !r.crashed
            && r.world.table == map[1 := LockedUser("bob", None, None)]
            && r.world.jobs == [LockJob(1)]
            && var l := Lock(r.world, 1, now, true, false);
               && l.Success?
               && l.value.lockedGroup == {BobDn}
               && l.value.table[1] == LockedUser("bob", Some(now), None)
    ensures var w := Empty(map["bob" := ProviderUser(false, now - Day)]);
            EnrollmentTimeout(w, [Entry("bob", BobDn)], now, 3 * Day, false, {"bob"}) == Run(w, false)
  {
    var w := Empty(map["bob" := ProviderUser(false, now - 5 * Day)]);
    assert FreshKey(w.table, 1) == 1;
    var r := EnrollmentTimeout(w, [Entry("bob", BobDn)], now, 3 * Day, false, {"bob"});
    assert FindUser(r.world.directory, "bob") == Found(BobDn);
  }
}
