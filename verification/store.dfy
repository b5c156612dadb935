/**
 The local table of locked users: one row per directory user who is or was
 locked, keyed by a primary key, holding two nullable timestamps.
 */
module Store {
  import opened Wrappers

  /** Primary key of a row. */
  type Pk = nat

  /** A row of the table: whose it is, and when it was last locked or unlocked. */
  datatype LockedUser = LockedUser(username: string, locked: Option<int>, unlocked: Option<int>)

  type Table = map<Pk, LockedUser>

  /** The rows that belong to a username. */
  function Owners(t: Table, name: string): set<Pk>
  {
    set pk | pk in t && t[pk].username == name
  }

  /** What a `get` by username finds: nothing, one row, or several (an error). */
  datatype Lookup = NoRecord | Unique(pk: Pk) | Ambiguous

  lemma SingletonOf<T>(s: set<T>)
    requires |s| == 1
    ensures exists x :: s == {x}
  {
    var x :| x in s;
    assert |s - {x}| == 0;
    assert s == {x};
  }

  function FindByUsername(t: Table, name: string): (r: Lookup)
    ensures r.NoRecord? <==> Owners(t, name) == {}
    ensures r.NoRecord? ==> forall pk :: pk in t ==> t[pk].username != name
    ensures r.Unique? ==> r.pk in t && t[r.pk].username == name && Owners(t, name) == {r.pk}
    ensures r.Unique? ==> forall pk :: pk in t && t[pk].username == name ==> pk == r.pk
    ensures r.Ambiguous? <==> |Owners(t, name)| >= 2
  {
    var owners := Owners(t, name);
    if owners == {} then
      assert forall pk :: pk in t ==> t[pk].username != name by {
        forall pk | pk in t ensures t[pk].username != name {
          assert pk !in owners;
        }
      }
      NoRecord
    else if |owners| == 1 then
      SingletonOf(owners);
      var pk :| owners == {pk};
      assert forall q :: q in t && t[q].username == name ==> q in owners;
      Unique(pk)
    else Ambiguous
  }

  /** Several rows for one username contradict uniqueness of usernames. */
  lemma AmbiguousBreaksUniqueness(t: Table, name: string)
    requires |Owners(t, name)| >= 2
    ensures !UniqueOwners(t)
  {
    var o := Owners(t, name);
    var p :| p in o;
    assert |o - {p}| >= 1;
    var q :| q in o - {p};
    assert p in t && q in t && t[p].username == t[q].username && p != q;
  }

  /** The keys at or above `from`. */
  function KeysFrom(t: Table, from: Pk): set<Pk>
  {
    set k | k in t && k >= from
  }

  /**
   The key the table hands to a new row: the first key from `from` on that no
   row holds, as an autoincrement counter does.
   */
  function FreshKey(t: Table, from: Pk): (k: Pk)
    ensures k !in t
    ensures from <= k
    ensures forall j :: from <= j < k ==> j in t
    decreases |KeysFrom(t, from)|
  {
    if from !in t then from
    else
      assert KeysFrom(t, from + 1) == KeysFrom(t, from) - {from};
      FreshKey(t, from + 1)
  }

  /** A lookup by username never fails with several rows when usernames are unique. */
  ghost predicate UniqueOwners(t: Table)
  {
    forall p, q :: p in t && q in t && t[p].username == t[q].username ==> p == q
  }

  /** Setting one timestamp clears the other: a row is never locked and unlocked at once. */
  predicate Exclusive(row: LockedUser)
  {
    !(row.locked.Some? && row.unlocked.Some?)
  }
}
