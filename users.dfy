/**
 * The in-memory user table of src/models/User.ts: the `IUser` record, the
 * pure list operations `find`, `findIndex` and `filter` as the store uses
 * them, and the `UserStore` class whose `users` list and `lastId` counter
 * are changed in place.
 */
module Users {
  import opened Wrappers

  /** A stored user (`IUser`); the id is always assigned by the store. */
  datatype User = User(id: int, name: string, email: string)

  /** The fields an update may carry (`Partial<Omit<IUser, 'id'>>`); `None` is a key left out. */
  datatype Patch = Patch(name: Option<string>, email: Option<string>)

  /** Some entry of `users` carries `id`. */
  predicate HasId(users: seq<User>, id: int) {
    exists i :: 0 <= i < |users| && users[i].id == id
  }

  /** `HasId` on a non-empty list: the head carries the id, or the tail does. */
  lemma HasIdCons(users: seq<User>, id: int)
    requires users != []
    ensures HasId(users, id) <==> users[0].id == id || HasId(users[1..], id)
  {
    if HasId(users[1..], id) {
      var i :| 0 <= i < |users[1..]| && users[1..][i].id == id;
      assert users[i + 1].id == id;
    }
    if HasId(users, id) && users[0].id != id {
      var i :| 0 <= i < |users| && users[i].id == id;
      assert users[1..][i - 1].id == id;
    }
  }

  /** Ids strictly increase along the list: the order in which they were created. */
  ghost predicate IdsIncreasing(users: seq<User>) {
    forall i, j :: 0 <= i < j < |users| ==> users[i].id < users[j].id
  }

  /** No two entries share an id. */
  ghost predicate IdsDistinct(users: seq<User>) {
    forall i, j :: 0 <= i < j < |users| ==> users[i].id != users[j].id
  }

  /** Every id was handed out by the counter: it lies in 1..lastId. */
  ghost predicate IdsIssued(users: seq<User>, lastId: int) {
    forall i :: 0 <= i < |users| ==> 1 <= users[i].id <= lastId
  }

  lemma IncreasingIsDistinct(users: seq<User>)
    requires IdsIncreasing(users)
    ensures IdsDistinct(users)
  {
  }

  /** `users.findIndex(user => user.id === id)`: the first position holding `id`, or -1. */
  function IndexOf(users: seq<User>, id: int): (k: int)
    ensures -1 <= k < |users|
    ensures k == -1 <==> !HasId(users, id)
    ensures 0 <= k ==> users[k].id == id && forall j :: 0 <= j < k ==> users[j].id != id
  {
    if users == [] then -1
    else if users[0].id == id then 0
    else
      var k := IndexOf(users[1..], id);
      if k == -1 then -1 else k + 1
  }

  /** `users.find(user => user.id === id)`: the first entry holding `id`, or undefined. */
  function Find(users: seq<User>, id: int): (r: Option<User>)
    ensures r.Some? <==> HasId(users, id)
    ensures r.Some? ==> r.value.id == id && r.value in users
    ensures r.Some? ==> r.value == users[IndexOf(users, id)]
  {
    var k := IndexOf(users, id);
    if k == -1 then None else Some(users[k])
  }

  /** When ids are distinct, the entry `Find` returns is the only one with that id. */
  lemma FindIsTheOnly(users: seq<User>, id: int)
    requires IdsDistinct(users)
    ensures Find(users, id).Some? ==> forall v :: v in users && v.id == id ==> v == Find(users, id).value
  {
    if HasId(users, id) {
      var i := IndexOf(users, id);
      forall v | v in users && v.id == id ensures v == users[i] {
        var k :| 0 <= k < |users| && users[k] == v;
        assert !(k < i) && !(i < k);
      }
    }
  }

  /** A record appended with an id above every stored id is exactly what a lookup of that id finds. */
  lemma FindAppended(users: seq<User>, u: User)
    requires forall v :: v in users ==> v.id < u.id
    ensures Find(users + [u], u.id) == Some(u)
  {
    var all := users + [u];
    forall j | 0 <= j < |users| ensures all[j].id != u.id {
      assert all[j] == users[j];
      assert users[j] in users;
    }
    assert all[|users|] == u;
  }

  /** `users.filter(user => user.id !== id)`. */
  function Without(users: seq<User>, id: int): (r: seq<User>)
    ensures forall u :: u in r <==> u in users && u.id != id
    ensures |r| <= |users|
    ensures |r| == |users| <==> !HasId(users, id)
  {
    if users == [] then []
    else
      var rest := Without(users[1..], id);
      HasIdCons(users, id);
      if users[0].id == id then rest else [users[0]] + rest
  }

  /** Filtering out an id no entry carries leaves the list as it was. */
  lemma {:induction false} WithoutAbsent(users: seq<User>, id: int)
    requires !HasId(users, id)
    ensures Without(users, id) == users
  {
    if users != [] {
      HasIdCons(users, id);
      WithoutAbsent(users[1..], id);
      assert users == [users[0]] + users[1..];
    }
  }

  /** Filtering a concatenation filters each part. */
  lemma {:induction false} WithoutAppend(a: seq<User>, b: seq<User>, id: int)
    ensures Without(a + b, id) == Without(a, id) + Without(b, id)
  {
    if a == [] {
      assert a + b == b;
    } else {
      assert (a + b)[1..] == a[1..] + b;
      WithoutAppend(a[1..], b, id);
    }
  }

  /** Filtering out the id at position k drops that entry and filters what lies on either side of it. */
  lemma WithoutSplit(users: seq<User>, k: int)
    requires 0 <= k < |users|
    ensures Without(users, users[k].id) == Without(users[..k], users[k].id) + Without(users[k + 1..], users[k].id)
  {
    var id := users[k].id;
    var rest := users[k..];
    assert users == users[..k] + rest;
    WithoutAppend(users[..k], rest, id);
    assert rest[0] == users[k] && rest[1..] == users[k + 1..];
  }

  /** With distinct ids, no entry but the one at position k carries its id. */
  lemma OnlyAt(users: seq<User>, k: int)
    requires IdsDistinct(users) && 0 <= k < |users|
    ensures !HasId(users[..k], users[k].id) && !HasId(users[k + 1..], users[k].id)
  {
    var id := users[k].id;
    var before, after := users[..k], users[k + 1..];
    forall i | 0 <= i < |before| ensures before[i].id != id {
      assert before[i] == users[i];
    }
    forall i | 0 <= i < |after| ensures after[i].id != id {
      assert after[i] == users[k + 1 + i];
    }
  }

  /** With distinct ids, filtering out the id at position k removes exactly that entry and keeps the others in order. */
  lemma WithoutRemovesOne(users: seq<User>, k: int)
    requires IdsDistinct(users) && 0 <= k < |users|
    ensures Without(users, users[k].id) == users[..k] + users[k + 1..]
  {
    WithoutSplit(users, k);
    OnlyAt(users, k);
    WithoutAbsent(users[..k], users[k].id);
    WithoutAbsent(users[k + 1..], users[k].id);
  }

  /** Filtering keeps the creation order of the ids that remain. */
  lemma {:induction false} WithoutKeepsIncreasing(users: seq<User>, id: int)
    requires IdsIncreasing(users)
    ensures IdsIncreasing(Without(users, id))
  {
    if users != [] {
      var tail := users[1..];
      assert IdsIncreasing(tail) by {
        forall i, j | 0 <= i < j < |tail| ensures tail[i].id < tail[j].id {
          assert tail[i] == users[i + 1] && tail[j] == users[j + 1];
        }
      }
      WithoutKeepsIncreasing(tail, id);
      if users[0].id != id {
        var rest := Without(tail, id);
        forall v | v in rest ensures users[0].id < v.id {
          var m :| 0 <= m < |tail| && tail[m] == v;
          assert users[m + 1] == v;
        }
        ConsIncreasing(users[0], rest);
      }
    }
  }

  lemma ConsIncreasing(u: User, rest: seq<User>)
    requires IdsIncreasing(rest)
    requires forall v :: v in rest ==> u.id < v.id
    ensures IdsIncreasing([u] + rest)
  {
    var r := [u] + rest;
    forall i, j | 0 <= i < j < |r| ensures r[i].id < r[j].id {
      if i == 0 {
        assert r[j] == rest[j - 1];
      } else {
        assert r[i] == rest[i - 1] && r[j] == rest[j - 1];
      }
    }
  }

  /** `{ ...user, ...userData }`: the keys present in the patch override, the others and the id are kept. */
  function Merge(u: User, p: Patch): (r: User)
    ensures r.id == u.id
    ensures r.name == (if p.name.Some? then p.name.value else u.name)
    ensures r.email == (if p.email.Some? then p.email.value else u.email)
  {
    User(u.id,
         match p.name case Some(n) => n case None => u.name,
         match p.email case Some(e) => e case None => u.email)
  }

  /** Applying the same patch twice changes nothing more, and an empty patch changes nothing. */
  lemma MergeIdempotent(u: User, p: Patch)
    ensures Merge(Merge(u, p), p) == Merge(u, p)
    ensures Merge(u, Patch(None, None)) == u
  {
  }

  /**
   * The table: `users` in insertion order and the `lastId` counter that
   * seeds ids. The source keeps both as static fields; here one object
   * plays that role, and a fresh object is the state at process start (or
   * after the tests reset both fields).
   */
  class UserStore {
    var users: seq<User>
    var lastId: nat

    /** Ids increase along the list (so they are distinct) and were all handed out by the counter. */
    ghost predicate Valid()
      reads this
    {
      IdsIncreasing(users) && IdsIssued(users, lastId)
    }

    constructor ()
      ensures Valid() && users == [] && lastId == 0
    {
      users := [];
      lastId := 0;
    }

    /** `getAll`: the list itself, in insertion order. */
    function GetAll(): (all: seq<User>)
      reads this
      ensures all == users
    {
      users
    }

    /** `getById`: the entry with that id, or undefined; it reads and never writes. */
    function GetById(id: int): (r: Option<User>)
      requires Valid()
      reads this
      ensures r.Some? <==> HasId(users, id)
      ensures r.Some? ==> r.value.id == id && r.value in users
      ensures r.Some? ==> forall v :: v in users && v.id == id ==> v == r.value
    {
      IncreasingIsDistinct(users);
      FindIsTheOnly(users, id);
      Find(users, id)
    }

    /** `create`: the counter is bumped first and its new value is the id of the record appended at the end. */
    method Create(name: string, email: string) returns (u: User)
      requires Valid()
      modifies this
      ensures Valid()
      ensures lastId == old(lastId) + 1
      ensures u == User(lastId, name, email)
      ensures users == old(users) + [u]
      ensures forall v :: v in old(users) ==> v.id < u.id
    {
      lastId := lastId + 1;
      u := User(lastId, name, email);
      users := users + [u];
    }

    /** `update`: merge the patch into the entry with that id, in place, or report undefined and change nothing. */
    method Update(id: int, patch: Patch) returns (r: Option<User>)
      requires Valid()
      modifies this
      ensures Valid() && lastId == old(lastId)
      ensures r.None? <==> !HasId(old(users), id)
      ensures r.None? ==> users == old(users)
      ensures r.Some? ==>
        var k := IndexOf(old(users), id);
        r.value == Merge(old(users)[k], patch) && users == old(users)[k := r.value]
    {
      var index := IndexOf(users, id);
      if index == -1 {
        return None;
      }
      users := users[index := Merge(users[index], patch)];
      r := Some(users[index]);
      assert forall i :: 0 <= i < |users| ==> users[i].id == old(users)[i].id;
    }

    /** `delete`: keep every entry whose id differs and report whether the length changed. */
    method Delete(id: int) returns (removed: bool)
      requires Valid()
      modifies this
      ensures Valid() && lastId == old(lastId)
      ensures removed <==> HasId(old(users), id)
      ensures users == Without(old(users), id)
      ensures !HasId(users, id)
    {
      var initialLength := |users|;
      WithoutKeepsIncreasing(users, id);
      users := Without(users, id);
      removed := initialLength != |users|;
      forall i | 0 <= i < |users| ensures 1 <= users[i].id <= lastId && users[i].id != id {
        assert users[i] in users;
      }
    }
  }

  /**
   * A fresh store hands out id 1 first; the created record is what a lookup
   * of its id returns; deleting it reports true and then false; and the next
   * record gets id 2, so the deleted id is not handed out again.
   */
  method StoreLifecycle() returns (first: User, found: Option<User>, deletedOnce: bool, deletedTwice: bool, next: User)
    ensures first == User(1, "Carlos Souza", "carlos@example.com")
    ensures found == Some(first)
    ensures deletedOnce && !deletedTwice
    ensures next == User(2, "Pedro Costa", "pedro@example.com")
  {
    var store := new UserStore();
    first := store.Create("Carlos Souza", "carlos@example.com");
    found := store.GetById(first.id);
    deletedOnce := store.Delete(first.id);
    deletedTwice := store.Delete(first.id);
    next := store.Create("Pedro Costa", "pedro@example.com");
  }
}
