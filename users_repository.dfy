/** The user repository: the one piece of shared mutable state. */
module Repository {
  import opened Common
  import opened UserStore

  class UsersRepository {
    /** The rows of the user table, in the store's natural order. */
    var users: seq<User>

    ghost predicate Valid()
      reads this
    {
      IdsUnique(users)
    }

    constructor (initial: seq<User>)
      requires IdsUnique(initial)
      ensures Valid() && users == initial
    {
      users := initial;
    }

    /**
     * `create`: inserts one row built from `data`. The store picks the new id;
     * here it is the argument `newId`, which is not yet in use.
     */
    method Create(data: UserCreateInput, newId: string) returns (created: User)
      requires Valid() && !HasId(users, newId)
      modifies this
      ensures Valid()
      ensures created == NewRecord(newId, data)
      ensures users == old(users) + [created]
    {
      created := NewRecord(newId, data);
      AppendKeepsIds(users, created);
      users := users + [created];
    }

    /** `findOneById`: the row with this id, or null. */
    function FindOneById(id: string): (r: Option<User>)
      reads this
      ensures r.None? <==> !HasId(users, id)
      ensures r.Some? ==> r.value in users && r.value.id == id
    {
      First(users, IdEquals(id))
    }

    /** `findOneByEmailOrUsername`: the first row whose email or username is `identifier`. */
    function FindOneByEmailOrUsername(identifier: string): (r: Option<User>)
      reads this
      ensures r.None? <==> forall u :: u in users ==> u.email != identifier && u.username != identifier
      ensures r.Some? ==> r.value in users && (r.value.email == identifier || r.value.username == identifier)
    {
      var w := Or(EmailEquals(identifier), UsernameEquals(identifier));
      assert forall u :: Holds(u, w) <==> u.email == identifier || u.username == identifier;
      First(users, w)
    }

    /**
     * `findByConflict`: the first row whose email is `email` or whose username
     * is `username`, leaving out the row `excludeId` when that is a non-empty
     * string. The where object is assembled by mutation, as in the repository.
     */
    method FindByConflict(username: string, email: string, excludeId: Option<string>)
      returns (r: Option<User>)
      ensures r.None? <==> forall u :: u in users ==> !Conflicts(u, username, email, excludeId)
      ensures r.Some? ==> r.value in users && Conflicts(r.value, username, email, excludeId)
    {
      var w := Or(EmailEquals(email), UsernameEquals(username));
      assert forall u :: Holds(u, w) <==> u.email == email || u.username == username;
      if excludeId.Some? && excludeId.value != "" {
        var exclusion := Not(IdEquals(excludeId.value));
        assert forall u :: Holds(u, exclusion) <==> u.id != excludeId.value;
        w := And(w, exclusion);
      }
      assert forall u :: Holds(u, w) <==> Conflicts(u, username, email, excludeId);
      r := FindFirst(w);
    }

    /** `findFirst({ where })` */
    function FindFirst(w: Where): (r: Option<User>)
      reads this
      ensures r.None? <==> forall u :: u in users ==> !Holds(u, w)
      ensures r.Some? ==> r.value in users && Holds(r.value, w)
    {
      First(users, w)
    }

    /**
     * `findMany({ skip, take, where, orderBy })`: the `take` rows after the
     * first `skip` rows that satisfy `w`. The ordering is not applied.
     */
    function FindMany(skip: nat, take: nat, w: Where, orderBy: OrderBy): (r: seq<User>)
      reads this
      ensures |r| <= take
      ensures forall u :: u in r ==> u in users && Holds(u, w)
      ensures |r| == if skip >= |Filter(users, w)| then 0 else Min(take, |Filter(users, w)| - skip)
      ensures forall k :: 0 <= k < |r| ==> r[k] == Filter(users, w)[skip + k]
    {
      var all := Filter(users, w);
      var r := Page(all, skip, take);
      assert forall u :: u in r ==> u in all;
      r
    }

    /** `count({ where })`: how many rows satisfy `w`. */
    function Count(w: Where): (n: nat)
      reads this
      ensures n == |Filter(users, w)| <= |users|
      ensures n == 0 <==> forall u :: u in users ==> !Holds(u, w)
    {
      var all := Filter(users, w);
      assert all != [] ==> all[0] in all;
      |all|
    }

    /**
     * `update({ where: { id }, data })`: sets the columns of `data` on row
     * `id`; fails when there is no such row.
     */
    method Update(id: string, data: UserUpdate) returns (r: Result<User>)
      requires Valid()
      modifies this
      ensures Valid()
      ensures r.Err? <==> !old(HasId(users, id))
      ensures r.Err? ==> r.error == RecordToUpdateNotFound && users == old(users)
      ensures r.Ok? ==> users == UpdateAt(old(users), id, data) &&
                        exists k :: 0 <= k < |old(users)| && old(users)[k].id == id &&
                                    r.value == Apply(old(users)[k], data) == users[k]
    {
      var found := FindOneById(id);
      if found.None? {
        return Err(RecordToUpdateNotFound);
      }
      UpdateAtKeepsIds(users, id, data);
      var k :| 0 <= k < |users| && users[k] == found.value;
      users := UpdateAt(users, id, data);
      r := Ok(users[k]);
    }

    /** `delete({ where: { id } })`: removes row `id`; fails when there is no such row. */
    method Delete(id: string) returns (r: Result<User>)
      requires Valid()
      modifies this
      ensures Valid()
      ensures r.Err? <==> !old(HasId(users, id))
      ensures r.Err? ==> r.error == RecordToUpdateNotFound && users == old(users)
      ensures r.Ok? ==> exists k :: 0 <= k < |old(users)| && old(users)[k] == r.value &&
                          r.value.id == id && users == old(users)[..k] + old(users)[k + 1..]
    {
      var found := FindOneById(id);
      if found.None? {
        return Err(RecordToUpdateNotFound);
      }
      var k :| 0 <= k < |users| && users[k] == found.value;
      RemoveIdExact(users, k);
      users := RemoveId(users, id);
      r := Ok(found.value);
    }
  }

  /** The candidate rows `findByConflict` looks for. */
  predicate Conflicts(u: User, username: string, email: string, excludeId: Option<string>) {
    (u.email == email || u.username == username) &&
    (excludeId.Some? && excludeId.value != "" ==> u.id != excludeId.value)
  }

  /** `orderBy: { [field]: order }` */
  datatype OrderBy = OrderBy(field: string, order: string)

  function Min(a: int, b: int): int {
    if a <= b then a else b
  }
}
