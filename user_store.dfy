/**
 * The user record, the query language of the store and the pure meaning of
 * the store's reads and writes over its sequence of records. The records are
 * kept in the store's natural order, which decides what a "find first" sees.
 */
module UserStore {
  import opened Common
  import opened Strings

  /** A stored user row. Times are milliseconds since the epoch. */
  datatype User = User(
    id: string,
    username: string,
    email: string,
    password: string,            // a bcrypt hash
    role: string,
    isActive: bool,
    resetToken: Option<string>,  // hex SHA-256 digest of the reset secret
    resetTokenExpiry: Option<int>)

  /** `Omit<User, 'password'>`: what the services hand back to callers. */
  datatype PublicUser = PublicUser(
    id: string,
    username: string,
    email: string,
    role: string,
    isActive: bool,
    resetToken: Option<string>,
    resetTokenExpiry: Option<int>)

  /** `const { password, ...result } = user` */
  function WithoutPassword(u: User): PublicUser {
    PublicUser(u.id, u.username, u.email, u.role, u.isActive, u.resetToken, u.resetTokenExpiry)
  }

  /** Role and activation of a new row come from the schema's column defaults. */
  const DEFAULT_ROLE: string := "USER"
  const DEFAULT_IS_ACTIVE: bool := true

  /** The data of a `create` call; every other column takes its default. */
  datatype UserCreateInput = UserCreateInput(username: string, email: string, password: string)

  function NewRecord(id: string, data: UserCreateInput): User {
    User(id, data.username, data.email, data.password, DEFAULT_ROLE, DEFAULT_IS_ACTIVE, None, None)
  }

  /** One column of an update: left as it is, or set to a value (possibly `null`). */
  datatype Patch<T> = Keep | Set(value: T)
  {
    function Over(current: T): T {
      match this
      case Keep => current
      case Set(v) => v
    }
  }

  /** The data of an `update` call: the columns it sets. */
  datatype UserUpdate = UserUpdate(
    username: Patch<string>,
    email: Patch<string>,
    password: Patch<string>,
    isActive: Patch<bool>,
    resetToken: Patch<Option<string>>,
    resetTokenExpiry: Patch<Option<int>>)

  const NoChange: UserUpdate := UserUpdate(Keep, Keep, Keep, Keep, Keep, Keep)

  function Apply(u: User, d: UserUpdate): User {
    User(u.id, d.username.Over(u.username), d.email.Over(u.email), d.password.Over(u.password),
         u.role, d.isActive.Over(u.isActive), d.resetToken.Over(u.resetToken),
         d.resetTokenExpiry.Over(u.resetTokenExpiry))
  }

  /** The part of the store's `where` language the core uses. */
  datatype Where =
    | Everything                        // {}
    | IdEquals(id: string)              // { id }
    | EmailEquals(email: string)        // { email }
    | UsernameEquals(username: string)  // { username }
    | UsernameContains(text: string)    // { username: { contains, mode: 'insensitive' } }
    | EmailContains(text: string)       // { email: { contains, mode: 'insensitive' } }
    | ResetTokenEquals(token: string)   // { resetToken }
    | ResetExpiryAfter(time: int)       // { resetTokenExpiry: { gt } }
    | IsActiveEquals(active: bool)      // { isActive }
    | Or(left: Where, right: Where)     // OR: [left, right]
    | And(left: Where, right: Where)    // two keys of one where object
    | Not(inner: Where)                 // NOT: inner

  predicate Holds(u: User, w: Where) {
    match w
    case Everything => true
    case IdEquals(id) => u.id == id
    case EmailEquals(e) => u.email == e
    case UsernameEquals(n) => u.username == n
    case UsernameContains(t) => IncludesInsensitive(u.username, t)
    case EmailContains(t) => IncludesInsensitive(u.email, t)
    case ResetTokenEquals(h) => u.resetToken == Some(h)
    case ResetExpiryAfter(t) => u.resetTokenExpiry.Some? && u.resetTokenExpiry.value > t
    case IsActiveEquals(b) => u.isActive == b
    case Or(l, r) => Holds(u, l) || Holds(u, r)
    case And(l, r) => Holds(u, l) && Holds(u, r)
    case Not(i) => !Holds(u, i)
  }

  predicate HasId(s: seq<User>, id: string) {
    exists k :: 0 <= k < |s| && s[k].id == id
  }

  /** The store's primary key: no two rows share an id. */
  ghost predicate IdsUnique(s: seq<User>) {
    forall i, j :: 0 <= i < |s| && 0 <= j < |s| && i != j ==> s[i].id != s[j].id
  }

  /** `findFirst`: the earliest row satisfying `w`, if any. */
  function First(s: seq<User>, w: Where): (r: Option<User>)
    ensures r.None? <==> forall k :: 0 <= k < |s| ==> !Holds(s[k], w)
    ensures r.Some? ==> exists k :: 0 <= k < |s| && s[k] == r.value && Holds(s[k], w) &&
                          forall j :: 0 <= j < k ==> !Holds(s[j], w)
    ensures r.None? <==> forall u :: u in s ==> !Holds(u, w)
    ensures r.Some? ==> r.value in s && Holds(r.value, w)
  {
    if s == [] then None
    else if Holds(s[0], w) then Some(s[0])
    else
      var r := First(s[1..], w);
      assert r.Some? ==> exists k :: 0 <= k < |s[1..]| && s[1..][k] == r.value && Holds(s[1..][k], w) &&
                                 forall j :: 0 <= j < k ==> !Holds(s[1..][j], w);
      assert forall k :: 0 < k < |s| ==> s[1..][k - 1] == s[k];
      r
  }

  /** An id lookup in a store with unique ids finds the one row with that id. */
  lemma FirstById(s: seq<User>, k: nat)
    requires IdsUnique(s) && k < |s|
    ensures First(s, IdEquals(s[k].id)) == Some(s[k])
  {
  }

  /** The rows satisfying `w`, in store order. */
  function Filter(s: seq<User>, w: Where): (r: seq<User>)
    ensures |r| <= |s|
    ensures forall u :: u in r <==> u in s && Holds(u, w)
  {
    if s == [] then []
    else
      var rest := Filter(s[1..], w);
      assert forall u :: u in s <==> u == s[0] || u in s[1..];
      if Holds(s[0], w) then [s[0]] + rest else rest
  }

  /** A page of a sequence: drop `skip` elements, then keep at most `take`. */
  function Page<T>(s: seq<T>, skip: nat, take: nat): (r: seq<T>)
    ensures |r| <= take
    ensures |r| == if skip >= |s| then 0 else if |s| - skip < take then |s| - skip else take
    ensures forall k :: 0 <= k < |r| ==> r[k] == s[skip + k]
  {
    var rest := if skip <= |s| then s[skip..] else [];
    if take <= |rest| then rest[..take] else rest
  }

  /** `update({ where: { id }, data })` over the rows. */
  function UpdateAt(s: seq<User>, id: string, d: UserUpdate): (r: seq<User>)
    ensures |r| == |s|
    ensures forall k :: 0 <= k < |s| ==> r[k] == if s[k].id == id then Apply(s[k], d) else s[k]
  {
    seq(|s|, k requires 0 <= k < |s| => if s[k].id == id then Apply(s[k], d) else s[k])
  }

  /** `delete({ where: { id } })` over the rows. */
  function RemoveId(s: seq<User>, id: string): (r: seq<User>)
    ensures |r| <= |s|
    ensures forall u :: u in r <==> u in s && u.id != id
  {
    if s == [] then []
    else
      var rest := RemoveId(s[1..], id);
      assert forall u :: u in s <==> u == s[0] || u in s[1..];
      if s[0].id == id then rest else [s[0]] + rest
  }

  /** Updating never changes an id, so ids stay unique. */
  lemma UpdateAtKeepsIds(s: seq<User>, id: string, d: UserUpdate)
    requires IdsUnique(s)
    ensures IdsUnique(UpdateAt(s, id, d))
    ensures forall x :: HasId(UpdateAt(s, id, d), x) <==> HasId(s, x)
  {
  }

  /**
   * With unique ids, deleting an existing id removes exactly one row and keeps
   * the others in their order.
   */
  lemma {:induction false} RemoveIdExact(s: seq<User>, k: nat)
    requires IdsUnique(s) && k < |s|
    ensures RemoveId(s, s[k].id) == s[..k] + s[k + 1..]
    ensures IdsUnique(RemoveId(s, s[k].id))
  {
    var id := s[k].id;
    if k == 0 {
      RemoveIdAbsent(s[1..], id);
    } else {
      var t := s[1..];
      assert t[k - 1] == s[k];
      assert IdsUnique(t) by {
        forall i, j | 0 <= i < |t| && 0 <= j < |t| && i != j ensures t[i].id != t[j].id {
          assert t[i] == s[i + 1] && t[j] == s[j + 1];
        }
      }
      RemoveIdExact(t, k - 1);
      assert s[0].id != id;
      assert RemoveId(s, id) == [s[0]] + RemoveId(t, id);
      assert s[..k] == [s[0]] + t[..k - 1];
      assert s[k + 1..] == t[k..];
    }
    DropKeepsIds(s, k);
  }

  lemma DropKeepsIds(s: seq<User>, k: nat)
    requires IdsUnique(s) && k < |s|
    ensures IdsUnique(s[..k] + s[k + 1..])
  {
    var r := s[..k] + s[k + 1..];
    forall i, j | 0 <= i < |r| && 0 <= j < |r| && i != j ensures r[i].id != r[j].id {
      var i' := if i < k then i else i + 1;
      var j' := if j < k then j else j + 1;
      assert r[i] == s[i'] && r[j] == s[j'];
    }
  }

  /** Deleting an id no row carries changes nothing. */
  lemma {:induction false} RemoveIdAbsent(s: seq<User>, id: string)
    requires forall k :: 0 <= k < |s| ==> s[k].id != id
    ensures RemoveId(s, id) == s
  {
    if s != [] {
      RemoveIdAbsent(s[1..], id);
      assert [s[0]] + s[1..] == s;
    }
  }

  /** Appending a row with a fresh id keeps ids unique. */
  lemma AppendKeepsIds(s: seq<User>, u: User)
    requires IdsUnique(s) && !HasId(s, u.id)
    ensures IdsUnique(s + [u])
  {
  }
}
