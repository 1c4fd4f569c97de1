/** The write side of user management: create, update, status change, removal. */
module UsersCommand {
  import opened Common
  import opened Crypto
  import opened UserStore
  import opened Repository

  datatype CreateUserDto = CreateUserDto(username: string, email: string, password: string)

  /** Only the fields present in the request are `Some`. */
  datatype UpdateUserDto = UpdateUserDto(username: Option<string>, email: Option<string>)

  /** JavaScript truthiness of an optional string: present and non-empty. */
  predicate Truthy(s: Option<string>) {
    s.Some? && s.value != ""
  }

  /**
   * A row that makes `create` refuse: the new email or the new username
   * equals the row's email or the row's username, across the two columns.
   */
  predicate BlocksCreate(u: User, username: string, email: string) {
    u.email == email || u.username == email || u.email == username || u.username == username
  }

  /** `update` runs its conflict probe only when a username or an email is truthy. */
  predicate ChecksConflict(dto: UpdateUserDto) {
    Truthy(dto.username) || Truthy(dto.email)
  }

  /**
   * A row that makes `update(id, dto)` refuse: the probe compares the new
   * username with usernames and the new email with emails, a missing one
   * standing for "", and leaves out the row being updated.
   */
  predicate BlocksUpdate(u: User, id: string, dto: UpdateUserDto) {
    Conflicts(u, dto.username.GetOr(""), dto.email.GetOr(""), Some(id))
  }

  function ToPatch<T>(o: Option<T>): Patch<T> {
    match o
    case None => Keep
    case Some(v) => Set(v)
  }

  /** The update data of `update`: exactly the fields present in the request. */
  function ProfileUpdate(dto: UpdateUserDto): UserUpdate {
    NoChange.(username := ToPatch(dto.username), email := ToPatch(dto.email))
  }

  /** The update data of `updateStatus`. */
  function StatusUpdate(isActive: bool): UserUpdate {
    NoChange.(isActive := Set(isActive))
  }

  class UsersCommandService {
    const repository: UsersRepository
    const crypto: Crypto

    constructor (repository: UsersRepository, crypto: Crypto)
      ensures this.repository == repository && this.crypto == crypto
    {
      this.repository := repository;
      this.crypto := crypto;
    }

    /**
     * `create`: refuses with one undifferentiated Conflict when any row
     * blocks the new username or email; otherwise stores the user with a
     * bcrypt hash of the password and returns it without the password.
     */
    method Create(dto: CreateUserDto, salt: string, newId: string) returns (r: Result<PublicUser>)
      requires repository.Valid() && !HasId(repository.users, newId)
      modifies repository
      ensures repository.Valid()
      ensures r.Err? <==> exists u :: u in old(repository.users) && BlocksCreate(u, dto.username, dto.email)
      ensures r.Err? ==> r.error == Conflict && repository.users == old(repository.users)
      ensures r.Ok? ==>
        var created := NewRecord(newId, UserCreateInput(dto.username, dto.email,
                                                        crypto.bcryptHash(dto.password, SALT_ROUNDS, salt)));
        repository.users == old(repository.users) + [created] && r.value == WithoutPassword(created)
    {
      var existing := repository.FindOneByEmailOrUsername(dto.email);
      if existing.None? {
        existing := repository.FindOneByEmailOrUsername(dto.username);
      }
      if existing.Some? {
        return Err(Conflict);
      }
      var hashedPassword := crypto.bcryptHash(dto.password, SALT_ROUNDS, salt);
      var user := repository.Create(UserCreateInput(dto.username, dto.email, hashedPassword), newId);
      r := Ok(WithoutPassword(user));
    }

    /**
     * `update`: NotFound for an unknown id; Conflict when the probe finds a
     * blocking row; otherwise sets the supplied fields of that row only.
     */
    method Update(id: string, dto: UpdateUserDto) returns (r: Result<PublicUser>)
      requires repository.Valid()
      modifies repository
      ensures repository.Valid()
      ensures !old(HasId(repository.users, id)) ==>
                r == Err(NotFound(id)) && repository.users == old(repository.users)
      ensures old(HasId(repository.users, id)) && ChecksConflict(dto) &&
              (exists u :: u in old(repository.users) && BlocksUpdate(u, id, dto)) ==>
                r == Err(Conflict) && repository.users == old(repository.users)
      ensures r.Ok? <==> old(HasId(repository.users, id)) &&
                         !(ChecksConflict(dto) && exists u :: u in old(repository.users) && BlocksUpdate(u, id, dto))
      ensures r.Ok? ==>
        repository.users == UpdateAt(old(repository.users), id, ProfileUpdate(dto)) &&
        exists k :: 0 <= k < |repository.users| && repository.users[k].id == id &&
                    r.value == WithoutPassword(repository.users[k])
    {
      var userExists := repository.FindOneById(id);
      if userExists.None? {
        return Err(NotFound(id));
      }
      if Truthy(dto.username) || Truthy(dto.email) {
        var conflict := repository.FindByConflict(dto.username.GetOr(""), dto.email.GetOr(""), Some(id));
        if conflict.Some? {
          return Err(Conflict);
        }
      }
      var updated := repository.Update(id, ProfileUpdate(dto));
      r := Ok(WithoutPassword(updated.value));
    }

    /** `updateStatus`: NotFound for an unknown id; otherwise sets only `isActive`. */
    method UpdateStatus(id: string, isActive: bool) returns (r: Result<PublicUser>)
      requires repository.Valid()
      modifies repository
      ensures repository.Valid()
      ensures r.Err? <==> !old(HasId(repository.users, id))
      ensures r.Err? ==> r.error == NotFound(id) && repository.users == old(repository.users)
      ensures r.Ok? ==>
        repository.users == UpdateAt(old(repository.users), id, StatusUpdate(isActive)) &&
        exists k :: 0 <= k < |repository.users| && repository.users[k].id == id &&
                    r.value == WithoutPassword(repository.users[k])
    {
      var userExists := repository.FindOneById(id);
      if userExists.None? {
        return Err(NotFound(id));
      }
      var updated := repository.Update(id, StatusUpdate(isActive));
      r := Ok(WithoutPassword(updated.value));
    }

    /** `remove`: NotFound for an unknown id; otherwise deletes exactly that row. */
    method Remove(id: string) returns (r: Result<()>)
      requires repository.Valid()
      modifies repository
      ensures repository.Valid()
      ensures r.Err? <==> !old(HasId(repository.users, id))
      ensures r.Err? ==> r.error == NotFound(id) && repository.users == old(repository.users)
      ensures r.Ok? ==> exists k :: 0 <= k < |old(repository.users)| && old(repository.users)[k].id == id &&
                          repository.users == old(repository.users)[..k] + old(repository.users)[k + 1..]
    {
      var userExists := repository.FindOneById(id);
      if userExists.None? {
        return Err(NotFound(id));
      }
      var deleted := repository.Delete(id);
      r := Ok(());
    }
  }

  /** No two rows share an email, and no two rows share a username. */
  ghost predicate ColumnsUnique(s: seq<User>) {
    forall i, j :: 0 <= i < |s| && 0 <= j < |s| && i != j ==>
      s[i].email != s[j].email && s[i].username != s[j].username
  }

  /**
   * No value is an identifier of two rows: one row's email or username is
   * neither the email nor the username of another row. This is what makes a
   * login identifier name at most one user.
   */
  ghost predicate IdentifiersDisjoint(s: seq<User>) {
    forall i, j :: 0 <= i < |s| && 0 <= j < |s| && i != j ==>
      s[i].email != s[j].email && s[i].email != s[j].username && s[i].username != s[j].username
  }

  /** A `create` that passes its conflict check keeps identifiers disjoint. */
  lemma CreateKeepsIdentifiersDisjoint(s: seq<User>, newId: string, data: UserCreateInput)
    requires IdentifiersDisjoint(s)
    requires forall u :: u in s ==> !BlocksCreate(u, data.username, data.email)
    ensures IdentifiersDisjoint(s + [NewRecord(newId, data)])
  {
    var t := s + [NewRecord(newId, data)];
    forall i, j | 0 <= i < |t| && 0 <= j < |t| && i != j
      ensures t[i].email != t[j].email && t[i].email != t[j].username && t[i].username != t[j].username
    {
      if i < |s| && j < |s| {
        assert t[i] == s[i] && t[j] == s[j];
      } else if i < |s| {
        assert t[i] in s;
      } else {
        assert t[j] in s;
      }
    }
  }

  /**
   * An `update` that passes its checks keeps emails unique and usernames
   * unique, provided that the values it sets are non-empty.
   */
  lemma UpdateKeepsColumnsUnique(s: seq<User>, id: string, dto: UpdateUserDto)
    requires IdsUnique(s) && ColumnsUnique(s) && id != ""
    requires dto.username.Some? ==> dto.username.value != ""
    requires dto.email.Some? ==> dto.email.value != ""
    requires ChecksConflict(dto) ==> forall u :: u in s ==> !BlocksUpdate(u, id, dto)
    ensures ColumnsUnique(UpdateAt(s, id, ProfileUpdate(dto)))
  {
    var t := UpdateAt(s, id, ProfileUpdate(dto));
    forall i, j | 0 <= i < |t| && 0 <= j < |t| && i != j
      ensures t[i].email != t[j].email && t[i].username != t[j].username
    {
      if s[i].id == id {
        assert s[j].id != id;
        assert s[j] in s;
      } else if s[j].id == id {
        assert s[i] in s;
      }
    }
  }

  /**
   * The update probe compares within columns only: a concrete store where
   * one user takes another user's email as username. The update passes its
   * check, and identifiers are no longer disjoint, although `create` keeps
   * them so.
   */
  lemma UpdateCanShareIdentifierAcrossColumns()
    ensures var s := [User("1", "alice", "a@x.io", "h1", "USER", true, None, None),
                      User("2", "bob", "b@x.io", "h2", "USER", true, None, None)];
            var dto := UpdateUserDto(Some("a@x.io"), None);
            && IdentifiersDisjoint(s) && ColumnsUnique(s)
            && ChecksConflict(dto) && (forall u :: u in s ==> !BlocksUpdate(u, "2", dto))
            && !IdentifiersDisjoint(UpdateAt(s, "2", ProfileUpdate(dto)))
  {
    var s := [User("1", "alice", "a@x.io", "h1", "USER", true, None, None),
              User("2", "bob", "b@x.io", "h2", "USER", true, None, None)];
    var dto := UpdateUserDto(Some("a@x.io"), None);
    var t := UpdateAt(s, "2", ProfileUpdate(dto));
    assert t[1].username == "a@x.io" == t[0].email;
  }

  /**
   * An empty username is falsy, so `update` with username "" and no email
   * skips the check and the write reaches the store unchecked. On a concrete
   * store, the written rows then share a username; the store's own unique
   * constraint, which would refuse that write, is not part of this model.
   */
  lemma EmptyUsernameSkipsConflictCheck()
    ensures var s := [User("1", "", "a@x.io", "h1", "USER", true, None, None),
                      User("2", "bob", "b@x.io", "h2", "USER", true, None, None)];
            var dto := UpdateUserDto(Some(""), None);
            && ColumnsUnique(s) && !ChecksConflict(dto)
            && !ColumnsUnique(UpdateAt(s, "2", ProfileUpdate(dto)))
  {
    var s := [User("1", "", "a@x.io", "h1", "USER", true, None, None),
              User("2", "bob", "b@x.io", "h2", "USER", true, None, None)];
    var t := UpdateAt(s, "2", ProfileUpdate(UpdateUserDto(Some(""), None)));
    assert t[0].username == "" == t[1].username;
  }
}
