/** The read side of user management: lookups and the paginated listing. */
module UsersQuery {
  import opened Common
  import opened Strings
  import opened UserStore
  import opened Repository
  import opened QueryUserDto

  /** `meta` of a listing. */
  datatype PageMeta = PageMeta(total: nat, page: int, limit: int, lastPage: nat)

  /** The result of `findAll`: one page of password-free users and its `meta`. */
  datatype UserPage = UserPage(data: seq<PublicUser>, meta: PageMeta)

  class UsersQueryService {
    const repository: UsersRepository

    constructor (repository: UsersRepository)
      ensures this.repository == repository
    {
      this.repository := repository;
    }

    /** `findOneById`: the user without its password, or NotFound. */
    function FindOneById(id: string): (r: Result<PublicUser>)
      reads repository
      ensures r.Err? <==> !HasId(repository.users, id)
      ensures r.Err? ==> r.error == NotFound(id)
      ensures r.Ok? ==> exists u :: u in repository.users && u.id == id && r.value == WithoutPassword(u)
    {
      match repository.FindOneById(id)
      case None => Err(NotFound(id))
      case Some(u) => Ok(WithoutPassword(u))
    }

    /** `findOneWithPassword`: the repository's identifier lookup, password included. */
    function FindOneWithPassword(identifier: string): (r: Option<User>)
      reads repository
      ensures r.None? <==> forall u :: u in repository.users ==> u.email != identifier && u.username != identifier
      ensures r.Some? ==> r.value in repository.users &&
                          (r.value.email == identifier || r.value.username == identifier)
    {
      repository.FindOneByEmailOrUsername(identifier)
    }

    /**
     * `findAll`: builds the where object step by step, reads one page and the
     * total count, strips the passwords and computes the page count.
     */
    method FindAll(q: QueryUserDto) returns (r: UserPage)
      requires Valid(q)
      ensures Listing(r, Selection(repository.users, q), q.page.GetOr(DEFAULT_PAGE), q.limit.GetOr(DEFAULT_LIMIT))
    {
      var filled := WithDefaults(q);
      ValidBounds(filled);
      var orderBy := SortKey(filled.sortBy);
      r := FetchPage(q, filled.page.value, filled.limit.value, orderBy);
    }

    /**
     * The body of `findAll` once `page`, `limit` and the sort order are
     * fixed: the where object, one page of rows, the count and the meta.
     */
    method FetchPage(q: QueryUserDto, page: int, limit: int, orderBy: OrderBy) returns (r: UserPage)
      requires page >= 1 && 1 <= limit <= MAX_LIMIT
      ensures Listing(r, Selection(repository.users, q), page, limit)
    {
      var skip := Offset(page, limit);

      var w := BuildWhere(q);

      var users := repository.FindMany(skip, limit, w, orderBy);
      var total := repository.Count(w);

      var data := seq(|users|, k requires 0 <= k < |users| => WithoutPassword(users[k]));
      r := UserPage(data, PageMeta(total, page, limit, CeilDiv(total, limit)));
    }
  }

  /**
   * `r` is page `page` of `selection` with `limit` rows per page: the meta
   * echoes page and limit, counts the whole selection and gives the number of
   * pages; the data are the selected rows from offset `(page - 1) * limit` on,
   * at most `limit` of them, without passwords.
   */
  ghost predicate Listing(r: UserPage, selection: seq<User>, page: int, limit: int)
    requires page >= 1 && limit >= 1
  {
    var skip := Offset(page, limit);
    && r.meta.page == page && r.meta.limit == limit
    && r.meta.total == |selection|
    && r.meta.total <= r.meta.lastPage * limit
    && (r.meta.lastPage > 0 ==> (r.meta.lastPage - 1) * limit < r.meta.total)
    && |r.data| <= limit
    && |r.data| == (if skip >= r.meta.total then 0 else Min(limit, r.meta.total - skip))
    && forall k :: 0 <= k < |r.data| ==> skip + k < |selection| && r.data[k] == WithoutPassword(selection[skip + k])
  }

  /** `skip = (page - 1) * limit` */
  function Offset(page: int, limit: int): nat
    requires page >= 1 && limit >= 1
  {
    (page - 1) * limit
  }

  /**
   * The where object of `findAll`, assembled field by field: a search
   * becomes a case-insensitive match on username or email, and an
   * `isActive` string becomes the condition `isActive == (s == 'true')`.
   */
  method BuildWhere(q: QueryUserDto) returns (w: Where)
    ensures forall u :: Holds(u, w) <==> Selected(q, u)
    ensures forall s :: Filter(s, w) == Selection(s, q)
  {
    w := Everything;
    if q.search.Some? && q.search.value != "" {
      w := Or(UsernameContains(q.search.value), EmailContains(q.search.value));
    }
    if q.isActive.Some? {
      w := And(w, IsActiveEquals(q.isActive.value == "true"));
    }
    assert w == WhereOf(q);
    WhereMeansSelected(q, w);
    forall s ensures Filter(s, w) == Selection(s, q) {
      FilterIsSelection(s, w, q);
    }
  }

  /** Whether the listing query `q` selects the user `u`. */
  predicate Selected(q: QueryUserDto, u: User) {
    (q.search.Some? && q.search.value != "" ==>
       IncludesInsensitive(u.username, q.search.value) || IncludesInsensitive(u.email, q.search.value)) &&
    (q.isActive.Some? ==> u.isActive == (q.isActive.value == "true"))
  }

  /** The users `q` selects, in store order. */
  function Selection(s: seq<User>, q: QueryUserDto): seq<User> {
    if s == [] then []
    else if Selected(q, s[0]) then [s[0]] + Selection(s[1..], q)
    else Selection(s[1..], q)
  }

  /** The where object `findAll` assembles means exactly `Selected`. */
  lemma WhereMeansSelected(q: QueryUserDto, w: Where)
    requires w == WhereOf(q)
    ensures forall u :: Holds(u, w) <==> Selected(q, u)
  {
    var search := if q.search.Some? && q.search.value != ""
                  then Or(UsernameContains(q.search.value), EmailContains(q.search.value))
                  else Everything;
    forall u ensures Holds(u, search) <==>
      (q.search.Some? && q.search.value != "" ==>
         IncludesInsensitive(u.username, q.search.value) || IncludesInsensitive(u.email, q.search.value))
    {
      if q.search.Some? && q.search.value != "" {
        assert Holds(u, UsernameContains(q.search.value)) <==> IncludesInsensitive(u.username, q.search.value);
        assert Holds(u, EmailContains(q.search.value)) <==> IncludesInsensitive(u.email, q.search.value);
      }
    }
    if q.isActive.Some? {
      var active := IsActiveEquals(q.isActive.value == "true");
      assert forall u :: Holds(u, active) <==> u.isActive == (q.isActive.value == "true");
      assert forall u :: Holds(u, And(search, active)) <==> Holds(u, search) && Holds(u, active);
    }
  }

  /** The where object `findAll` ends up with, as one expression. */
  function WhereOf(q: QueryUserDto): Where {
    var search := if q.search.Some? && q.search.value != ""
                  then Or(UsernameContains(q.search.value), EmailContains(q.search.value))
                  else Everything;
    if q.isActive.Some? then And(search, IsActiveEquals(q.isActive.value == "true")) else search
  }

  /** Two filters that agree on every row select the same rows. */
  lemma {:induction false} FilterIsSelection(s: seq<User>, w: Where, q: QueryUserDto)
    requires forall u :: Holds(u, w) <==> Selected(q, u)
    ensures Filter(s, w) == Selection(s, q)
  {
    if s != [] {
      FilterIsSelection(s[1..], w, q);
    }
  }

  /**
   * `(sortBy ?? 'createdAt_desc').split('_')` read as `[field, order]`: for
   * every allowed value both parts exist, the field is a sortable column and
   * the order a direction, and joining them back gives the value.
   */
  function SortKey(sortBy: Option<string>): (r: OrderBy)
    requires sortBy.None? || sortBy.value in SORT_OPTIONS
    ensures r.field in {"createdAt", "username"} && r.order in {"asc", "desc"}
    ensures Join([r.field, r.order], '_') == sortBy.GetOr(DEFAULT_SORT)
  {
    var parts := Split(sortBy.GetOr(DEFAULT_SORT), '_');
    SortOptionsSplit(sortBy.GetOr(DEFAULT_SORT));
    OrderBy(parts[0], parts[1])
  }

  /** Each allowed sort option splits into a column and a direction. */
  lemma SortOptionsSplit(s: string)
    requires s in SORT_OPTIONS
    ensures |Split(s, '_')| == 2
    ensures Split(s, '_')[0] in {"createdAt", "username"} && Split(s, '_')[1] in {"asc", "desc"}
    ensures Join(Split(s, '_'), '_') == s
  {
    var field, order;
    if s == "createdAt_asc" {
      field, order := "createdAt", "asc";
    } else if s == "createdAt_desc" {
      field, order := "createdAt", "desc";
    } else if s == "username_asc" {
      field, order := "username", "asc";
    } else {
      field, order := "username", "desc";
    }
    assert Join([field, order], '_') == field + "_" + order;
    assert Join([field, order], '_') == s;
    SplitJoin([field, order], '_');
  }

  /** `Math.ceil(total / limit)` on integers. */
  function CeilDiv(total: nat, limit: int): (pages: nat)
    requires limit >= 1
    ensures total <= pages * limit
    ensures pages > 0 ==> (pages - 1) * limit < total
  {
    var pages := (total + limit - 1) / limit;
    CeilDivBounds(total, limit, pages);
    pages
  }

  lemma CeilDivBounds(total: nat, limit: int, pages: int)
    requires limit >= 1 && pages == (total + limit - 1) / limit
    ensures pages >= 0
    ensures total <= pages * limit
    ensures pages > 0 ==> (pages - 1) * limit < total
  {
    var m := total + limit - 1;
    assert m == pages * limit + m % limit;
  }

  /**
   * Validation accepts "1" and "0" as boolean strings, but the filter tests
   * `isActive === 'true'`: "1" selects exactly the inactive users.
   */
  lemma OneSelectsInactive(u: User)
    ensures var q := QueryUserDto(None, None, None, Some("1"), None);
            Valid(q) && (Selected(q, u) <==> !u.isActive)
  {
  }
}
