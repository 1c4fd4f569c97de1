/** Bearer-token subject validation: the claims are checked against the live store. */
module Jwt {
  import opened Common
  import opened UserStore
  import opened Repository
  import opened UsersQuery

  /** The claims a session token carries. */
  datatype JwtPayload = JwtPayload(sub: string, username: string, email: string, role: string)

  /** The options handed to the token library. */
  datatype StrategyOptions = StrategyOptions(
    fromAuthHeaderAsBearerToken: bool,
    ignoreExpiration: bool,
    secretOrKey: string)

  /**
   * The constructor's check of the `JWT_SECRET` setting: a missing or empty
   * secret aborts start-up; otherwise tokens are read from the bearer header,
   * expired tokens are refused and the secret is the verification key.
   */
  function Configure(jwtSecret: Option<string>): (r: Result<StrategyOptions>)
    ensures r.Err? <==> jwtSecret.None? || jwtSecret.value == ""
    ensures r.Err? ==> r.error == MissingJwtSecret
    ensures r.Ok? ==> r.value.secretOrKey == jwtSecret.value && r.value.secretOrKey != "" &&
                      r.value.fromAuthHeaderAsBearerToken && !r.value.ignoreExpiration
  {
    if jwtSecret.None? || jwtSecret.value == "" then Err(MissingJwtSecret)
    else Ok(StrategyOptions(true, false, jwtSecret.value))
  }

  class JwtStrategy {
    const options: StrategyOptions
    const usersQueryService: UsersQueryService

    /** Built only from options that `Configure` accepted. */
    constructor (options: StrategyOptions, usersQueryService: UsersQueryService)
      requires options.secretOrKey != ""
      ensures this.options == options && this.usersQueryService == usersQueryService
    {
      this.options := options;
      this.usersQueryService := usersQueryService;
    }

    /**
     * `validate(payload)`, run after the token's signature and expiry have
     * been checked: NotFound when no user has the subject id (raised by the
     * lookup, before any other check), Unauthorized when that user is
     * inactive, and otherwise the user as stored now, not as the claims
     * describe it.
     */
    function Validate(payload: JwtPayload): (r: Result<PublicUser>)
      reads usersQueryService.repository
      requires usersQueryService.repository.Valid()
      ensures r == Err(NotFound(payload.sub)) <==> !HasId(usersQueryService.repository.users, payload.sub)
      ensures r == Err(Unauthorized(InvalidOrDeactivated)) <==>
                exists u :: u in usersQueryService.repository.users && u.id == payload.sub && !u.isActive
      ensures r.Ok? <==> exists u :: u in usersQueryService.repository.users && u.id == payload.sub && u.isActive
      ensures r.Ok? ==> forall u :: u in usersQueryService.repository.users && u.id == payload.sub ==>
                          r.value == WithoutPassword(u)
    {
      var users := usersQueryService.repository.users;
      assert forall u, v :: u in users && v in users && u.id == v.id ==> u == v;
      match usersQueryService.FindOneById(payload.sub)
      case Err(e) => Err(e)
      case Ok(user) =>
        if !user.isActive then Err(Unauthorized(InvalidOrDeactivated)) else Ok(user)
    }
  }
}
