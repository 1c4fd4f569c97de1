/** Username-or-email and password login. */
module LocalStrategy {
  import opened Common
  import opened UserStore
  import opened Auth

  class LocalStrategy {
    const authService: AuthService

    constructor (authService: AuthService)
      ensures this.authService == authService
    {
      this.authService := authService;
    }

    /**
     * `validate(identifier, pass)`: the user `validateUser` accepts, or one
     * Unauthorized "Invalid credentials." whatever the reason.
     */
    function Validate(identifier: string, pass: string): (r: Result<PublicUser>)
      reads authService.usersQueryService.repository
      ensures r.Err? <==> authService.ValidateUser(identifier, pass).None?
      ensures r.Err? ==> r.error == Unauthorized(InvalidCredentials)
      ensures r.Ok? ==> authService.ValidateUser(identifier, pass) == Some(r.value)
    {
      match authService.ValidateUser(identifier, pass)
      case None => Err(Unauthorized(InvalidCredentials))
      case Some(user) => Ok(user)
    }
  }

  /**
   * An unknown identifier and a wrong password for a known one fail with the
   * same error, so a caller cannot tell which identifiers exist.
   */
  lemma UnknownAndWrongPasswordLookAlike(ls: LocalStrategy, unknown: string, p1: string, known: string, p2: string)
    requires forall u :: u in ls.authService.usersQueryService.repository.users ==>
               u.email != unknown && u.username != unknown
    requires var found := ls.authService.usersQueryService.repository.FindOneByEmailOrUsername(known);
             found.Some? && !ls.authService.crypto.bcryptCompare(p2, found.value.password)
    ensures ls.Validate(unknown, p1) == ls.Validate(known, p2) == Err(Unauthorized(InvalidCredentials))
  {
  }
}
