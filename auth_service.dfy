/**
 * Registration, credential checking, session-token claims and the
 * forgot/reset password flow.
 */
module Auth {
  import opened Common
  import opened Crypto
  import opened UserStore
  import opened Repository
  import opened UsersQuery
  import opened UsersCommand
  import opened Jwt

  /** A reset secret is redeemable for 15 minutes, in milliseconds. */
  const RESET_TOKEN_TTL_MS: int := 15 * 60 * 1000

  /** The body of a successful login. */
  datatype LoginResult = LoginResult(accessToken: string)

  /** The claims `login` signs for a user. */
  function Claims(user: PublicUser): JwtPayload {
    JwtPayload(user.id, user.username, user.email, user.role)
  }

  /** The update `forgotPassword` stores: the digest of the secret and its expiry. */
  function IssueReset(digest: string, expiry: int): UserUpdate {
    NoChange.(resetToken := Set(Some(digest)), resetTokenExpiry := Set(Some(expiry)))
  }

  /** The update `resetPassword` stores: the new hash, and both reset columns cleared. */
  function RedeemReset(hashedPassword: string): UserUpdate {
    NoChange.(password := Set(hashedPassword), resetToken := Set(None), resetTokenExpiry := Set(None))
  }

  /** The where object `resetPassword` looks the digest up with. */
  function ResetWhere(digest: string, now: int): Where {
    And(ResetTokenEquals(digest), ResetExpiryAfter(now))
  }

  /** A row the digest can be redeemed against at time `now`: same digest, expiry strictly later. */
  predicate Redeemable(u: User, digest: string, now: int) {
    u.resetToken == Some(digest) && u.resetTokenExpiry.Some? && u.resetTokenExpiry.value > now
  }

  lemma ResetWhereMeansRedeemable(digest: string, now: int)
    ensures forall u :: Holds(u, ResetWhere(digest, now)) <==> Redeemable(u, digest, now)
  {
  }

  class AuthService {
    const usersCommandService: UsersCommandService
    const usersQueryService: UsersQueryService
    const usersRepository: UsersRepository
    const jwtSign: JwtPayload -> string
    const crypto: Crypto

    /** The services share one repository and one set of primitives. */
    ghost predicate Valid()
      reads usersRepository
    {
      usersCommandService.repository == usersRepository &&
      usersQueryService.repository == usersRepository &&
      usersCommandService.crypto == crypto &&
      usersRepository.Valid()
    }

    constructor (usersCommandService: UsersCommandService, usersQueryService: UsersQueryService,
                 usersRepository: UsersRepository, jwtSign: JwtPayload -> string, crypto: Crypto)
      ensures this.usersCommandService == usersCommandService
      ensures this.usersQueryService == usersQueryService
      ensures this.usersRepository == usersRepository
      ensures this.jwtSign == jwtSign && this.crypto == crypto
    {
      this.usersCommandService := usersCommandService;
      this.usersQueryService := usersQueryService;
      this.usersRepository := usersRepository;
      this.jwtSign := jwtSign;
      this.crypto := crypto;
    }

    /** `register`: exactly the command service's `create`. */
    method Register(dto: CreateUserDto, salt: string, newId: string) returns (r: Result<PublicUser>)
      requires Valid() && !HasId(usersRepository.users, newId)
      modifies usersRepository
      ensures Valid()
      ensures r.Err? <==> exists u :: u in old(usersRepository.users) && BlocksCreate(u, dto.username, dto.email)
      ensures r.Err? ==> r.error == Conflict && usersRepository.users == old(usersRepository.users)
      ensures r.Ok? ==>
        var created := NewRecord(newId, UserCreateInput(dto.username, dto.email,
                                                        crypto.bcryptHash(dto.password, SALT_ROUNDS, salt)));
        usersRepository.users == old(usersRepository.users) + [created] && r.value == WithoutPassword(created)
    {
      r := usersCommandService.Create(dto, salt, newId);
    }

    /**
     * `validateUser`: the row found by email or username, without its
     * password, exactly when there is one and the password verifies against
     * its hash; null otherwise.
     */
    function ValidateUser(identifier: string, pass: string): (r: Option<PublicUser>)
      reads usersQueryService.repository
      ensures var found := usersQueryService.repository.FindOneByEmailOrUsername(identifier);
              r.Some? <==> found.Some? && crypto.bcryptCompare(pass, found.value.password)
      ensures r.Some? ==> exists u :: u in usersQueryService.repository.users &&
                            (u.email == identifier || u.username == identifier) &&
                            crypto.bcryptCompare(pass, u.password) && r.value == WithoutPassword(u)
      ensures (forall u :: u in usersQueryService.repository.users ==>
                 u.email != identifier && u.username != identifier) ==> r.None?
    {
      var user := usersQueryService.FindOneWithPassword(identifier);
      if user.Some? && crypto.bcryptCompare(pass, user.value.password) then Some(WithoutPassword(user.value))
      else None
    }

    /** `login`: a token signed over the user's claims. */
    function Login(user: PublicUser): (r: LoginResult)
      ensures exists p: JwtPayload :: r.accessToken == jwtSign(p) &&
                p.sub == user.id && p.username == user.username && p.email == user.email && p.role == user.role
    {
      LoginResult(jwtSign(Claims(user)))
    }

    /**
     * `forgotPassword`: always the same message. When no row has this email
     * or username nothing changes; otherwise that row gets the digest of the
     * fresh secret and an expiry 15 minutes after `now`. The secret is the
     * random input `resetToken`.
     */
    method ForgotPassword(email: string, resetToken: string, now: int) returns (m: Message)
      requires Valid()
      modifies usersRepository
      ensures Valid()
      ensures m == PasswordResetInitiated
      ensures old(usersRepository.FindOneByEmailOrUsername(email)).None? ==>
                usersRepository.users == old(usersRepository.users)
      ensures old(usersRepository.FindOneByEmailOrUsername(email)).Some? ==>
                usersRepository.users ==
                  UpdateAt(old(usersRepository.users), old(usersRepository.FindOneByEmailOrUsername(email)).value.id,
                           IssueReset(crypto.sha256Hex(resetToken), now + RESET_TOKEN_TTL_MS))
    {
      var user := usersRepository.FindOneByEmailOrUsername(email);
      if user.None? {
        return PasswordResetInitiated;
      }
      var hashedToken := crypto.sha256Hex(resetToken);
      var tokenExpiry := now + RESET_TOKEN_TTL_MS;
      var updated := usersRepository.Update(user.value.id, IssueReset(hashedToken, tokenExpiry));
      m := PasswordResetInitiated;
    }

    /**
     * `resetPassword`: UnprocessableEntity, and nothing changes, when no row
     * holds the digest of `token` with an expiry after `now`; otherwise the
     * first such row gets a bcrypt hash of the new password and loses its
     * reset columns.
     */
    method ResetPassword(token: string, newPass: string, salt: string, now: int) returns (r: Result<Message>)
      requires Valid()
      modifies usersRepository
      ensures Valid()
      ensures r.Err? <==> forall u :: u in old(usersRepository.users) ==> !Redeemable(u, crypto.sha256Hex(token), now)
      ensures r.Err? ==> r.error == UnprocessableEntity && usersRepository.users == old(usersRepository.users)
      ensures r.Ok? ==>
        var found := old(First(usersRepository.users, ResetWhere(crypto.sha256Hex(token), now)));
        r.value == PasswordResetSuccess && found.Some? && found.value in old(usersRepository.users) &&
        Redeemable(found.value, crypto.sha256Hex(token), now) &&
        usersRepository.users == UpdateAt(old(usersRepository.users), found.value.id,
                                          RedeemReset(crypto.bcryptHash(newPass, SALT_ROUNDS, salt)))
    {
      var hashedToken := crypto.sha256Hex(token);
      ResetWhereMeansRedeemable(hashedToken, now);
      var user := usersRepository.FindFirst(ResetWhere(hashedToken, now));
      if user.None? {
        return Err(UnprocessableEntity);
      }
      var hashedPassword := crypto.bcryptHash(newPass, SALT_ROUNDS, salt);
      var updated := usersRepository.Update(user.value.id, RedeemReset(hashedPassword));
      r := Ok(PasswordResetSuccess);
    }
  }

  /**
   * A secret issued to row `k` at `now` redeems for exactly that row until,
   * and not at, its expiry; afterwards nothing redeems it. No other row may
   * carry the same digest.
   */
  lemma {:induction false} IssuedSecretWindow(s: seq<User>, k: nat, digest: string, now: int, later: int)
    requires IdsUnique(s) && k < |s|
    requires forall u :: u in s && u.id != s[k].id ==> u.resetToken != Some(digest)
    ensures var t := UpdateAt(s, s[k].id, IssueReset(digest, now + RESET_TOKEN_TTL_MS));
            First(t, ResetWhere(digest, later)) == if later < now + RESET_TOKEN_TTL_MS then Some(t[k]) else None
  {
    var t := UpdateAt(s, s[k].id, IssueReset(digest, now + RESET_TOKEN_TTL_MS));
    ResetWhereMeansRedeemable(digest, later);
    forall j | 0 <= j < |t| && j != k
      ensures !Holds(t[j], ResetWhere(digest, later))
    {
      assert t[j] == s[j] && s[j] in s;
    }
    var r := First(t, ResetWhere(digest, later));
    if later < now + RESET_TOKEN_TTL_MS {
      assert Holds(t[k], ResetWhere(digest, later));
      var i :| 0 <= i < |t| && t[i] == r.value && Holds(t[i], ResetWhere(digest, later));
      assert i == k;
    }
  }

  /** After a redemption the row carries no digest, so no secret redeems against it again. */
  lemma {:induction false} RedeemedSecretIsSpent(s: seq<User>, k: nat, digest: string, hashedPassword: string, later: int)
    requires IdsUnique(s) && k < |s|
    requires forall u :: u in s && u.id != s[k].id ==> u.resetToken != Some(digest)
    ensures var t := UpdateAt(s, s[k].id, RedeemReset(hashedPassword));
            t[k].password == hashedPassword && t[k].resetToken.None? && t[k].resetTokenExpiry.None? &&
            First(t, ResetWhere(digest, later)).None?
  {
    var t := UpdateAt(s, s[k].id, RedeemReset(hashedPassword));
    ResetWhereMeansRedeemable(digest, later);
    forall j | 0 <= j < |t|
      ensures !Holds(t[j], ResetWhere(digest, later))
    {
      if j != k {
        assert t[j] == s[j] && s[j] in s;
      }
    }
  }

  /** A second `forgotPassword` replaces the first: the earlier secret is forgotten. */
  lemma ReissueOverwrites(s: seq<User>, id: string, d1: string, e1: int, d2: string, e2: int)
    ensures UpdateAt(UpdateAt(s, id, IssueReset(d1, e1)), id, IssueReset(d2, e2)) == UpdateAt(s, id, IssueReset(d2, e2))
  {
  }

  /**
   * With a collision-free digest, a guess other than the issued secret never
   * redeems against the row the secret was issued to.
   */
  lemma {:induction false} OnlyIssuedSecretRedeems(c: Crypto, s: seq<User>, k: nat, secret: string, guess: string,
                                                   now: int, later: int)
    requires Sound(c) && IdsUnique(s) && k < |s| && guess != secret
    ensures var t := UpdateAt(s, s[k].id, IssueReset(c.sha256Hex(secret), now + RESET_TOKEN_TTL_MS));
            var r := First(t, ResetWhere(c.sha256Hex(guess), later));
            r.None? || r.value.id != s[k].id
  {
    var t := UpdateAt(s, s[k].id, IssueReset(c.sha256Hex(secret), now + RESET_TOKEN_TTL_MS));
    var r := First(t, ResetWhere(c.sha256Hex(guess), later));
    ResetWhereMeansRedeemable(c.sha256Hex(guess), later);
    if r.Some? {
      var i :| 0 <= i < |t| && t[i] == r.value && Holds(t[i], ResetWhere(c.sha256Hex(guess), later));
      assert c.sha256Hex(guess) != c.sha256Hex(secret);
      assert i != k;
      assert t[i].id == s[i].id != s[k].id;
    }
  }

  /**
   * After a reset, the new password logs the user in by email: the new hash
   * verifies, and with disjoint identifiers the email names that row only.
   */
  lemma ResetThenLogin(a: AuthService, s: seq<User>, k: nat, newPass: string, salt: string)
    requires a.Valid() && Sound(a.crypto) && IdentifiersDisjoint(s) && k < |s|
    requires a.usersRepository.users ==
             UpdateAt(s, s[k].id, RedeemReset(a.crypto.bcryptHash(newPass, SALT_ROUNDS, salt)))
    ensures a.ValidateUser(s[k].email, newPass) == Some(WithoutPassword(a.usersRepository.users[k]))
  {
  }

  /**
   * The claims signed at login validate back to the same user while that
   * user is stored and active.
   */
  lemma LoginClaimsValidate(jwt: JwtStrategy, u: User)
    requires jwt.usersQueryService.repository.Valid()
    requires u in jwt.usersQueryService.repository.users && u.isActive
    ensures jwt.Validate(Claims(WithoutPassword(u))) == Ok(WithoutPassword(u))
  {
  }

  /**
   * Claims are not trusted: a token claiming ADMIN for a user stored with
   * role USER validates to that user with role USER.
   */
  lemma ClaimedRoleIsIgnored(jwt: JwtStrategy, u: User)
    requires jwt.usersQueryService.repository.Valid()
    requires u in jwt.usersQueryService.repository.users && u.isActive && u.role == "USER"
    ensures var r := jwt.Validate(JwtPayload(u.id, u.username, u.email, "ADMIN"));
            r.Ok? && r.value.role == "USER"
  {
  }

  /** A user deactivated after login is refused even with a token signed for them. */
  lemma DeactivatedUserRefused(jwt: JwtStrategy, u: User)
    requires jwt.usersQueryService.repository.Valid()
    requires u in jwt.usersQueryService.repository.users && !u.isActive
    ensures jwt.Validate(Claims(WithoutPassword(u))) == Err(Unauthorized(InvalidOrDeactivated))
  {
  }
}
