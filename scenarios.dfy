/** Registration and the password-reset flow run end to end on small stores. */
module Scenarios {
  import opened Common
  import opened Crypto
  import opened UserStore
  import opened Repository
  import opened UsersQuery
  import opened UsersCommand
  import opened Jwt
  import opened Auth

  /** Builds the services over one repository holding `initial`. */
  method Wire(initial: seq<User>, c: Crypto, sign: JwtPayload -> string) returns (auth: AuthService)
    requires IdsUnique(initial)
    ensures fresh(auth) && fresh(auth.usersRepository)
    ensures auth.Valid() && auth.crypto == c && auth.usersRepository.users == initial
  {
    var repository := new UsersRepository(initial);
    var commands := new UsersCommandService(repository, c);
    var queries := new UsersQueryService(repository);
    auth := new AuthService(commands, queries, repository, sign, c);
  }

  /** Register alice on an empty store, then refuse a second alice with another email. */
  method RegisterScenario(c: Crypto, sign: JwtPayload -> string) {
    var auth := Wire([], c, sign);
    var alice := auth.Register(CreateUserDto("alice", "a@x.io", "password1"), "salt0", "u1");
    assert alice.Ok? && |auth.usersRepository.users| == 1;
    assert auth.usersRepository.users[0] in auth.usersRepository.users;
    var twin := auth.Register(CreateUserDto("alice", "b@x.io", "password2"), "salt1", "u2");
    assert twin == Err(Conflict);
  }

  /** A stored user with no reset in progress. */
  const Alice: User := User("u1", "alice", "a@x.io", "h0", "USER", true, None, None)

  /** Issue a reset secret to alice and refuse a wrong guess. */
  method WrongGuessScenario(c: Crypto, sign: JwtPayload -> string)
    requires Sound(c)
  {
    var auth := Wire([Alice], c, sign);
    var initiated := auth.ForgotPassword("a@x.io", "secret", 1000);
    assert initiated == PasswordResetInitiated;
    assert auth.usersRepository.users[0].resetToken == Some(c.sha256Hex("secret"));
    assert c.sha256Hex("guess") != c.sha256Hex("secret");
    var wrong := auth.ResetPassword("guess", "newpass12", "salt2", 2000);
    assert wrong == Err(UnprocessableEntity);
  }

  /** Issue a reset secret to alice, redeem it once and refuse it the second time. */
  method ResetScenario(c: Crypto, sign: JwtPayload -> string) {
    var auth := Wire([Alice], c, sign);
    var initiated := auth.ForgotPassword("nobody@x.io", "other", 1000);
    assert auth.usersRepository.users == [Alice];
    initiated := auth.ForgotPassword("a@x.io", "secret", 1000);
    assert Redeemable(auth.usersRepository.users[0], c.sha256Hex("secret"), 2000);
    var reset := auth.ResetPassword("secret", "newpass12", "salt2", 2000);
    assert reset == Ok(PasswordResetSuccess);
    assert auth.usersRepository.users[0].resetToken.None?;
    var replay := auth.ResetPassword("secret", "newpass34", "salt3", 2000);
    assert replay == Err(UnprocessableEntity);
  }
}
