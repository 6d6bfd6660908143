/** `mockApi`: the session service bound to the one in-memory account table it mutates. */
module MockApi {
  import opened Wrappers
  import opened Types
  import SessionService
  import Token

  class UserStore {
    /** The in-memory table, `USERS_DB`. */
    var users: seq<SessionService.Account>
    /** What was last written to the persistent slot. */
    ghost var persisted: seq<SessionService.Account>

    ghost predicate Valid()
      reads this
    {
      SessionService.WellFormed(users) && persisted == users
    }

    /** Loading the table from the persistent slot at start-up. */
    constructor (loaded: seq<SessionService.Account>)
      requires SessionService.WellFormed(loaded)
      ensures Valid() && users == loaded
    {
      users := loaded;
      persisted := loaded;
    }

    /** `register`: a duplicate email is refused and the table left alone; otherwise one record is
        pushed and the whole table written back. */
    method Register(name: string, email: string, password: string, governmentId: string, createdAt: string)
      returns (r: Result<()>)
      requires Valid()
      modifies this
      ensures Valid()
      ensures SessionService.HasEmail(old(users), email) ==>
        r == Err(SessionService.UserAlreadyExists) && users == old(users)
      ensures !SessionService.HasEmail(old(users), email) ==>
        r == Ok(()) && users == old(users) + [SessionService.Account(|old(users)| + 1, name, email, password, governmentId, createdAt)]
      ensures match SessionService.Register(old(users), name, email, password, governmentId, createdAt)
        case Ok(db) => r == Ok(()) && users == db
        case Err(m) => r == Err(m) && users == old(users)
    {
      SessionService.RegisterPreservesWellFormed(users, name, email, password, governmentId, createdAt);
      var existing := SessionService.Find(users, (u: SessionService.Account) => u.email == email);
      if existing.Some? {
        return Err(SessionService.UserAlreadyExists);
      }
      var newUser := SessionService.Account(|users| + 1, name, email, password, governmentId, createdAt);
      users := users + [newUser];
      persisted := users;
      return Ok(());
    }

    /** `login` reads the table and changes nothing. */
    method Login(email: string, password: string) returns (r: Result<AuthResponse>)
      ensures r == SessionService.Login(users, email, password)
    {
      r := SessionService.Login(users, email, password);
    }

    /** `getProfile` reads the table and changes nothing. */
    method GetProfile(token: string) returns (r: Result<UserProfile>)
      ensures r == SessionService.GetProfile(users, token)
    {
      r := SessionService.GetProfile(users, token);
    }
  }

  /** A first session on an empty table: register, log in with a wrong password, log in, read the
      profile, then register the same email again under another name. */
  method FirstSession(name: string, email: string, password: string, governmentId: string, createdAt: string,
                      wrongPassword: string, name2: string, password2: string, governmentId2: string)
    returns (profile: Result<UserProfile>, wrongLogin: Result<AuthResponse>, secondRegister: Result<()>)
    requires wrongPassword != password
    ensures profile == Ok(UserProfile(1, name, email, governmentId, createdAt))
    ensures wrongLogin == Err(SessionService.InvalidCredentials)
    ensures secondRegister == Err(SessionService.UserAlreadyExists)
  {
    var store := new UserStore([]);
    var registered := store.Register(name, email, password, governmentId, createdAt);
    ghost var db := store.users;
    assert db == [SessionService.Account(1, name, email, password, governmentId, createdAt)];
    wrongLogin := store.Login(email, wrongPassword);
    assert !SessionService.Matches(db[0], email, wrongPassword);
    var login := store.Login(email, password);
    SessionService.LoginAfterRegister([], name, email, password, governmentId, createdAt);
    profile := store.GetProfile(login.value.token);
    SessionService.GetProfileOfMintedToken(db, 0);
    assert db[0].email == email;
    secondRegister := store.Register(name2, email, password2, governmentId2, createdAt);
  }
}
