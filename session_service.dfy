/** The account table and the three operations of the session service, as functions of the
    table's contents. The table is append-only: `register` is the only operation that changes it. */
module SessionService {
  import opened Wrappers
  import opened Types
  import Token

  /** One stored record of the account table. */
  datatype Account = Account(id: int, name: string, email: string, password: string, governmentId: string, createdAt: string)

  const UserAlreadyExists: string := "User already exists"
  const InvalidCredentials: string := "Invalid credentials"
  const InvalidToken: string := "Invalid token!"

  /** The profile `getProfile` builds from a record: all of it but the password. */
  function ProfileOf(a: Account): UserProfile {
    UserProfile(a.id, a.name, a.email, a.governmentId, a.createdAt)
  }

  /** `Array.prototype.find`, giving the index of the first element satisfying `p`. */
  function Find<T>(s: seq<T>, p: T -> bool): (r: Option<nat>)
    ensures r.Some? ==> r.value < |s| && p(s[r.value])
    ensures r.Some? ==> forall j :: 0 <= j < r.value ==> !p(s[j])
    ensures r.None? ==> forall j :: 0 <= j < |s| ==> !p(s[j])
  {
    if s == [] then None
    else if p(s[0]) then Some(0)
    else match Find(s[1..], p)
      case None => None
      case Some(k) => Some(k + 1)
  }

  /** No two records share an email. */
  predicate UniqueEmails(db: seq<Account>) {
    forall i, j :: 0 <= i < j < |db| ==> db[i].email != db[j].email
  }

  /** The record at index `i` has id `i + 1`. */
  predicate IdsArePositions(db: seq<Account>) {
    forall i :: 0 <= i < |db| ==> db[i].id == i + 1
  }

  /** What every table built by `register` from an empty table satisfies. */
  predicate WellFormed(db: seq<Account>) {
    UniqueEmails(db) && IdsArePositions(db)
  }

  predicate HasEmail(db: seq<Account>, email: string) {
    exists i :: 0 <= i < |db| && db[i].email == email
  }

  predicate Matches(a: Account, email: string, password: string) {
    a.email == email && a.password == password
  }

  /** `register`: refuse an email already present, otherwise append a record whose id is the
      previous length plus one. The result is the new table. */
  function Register(db: seq<Account>, name: string, email: string, password: string,
                    governmentId: string, createdAt: string): (r: Result<seq<Account>>)
    ensures r.Err? <==> HasEmail(db, email)
    ensures r.Err? ==> r.message == UserAlreadyExists
    ensures r.Ok? ==> |r.value| == |db| + 1 && r.value[..|db|] == db
    ensures r.Ok? ==> r.value[|db|] == Account(|db| + 1, name, email, password, governmentId, createdAt)
  {
    match Find(db, (u: Account) => u.email == email)
    case Some(_) => Err(UserAlreadyExists)
    case None => Ok(db + [Account(|db| + 1, name, email, password, governmentId, createdAt)])
  }

  /** `login`: the token of the first record matching both email and password, and one error
      that does not say which of the two was wrong. */
  function Login(db: seq<Account>, email: string, password: string): (r: Result<AuthResponse>)
    ensures r.Ok? <==> exists i :: 0 <= i < |db| && Matches(db[i], email, password)
    ensures r.Ok? ==>
      exists i :: 0 <= i < |db| && Matches(db[i], email, password) &&
        (forall j :: 0 <= j < i ==> !Matches(db[j], email, password)) &&
        r.value.token == Token.Mint(db[i].id)
    ensures r.Err? ==> r.message == InvalidCredentials
  {
    match Find(db, (u: Account) => Matches(u, email, password))
    case None => Err(InvalidCredentials)
    case Some(i) => Ok(AuthResponse(Token.Mint(db[i].id)))
  }

  /** `getProfile`: the profile of the first record whose id equals the id read from the token;
      a NaN id equals no id. */
  function GetProfile(db: seq<Account>, token: string): (r: Result<UserProfile>)
    ensures r.Ok? <==>
      Token.Parse(token).Some? && exists i :: 0 <= i < |db| && db[i].id == Token.Parse(token).value
    ensures r.Ok? ==>
      exists i :: 0 <= i < |db| && db[i].id == Token.Parse(token).value &&
        (forall j :: 0 <= j < i ==> db[j].id != Token.Parse(token).value) &&
        r.value == ProfileOf(db[i])
    ensures r.Err? ==> r.message == InvalidToken
  {
    var userId := Token.Parse(token);
    match Find(db, (u: Account) => Some(u.id) == userId)
    case None => Err(InvalidToken)
    case Some(i) => Ok(ProfileOf(db[i]))
  }

  /** `register` keeps both table invariants. */
  lemma RegisterPreservesWellFormed(db: seq<Account>, name: string, email: string, password: string,
                                    governmentId: string, createdAt: string)
    requires WellFormed(db)
    ensures Register(db, name, email, password, governmentId, createdAt).Ok? ==>
      WellFormed(Register(db, name, email, password, governmentId, createdAt).value)
  {
    var r := Register(db, name, email, password, governmentId, createdAt);
    if r.Ok? {
      var db' := r.value;
      forall i | 0 <= i < |db'| ensures db'[i].id == i + 1 {
        if i < |db| { assert db'[i] == db'[..|db|][i]; }
      }
      forall i, j | 0 <= i < j < |db'| ensures db'[i].email != db'[j].email {
        assert db'[i] == db'[..|db|][i];
        if j < |db| { assert db'[j] == db'[..|db|][j]; }
      }
    }
  }

  /** Registering an email a second time fails, whatever the other fields are. */
  lemma RegisterSameEmailTwice(db: seq<Account>, name: string, email: string, password: string,
                               governmentId: string, createdAt: string,
                               name2: string, password2: string, governmentId2: string, createdAt2: string)
    requires Register(db, name, email, password, governmentId, createdAt).Ok?
    ensures Register(Register(db, name, email, password, governmentId, createdAt).value,
                     name2, email, password2, governmentId2, createdAt2) == Err(UserAlreadyExists)
  {
    var db' := Register(db, name, email, password, governmentId, createdAt).value;
    assert db'[|db|].email == email;
  }

  /** Logging in as an account just registered yields the token of the new id. */
  lemma LoginAfterRegister(db: seq<Account>, name: string, email: string, password: string,
                           governmentId: string, createdAt: string)
    requires WellFormed(db)
    requires Register(db, name, email, password, governmentId, createdAt).Ok?
    ensures Login(Register(db, name, email, password, governmentId, createdAt).value, email, password)
      == Ok(AuthResponse(Token.Mint(|db| + 1)))
  {
    var db' := Register(db, name, email, password, governmentId, createdAt).value;
    assert Matches(db'[|db|], email, password);
    forall j | 0 <= j < |db| ensures !Matches(db'[j], email, password) {
      assert db'[j] == db'[..|db|][j];
    }
  }

  /** Registration does not change the outcome of a login that already succeeded. */
  lemma RegisterKeepsLogins(db: seq<Account>, name: string, email: string, password: string,
                            governmentId: string, createdAt: string, email2: string, password2: string)
    requires Register(db, name, email, password, governmentId, createdAt).Ok?
    requires Login(db, email2, password2).Ok?
    ensures Login(Register(db, name, email, password, governmentId, createdAt).value, email2, password2)
      == Login(db, email2, password2)
  {
    var db' := Register(db, name, email, password, governmentId, createdAt).value;
    assert forall j :: 0 <= j < |db| ==> db'[j] == db[j] by {
      forall j | 0 <= j < |db| ensures db'[j] == db[j] { assert db'[j] == db'[..|db|][j]; }
    }
    var r1, r2 := Login(db, email2, password2), Login(db', email2, password2);
    var i :| 0 <= i < |db| && Matches(db[i], email2, password2) &&
      (forall j :: 0 <= j < i ==> !Matches(db[j], email2, password2)) &&
      r1.value.token == Token.Mint(db[i].id);
    assert Matches(db'[i], email2, password2);
    assert r2.Ok?;
    var k :| 0 <= k < |db'| && Matches(db'[k], email2, password2) &&
      (forall j :: 0 <= j < k ==> !Matches(db'[j], email2, password2)) &&
      r2.value.token == Token.Mint(db'[k].id);
    assert k == i;
    assert r1.value.token == r2.value.token;
  }

  /** In a well-formed table the token minted for record `i` names that record and no other. */
  lemma GetProfileOfMintedToken(db: seq<Account>, i: nat)
    requires WellFormed(db) && i < |db|
    ensures GetProfile(db, Token.Mint(db[i].id)) == Ok(ProfileOf(db[i]))
  {
    Token.ParseMint(db[i].id);
  }

  /** In a well-formed table a token is accepted exactly when it decodes to an id between 1 and
      the table's length, and then gives the record at that position. */
  lemma GetProfileInWellFormed(db: seq<Account>, token: string)
    requires WellFormed(db)
    ensures GetProfile(db, token).Ok? <==> Token.Parse(token).Some? && 1 <= Token.Parse(token).value <= |db|
    ensures GetProfile(db, token).Ok? ==> GetProfile(db, token).value == ProfileOf(db[Token.Parse(token).value - 1])
  {
    var p := Token.Parse(token);
    if p.Some? && 1 <= p.value <= |db| {
      assert db[p.value - 1].id == p.value;
    }
  }

  /** The profile `getProfile` returns for the token `login` minted is that of the account the
      login matched: its email is the one logged in with. */
  lemma ProfileAfterLogin(db: seq<Account>, email: string, password: string)
    requires WellFormed(db)
    requires Login(db, email, password).Ok?
    ensures exists i :: 0 <= i < |db| && Matches(db[i], email, password) &&
                        GetProfile(db, Login(db, email, password).value.token) == Ok(ProfileOf(db[i]))
    ensures GetProfile(db, Login(db, email, password).value.token).Ok?
    ensures GetProfile(db, Login(db, email, password).value.token).value.email == email
  {
    var i :| 0 <= i < |db| && Matches(db[i], email, password) &&
      (forall j :: 0 <= j < i ==> !Matches(db[j], email, password)) &&
      Login(db, email, password).value.token == Token.Mint(db[i].id);
    GetProfileOfMintedToken(db, i);
  }

  /** Two tables that differ only in their passwords give the same profiles: `getProfile` never
      depends on, nor reveals, a password. */
  lemma GetProfileIgnoresPasswords(db: seq<Account>, db2: seq<Account>, token: string)
    requires |db| == |db2|
    requires forall i :: 0 <= i < |db| ==> db2[i] == db[i].(password := db2[i].password)
    ensures GetProfile(db, token) == GetProfile(db2, token)
  {
    assert forall i :: 0 <= i < |db| ==> ProfileOf(db[i]) == ProfileOf(db2[i]);
    var p := Token.Parse(token);
    var r1, r2 := GetProfile(db, token), GetProfile(db2, token);
    if r1.Ok? && r2.Ok? {
      var i :| 0 <= i < |db| && db[i].id == p.value &&
        (forall j :: 0 <= j < i ==> db[j].id != p.value) && r1.value == ProfileOf(db[i]);
      var k :| 0 <= k < |db2| && db2[k].id == p.value &&
        (forall j :: 0 <= j < k ==> db2[j].id != p.value) && r2.value == ProfileOf(db2[k]);
      assert db2[i].id == db[i].id && db[k].id == db2[k].id;
      assert i == k;
    }
  }
}
