/** Accounts (models/users.ts): sign-up with schema checks and a unique
    email, sign-in with its three outcomes and the token payload, and the
    lookup by id. The password hash, its comparison and the token signature
    are functions passed in. */
module Users {
  import opened Common
  import opened Validator
  import opened Db
  import opened Responses

  const MinPassword: nat := 8
  const MaxPassword: nat := 50
  const MaxName: nat := 100
  /** `dayjs().add(1, "day")` in seconds. */
  const TokenLifetime: int := 86400

  /** `v.nullable(v.pipe(v.string(), v.maxLength(100)))`. */
  predicate IsValidName(v: JsValue)
  {
    v.Null? || IsStringUpTo(v, MaxName)
  }

  predicate IsValidEmail(v: JsValue, isEmail: string -> bool)
  {
    v.Str? && isEmail(v.s)
  }

  function SignUpIssues(email: JsValue, password: JsValue, name: JsValue, isEmail: string -> bool): seq<Issue>
  {
    Check("email", IsValidEmail(email, isEmail))
      + Check("password", IsStringBetween(password, MinPassword, MaxPassword))
      + Check("name", IsValidName(name))
  }

  /** The schema accepts the input exactly when every field is valid, and
      names each field that is not. */
  lemma SignUpIssuesExact(email: JsValue, password: JsValue, name: JsValue, isEmail: string -> bool)
    ensures var issues := SignUpIssues(email, password, name, isEmail);
      && (issues == [] <==>
            IsValidEmail(email, isEmail) && IsStringBetween(password, MinPassword, MaxPassword) && IsValidName(name))
      && (SchemaIssue("email") in issues <==> !IsValidEmail(email, isEmail))
      && (SchemaIssue("password") in issues <==> !IsStringBetween(password, MinPassword, MaxPassword))
      && (SchemaIssue("name") in issues <==> !IsValidName(name))
  {
  }

  function NameOf(v: JsValue): Option<string>
  {
    if v.Str? then Some(v.s) else None
  }

  predicate HasEmail(users: seq<User>, email: string)
  {
    exists i | 0 <= i < |users| :: users[i].email == email
  }

  /** `signUp({ email, password, name })`; `hash` is bcrypt's hash with the
      salt already drawn. The new row takes the next value of the id sequence. */
  function SignUpStep(t: Tables, email: JsValue, password: JsValue, name: JsValue,
                      isEmail: string -> bool, hash: string -> string): (s: Step<User>)
    ensures s.response.Success? <==>
      SignUpIssues(email, password, name, isEmail) == [] && !HasEmail(t.users, email.s)
    ensures !s.response.Success? ==> s.tables == t
    ensures s.response.Success? ==>
      && s.tables == t.(users := t.users + [s.response.value], nextUserId := t.nextUserId + 1)
      && s.response.value.id == t.nextUserId && s.response.value.passwordDigest == hash(password.s)
  {
    var issues := SignUpIssues(email, password, name, isEmail);
    if issues != [] then Step(t, Failure(issues))
    else if HasEmail(t.users, email.s) then Step(t, Failure([UniqueValidationError("email")]))
    else
      var user := User(t.nextUserId, email.s, NameOf(name), hash(password.s));
      Step(t.(users := t.users + [user], nextUserId := t.nextUserId + 1), Success(user))
  }

  method SignUp(db: Database, email: JsValue, password: JsValue, name: JsValue,
                isEmail: string -> bool, hash: string -> string)
    returns (r: Response<User>)
    modifies db
    ensures Step(db.Snapshot(), r) == SignUpStep(old(db.Snapshot()), email, password, name, isEmail, hash)
  {
    var issues := SignUpIssues(email, password, name, isEmail);
    if issues != [] {
      return Failure(issues);
    }
    var passwordDigest := hash(password.s);
    var existed := FirstWhere(db.users, (u: User) => u.email == email.s);
    if existed.Some? {
      return Failure([UniqueValidationError("email")]);
    }
    var user := User(db.nextUserId, email.s, NameOf(name), passwordDigest);
    db.users := db.users + [user];
    db.nextUserId := db.nextUserId + 1;
    return Success(user);
  }

  /** A password outside 8..50 characters or a name over 100 characters is
      refused, with no insert. */
  lemma SignUpRejectsBadInput(t: Tables, email: JsValue, password: JsValue, name: JsValue,
                              isEmail: string -> bool, hash: string -> string)
    requires || (password.Str? && (|password.s| < MinPassword || |password.s| > MaxPassword))
             || (name.Str? && |name.s| > MaxName)
    ensures var s := SignUpStep(t, email, password, name, isEmail, hash);
      s.tables == t && s.response.Failure? && s.response.issues != []
  {
  }

  /** An email already in the table is refused with
      `uniqueValidationError("email")`, with no insert. */
  lemma SignUpDuplicateEmail(t: Tables, email: JsValue, password: JsValue, name: JsValue,
                             isEmail: string -> bool, hash: string -> string)
    requires SignUpIssues(email, password, name, isEmail) == []
    requires exists u | u in t.users :: Str(u.email) == email
    ensures SignUpStep(t, email, password, name, isEmail, hash) == Step(t, Failure([UniqueValidationError("email")]))
  {
    var u :| u in t.users && Str(u.email) == email;
    var i :| 0 <= i < |t.users| && t.users[i] == u;
  }

  /** A successful sign-up inserts exactly one user, under a new id, with
      the given email and name and the hash of the password. */
  lemma SignUpInserts(t: Tables, email: JsValue, password: JsValue, name: JsValue,
                      isEmail: string -> bool, hash: string -> string)
    requires UsersValid(t)
    requires SignUpStep(t, email, password, name, isEmail, hash).response.Success?
    ensures var s := SignUpStep(t, email, password, name, isEmail, hash);
      var u := s.response.value;
      && email.Str? && password.Str?
      && s.tables == t.(users := t.users + [u], nextUserId := t.nextUserId + 1)
      && u.email == email.s && u.name == NameOf(name) && u.passwordDigest == hash(password.s)
      && (forall v | v in t.users :: v.id != u.id && v.email != u.email)
  {
    var u := SignUpStep(t, email, password, name, isEmail, hash).response.value;
    forall v | v in t.users ensures v.id != u.id && v.email != u.email {
      var i :| 0 <= i < |t.users| && t.users[i] == v;
    }
  }

  predicate DistinctAccounts(a: User, b: User)
  {
    a.id != b.id && a.email != b.email
  }

  /** Ids and emails are unique, and every id was drawn from the sequence. */
  ghost predicate UsersValid(t: Tables)
  {
    && Pairwise(t.users, DistinctAccounts)
    && forall u | u in t.users :: u.id < t.nextUserId
  }

  lemma SignUpPreservesUsersValid(t: Tables, email: JsValue, password: JsValue, name: JsValue,
                                  isEmail: string -> bool, hash: string -> string)
    requires UsersValid(t)
    ensures UsersValid(SignUpStep(t, email, password, name, isEmail, hash).tables)
  {
    var s := SignUpStep(t, email, password, name, isEmail, hash);
    if s.response.Success? {
      SignUpInserts(t, email, password, name, isEmail, hash);
      PairwiseAppend(t.users, s.response.value, DistinctAccounts);
    }
  }

  /** `find(id)`. */
  function FindUser(users: seq<User>, id: int): (r: Option<User>)
    ensures r.Some? ==> r.value in users && r.value.id == id
    ensures r.None? <==> forall u | u in users :: u.id != id
  {
    match FirstWhere(users, (u: User) => u.id == id)
    case None => None
    case Some(i) => Some(users[i])
  }

  // ---------------------------------------------------------------------
  // sign-in

  datatype JwtPayload = JwtPayload(sub: int, exp: int)

  datatype SignedInUser = SignedInUser(id: int, email: string, name: Option<string>)

  datatype SignInResponse = SignInResponse(jwtToken: string, user: SignedInUser)

  const PasswordMismatch: Issue := Expectation("password", "match", "Password does not match")

  function SignInIssues(email: JsValue, password: JsValue, isEmail: string -> bool): seq<Issue>
  {
    Check("email", IsValidEmail(email, isEmail))
      + Check("password", IsStringBetween(password, MinPassword, MaxPassword))
  }

  /** `user.name || undefined`: a null or empty name is left out. */
  function ReportedName(name: Option<string>): Option<string>
  {
    if name == Some("") then None else name
  }

  /** `signIn({ email, password })` at time `nowMs` (milliseconds); `matches`
      is bcrypt's compare and `sign` the token signature. */
  function SignIn(users: seq<User>, email: JsValue, password: JsValue, nowMs: int,
                  isEmail: string -> bool, matches: (string, string) -> bool,
                  sign: JwtPayload -> string): (r: Response<SignInResponse>)
    ensures SignInIssues(email, password, isEmail) != [] ==> r == Failure(SignInIssues(email, password, isEmail))
    ensures r.Success? ==> exists u | u in users ::
      && Str(u.email) == email && matches(password.s, u.passwordDigest)
      && r.value.user == SignedInUser(u.id, u.email, ReportedName(u.name))
      && r.value.jwtToken == sign(JwtPayload(u.id, nowMs / 1000 + TokenLifetime))
    ensures !r.Success? ==> r.Failure? && |r.issues| >= 1
  {
    var issues := SignInIssues(email, password, isEmail);
    if issues != [] then Failure(issues)
    else match FirstWhere(users, (u: User) => u.email == email.s)
      case None => Failure([NotFoundError("email")])
      case Some(i) =>
        var user := users[i];
        if !matches(password.s, user.passwordDigest) then Failure([PasswordMismatch])
        else
          var payload := JwtPayload(user.id, nowMs / 1000 + TokenLifetime);
          Success(SignInResponse(sign(payload), SignedInUser(user.id, user.email, ReportedName(user.name))))
  }

  /** An email with no user answers `notFoundError("email")`. */
  lemma SignInUnknownEmail(users: seq<User>, email: JsValue, password: JsValue, nowMs: int,
                           isEmail: string -> bool, matches: (string, string) -> bool,
                           sign: JwtPayload -> string)
    requires SignInIssues(email, password, isEmail) == []
    requires forall u | u in users :: Str(u.email) != email
    ensures SignIn(users, email, password, nowMs, isEmail, matches, sign) == Failure([NotFoundError("email")])
  {
  }

  /** With the user found, the outcome is the password comparison's: either
      an issue on the path "password", or a token for that user whose
      payload names the user's id and expires one day from now, with the
      stored id and email and a name that is left out when empty. */
  lemma {:induction false} SignInOutcome(users: seq<User>, u: User, email: JsValue, password: JsValue, nowMs: int,
                                         isEmail: string -> bool, matches: (string, string) -> bool,
                                         sign: JwtPayload -> string)
    requires SignInIssues(email, password, isEmail) == []
    requires Pairwise(users, DistinctAccounts)
    requires u in users && Str(u.email) == email
    ensures var r := SignIn(users, email, password, nowMs, isEmail, matches, sign);
      && (!matches(password.s, u.passwordDigest) ==>
            r == Failure([PasswordMismatch]) && r.issues[0].path == "password")
      && (matches(password.s, u.passwordDigest) ==>
            && r.Success?
            && r.value.jwtToken == sign(JwtPayload(u.id, nowMs / 1000 + 86400))
            && r.value.user.id == u.id && r.value.user.email == u.email
            && (u.name == Some("") || u.name == None ==> r.value.user.name == None)
            && (u.name != Some("") ==> r.value.user.name == u.name))
  {
    var k := FirstWhere(users, (v: User) => v.email == email.s);
    var j :| 0 <= j < |users| && users[j] == u;
    UniqueEmailRow(users, k.value, j);
  }

  lemma UniqueEmailRow(users: seq<User>, i: nat, j: nat)
    requires Pairwise(users, DistinctAccounts)
    requires i < |users| && j < |users| && users[i].email == users[j].email
    ensures i == j
  {
    if i < j {
      PairwiseAt(users, DistinctAccounts, i, j);
    } else if j < i {
      PairwiseAt(users, DistinctAccounts, j, i);
    }
  }
}
