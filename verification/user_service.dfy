/** `UserService`: registration and login over the user repository. The password digest is
    the parameter `hash`, a deterministic function of the password; the model assumes nothing
    else about it. */
module UserService {
  import opened Results
  import opened Strings
  import opened EntityStore
  import opened Domain

  datatype RegisterUserDto = RegisterUserDto(
    firstName: NString,
    lastName: NString,
    username: NString,
    password: NString,
    confirmPassword: NString,
    role: NString)

  datatype LoginDto = LoginDto(username: NString, password: NString)

  /** The exceptions `ValidateUser` raises, in the order it checks for them. */
  datatype RegisterError =
    | CredentialsRequired
    | UsernameTooLong
    | PasswordsDiffer
    | UsernameTaken(username: string)

  /** The exceptions `LoginUser` raises. `NullRoleClaim` is the `ArgumentNullException` a
      `Claim` constructor raises when the user's role is null. */
  datatype LoginError =
    | LoginCredentialsRequired
    | UserNotFound
    | NullRoleClaim

  /** The claims the issued token carries: name identifier, name, "userFullName" and role. */
  datatype Claims = Claims(nameIdentifier: int, name: string, userFullName: string, role: string)

  /** `GetUserByUsername`: the first stored user with that username. */
  function GetUserByUsername(users: Store<User>, username: string): (r: Option<User>)
    requires UsersConsistent(users)
    ensures r.Some? ==> r.value.id in users.rows && users.rows[r.value.id] == r.value
    ensures r.Some? ==> r.value.username == username
    ensures r.Some? ==> forall k | k in users.rows && k < r.value.id :: users.rows[k].username != username
    ensures r.None? <==> forall k | k in users.rows :: users.rows[k].username != username
  {
    match FindKey(users, (u: User) => u.username == username)
    case None => None
    case Some(k) => Some(users.rows[k])
  }

  /** `user` has that username and that stored password digest. */
  predicate Matches(user: User, username: string, digest: string)
  {
    user.username == username && user.password == digest
  }

  /** The repository's `LoginUser(username, hash)`: the first stored user with that username
      and that stored password digest. */
  function FindByCredentials(users: Store<User>, username: string, digest: string): (r: Option<User>)
    requires UsersConsistent(users)
    ensures r.Some? ==> r.value.id in users.rows && users.rows[r.value.id] == r.value
    ensures r.Some? ==> Matches(r.value, username, digest)
    ensures r.Some? ==> forall k | k in users.rows && k < r.value.id :: !Matches(users.rows[k], username, digest)
    ensures r.None? <==> forall k | k in users.rows :: !Matches(users.rows[k], username, digest)
  {
    match FindKey(users, (u: User) => u.username == username && u.password == digest)
    case None => None
    case Some(k) => Some(users.rows[k])
  }

  /** `ValidateUser`: the registration request is complete, the username is short enough and
      free, and the password is confirmed. The first failing check is the one reported. */
  function ValidateUser(users: Store<User>, dto: RegisterUserDto): (r: Outcome<RegisterError>)
    requires UsersConsistent(users)
    ensures r.Pass? <==>
              && !IsNullOrEmpty(dto.username)
              && !IsNullOrEmpty(dto.password)
              && |dto.username.chars| <= MaxUsernameLength
              && dto.password == dto.confirmPassword
              && forall k | k in users.rows :: users.rows[k].username != dto.username.chars
    ensures (IsNullOrEmpty(dto.username) || IsNullOrEmpty(dto.password))
              ==> r == Fail(CredentialsRequired)
    ensures (!IsNullOrEmpty(dto.username) && !IsNullOrEmpty(dto.password)
             && |dto.username.chars| > MaxUsernameLength)
              ==> r == Fail(UsernameTooLong)
    ensures (!IsNullOrEmpty(dto.username) && !IsNullOrEmpty(dto.password)
             && |dto.username.chars| <= MaxUsernameLength && dto.password != dto.confirmPassword)
              ==> r == Fail(PasswordsDiffer)
    ensures (!IsNullOrEmpty(dto.username) && !IsNullOrEmpty(dto.password)
             && |dto.username.chars| <= MaxUsernameLength && dto.password == dto.confirmPassword
             && exists k | k in users.rows :: users.rows[k].username == dto.username.chars)
              ==> r == Fail(UsernameTaken(dto.username.chars))
  {
    if IsNullOrEmpty(dto.username) || IsNullOrEmpty(dto.password) then Fail(CredentialsRequired)
    else if |dto.username.chars| > MaxUsernameLength then Fail(UsernameTooLong)
    else if dto.password != dto.confirmPassword then Fail(PasswordsDiffer)
    else if GetUserByUsername(users, dto.username.chars).Some? then
      Fail(UsernameTaken(dto.username.chars))
    else Pass
  }

  /** `Register`: validates the request and, only if it is valid, stores one new user whose
      password is the digest of the requested password. */
  function Register(users: Store<User>, dto: RegisterUserDto, hash: string -> string)
    : (r: Result<Store<User>, RegisterError>)
    requires UsersConsistent(users)
    ensures r.Failure? <==> ValidateUser(users, dto).Fail?
    ensures r.Failure? ==> r.error == ValidateUser(users, dto).error
    ensures r.Success? ==>
              var id := users.nextId;
              && UsersConsistent(r.value)
              && id !in users.rows
              && r.value.rows.Keys == users.rows.Keys + {id}
              && (forall k | k in users.rows :: r.value.rows[k] == users.rows[k])
              && r.value.rows[id].username == dto.username.chars
              && r.value.rows[id].password == hash(dto.password.chars)
              && r.value.rows[id].firstname == dto.firstName
              && r.value.rows[id].lastname == dto.lastName
              && r.value.rows[id].role == dto.role
  {
    match ValidateUser(users, dto)
    case Fail(e) => Failure(e)
    case Pass =>
      var user := User(users.nextId, dto.firstName, dto.lastName, dto.username.chars,
                       hash(dto.password.chars), dto.role);
      Success(Add(users, user))
  }

  /** The display name `$"{Firstname} {Lastname}"`. */
  function FullName(user: User): string
  {
    Interpolated(user.firstname) + " " + Interpolated(user.lastname)
  }

  /** The claim set of the token issued to `user`. */
  function BuildClaims(user: User): (r: Result<Claims, LoginError>)
    ensures r.Failure? <==> user.role.Null?
    ensures r.Failure? ==> r.error == NullRoleClaim
    ensures r.Success? ==>
              && r.value.nameIdentifier == user.id
              && r.value.name == user.username
              && r.value.userFullName == FullName(user)
              && Str(r.value.role) == user.role
  {
    match user.role
    case Null => Failure(NullRoleClaim)
    case Str(role) => Success(Claims(user.id, user.username, FullName(user), role))
  }

  /** `LoginUser`: checks that both credentials are present, looks the user up by username and
      password digest, and issues the claims of the user found. */
  function LoginUser(users: Store<User>, dto: LoginDto, hash: string -> string)
    : (r: Result<Claims, LoginError>)
    requires UsersConsistent(users)
    ensures r == Failure(LoginCredentialsRequired) <==>
              IsNullOrEmpty(dto.username) || IsNullOrEmpty(dto.password)
    ensures r == Failure(UserNotFound) <==>
              && !IsNullOrEmpty(dto.username)
              && !IsNullOrEmpty(dto.password)
              && forall k | k in users.rows ::
                   !Matches(users.rows[k], dto.username.chars, hash(dto.password.chars))
    ensures (!IsNullOrEmpty(dto.username) && !IsNullOrEmpty(dto.password)) ==>
              forall k | k in users.rows
                && Matches(users.rows[k], dto.username.chars, hash(dto.password.chars))
                && (forall j | j in users.rows && j < k ::
                      !Matches(users.rows[j], dto.username.chars, hash(dto.password.chars)))
                :: r == BuildClaims(users.rows[k])
    ensures (UsersInvariant(users) && !IsNullOrEmpty(dto.username) && !IsNullOrEmpty(dto.password)) ==>
              forall k | k in users.rows
                && Matches(users.rows[k], dto.username.chars, hash(dto.password.chars))
                :: r == BuildClaims(users.rows[k])
    ensures r == Failure(NullRoleClaim) ==>
              exists k | k in users.rows ::
                && Matches(users.rows[k], dto.username.chars, hash(dto.password.chars))
                && users.rows[k].role.Null?
    ensures r.Success? ==>
              && r.value.nameIdentifier in users.rows
              && var user := users.rows[r.value.nameIdentifier];
                 && user.username == dto.username.chars
                 && user.password == hash(dto.password.chars)
                 && BuildClaims(user) == r
  {
    if IsNullOrEmpty(dto.username) || IsNullOrEmpty(dto.password) then
      Failure(LoginCredentialsRequired)
    else
      match FindByCredentials(users, dto.username.chars, hash(dto.password.chars))
      case None => Failure(UserNotFound)
      case Some(user) => BuildClaims(user)
  }
}
