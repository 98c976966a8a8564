/** Properties relating registration, login and the note service. */
module UserServiceLaws {
  import opened Results
  import opened Strings
  import opened EntityStore
  import opened Domain
  import opened UserService
  import NoteService

  /** Registration keeps usernames non-empty, at most 50 long and unique. */
  lemma RegisterPreservesInvariant(users: Store<User>, dto: RegisterUserDto, hash: string -> string)
    requires UsersInvariant(users)
    requires Register(users, dto, hash).Success?
    ensures UsersInvariant(Register(users, dto, hash).value)
  {
  }

  /** Registration only adds users, so every note keeps an existing owner. */
  lemma RegisterKeepsServiceInvariant(st: AppState, dto: RegisterUserDto, hash: string -> string)
    requires Invariant(st)
    requires Register(st.users, dto, hash).Success?
    ensures Invariant(st.(users := Register(st.users, dto, hash).value))
  {
    RegisterPreservesInvariant(st.users, dto, hash);
  }

  /** Register and login digest the password the same way: right after a registration, logging
      in with the same username and password finds the new user and issues its claims. */
  lemma RegisterThenLogin(users: Store<User>, dto: RegisterUserDto, hash: string -> string)
    requires UsersConsistent(users)
    requires Register(users, dto, hash).Success?
    ensures LoginUser(Register(users, dto, hash).value, LoginDto(dto.username, dto.password), hash)
              == BuildClaims(User(users.nextId, dto.firstName, dto.lastName, dto.username.chars,
                                  hash(dto.password.chars), dto.role))
    ensures dto.role.Str? ==>
              LoginUser(Register(users, dto, hash).value, LoginDto(dto.username, dto.password), hash)
                == Success(Claims(users.nextId, dto.username.chars,
                                  Interpolated(dto.firstName) + " " + Interpolated(dto.lastName),
                                  dto.role.chars))
  {
  }

  /** A username can be registered only once: a second registration under the same username
      fails, and if nothing else is wrong with it, it fails because the name is taken. */
  lemma RegisterTwiceFails(users: Store<User>, first: RegisterUserDto, second: RegisterUserDto,
                           hash: string -> string)
    requires UsersConsistent(users)
    requires Register(users, first, hash).Success?
    requires second.username == first.username
    ensures Register(Register(users, first, hash).value, second, hash).Failure?
    ensures !IsNullOrEmpty(second.password) && second.password == second.confirmPassword ==>
              Register(Register(users, first, hash).value, second, hash).error
                == UsernameTaken(first.username.chars)
  {
  }

  /** With a password whose digest matches no stored user of that username, login fails without
      issuing claims. */
  lemma WrongPasswordFails(users: Store<User>, dto: LoginDto, hash: string -> string)
    requires UsersConsistent(users)
    requires !IsNullOrEmpty(dto.username) && !IsNullOrEmpty(dto.password)
    requires forall k | k in users.rows && users.rows[k].username == dto.username.chars ::
               users.rows[k].password != hash(dto.password.chars)
    ensures LoginUser(users, dto, hash) == Failure(UserNotFound)
  {
  }

  /** A freshly registered user can own notes at once: `AddNote` with acceptable text for the
      new user's id succeeds. */
  lemma RegisterThenAddNote(st: AppState, dto: RegisterUserDto, hash: string -> string,
                            note: NoteService.AddNoteDto)
    requires Consistent(st)
    requires Register(st.users, dto, hash).Success?
    requires note.userId == st.users.nextId
    requires note.text.Str? && TextAcceptable(note.text.chars)
    ensures NoteService.AddNote(st.(users := Register(st.users, dto, hash).value), note).Success?
  {
  }
}
