# Notes and tags service layer, modelled in Dafny

This project models the service layer of the NotesAndTagsApp web API: `NoteService`, which
creates, reads, updates and deletes notes for existing users, and `UserService`, which
registers users and logs them in. Each public method is a pure function. It takes the state of
the two repositories and a request DTO. It returns either the exception the method raises or
the new repository state (or the value read). A failing call returns no state, so it changes
nothing.

Files and modules:

- `results.dfy` (`Results`): `Option`, `Result` and `Outcome`, standing for null returns and
  exceptions.
- `strings.dfy` (`Strings`): .NET string references, which may be null. `IsNullOrEmpty` and the
  rendering of a null reference inside an interpolated string.
- `store.dfy` (`EntityStore`): the repository as an immutable value. It holds a map from id to
  row, the enumeration order of `GetAll`, and the next identity value. It provides `Get`, `All`,
  `Add`, `Update`, `Delete` and a first-match lookup `FindKey`.
- `domain.dfy` (`Domain`): the `Note` and `User` entities, the limits 100 and 50, and the
  invariants the services keep.
- `note_service.dfy` (`NoteService`) and `note_laws.dfy` (`NoteServiceLaws`): the note
  operations and the lemmas that relate them.
- `user_service.dfy` (`UserService`) and `user_laws.dfy` (`UserServiceLaws`): registration,
  login and claim building, and the lemmas that relate them.

Assumptions the model makes about collaborators whose code is not part of this model:

- Repositories behave as maps keyed by id. `GetById` returns the row whose `Id` is the key.
- `Add` assigns the next value of an identity column that starts at 1 and never reuses a value.
- `GetAll` enumerates rows in ascending id order.
- `GetUserByUsername(u)` returns the first stored user whose `Username` equals `u`.
  `LoginUser(u, h)` returns the first stored user whose `Username` equals `u` and whose
  `Password` equals `h`. Both use exact string equality.
- The mappers `ToNote` and `ToNoteDto` copy fields. A `NoteDto` is represented by the `Note` it
  was copied from.
- The password digest (MD5 over the ASCII bytes, read back as ASCII) is a parameter
  `hash: string -> string`. It is deterministic and nothing else is assumed about it. In
  particular, nothing says the digest differs from the password.
- Priority and tag enumerations are carried as their underlying ordinals. The services only
  copy them.
- Each UTF-16 code unit, the unit `String.Length` counts, is represented by one distinct `char`.
  This is an injective re-encoding, needed because surrogates are not Dafny chars. The services
  only use length, equality, concatenation and the abstract `hash`, and a re-encoding preserves
  all of these.

Behaviour worth knowing:

- `UpdateNote` looks the note up before it checks anything else. An unknown id is reported as
  `NoteNotFoundException` even when the text or owner is also invalid.
- `Register` does not check the role. A user registered with a null role can never log in: the
  `Claim` constructor rejects the null role value. `RegisterThenLogin` states this: login
  returns `BuildClaims` of the new user, and that fails exactly when the role is null.
- The service accepts usernames of up to 50 code units. The database schema caps the column at
  30. Storage would reject 31 to 50, but that is not a rule of the service, so the model does
  not enforce 30.

## Model

| member | source | states |
|---|---|---|
| NoteService.CheckText | NotesAndTagsApp/NotesAndTagsApp.Services/Implementation/NoteService.cs:31-39 | Text passes exactly when it is non-null with 1 to 100 code units. Null or empty is reported as the empty-text error before any length check. Non-empty text over 100 code units is reported as the too-long error. Every text error is a `NoteDataException`. |
| NoteService.AddNote | NotesAndTagsApp/NotesAndTagsApp.Services/Implementation/NoteService.cs:28-53 | Succeeds exactly when the text is acceptable and the owner exists. Errors come in check order: empty text, then too long, then missing user (with its id). On success the user store is untouched and exactly one note is added under a fresh id. That note has the DTO's text, priority, tag and owner. Every existing note is unchanged. |
| NoteService.DeleteNote | NotesAndTagsApp/NotesAndTagsApp.Services/Implementation/NoteService.cs:55-64 | Fails with not-found exactly when the id is not stored. Otherwise it removes exactly that id and leaves every other note and the user store unchanged. |
| NoteService.GetAllNotes | NotesAndTagsApp/NotesAndTagsApp.Services/Implementation/NoteService.cs:66-71 | Returns one entry per stored note. Every stored note appears, each entry is the note stored under its own id, and the entries are in ascending id order. |
| NoteService.OwnedBy | NotesAndTagsApp/NotesAndTagsApp.Services/Implementation/NoteService.cs:75 | The `Where(x => x.UserId == userId)` filter keeps exactly the elements with that owner. On id-ordered input, which is the only input it receives, the result is id-ordered too. |
| NoteService.GetAllUserNotes | NotesAndTagsApp/NotesAndTagsApp.Services/Implementation/NoteService.cs:73-76 | Returns exactly the stored notes owned by the user, in ascending id order. The result is empty exactly when the user owns no note, which is not an error. |
| NoteService.GetById | NotesAndTagsApp/NotesAndTagsApp.Services/Implementation/NoteService.cs:78-88 | Fails with not-found exactly when the id is not stored. Otherwise it returns the note stored under that id, and that note carries the id. |
| NoteService.UpdateNote | NotesAndTagsApp/NotesAndTagsApp.Services/Implementation/NoteService.cs:90-123 | Checks run in order: existence first, then empty text, then length, then owner. Succeeds exactly when all four pass. On success that note's text, priority, tag and owner are overwritten and its id is kept. The set of ids, every other note and the user store are unchanged. |
| NoteServiceLaws.AddNotePreservesInvariant | NotesAndTagsApp/NotesAndTagsApp.Services/Implementation/NoteService.cs:31-52 | After a successful add, every note still has acceptable text and an existing owner. |
| NoteServiceLaws.DeleteNotePreservesInvariant | NotesAndTagsApp/NotesAndTagsApp.Services/Implementation/NoteService.cs:57-63 | After a successful delete, the service invariant still holds. |
| NoteServiceLaws.UpdateNotePreservesInvariant | NotesAndTagsApp/NotesAndTagsApp.Services/Implementation/NoteService.cs:98-121 | After a successful update, every note still has acceptable text and an existing owner. |
| NoteServiceLaws.AddThenGetById | NotesAndTagsApp/NotesAndTagsApp.Services/Implementation/NoteService.cs:48-52 | `GetById` on the new id returns the added note with the DTO's fields. |
| NoteServiceLaws.AddThenDelete | NotesAndTagsApp/NotesAndTagsApp.Services/Implementation/NoteService.cs:55-64 | Deleting the note that was just added succeeds and restores the earlier `GetAllNotes` listing. |
| NoteServiceLaws.UpdateThenGetById | NotesAndTagsApp/NotesAndTagsApp.Services/Implementation/NoteService.cs:115-121 | After a successful update, `GetById` of that id returns the note with the DTO's text, priority, tag and owner, under the same id. |
| NoteServiceLaws.DeleteThenGetById | NotesAndTagsApp/NotesAndTagsApp.Services/Implementation/NoteService.cs:80-84 | After a delete, `GetById` of that id reports not-found. |
| NoteServiceLaws.AddThenUserNotes | NotesAndTagsApp/NotesAndTagsApp.Services/Implementation/NoteService.cs:75 | After an add, the owner's listing is the old listing with the new note appended. Every other user's listing is unchanged. |
| NoteServiceLaws.UpdateIdempotent | NotesAndTagsApp/NotesAndTagsApp.Services/Implementation/NoteService.cs:115-121 | Repeating a successful update with the same DTO yields the same state. |
| UserService.GetUserByUsername | NotesAndTagsApp/NotesAndTagsApp.Services/Implementation/UserService.cs:117 | Finds a user exactly when a stored user has that username. The one found is stored under its own id and has the least such id, as a first match in id order. |
| UserService.FindByCredentials | NotesAndTagsApp/NotesAndTagsApp.Services/Implementation/UserService.cs:47-51 | Finds a user exactly when a stored user has that username and that stored digest. The one found is stored under its own id and has the least such id. |
| UserService.ValidateUser | NotesAndTagsApp/NotesAndTagsApp.Services/Implementation/UserService.cs:100-122 | Passes exactly when the username and password are present, the username has at most 50 code units, the password equals its confirmation and no stored user has the username. The first failing check is reported, in the order required, length, match, taken. |
| UserService.Register | NotesAndTagsApp/NotesAndTagsApp.Services/Implementation/UserService.cs:76-98 | Fails exactly when validation fails, with validation's error, and then returns no store. On success it adds exactly one user under a fresh id and leaves every existing user unchanged. The new user's names, username and role are copied from the DTO and its password is `hash(password)`. |
| UserService.BuildClaims | NotesAndTagsApp/NotesAndTagsApp.Services/Implementation/UserService.cs:62-69 | The claims are the user's id, username, `"{first} {last}"` full name (a null name renders as empty) and role. Building them fails exactly when the role is null. |
| UserService.LoginUser | NotesAndTagsApp/NotesAndTagsApp.Services/Implementation/UserService.cs:27-75 | Reports missing credentials exactly when the username or password is null or empty, whatever the store and hash. Reports user-not-found exactly when no stored user has that username and digest. Otherwise it returns `BuildClaims` of the first matching user, which under unique usernames is the only match. A null-role failure means a matching user has a null role. On success the claims belong to a stored user with that username and digest. |
| UserServiceLaws.RegisterPreservesInvariant | NotesAndTagsApp/NotesAndTagsApp.Services/Implementation/UserService.cs:117-121 | Registration keeps usernames non-empty, at most 50 long and unique. |
| UserServiceLaws.RegisterKeepsServiceInvariant | NotesAndTagsApp/NotesAndTagsApp.Services/Implementation/UserService.cs:76-98 | Registration keeps the whole service invariant, including note ownership. |
| UserServiceLaws.RegisterThenLogin | NotesAndTagsApp/NotesAndTagsApp.Services/Implementation/UserService.cs:35-51 | Right after a successful registration, logging in with the same username and password yields the new user's claims. With a non-null role that means success with its id, username, full name and role. |
| UserServiceLaws.RegisterTwiceFails | NotesAndTagsApp/NotesAndTagsApp.Services/Implementation/UserService.cs:117-121 | A second registration of the same username fails. If its password is present and confirmed, it fails because the name is taken. |
| UserServiceLaws.WrongPasswordFails | NotesAndTagsApp/NotesAndTagsApp.Services/Implementation/UserService.cs:47-51 | A password whose digest matches no stored user with that username fails with user-not-found. |
| UserServiceLaws.RegisterThenAddNote | NotesAndTagsApp/NotesAndTagsApp.Services/Implementation/NoteService.cs:41-52 | A freshly registered user's id is accepted as a note owner at once. |

## Left out

- JWT signing, encoding and expiry (the HMAC-SHA256 key, `DateTime.UtcNow.AddMinutes(1)`, `WriteToken`): foreign library code and the wall clock. Only the claim set is modelled.
- UserService.LoginUser: returns the claim set rather than the encoded token string, and carries the name identifier as the integer id rather than its `ToString()` text.
- MD5 and the ASCII byte encoding of passwords and digests: foreign cryptography, replaced by the deterministic parameter `hash`.
- Exception messages: errors are datatype values. The ids that the messages interpolate are kept as fields of the error.
- The repository implementations, the mappers and the EF Core navigation property `User` on a note: they are not part of this model. A note's owner is its `userId`.
- The dependency-injection wiring and the database schema configuration: these contain no service logic. The schema's 30-character username cap is not a service rule.
- Case-insensitive string comparison that a database collation may apply to username lookups: storage behaviour, outside the services.
- Concurrency: the services run one call at a time. The check-then-add race on duplicate usernames belongs to the storage layer.
