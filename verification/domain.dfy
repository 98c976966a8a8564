/** The entities the services read and write, and the rules the services keep about them. */
module Domain {
  import opened Strings
  import opened EntityStore

  /** Longest note text `AddNote` and `UpdateNote` accept. */
  const MaxTextLength := 100

  /** Longest username `ValidateUser` accepts. The database schema caps the column at 30,
      which is stricter; that limit belongs to storage and is not a rule of the services. */
  const MaxUsernameLength := 50

  /** The note priority and tag enumerations, carried as their underlying ordinal values:
      the services copy them and never inspect them. */
  datatype Priority = Priority(ordinal: int)
  datatype Tag = Tag(ordinal: int)

  /** A stored note; the `User` navigation property is determined by `userId`. */
  datatype Note = Note(id: int, text: string, priority: Priority, tag: Tag, userId: int)

  /** A stored user; `password` holds the hash of the password, never the password. */
  datatype User = User(
    id: int,
    firstname: NString,
    lastname: NString,
    username: string,
    password: string,
    role: NString)

  /** The two repositories the note service is built on. */
  datatype AppState = AppState(notes: Store<Note>, users: Store<User>)

  /** The repository returns a note whose `Id` is the key it was looked up by. */
  ghost predicate NotesConsistent(notes: Store<Note>)
  {
    && notes.Valid()
    && forall k | k in notes.rows :: notes.rows[k].id == k
  }

  ghost predicate UsersConsistent(users: Store<User>)
  {
    && users.Valid()
    && forall k | k in users.rows :: users.rows[k].id == k
  }

  ghost predicate Consistent(st: AppState)
  {
    NotesConsistent(st.notes) && UsersConsistent(st.users)
  }

  /** Note text as the services accept it: between 1 and 100 code units. */
  predicate TextAcceptable(text: string)
  {
    1 <= |text| <= MaxTextLength
  }

  /** What registration guarantees about every stored user: a non-empty username of at most
      50 code units that no other user has. */
  ghost predicate UsersInvariant(users: Store<User>)
  {
    && UsersConsistent(users)
    && (forall k | k in users.rows :: 1 <= |users.rows[k].username| <= MaxUsernameLength)
    && (forall j, k | j in users.rows && k in users.rows
          && users.rows[j].username == users.rows[k].username :: j == k)
  }

  /** What the services guarantee about every state they produce: notes carry acceptable text
      and belong to a user that exists. */
  ghost predicate Invariant(st: AppState)
  {
    && NotesConsistent(st.notes)
    && UsersInvariant(st.users)
    && forall k | k in st.notes.rows ::
         TextAcceptable(st.notes.rows[k].text) && st.notes.rows[k].userId in st.users.rows
  }

  /** Note ids strictly increase along `ns`. */
  predicate IdsAscending(ns: seq<Note>)
  {
    forall i, j | 0 <= i < j < |ns| :: ns[i].id < ns[j].id
  }

  lemma NotesAscendingCons(n: Note, ns: seq<Note>)
    requires IdsAscending(ns)
    requires forall m | m in ns :: n.id < m.id
    ensures IdsAscending([n] + ns)
  {
  }

  /** `GetAll` on the note repository yields the notes in ascending id order. */
  lemma AllNotesAscending(notes: Store<Note>)
    requires NotesConsistent(notes)
    ensures IdsAscending(All(notes))
  {
  }

  /** Two id-ascending note sequences with the same elements are equal: a set of notes has
      exactly one listing in id order. */
  lemma {:induction false} AscendingNotesUnique(xs: seq<Note>, ys: seq<Note>)
    requires IdsAscending(xs) && IdsAscending(ys)
    requires forall n :: n in xs <==> n in ys
    ensures xs == ys
  {
    if xs != [] {
      assert xs[0] in xs;
      assert xs[0] in ys;
    }
    if ys != [] {
      assert ys[0] in ys;
      assert ys[0] in xs;
    }
    if xs != [] {
      assert xs[0] == ys[0] by {
        var i :| 0 <= i < |ys| && ys[i] == xs[0];
        var j :| 0 <= j < |xs| && xs[j] == ys[0];
      }
      forall n ensures n in xs[1..] <==> n in ys[1..] {
        if n in xs[1..] {
          var j :| 1 <= j < |xs| && xs[j] == n;
          assert n in ys && xs[0].id < n.id;
        }
        if n in ys[1..] {
          var j :| 1 <= j < |ys| && ys[j] == n;
          assert n in xs && ys[0].id < n.id;
        }
      }
      AscendingNotesUnique(xs[1..], ys[1..]);
    }
  }
}
