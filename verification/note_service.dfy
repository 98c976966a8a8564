/** `NoteService`: validates note requests and reads or changes the note repository.
    Every operation is a function from the repositories' state and a request to either the
    exception the service raises or the new state (or the value read). A failure returns no
    state, so a failing call leaves both repositories as they were. */
module NoteService {
  import opened Results
  import opened Strings
  import opened EntityStore
  import opened Domain

  datatype AddNoteDto = AddNoteDto(text: NString, priority: Priority, tag: Tag, userId: int)

  datatype UpdateNoteDto = UpdateNoteDto(
    id: int, text: NString, priority: Priority, tag: Tag, userId: int)

  /** The exceptions the service raises. `EmptyText`, `TextTooLong` and `UserMissing` are
      `NoteDataException`s; `NoteMissing` is a `NoteNotFoundException`. */
  datatype NoteError =
    | EmptyText
    | TextTooLong
    | UserMissing(userId: int)
    | NoteMissing(id: int)
  {
    predicate IsNoteDataException() { !NoteMissing? }
  }

  /** The text checks shared by `AddNote` and `UpdateNote`: emptiness first, then length. */
  function CheckText(text: NString): (r: Outcome<NoteError>)
    ensures r.Pass? <==> text.Str? && TextAcceptable(text.chars)
    ensures r.Fail? ==> r.error.IsNoteDataException()
    ensures IsNullOrEmpty(text) ==> r == Fail(EmptyText)
    ensures !IsNullOrEmpty(text) && |text.chars| > MaxTextLength ==> r == Fail(TextTooLong)
  {
    if IsNullOrEmpty(text) then Fail(EmptyText)
    else if |text.chars| > MaxTextLength then Fail(TextTooLong)
    else Pass
  }

  /** `AddNote`: stores a new note for an existing user. */
  function AddNote(st: AppState, dto: AddNoteDto): (r: Result<AppState, NoteError>)
    requires Consistent(st)
    ensures r.Success? <==> dto.text.Str? && TextAcceptable(dto.text.chars) && dto.userId in st.users.rows
    ensures IsNullOrEmpty(dto.text) ==> r == Failure(EmptyText)
    ensures !IsNullOrEmpty(dto.text) && |dto.text.chars| > MaxTextLength ==> r == Failure(TextTooLong)
    ensures (dto.text.Str? && TextAcceptable(dto.text.chars) && dto.userId !in st.users.rows)
              ==> r == Failure(UserMissing(dto.userId))
    ensures r.Success? ==>
              var id := st.notes.nextId;
              && Consistent(r.value)
              && r.value.users == st.users
              && id !in st.notes.rows
              && r.value.notes.rows.Keys == st.notes.rows.Keys + {id}
              && (forall k | k in st.notes.rows :: r.value.notes.rows[k] == st.notes.rows[k])
              && r.value.notes.rows[id] == Note(id, dto.text.chars, dto.priority, dto.tag, dto.userId)
  {
    match CheckText(dto.text)
    case Fail(e) => Failure(e)
    case Pass =>
      match Get(st.users, dto.userId)
      case None => Failure(UserMissing(dto.userId))
      case Some(owner) =>
        var note := Note(st.notes.nextId, dto.text.chars, dto.priority, dto.tag, owner.id);
        Success(st.(notes := Add(st.notes, note)))
  }

  /** `DeleteNote`: removes an existing note. */
  function DeleteNote(st: AppState, id: int): (r: Result<AppState, NoteError>)
    requires Consistent(st)
    ensures r.Failure? <==> id !in st.notes.rows
    ensures r.Failure? ==> r.error == NoteMissing(id)
    ensures r.Success? ==>
              && Consistent(r.value)
              && r.value.users == st.users
              && r.value.notes.rows.Keys == st.notes.rows.Keys - {id}
              && (forall k | k in r.value.notes.rows :: r.value.notes.rows[k] == st.notes.rows[k])
  {
    match Get(st.notes, id)
    case None => Failure(NoteMissing(id))
    case Some(note) => Success(st.(notes := Delete(st.notes, note.id)))
  }

  /** `GetAllNotes`: every stored note, once each, in id order. */
  function GetAllNotes(st: AppState): (r: seq<Note>)
    requires Consistent(st)
    ensures |r| == |st.notes.rows|
    ensures forall k | k in st.notes.rows :: st.notes.rows[k] in r
    ensures forall n | n in r :: n.id in st.notes.rows && st.notes.rows[n.id] == n
    ensures IdsAscending(r)
  {
    AllNotesAscending(st.notes);
    var r := All(st.notes);
    forall n | n in r ensures n.id in st.notes.rows && st.notes.rows[n.id] == n {
      var i :| 0 <= i < |r| && r[i] == n;
    }
    r
  }

  /** The notes of `ns` that belong to `userId`, in their order in `ns`. */
  function OwnedBy(ns: seq<Note>, userId: int): (r: seq<Note>)
    ensures forall n :: n in r <==> n in ns && n.userId == userId
    ensures IdsAscending(ns) ==> IdsAscending(r)
    ensures |r| <= |ns|
  {
    if ns == [] then []
    else
      var rest := OwnedBy(ns[1..], userId);
      if ns[0].userId != userId then rest
      else
        if IdsAscending(ns) then
          assert IdsAscending(ns[1..]);
          forall n | n in rest ensures ns[0].id < n.id {
            var j :| 1 <= j < |ns| && ns[j] == n;
          }
          NotesAscendingCons(ns[0], rest);
          [ns[0]] + rest
        else
          [ns[0]] + rest
  }

  /** `GetAllUserNotes`: exactly the stored notes owned by `userId`, in id order; empty, not an
      error, when there are none. */
  function GetAllUserNotes(st: AppState, userId: int): (r: seq<Note>)
    requires Consistent(st)
    ensures forall k | k in st.notes.rows && st.notes.rows[k].userId == userId :: st.notes.rows[k] in r
    ensures forall n | n in r :: n.id in st.notes.rows && st.notes.rows[n.id] == n && n.userId == userId
    ensures IdsAscending(r)
    ensures r == [] <==> forall k | k in st.notes.rows :: st.notes.rows[k].userId != userId
  {
    var r := OwnedBy(GetAllNotes(st), userId);
    assert r != [] ==> r[0] in r;
    r
  }

  /** `GetById`: the stored note with that id. */
  function GetById(st: AppState, id: int): (r: Result<Note, NoteError>)
    requires Consistent(st)
    ensures r.Failure? <==> id !in st.notes.rows
    ensures r.Failure? ==> r.error == NoteMissing(id)
    ensures r.Success? ==> r.value == st.notes.rows[id] && r.value.id == id
  {
    match Get(st.notes, id)
    case None => Failure(NoteMissing(id))
    case Some(note) => Success(note)
  }

  /** `UpdateNote`: overwrites the text, priority, tag and owner of an existing note. The note
      is looked up before anything else is checked. */
  function UpdateNote(st: AppState, dto: UpdateNoteDto): (r: Result<AppState, NoteError>)
    requires Consistent(st)
    ensures r.Success? <==>
              && dto.id in st.notes.rows
              && dto.text.Str? && TextAcceptable(dto.text.chars)
              && dto.userId in st.users.rows
    ensures dto.id !in st.notes.rows ==> r == Failure(NoteMissing(dto.id))
    ensures dto.id in st.notes.rows && IsNullOrEmpty(dto.text) ==> r == Failure(EmptyText)
    ensures (dto.id in st.notes.rows && !IsNullOrEmpty(dto.text) && |dto.text.chars| > MaxTextLength)
              ==> r == Failure(TextTooLong)
    ensures (dto.id in st.notes.rows && dto.text.Str? && TextAcceptable(dto.text.chars)
             && dto.userId !in st.users.rows)
              ==> r == Failure(UserMissing(dto.userId))
    ensures r.Success? ==>
              && Consistent(r.value)
              && r.value.users == st.users
              && r.value.notes.rows.Keys == st.notes.rows.Keys
              && (forall k | k in st.notes.rows && k != dto.id ::
                    r.value.notes.rows[k] == st.notes.rows[k])
              && r.value.notes.rows[dto.id]
                   == Note(dto.id, dto.text.chars, dto.priority, dto.tag, dto.userId)
  {
    match Get(st.notes, dto.id)
    case None => Failure(NoteMissing(dto.id))
    case Some(noteDb) =>
      match CheckText(dto.text)
      case Fail(e) => Failure(e)
      case Pass =>
        match Get(st.users, dto.userId)
        case None => Failure(UserMissing(dto.userId))
        case Some(_) =>
          var updated := noteDb.(text := dto.text.chars, priority := dto.priority,
                                 tag := dto.tag, userId := dto.userId);
          Success(st.(notes := Update(st.notes, noteDb.id, updated)))
  }
}
