/** Properties relating the note operations to each other and to the service invariant. */
module NoteServiceLaws {
  import opened Results
  import opened Domain
  import opened NoteService

  /** A successful `AddNote` keeps every note's text acceptable and its owner existing. */
  lemma AddNotePreservesInvariant(st: AppState, dto: AddNoteDto)
    requires Invariant(st)
    requires AddNote(st, dto).Success?
    ensures Invariant(AddNote(st, dto).value)
  {
  }

  lemma DeleteNotePreservesInvariant(st: AppState, id: int)
    requires Invariant(st)
    requires DeleteNote(st, id).Success?
    ensures Invariant(DeleteNote(st, id).value)
  {
  }

  lemma UpdateNotePreservesInvariant(st: AppState, dto: UpdateNoteDto)
    requires Invariant(st)
    requires UpdateNote(st, dto).Success?
    ensures Invariant(UpdateNote(st, dto).value)
  {
  }

  /** The note `AddNote` stores is found again under the id it was given. */
  lemma AddThenGetById(st: AppState, dto: AddNoteDto)
    requires Consistent(st)
    requires AddNote(st, dto).Success?
    ensures GetById(AddNote(st, dto).value, st.notes.nextId)
              == Success(Note(st.notes.nextId, dto.text.chars, dto.priority, dto.tag, dto.userId))
  {
  }

  /** Deleting the note `AddNote` just stored gives back the notes there were before. */
  lemma AddThenDelete(st: AppState, dto: AddNoteDto)
    requires Consistent(st)
    requires AddNote(st, dto).Success?
    ensures DeleteNote(AddNote(st, dto).value, st.notes.nextId).Success?
    ensures GetAllNotes(DeleteNote(AddNote(st, dto).value, st.notes.nextId).value) == GetAllNotes(st)
  {
    var st1 := AddNote(st, dto).value;
    var st2 := DeleteNote(st1, st.notes.nextId).value;
    assert st2.notes.rows == st.notes.rows;
    AscendingNotesUnique(GetAllNotes(st2), GetAllNotes(st));
  }

  /** After a successful `UpdateNote`, `GetById` returns the overwritten note under the same id. */
  lemma UpdateThenGetById(st: AppState, dto: UpdateNoteDto)
    requires Consistent(st)
    requires UpdateNote(st, dto).Success?
    ensures GetById(UpdateNote(st, dto).value, dto.id)
              == Success(Note(dto.id, dto.text.chars, dto.priority, dto.tag, dto.userId))
  {
  }

  /** After `DeleteNote(id)` the id is not found any more. */
  lemma DeleteThenGetById(st: AppState, id: int)
    requires Consistent(st)
    requires DeleteNote(st, id).Success?
    ensures GetById(DeleteNote(st, id).value, id) == Failure(NoteMissing(id))
  {
  }

  /** `AddNote` appends the new note to its owner's list and leaves every other user's list
      as it was. */
  lemma AddThenUserNotes(st: AppState, dto: AddNoteDto, userId: int)
    requires Consistent(st)
    requires AddNote(st, dto).Success?
    ensures GetAllUserNotes(AddNote(st, dto).value, userId)
              == GetAllUserNotes(st, userId)
                 + (if userId == dto.userId
                    then [Note(st.notes.nextId, dto.text.chars, dto.priority, dto.tag, dto.userId)]
                    else [])
  {
    var st' := AddNote(st, dto).value;
    var added := Note(st.notes.nextId, dto.text.chars, dto.priority, dto.tag, dto.userId);
    assert st'.notes.rows == st.notes.rows[added.id := added];
    ListingAfterInsert(GetAllUserNotes(st, userId), GetAllUserNotes(st', userId),
                       st.notes.rows, st'.notes.rows, added, userId);
  }

  /** An owner's id-ordered listing after a note with a larger id than every stored one is
      inserted. */
  lemma ListingAfterInsert(before: seq<Note>, after: seq<Note>, rows: map<int, Note>,
                           rows': map<int, Note>, added: Note, userId: int)
    requires forall k | k in rows :: rows[k].id == k && k < added.id
    requires rows' == rows[added.id := added]
    requires forall k | k in rows && rows[k].userId == userId :: rows[k] in before
    requires forall n | n in before :: n.id in rows && rows[n.id] == n && n.userId == userId
    requires forall k | k in rows' && rows'[k].userId == userId :: rows'[k] in after
    requires forall n | n in after :: n.id in rows' && rows'[n.id] == n && n.userId == userId
    requires IdsAscending(before) && IdsAscending(after)
    ensures after == before + (if added.userId == userId then [added] else [])
  {
    var extra := if added.userId == userId then [added] else [];
    var expected := before + extra;
    AppendLargerId(before, extra);
    forall n ensures n in after <==> n in expected {
      if n in before {
        assert rows'[n.id] == n;
      }
      if n in extra {
        assert rows'[added.id] == added;
      }
    }
    AscendingNotesUnique(after, expected);
  }

  lemma AppendLargerId(xs: seq<Note>, ys: seq<Note>)
    requires IdsAscending(xs) && IdsAscending(ys)
    requires forall m, n | m in xs && n in ys :: m.id < n.id
    ensures IdsAscending(xs + ys)
  {
  }

  /** Repeating a successful `UpdateNote` changes nothing more. */
  lemma UpdateIdempotent(st: AppState, dto: UpdateNoteDto)
    requires Consistent(st)
    requires UpdateNote(st, dto).Success?
    ensures UpdateNote(UpdateNote(st, dto).value, dto) == UpdateNote(st, dto)
  {
    var st1 := UpdateNote(st, dto).value;
    var st2 := UpdateNote(st1, dto).value;
    assert st2.notes.rows == st1.notes.rows;
  }
}
