/** The mutable note collection of the page (script.js) and the handlers
    that change it: saving an OCR note, saving a manual note, deleting, and
    editing. The clock is an argument (`date`); confirmation dialogs,
    notifications and rendering are not modelled. */
module NoteStore {
  import opened Text
  import opened Filtering
  import opened Notes

  /** The placeholder of the OCR form's subject selector. */
  const Unselected: string := "Select Subject"

  /** Why a save button refused its form. */
  datatype Rejection = BlankTitle | NoSubjectSelected | EmptyField

  /** What a save did. */
  datatype Outcome = Saved(note: Note) | Rejected(reason: Rejection) | NoSuchNote

  /** The checks of the OCR save button: the title must not be blank after
      trimming, and a subject must be chosen. The extracted text is not
      checked. */
  function CheckOcrForm(title: string, subject: string): (r: Option<Rejection>)
    ensures r == None <==> !AllSpace(title) && subject != Unselected
    ensures r == Some(BlankTitle) <==> AllSpace(title)
    ensures r == Some(NoSubjectSelected) <==> !AllSpace(title) && subject == Unselected
  {
    if Trim(title) == [] then Some(BlankTitle)
    else if subject == Unselected then Some(NoSubjectSelected)
    else None
  }

  /** The checks of the manual and edit forms: every field non-empty, with no
      trimming, so a title of spaces passes. */
  function CheckForm(title: string, subject: string, content: string): (r: Option<Rejection>)
    ensures r == None <==> |title| > 0 && |subject| > 0 && |content| > 0
    ensures r == None || r == Some(EmptyField)
  {
    if title == [] || subject == [] || content == [] then Some(EmptyField) else None
  }

  class Store {
    /** `notes`, in display order. */
    var notes: seq<Note>

    /** The page starts with three sample notes, whose ids are unique. */
    constructor ()
      ensures notes == SeedNotes()
      ensures UniqueIds(notes)
    {
      notes := SeedNotes();
    }

    /** Builds the note and pushes it: the id is one above the largest id
        present, or 1 on an empty collection. */
    method Create(title: string, subject: string, content: string, date: string) returns (note: Note)
      modifies this
      ensures note == Note(NextId(old(notes)), title, subject, content, date)
      ensures notes == old(notes) + [note]
      ensures note.id !in Ids(old(notes))
      ensures UniqueIds(old(notes)) ==> UniqueIds(notes)
    {
      note := Note(NextId(notes), title, subject, content, date);
      if UniqueIds(notes) {
        CreateKeepsUniqueIds(notes, title, subject, content, date);
      }
      notes := notes + [note];
    }

    /** The OCR save button: the content is the extracted text. */
    method SaveOcrNote(title: string, subject: string, extracted: string, date: string) returns (outcome: Outcome)
      modifies this
      ensures CheckOcrForm(title, subject).Some? ==>
        outcome == Rejected(CheckOcrForm(title, subject).value) && notes == old(notes)
      ensures CheckOcrForm(title, subject) == None ==>
        outcome == Saved(Note(NextId(old(notes)), title, subject, extracted, date))
        && notes == old(notes) + [outcome.note]
      ensures UniqueIds(old(notes)) ==> UniqueIds(notes)
    {
      var check := CheckOcrForm(title, subject);
      if check.Some? {
        return Rejected(check.value);
      }
      var note := Create(title, subject, extracted, date);
      outcome := Saved(note);
    }

    /** The manual form's save button. */
    method SaveManualNote(title: string, subject: string, content: string, date: string) returns (outcome: Outcome)
      modifies this
      ensures CheckForm(title, subject, content).Some? ==>
        outcome == Rejected(EmptyField) && notes == old(notes)
      ensures CheckForm(title, subject, content) == None ==>
        outcome == Saved(Note(NextId(old(notes)), title, subject, content, date))
        && notes == old(notes) + [outcome.note]
      ensures UniqueIds(old(notes)) ==> UniqueIds(notes)
    {
      var check := CheckForm(title, subject, content);
      if check.Some? {
        return Rejected(check.value);
      }
      var note := Create(title, subject, content, date);
      outcome := Saved(note);
    }

    /** `deleteNote` after the user confirmed: removes every note with the
        id; an unknown id changes nothing and is not an error. */
    method Delete(id: nat)
      modifies this
      ensures notes == WithoutId(old(notes), id)
      ensures id !in Ids(old(notes)) ==> notes == old(notes)
      ensures UniqueIds(old(notes)) ==> UniqueIds(notes)
    {
      if id !in Ids(notes) {
        WithoutAbsentId(notes, id);
      }
      if UniqueIds(notes) {
        DeleteKeepsUniqueIds(notes, id);
      }
      notes := WithoutId(notes, id);
    }

    /** `editNote`: finds the first note with the id and, if there is one,
        takes every note with that id out of the collection at once, before
        the form is filled in; the found note's fields go to the form. */
    method BeginEdit(id: nat) returns (found: Option<Note>)
      modifies this
      ensures found == Find(old(notes), id)
      ensures found.Some? <==> id in Ids(old(notes))
      ensures notes == WithoutId(old(notes), id)
    {
      found := Find(notes, id);
      if found.Some? {
        notes := WithoutId(notes, id);
      } else {
        WithoutAbsentId(notes, id);
      }
    }

    /** The save handler installed by `editNote`: checks the form and pushes
        a record with the edited id and a new date. */
    method SaveEdit(id: nat, title: string, subject: string, content: string, date: string) returns (outcome: Outcome)
      modifies this
      ensures CheckForm(title, subject, content).Some? ==>
        outcome == Rejected(EmptyField) && notes == old(notes)
      ensures CheckForm(title, subject, content) == None ==>
        outcome == Saved(Note(id, title, subject, content, date))
        && notes == old(notes) + [outcome.note]
      ensures UniqueIds(old(notes)) && id !in Ids(old(notes)) ==> UniqueIds(notes)
    {
      var check := CheckForm(title, subject, content);
      if check.Some? {
        return Rejected(check.value);
      }
      var note := Note(id, title, subject, content, date);
      AppendUniqueIds(notes, note);
      notes := notes + [note];
      outcome := Saved(note);
    }

    /** A click on the save button while an edit is pending, as the code
        wires it. The create listener added when the page loads is never
        removed, so it runs first: it checks the form, creates a note from
        it and resets the form. The edit's handler then checks the fields
        the reset left behind (`resetTitle`, `resetSubject`, `resetContent`,
        which the page markup decides) and, if they pass, pushes a record
        with the edited id. A form the create listener rejects is not
        reset, and the edit's handler rejects it too. */
    method SaveClickDuringEdit(id: nat, title: string, subject: string, content: string,
                               resetTitle: string, resetSubject: string, resetContent: string,
                               date: string) returns (created: Outcome, edited: Outcome)
      modifies this
      ensures CheckForm(title, subject, content).Some? ==>
        created == Rejected(EmptyField) && edited == Rejected(EmptyField) && notes == old(notes)
      ensures CheckForm(title, subject, content) == None ==>
        created == Saved(Note(NextId(old(notes)), title, subject, content, date))
      ensures CheckForm(title, subject, content) == None && CheckForm(resetTitle, resetSubject, resetContent).Some? ==>
        edited == Rejected(EmptyField) && notes == old(notes) + [created.note]
      ensures CheckForm(title, subject, content) == None && CheckForm(resetTitle, resetSubject, resetContent) == None ==>
        edited == Saved(Note(id, resetTitle, resetSubject, resetContent, date))
        && notes == old(notes) + [created.note, edited.note]
    {
      created := SaveManualNote(title, subject, content, date);
      if created.Rejected? {
        edited := SaveEdit(id, title, subject, content, date);
      } else {
        edited := SaveEdit(id, resetTitle, resetSubject, resetContent, date);
      }
    }

    /** An edit as one step: an unknown id or an invalid form changes
        nothing; otherwise the notes with that id leave their place and one
        record with the same id, the new fields and the new date goes to
        the end. */
    method Update(id: nat, title: string, subject: string, content: string, date: string) returns (outcome: Outcome)
      modifies this
      ensures id !in Ids(old(notes)) ==> outcome == NoSuchNote && notes == old(notes)
      ensures id in Ids(old(notes)) && CheckForm(title, subject, content).Some? ==>
        outcome == Rejected(EmptyField) && notes == old(notes)
      ensures id in Ids(old(notes)) && CheckForm(title, subject, content) == None ==>
        outcome == Saved(Note(id, title, subject, content, date))
        && notes == WithoutId(old(notes), id) + [outcome.note]
      ensures UniqueIds(old(notes)) ==> UniqueIds(notes)
    {
      if Find(notes, id).None? {
        return NoSuchNote;
      }
      var check := CheckForm(title, subject, content);
      if check.Some? {
        return Rejected(check.value);
      }
      var note := Note(id, title, subject, content, date);
      if UniqueIds(notes) {
        ReplaceKeepsUniqueIds(notes, note);
      }
      notes := WithoutId(notes, id) + [note];
      outcome := Saved(note);
    }
  }

  /** Between `editNote` and its save, the edited id is absent, so a note
      created in between (by the create listener on the edit's own save
      click, or by an earlier save) receives that id whenever it is the next
      one, and the edit's push then leaves two notes with the same id. */
  lemma CreateDuringEditDuplicatesId(s: seq<Note>, id: nat, created: Note, saved: Note)
    requires id in Ids(s) && NextId(WithoutId(s, id)) == id
    requires created.id == NextId(WithoutId(s, id)) && saved.id == id
    ensures !UniqueIds(WithoutId(s, id) + [created] + [saved])
  {
    var t := WithoutId(s, id) + [created] + [saved];
    assert t[|t| - 2] == created && t[|t| - 1] == saved;
  }

  /** An edit that is begun and never saved, because the form is closed or
      a field is left empty, loses the note: it is no longer in the
      collection. */
  lemma AbandonedEditLosesNote(s: seq<Note>, id: nat)
    requires id in Ids(s)
    ensures Find(s, id).Some? && Find(s, id).value in s
    ensures Find(s, id).value !in WithoutId(s, id)
    ensures id !in Ids(WithoutId(s, id))
  {
    assert Find(s, id).Some?;
    var i :| FirstWithId(s, id, i) && s[i] == Find(s, id).value;
  }

  /** A save click during an edit whose form the reset leaves empty: the
      create listener pushes the edited fields under the next id, and when
      the edited note did not have the largest id, that next id differs from
      its own, so the note comes back under a new id and its old id is gone. */
  lemma EditSaveClickRenumbers(s: seq<Note>, id: nat, title: string, subject: string, content: string, date: string)
    requires id in Ids(s) && id != MaxId(s)
    ensures NextId(WithoutId(s, id)) == NextId(s) != id
    ensures id !in Ids(WithoutId(s, id) + [Note(NextId(WithoutId(s, id)), title, subject, content, date)])
  {
    NextIdAfterRemovingBelowMax(s, id);
    var n := Note(NextId(WithoutId(s, id)), title, subject, content, date);
    var r := WithoutId(s, id) + [n];
    assert forall m :: m in r ==> m in WithoutId(s, id) || m == n;
  }
}
