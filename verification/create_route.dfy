/**
 * `POST /api/create` (`src/app/api/create/route.js`): validates a new task and answers with
 * the record it would create. The random id (`crypto.randomUUID()`) is a parameter.
 */
module CreateRoute {
  import opened Wrappers
  import opened Text
  import opened JsDate
  import opened Requests

  /** The answer on success: the new task, always open. */
  datatype NewTodo = NewTodo(id: string, name: Field, completed: bool, remindAt: Option<IsoString>, note: Option<string>)

  /** The `note` rule: missing or `null` is no note, a string is normalised, anything else is refused. */
  function CreateNote(note: Field): Response<Option<string>> {
    match note
    case Absent => Ok(None)
    case Null => Ok(None)
    case Str(s) => NormaliseNote(s)
    case Other(_, _) => Error(400, NoteNotString)
  }

  /** The `remindAt` rule: a falsy value is no reminder, anything else must make a valid date. */
  function CreateRemindAt(h: Host, remindAt: Field): Response<Option<IsoString>> {
    if !Truthy(remindAt) then Ok(None)
    else match NewDate(h, remindAt)
      case Invalid => Error(400, InvalidDate)
      case At(t) => Ok(Some(h.iso(t)))
  }

  /**
   * The handler: an unreadable body or a `null` body (reading `data.name` throws) is a
   * server error; then the name must be truthy, the note acceptable and the reminder valid,
   * checked in that order.
   */
  function CreatePost(h: Host, body: Body, id: string): Response<NewTodo> {
    match body
    case Unreadable => Error(500, ServerError)
    case NullBody => Error(500, ServerError)
    case Primitive => Error(400, NameRequired)
    case Fields(_, name, remindAt, note) =>
      if !Truthy(name) then Error(400, NameRequired)
      else match CreateNote(note)
        case Error(status, message) => Error(status, message)
        case Ok(n) =>
          match CreateRemindAt(h, remindAt)
          case Error(status, message) => Error(status, message)
          case Ok(r) => Ok(NewTodo(id, name, false, r, n))
  }

  // ---------------------------------------------------------------- lemmas

  /** The note is refused exactly when it is neither missing, `null` nor a string, or its trimmed text is too long. */
  predicate NoteRefused(note: Field) {
    note.Other? || (note.Str? && |Trim(note.s)| > MaxNoteLength)
  }

  /** The reminder is refused exactly when it is truthy and does not make a valid date. */
  predicate RemindAtRefused(h: Host, remindAt: Field) {
    (remindAt.Str? && remindAt.s != "" && h.parse(remindAt.s).Invalid?)
    || (remindAt.Other? && remindAt.truthy && remindAt.asDate.Invalid?)
  }

  /** The note rule refuses exactly the refused notes, with the message for the reason. */
  lemma CreateNoteRefuses(note: Field)
    ensures CreateNote(note).Error? <==> NoteRefused(note)
    ensures note.Other? ==> CreateNote(note) == Error(400, NoteNotString)
    ensures note.Str? && NoteRefused(note) ==> CreateNote(note) == Error(400, NoteTooLong)
  {
    if note.Str? {
      assert CreateNote(note) == NormaliseNote(note.s);
      NormaliseNoteSpec(note.s);
    }
  }

  /** The reminder rule refuses exactly the refused reminders. */
  lemma CreateRemindAtRefuses(h: Host, remindAt: Field)
    ensures CreateRemindAt(h, remindAt).Error? <==> RemindAtRefused(h, remindAt)
    ensures CreateRemindAt(h, remindAt).Error? ==> CreateRemindAt(h, remindAt) == Error(400, InvalidDate)
  {
  }

  /**
   * Which error a readable object body gets: the missing name first, then the note, then
   * the reminder; and it is accepted exactly when none of the three is refused.
   */
  lemma CreateChecksInOrder(h: Host, id: Field, name: Field, remindAt: Field, note: Field, newId: string)
    ensures var r := CreatePost(h, Fields(id, name, remindAt, note), newId);
      && (r.Ok? <==> Truthy(name) && !NoteRefused(note) && !RemindAtRefused(h, remindAt))
      && (!Truthy(name) ==> r == Error(400, NameRequired))
      && (Truthy(name) && note.Other? ==> r == Error(400, NoteNotString))
      && (Truthy(name) && NoteRefused(note) && note.Str? ==> r == Error(400, NoteTooLong))
      && (Truthy(name) && !NoteRefused(note) && RemindAtRefused(h, remindAt) ==> r == Error(400, InvalidDate))
  {
    if Truthy(name) {
      CreateNoteRefuses(note);
      if !NoteRefused(note) {
        CreateRemindAtRefuses(h, remindAt);
      }
    }
  }

  /** Bodies that are not objects: a server error when reading `data.name` throws, otherwise the missing name. */
  lemma CreateNonObjectBodies(h: Host, newId: string)
    ensures CreatePost(h, Unreadable, newId) == Error(500, ServerError)
    ensures CreatePost(h, NullBody, newId) == Error(500, ServerError)
    ensures CreatePost(h, Primitive, newId) == Error(400, NameRequired)
  {
  }

  /**
   * What an accepted task holds: the given id, the name exactly as sent, not completed; a
   * reminder exactly when one was truthy, as the ISO text of the date it makes; and a note
   * exactly when a string note is not blank, trimmed and at most 280 characters long.
   */
  lemma CreatedTask(h: Host, id: Field, name: Field, remindAt: Field, note: Field, newId: string)
    requires CreatePost(h, Fields(id, name, remindAt, note), newId).Ok?
    ensures var t := CreatePost(h, Fields(id, name, remindAt, note), newId).value;
      && t.id == newId && t.name == name && Truthy(t.name) && !t.completed
      && (t.remindAt.Some? <==> Truthy(remindAt))
      && (t.remindAt.Some? ==> NewDate(h, remindAt).At? && t.remindAt.value == h.iso(NewDate(h, remindAt).time))
      && (t.note.Some? <==> note.Str? && !AllWhitespace(note.s))
      && (t.note.Some? ==> t.note.value == Trim(note.s) && Trim(t.note.value) == t.note.value
                           && 0 < |t.note.value| <= MaxNoteLength)
  {
    CreatedRecord(h, id, name, remindAt, note, newId);
    CreateRemindAtValue(h, remindAt);
    CreateNoteValue(note);
  }

  /** The record an accepted body makes: the results of the two rules, under the given id. */
  lemma CreatedRecord(h: Host, id: Field, name: Field, remindAt: Field, note: Field, newId: string)
    requires CreatePost(h, Fields(id, name, remindAt, note), newId).Ok?
    ensures Truthy(name) && CreateNote(note).Ok? && CreateRemindAt(h, remindAt).Ok?
    ensures CreatePost(h, Fields(id, name, remindAt, note), newId)
      == Ok(NewTodo(newId, name, false, CreateRemindAt(h, remindAt).value, CreateNote(note).value))
  {
  }

  /** An accepted note is stored exactly when it is a non-blank string, trimmed. */
  lemma CreateNoteValue(note: Field)
    requires CreateNote(note).Ok?
    ensures var n := CreateNote(note).value;
      && (n.Some? <==> note.Str? && !AllWhitespace(note.s))
      && (n.Some? ==> n.value == Trim(note.s) && Trim(n.value) == n.value && 0 < |n.value| <= MaxNoteLength)
  {
    if note.Str? {
      assert CreateNote(note) == NormaliseNote(note.s);
      NormaliseNoteSpec(note.s);
    }
  }

  /** An accepted reminder is stored exactly when it is truthy, as the ISO text of its date. */
  lemma CreateRemindAtValue(h: Host, remindAt: Field)
    requires CreateRemindAt(h, remindAt).Ok?
    ensures var r := CreateRemindAt(h, remindAt).value;
      && (r.Some? <==> Truthy(remindAt))
      && (r.Some? ==> NewDate(h, remindAt).At? && r.value == h.iso(NewDate(h, remindAt).time))
  {
    if Truthy(remindAt) {
      assert remindAt.Str? || remindAt.Other?;
      match NewDate(h, remindAt)
      case Invalid =>
      case At(t) => assert CreateRemindAt(h, remindAt) == Ok(Some(h.iso(t)));
    }
  }

  /** A name of blanks passes, since only its truthiness is checked, and it is kept untrimmed. */
  lemma BlankNameAccepted(h: Host, newId: string)
    ensures CreatePost(h, Fields(Absent, Str(" "), Absent, Absent), newId) == Ok(NewTodo(newId, Str(" "), false, None, None))
  {
  }
}
