/**
 * `POST /api/edit` (`src/app/api/edit/route.js`): validates a change to a task and answers
 * with the normalised fields, each either left out (no change), `null` (cleared) or a new
 * value.
 */
module EditRoute {
  import opened Wrappers
  import opened Text
  import opened JsDate
  import opened Requests

  /** One field of the answer: left out, `null`, or a value. */
  datatype Change<T> = Keep | Clear | Set(value: T)

  /** The answer on success: the id and the changes. */
  datatype Patch = Patch(id: string, name: Option<string>, remindAt: Change<IsoString>, note: Change<string>)

  /** A reminder value other than `null` and `""` must make a valid date, stored as its ISO text. */
  function DateChange(h: Host, d: Date): Response<Change<IsoString>> {
    match d
    case Invalid => Error(400, InvalidDate)
    case At(t) => Ok(Set(h.iso(t)))
  }

  /** The `remindAt` rule: missing is no change, `null` or `""` clears, anything else is a date. */
  function EditRemindAt(h: Host, raw: Field): Response<Change<IsoString>> {
    match raw
    case Absent => Ok(Keep)
    case Null => Ok(Clear)
    case Str(s) => if s == "" then Ok(Clear) else DateChange(h, h.parse(s))
    case Other(_, d) => DateChange(h, d)
  }

  /** The `note` rule: missing is no change, `null` or a blank string clears, other non-strings are refused. */
  function EditNote(raw: Field): Response<Change<string>> {
    match raw
    case Absent => Ok(Keep)
    case Null => Ok(Clear)
    case Str(s) =>
      (match NormaliseNote(s)
       case Error(status, message) => Error(status, message)
       case Ok(n) => Ok(if n.Some? then Set(n.value) else Clear))
    case Other(_, _) => Error(400, NoteNotString)
  }

  /**
   * The checks after reading the body, in their order: the id must be a non-empty string;
   * a string name must not trim to nothing (a name of another type is ignored); then the
   * reminder and the note.
   */
  function EditFields(h: Host, id: Field, name: Field, rawRemindAt: Field, rawNote: Field): Response<Patch> {
    if !id.Str? || id.s == "" then Error(400, InvalidId)
    else if name.Str? && Trim(name.s) == "" then Error(400, NameEmpty)
    else match EditRemindAt(h, rawRemindAt)
      case Error(status, message) => Error(status, message)
      case Ok(r) =>
        match EditNote(rawNote)
        case Error(status, message) => Error(status, message)
        case Ok(n) => Ok(Patch(id.s, if name.Str? then Some(Trim(name.s)) else None, r, n))
  }

  /**
   * The handler as written. Every property is read with `data?.`, so a `null` or primitive
   * body has no id; and `remindAt` and `note` pass through `?? undefined`, which turns an
   * explicit `null` into "missing".
   */
  function EditPost(h: Host, body: Body): Response<Patch> {
    match body
    case Unreadable => Error(500, ServerError)
    case NullBody => Error(400, InvalidId)
    case Primitive => Error(400, InvalidId)
    case Fields(id, name, remindAt, note) => EditFields(h, id, name, Coalesce(remindAt), Coalesce(note))
  }

  /** The handler as its comments describe it: an explicit `null` clears the reminder or the note. */
  function EditPostIntended(h: Host, body: Body): Response<Patch> {
    match body
    case Unreadable => Error(500, ServerError)
    case NullBody => Error(400, InvalidId)
    case Primitive => Error(400, InvalidId)
    case Fields(id, name, remindAt, note) => EditFields(h, id, name, remindAt, note)
  }

  // ---------------------------------------------------------------- lemmas

  predicate IdRefused(id: Field) {
    !(id.Str? && id.s != "")
  }

  predicate NameRefused(name: Field) {
    name.Str? && AllWhitespace(name.s)
  }

  /** A reminder other than missing, `null` and `""` is refused exactly when it makes no valid date. */
  predicate EditRemindAtRefused(h: Host, raw: Field) {
    (raw.Str? && raw.s != "" && h.parse(raw.s).Invalid?) || (raw.Other? && raw.asDate.Invalid?)
  }

  predicate EditNoteRefused(raw: Field) {
    raw.Other? || (raw.Str? && |Trim(raw.s)| > MaxNoteLength)
  }

  /** The reminder rule refuses exactly the unreadable dates, and clears exactly for `null` and `""`. */
  lemma EditRemindAtSpec(h: Host, raw: Field)
    ensures EditRemindAt(h, raw).Error? <==> EditRemindAtRefused(h, raw)
    ensures EditRemindAt(h, raw).Error? ==> EditRemindAt(h, raw) == Error(400, InvalidDate)
    ensures EditRemindAt(h, raw) == Ok(Keep) <==> raw.Absent?
    ensures EditRemindAt(h, raw) == Ok(Clear) <==> raw.Null? || raw == Str("")
    ensures EditRemindAt(h, raw).Ok? && EditRemindAt(h, raw).value.Set? ==>
      NewDate(h, raw).At? && EditRemindAt(h, raw).value.value == h.iso(NewDate(h, raw).time)
  {
  }

  /** The note rule refuses exactly the refused notes, clears for `null` and blank text, and stores trimmed text. */
  lemma EditNoteSpec(raw: Field)
    ensures EditNote(raw).Error? <==> EditNoteRefused(raw)
    ensures raw.Other? ==> EditNote(raw) == Error(400, NoteNotString)
    ensures raw.Str? && EditNoteRefused(raw) ==> EditNote(raw) == Error(400, NoteTooLong)
    ensures EditNote(raw) == Ok(Keep) <==> raw.Absent?
    ensures EditNote(raw) == Ok(Clear) <==> raw.Null? || (raw.Str? && AllWhitespace(raw.s))
    ensures EditNote(raw).Ok? && EditNote(raw).value.Set? ==>
      var n := EditNote(raw).value.value;
      raw.Str? && n == Trim(raw.s) && Trim(n) == n && 0 < |n| <= MaxNoteLength
  {
    match raw
    case Str(s) =>
      NormaliseNoteSpec(s);
      var n := Trim(s);
      assert NormaliseNote(s) == if |n| > MaxNoteLength then Error(400, NoteTooLong)
        else Ok(if |n| > 0 then Some(n) else None);
    case _ =>
  }

  /**
   * Which error the checks give: a bad id first, then a blank string name, then an
   * unreadable reminder, then an unacceptable note; and they accept exactly when none of
   * the four is refused.
   */
  lemma EditChecksInOrder(h: Host, id: Field, name: Field, rawRemindAt: Field, rawNote: Field)
    ensures var r := EditFields(h, id, name, rawRemindAt, rawNote);
      && (r.Ok? <==> !IdRefused(id) && !NameRefused(name) && !EditRemindAtRefused(h, rawRemindAt) && !EditNoteRefused(rawNote))
      && (IdRefused(id) ==> r == Error(400, InvalidId))
      && (!IdRefused(id) && NameRefused(name) ==> r == Error(400, NameEmpty))
      && (!IdRefused(id) && !NameRefused(name) && EditRemindAtRefused(h, rawRemindAt) ==> r == Error(400, InvalidDate))
      && (!IdRefused(id) && !NameRefused(name) && !EditRemindAtRefused(h, rawRemindAt) && EditNoteRefused(rawNote) ==>
            r.Error? && r.status == 400 && (r.message == NoteNotString || r.message == NoteTooLong))
  {
    EditRemindAtSpec(h, rawRemindAt);
    EditNoteSpec(rawNote);
    if name.Str? {
      assert Trim(name.s) == "" <==> AllWhitespace(name.s);
    }
  }

  /**
   * What an accepted change holds: the id sent; a name exactly when a string name was
   * sent, trimmed and not empty; the reminder and note changes the two rules give.
   */
  lemma EditedFields(h: Host, id: Field, name: Field, rawRemindAt: Field, rawNote: Field)
    requires EditFields(h, id, name, rawRemindAt, rawNote).Ok?
    ensures var p := EditFields(h, id, name, rawRemindAt, rawNote).value;
      && id == Str(p.id) && p.id != ""
      && (p.name.Some? <==> name.Str?)
      && (p.name.Some? ==> p.name.value == Trim(name.s) && p.name.value != "" && Trim(p.name.value) == p.name.value)
      && Ok(p.remindAt) == EditRemindAt(h, rawRemindAt)
      && Ok(p.note) == EditNote(rawNote)
  {
    EditedPatch(h, id, name, rawRemindAt, rawNote);
    if name.Str? {
      TrimIdempotent(name.s);
    }
  }

  /** The answer the checks build once all of them pass. */
  lemma EditedPatch(h: Host, id: Field, name: Field, rawRemindAt: Field, rawNote: Field)
    requires EditFields(h, id, name, rawRemindAt, rawNote).Ok?
    ensures id.Str? && id.s != "" && !(name.Str? && Trim(name.s) == "")
    ensures EditRemindAt(h, rawRemindAt).Ok? && EditNote(rawNote).Ok?
    ensures EditFields(h, id, name, rawRemindAt, rawNote) == Ok(Patch(id.s, if name.Str? then Some(Trim(name.s)) else None,
                                                                     EditRemindAt(h, rawRemindAt).value, EditNote(rawNote).value))
  {
  }

  /** Bodies that are not objects: a server error when unreadable, otherwise a missing id. */
  lemma EditNonObjectBodies(h: Host)
    ensures EditPost(h, Unreadable) == Error(500, ServerError)
    ensures EditPost(h, NullBody) == Error(400, InvalidId)
    ensures EditPost(h, Primitive) == Error(400, InvalidId)
  {
  }

  /**
   * As written, an explicit `null` for the reminder or the note is the same as leaving the
   * field out: the answer keeps it instead of clearing it. With id "a" and both fields
   * `null`, the answer changes nothing.
   */
  lemma NullIsIgnored(h: Host, id: Field, name: Field, remindAt: Field, note: Field)
    ensures EditPost(h, Fields(id, name, Null, note)) == EditPost(h, Fields(id, name, Absent, note))
    ensures EditPost(h, Fields(id, name, remindAt, Null)) == EditPost(h, Fields(id, name, remindAt, Absent))
    ensures EditPost(h, Fields(Str("a"), Absent, Null, Null)) == Ok(Patch("a", None, Keep, Keep))
  {
    NullFieldsRead(h, id, name, remindAt, note);
    NullBodyKeeps(h);
  }

  /** `?? undefined` hands the checks a missing field in place of `null`. */
  lemma NullFieldsRead(h: Host, id: Field, name: Field, remindAt: Field, note: Field)
    ensures EditPost(h, Fields(id, name, Null, note)) == EditFields(h, id, name, Absent, Coalesce(note))
    ensures EditPost(h, Fields(id, name, Absent, note)) == EditFields(h, id, name, Absent, Coalesce(note))
    ensures EditPost(h, Fields(id, name, remindAt, Null)) == EditFields(h, id, name, Coalesce(remindAt), Absent)
    ensures EditPost(h, Fields(id, name, remindAt, Absent)) == EditFields(h, id, name, Coalesce(remindAt), Absent)
  {
    assert Coalesce(Null) == Absent && Coalesce(Absent) == Absent;
  }

  lemma NullBodyKeeps(h: Host)
    ensures EditPost(h, Fields(Str("a"), Absent, Null, Null)) == Ok(Patch("a", None, Keep, Keep))
  {
    assert EditPost(h, Fields(Str("a"), Absent, Null, Null)) == EditFields(h, Str("a"), Absent, Absent, Absent);
    assert EditRemindAt(h, Absent) == Ok(Keep) && EditNote(Absent) == Ok(Keep);
  }

  /**
   * As intended, an explicit `null` clears the reminder and the note, and every other body
   * is answered as the handler as written answers it.
   */
  lemma NullClears(h: Host, id: Field, name: Field, remindAt: Field, note: Field)
    ensures EditPostIntended(h, Fields(Str("a"), Absent, Null, Null)) == Ok(Patch("a", None, Clear, Clear))
    ensures var r := EditPostIntended(h, Fields(id, name, Null, note));
      r.Ok? ==> r.value.remindAt == Clear
    ensures var r := EditPostIntended(h, Fields(id, name, remindAt, Null));
      r.Ok? ==> r.value.note == Clear
    ensures !remindAt.Null? && !note.Null? ==>
      EditPostIntended(h, Fields(id, name, remindAt, note)) == EditPost(h, Fields(id, name, remindAt, note))
  {
    NullClearsBoth(h);
    NullClearsReminder(h, id, name, note);
    NullClearsNote(h, id, name, remindAt);
    IntendedAgreesOffNull(h, id, name, remindAt, note);
  }

  lemma NullClearsBoth(h: Host)
    ensures EditPostIntended(h, Fields(Str("a"), Absent, Null, Null)) == Ok(Patch("a", None, Clear, Clear))
  {
    assert EditRemindAt(h, Null) == Ok(Clear) && EditNote(Null) == Ok(Clear);
    assert EditPostIntended(h, Fields(Str("a"), Absent, Null, Null)) == EditFields(h, Str("a"), Absent, Null, Null);
  }

  lemma NullClearsReminder(h: Host, id: Field, name: Field, note: Field)
    ensures var r := EditPostIntended(h, Fields(id, name, Null, note));
      r.Ok? ==> r.value.remindAt == Clear
  {
    assert EditRemindAt(h, Null) == Ok(Clear);
    assert EditPostIntended(h, Fields(id, name, Null, note)) == EditFields(h, id, name, Null, note);
    if EditFields(h, id, name, Null, note).Ok? {
      EditedFields(h, id, name, Null, note);
    }
  }

  lemma NullClearsNote(h: Host, id: Field, name: Field, remindAt: Field)
    ensures var r := EditPostIntended(h, Fields(id, name, remindAt, Null));
      r.Ok? ==> r.value.note == Clear
  {
    assert EditNote(Null) == Ok(Clear);
    assert EditPostIntended(h, Fields(id, name, remindAt, Null)) == EditFields(h, id, name, remindAt, Null);
    if EditFields(h, id, name, remindAt, Null).Ok? {
      EditedFields(h, id, name, remindAt, Null);
    }
  }

  lemma IntendedAgreesOffNull(h: Host, id: Field, name: Field, remindAt: Field, note: Field)
    ensures !remindAt.Null? && !note.Null? ==>
      EditPostIntended(h, Fields(id, name, remindAt, note)) == EditPost(h, Fields(id, name, remindAt, note))
  {
    if !remindAt.Null? && !note.Null? {
      assert Coalesce(remindAt) == remindAt && Coalesce(note) == note;
    }
  }
}
