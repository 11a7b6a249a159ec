/**
 * What the HTTP routes see of a request and what they answer. A request body is what
 * `request.json()` yields, reduced to the fields the routes read; a response is a JSON
 * value or an error message with its status code.
 */
module Requests {
  import opened Wrappers
  import opened Text
  import opened JsDate

  /**
   * One property of the parsed body: missing (`undefined`), `null`, a string, or any other
   * JSON value, given by its truthiness and by what `new Date(value)` makes of it.
   */
  datatype Field = Absent | Null | Str(s: string) | Other(truthy: bool, asDate: Date)

  /**
   * The parsed body: unreadable (`request.json()` throws), the JSON `null`, a number,
   * string or boolean (whose properties all read as `undefined`), or an object or array.
   */
  datatype Body =
    | Unreadable
    | NullBody
    | Primitive
    | Fields(id: Field, name: Field, remindAt: Field, note: Field)

  /** `Response.json(value)`, or `Response.json({ error }, { status })`. */
  datatype Response<T> = Ok(value: T) | Error(status: int, message: string)

  const MaxNoteLength: nat := 280

  const NameRequired: string := "タスク名は必須です"
  const NameEmpty: string := "タスク名が空です"
  const InvalidId: string := "無効なIDです"
  const InvalidDate: string := "無効な日時です"
  const NoteNotString: string := "メモは文字列で指定してください"
  const NoteTooLong: string := "メモは280文字以内で入力してください"
  const ServerError: string := "サーバーエラーが発生しました"

  /** JavaScript truthiness of a property. */
  predicate Truthy(f: Field) {
    match f
    case Absent => false
    case Null => false
    case Str(s) => s != ""
    case Other(truthy, _) => truthy
  }

  /** `value ?? undefined`: `null` reads as missing. */
  function Coalesce(f: Field): Field {
    if f.Null? then Absent else f
  }

  /** `new Date(value)` for a present, non-null property. */
  function NewDate(h: Host, f: Field): Date
    requires f.Str? || f.Other?
  {
    if f.Str? then h.parse(f.s) else f.asDate
  }

  /**
   * The note rule both routes share: trim, reject more than 280 characters, and store a
   * blank note as nothing.
   */
  function NormaliseNote(s: string): Response<Option<string>> {
    var trimmed := Trim(s);
    if |trimmed| > MaxNoteLength then Error(400, NoteTooLong)
    else Ok(if |trimmed| > 0 then Some(trimmed) else None)
  }

  /**
   * A note is refused exactly when its trimmed text exceeds 280 characters; a stored note
   * is trimmed, non-blank and at most 280 characters long; nothing is stored exactly for
   * a blank note.
   */
  lemma NormaliseNoteSpec(s: string)
    ensures NormaliseNote(s).Error? <==> |Trim(s)| > MaxNoteLength
    ensures NormaliseNote(s).Error? ==> NormaliseNote(s) == Error(400, NoteTooLong)
    ensures NormaliseNote(s).Ok? && NormaliseNote(s).value.Some? ==>
      var n := NormaliseNote(s).value.value;
      n == Trim(s) && 0 < |n| <= MaxNoteLength && Trim(n) == n
    ensures NormaliseNote(s) == Ok(None) <==> AllWhitespace(s)
  {
    var t := Trim(s);
    assert NormaliseNote(s) == if |t| > MaxNoteLength then Error(400, NoteTooLong)
      else Ok(if |t| > 0 then Some(t) else None);
    TrimSpec(s);
    TrimIdempotent(s);
  }
}
