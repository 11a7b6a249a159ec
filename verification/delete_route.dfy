/**
 * `POST /api/delete` (`src/app/api/delete/route.js`): checks the id of the task to delete
 * and acknowledges it. Nothing is stored server-side, so the answer is the acknowledgement.
 */
module DeleteRoute {
  import opened JsDate
  import opened Requests
  import EditRoute

  /** The answer on success: `{ ok: true, id }`. */
  datatype Deleted = Deleted(ok: bool, id: string)

  /** The handler: an unreadable body is a server error; otherwise `data?.id` must be a non-empty string. */
  function DeletePost(body: Body): Response<Deleted> {
    match body
    case Unreadable => Error(500, ServerError)
    case NullBody => Error(400, InvalidId)
    case Primitive => Error(400, InvalidId)
    case Fields(id, _, _, _) =>
      if id.Str? && id.s != "" then Ok(Deleted(true, id.s)) else Error(400, InvalidId)
  }

  // ---------------------------------------------------------------- lemmas

  /**
   * A deletion is acknowledged exactly for an object body whose id is a non-empty string,
   * and the acknowledgement echoes that id; every other readable body is refused as an
   * invalid id.
   */
  lemma DeleteAcknowledges(body: Body)
    ensures DeletePost(body).Ok? <==> body.Fields? && body.id.Str? && body.id.s != ""
    ensures DeletePost(body).Ok? ==> DeletePost(body).value == Deleted(true, body.id.s)
    ensures DeletePost(body).Error? ==>
      DeletePost(body) == (if body.Unreadable? then Error(500, ServerError) else Error(400, InvalidId))
  {
  }

  /** Only the id matters: bodies that differ in their other properties get the same answer. */
  lemma DeleteReadsOnlyId(id: Field, name: Field, remindAt: Field, note: Field,
                          name': Field, remindAt': Field, note': Field)
    ensures DeletePost(Fields(id, name, remindAt, note)) == DeletePost(Fields(id, name', remindAt', note'))
  {
  }

  /**
   * The delete handler and the edit handler, both as written and as intended, refuse
   * exactly the same bodies as having an invalid id.
   */
  lemma SameIdCheckAsEdit(h: Host, body: Body)
    ensures DeletePost(body) == Error(400, InvalidId) <==> EditRoute.EditPost(h, body) == Error(400, InvalidId)
    ensures DeletePost(body) == Error(400, InvalidId) <==> EditRoute.EditPostIntended(h, body) == Error(400, InvalidId)
  {
    if body.Fields? {
      SameIdCheckOnFields(h, body.id, body.name, body.remindAt, body.note);
      var read := Fields(body.id, body.name, Coalesce(body.remindAt), Coalesce(body.note));
      assert EditRoute.EditPost(h, body) == EditRoute.EditPostIntended(h, read);
      SameIdCheckOnFields(h, read.id, read.name, read.remindAt, read.note);
    }
  }

  /** On an object body the edit handler's invalid-id answer comes from the id alone. */
  lemma SameIdCheckOnFields(h: Host, id: Field, name: Field, remindAt: Field, note: Field)
    ensures DeletePost(Fields(id, name, remindAt, note)) == Error(400, InvalidId)
      <==> EditRoute.EditPostIntended(h, Fields(id, name, remindAt, note)) == Error(400, InvalidId)
  {
    EditRoute.EditChecksInOrder(h, id, name, remindAt, note);
    EditRoute.EditRemindAtSpec(h, remindAt);
    EditRoute.EditNoteSpec(note);
  }
}
