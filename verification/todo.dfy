/**
 * The task record. The server actions call the display text `text`, the HTTP routes,
 * the sorter and the reminder scheduler call it `name`; here it is one field, `name`.
 * An absent optional field (`undefined` or `null`) is `None`.
 */
module TodoModel {
  import opened Wrappers

  datatype Todo = Todo(
    id: string,
    name: string,
    completed: bool,
    remindAt: Option<string>,        // reminder timestamp text, ISO form or legacy bare local form
    remindHasTime: Option<bool>,     // explicit "has a clock time" flag, when recorded
    note: Option<string>,
    createdAt: string,
    updatedAt: string)
}
