/** The values the browser client and the spreadsheet-backed server exchange
    over the REST API (the JSON bodies of /api/tasks), and the JavaScript
    value semantics both sides rely on. */
module TaskTypes {

  datatype Option<+T> = None | Some(value: T)

  /** A task as a JSON object: GET returns a list of these, POST and PUT echo one.
      `dueDate` is None for JSON null; a missing spreadsheet cell reads as "". */
  datatype Task = Task(
    id: string,
    title: string,
    content: string,
    dueDate: Option<string>,
    completed: bool,
    category: string,
    priority: string)

  /** Body of POST /api/tasks. None stands for a field that is absent or null. */
  datatype CreateRequest = CreateRequest(
    title: Option<string>,
    content: Option<string>,
    dueDate: Option<string>,
    category: Option<string>,
    priority: Option<string>)

  /** Body of PUT /api/tasks/:id. A string field is None when absent or null
      (both fall through `??`); `completed` is None only when absent, and
      Some(b) holds the JavaScript truthiness b of whatever value was sent. */
  datatype UpdateRequest = UpdateRequest(
    title: Option<string>,
    content: Option<string>,
    dueDate: Option<string>,
    completed: Option<bool>,
    category: Option<string>,
    priority: Option<string>)

  /** JavaScript truthiness of a possibly absent string: undefined, null and "" are falsy. */
  predicate Truthy(v: Option<string>) {
    v.Some? && v.value != ""
  }

  /** `v || d` on a possibly absent string. */
  function Or(v: Option<string>, d: string): string {
    if Truthy(v) then v.value else d
  }

  /** `v || null`: a falsy string becomes null. */
  function OrNull(v: Option<string>): Option<string> {
    if Truthy(v) then v else None
  }

  predicate IsDigit(c: char) {
    '0' <= c <= '9'
  }

  /** The decimal digit character of a number below ten. */
  function DigitChar(d: nat): (c: char)
    requires d <= 9
    ensures IsDigit(c)
  {
    ('0' as int + d) as char
  }

  /** `v ?? d`: only null and undefined fall through. */
  function Coalesce(v: Option<string>, d: string): string {
    if v.Some? then v.value else d
  }
}
