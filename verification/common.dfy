/** Vocabulary shared by the request handlers: optional values, the values a
    JSON request body or a query string can carry, HTTP replies, and the
    notification e-mails the handlers hand to the mail sender. */
module Common {

  datatype Option<+T> = None | Some(value: T) {
    /** The value, or `default` when there is none (`value || default`). */
    function GetOr(default: T): (r: T)
      ensures Some? ==> r == value
      ensures None? ==> r == default
    {
      match this
      case Some(v) => v
      case None => default
    }
  }

  /** A request field as a handler sees it after body or query parsing.
      Only the distinctions the handlers test are kept: `undefined`, `null`,
      booleans, numbers (integral here), strings, and arrays or objects,
      which are always truthy. */
  datatype JsValue =
    | Undefined
    | Null
    | Bool(b: bool)
    | Num(n: int)
    | Str(s: string)
    | Composite

  /** JavaScript truthiness, the test behind `if (field)` and `!field`. */
  predicate Truthy(v: JsValue) {
    match v
    case Undefined => false
    case Null => false
    case Bool(b) => b
    case Num(n) => n != 0
    case Str(s) => s != ""
    case Composite => true
  }

  /** The string a handler takes from a field it guards with `if (field)`:
      present exactly when the field is a non-empty string. */
  function Supplied(v: JsValue): (r: Option<string>)
    ensures r.Some? <==> v.Str? && Truthy(v)
    ensures r.Some? ==> v == Str(r.value) && r.value != ""
  {
    if v.Str? && v.s != "" then Some(v.s) else None
  }

  /** An HTTP response reduced to its status code and message. Handlers
      that answer with a JSON record instead of a message use "" here and
      carry the record beside the reply. */
  datatype Reply = Reply(status: int, message: string)

  const Ok := 200
  const Created := 201
  const BadRequest := 400
  const NotFound := 404
  const ServerError := 500

  /** The e-mails the handlers hand to the mail sender. The password reset
      handlers do not wait for a send; creating an insight waits for all of
      its sends before replying. Either way a send never changes a reply or a
      store, because the sender catches its own failures and reports them
      only as a boolean nobody reads. */
  datatype Mail =
    | OtpMail(to: string, name: string, otp: string)
    | ResetConfirmation(to: string, name: string)
    | InsightNotice(to: string, title: string, preview: string, link: string)
}
