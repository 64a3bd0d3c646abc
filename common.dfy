/** Vocabulary shared by the whole backend: optional values, the HTTP status
    taxonomy the services answer with, the failures that surface as JavaScript
    exceptions, and the way the document store names new documents. */
module Common {

  datatype Option<+T> = None | Some(value: T)

  /** JavaScript truthiness of a possibly undefined string: `undefined` and
      the empty string are both falsy. */
  predicate Truthy(s: Option<string>)
  {
    s.Some? && s.value != ""
  }

  /** The members of `HttpStatusCode` that the services use. */
  datatype Status =
    | OK
    | CREATED
    | BAD_REQUEST
    | UNAUTHORIZED
    | FORBIDDEN
    | NOT_FOUND
    | INTERNAL_SERVER_ERROR

  /** The numeric code of each status, as in RFC 9110. */
  function Code(s: Status): (c: int)
    ensures 200 <= c < 600
    ensures (200 <= c < 300) <==> (s == OK || s == CREATED)
    ensures c == 401 <==> s == UNAUTHORIZED
    ensures c == 403 <==> s == FORBIDDEN
  {
    match s
    case OK => 200
    case CREATED => 201
    case BAD_REQUEST => 400
    case UNAUTHORIZED => 401
    case FORBIDDEN => 403
    case NOT_FOUND => 404
    case INTERNAL_SERVER_ERROR => 500
  }

  /** What goes wrong by throwing rather than by returning a status. */
  datatype Fault =
    | IllegalArguments   // bcrypt was handed `undefined` instead of a string
    | InvalidToken       // jwt.verify: malformed, badly signed or expired
    | DuplicateKey       // a unique index (email, phone) refused the write
    | DocumentNotFound   // save() of a document that is no longer stored
    | MediaFailure       // the media host failed an upload or a destroy
    | NegativeSkip       // the store refused a query with a negative skip

  /** How an async operation settles: it resolves with a value or rejects. */
  datatype Completion<+T> = Returned(value: T) | Threw(fault: Fault)

  /** The store names the n-th document it creates by the decimal digits of n. */
  function Digit(d: nat): (c: char)
    requires d < 10
    ensures '0' <= c <= '9'
  {
    (48 + d) as char
  }

  function IdOf(n: nat): (s: string)
    ensures |s| > 0
    ensures n >= 10 ==> |s| >= 2
  {
    if n < 10 then [Digit(n)] else IdOf(n / 10) + [Digit(n % 10)]
  }

  /** Distinct counters give distinct ids, so a store that counts never reuses a name. */
  lemma {:induction false} IdOfInjective(m: nat, n: nat)
    requires IdOf(m) == IdOf(n)
    ensures m == n
  {
    if m >= 10 && n >= 10 {
      var a, b := IdOf(m), IdOf(n);
      assert a[..|a| - 1] == IdOf(m / 10);
      assert b[..|b| - 1] == IdOf(n / 10);
      assert a[|a| - 1] == Digit(m % 10);
      assert b[|b| - 1] == Digit(n % 10);
      IdOfInjective(m / 10, n / 10);
    } else if m < 10 && n < 10 {
      assert IdOf(m)[0] == Digit(m);
    }
  }
}
