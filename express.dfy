/** The parts of Express's request and response objects that the core reads
    and writes: request cookies and headers, the reply's status and JSON
    message, the Set-Cookie directives in the order they were issued, and the
    `next` continuation of a middleware. */
module Express {
  import opened Common
  import opened Tokens

  /** `config.env` is fixed to "production" in the configuration file. */
  const Env: string := "production"

  datatype CookieOptions = CookieOptions(
    httpOnly: bool,
    secure: bool,
    sameSite: string,
    path: Option<string>,
    maxAge: int)     // milliseconds

  datatype CookieWrite =
    | SetCookie(name: string, value: Wire, options: CookieOptions)
    | ClearCookie(name: string)

  class Request {
    var cookies: map<string, Wire>
    var headers: map<string, string>

    constructor (cookies: map<string, Wire>, headers: map<string, string>)
      ensures this.cookies == cookies && this.headers == headers
    {
      this.cookies := cookies;
      this.headers := headers;
    }

    /** `req.cookies?.[name]` */
    function Cookie(name: string): Option<Wire>
      reads this
    {
      if name in cookies then Some(cookies[name]) else None
    }

    /** `req.headers[name] = value`; assigning `undefined` drops the header. */
    method SetHeader(name: string, value: Option<string>)
      modifies this
      ensures cookies == old(cookies)
      ensures headers == if value.Some? then old(headers)[name := value.value] else old(headers) - {name}
    {
      if value.Some? {
        headers := headers[name := value.value];
      } else {
        headers := headers - {name};
      }
    }
  }

  class Response {
    var status: int
    var message: Option<string>
    var setCookies: seq<CookieWrite>

    constructor ()
      ensures status == 200 && message == None && setCookies == []
    {
      status, message, setCookies := 200, None, [];
    }

    /** `res.cookie(name, value, options)` */
    method Cookie(name: string, value: Wire, options: CookieOptions)
      modifies this
      ensures setCookies == old(setCookies) + [SetCookie(name, value, options)]
      ensures status == old(status) && message == old(message)
    {
      setCookies := setCookies + [SetCookie(name, value, options)];
    }

    /** `res.clearCookie(name)` */
    method ClearCookie(name: string)
      modifies this
      ensures setCookies == old(setCookies) + [CookieWrite.ClearCookie(name)]
      ensures status == old(status) && message == old(message)
    {
      setCookies := setCookies + [CookieWrite.ClearCookie(name)];
    }

    /** `res.status(code).json({ message })` */
    method Json(code: int, text: string)
      modifies this
      ensures status == code && message == Some(text)
      ensures setCookies == old(setCookies)
    {
      status, message := code, Some(text);
    }
  }

  /** The `next` continuation; the model records how often it was called. */
  class Next {
    var calls: nat

    constructor ()
      ensures calls == 0
    {
      calls := 0;
    }

    method Call()
      modifies this
      ensures calls == old(calls) + 1
    {
      calls := calls + 1;
    }
  }
}
