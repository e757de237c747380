/**
 * The HTTP status-code registry: a fixed table from code to reason text, one
 * module-level `HTTPxxx` instance per code, and `get_code`, which looks an
 * instance up by that name.
 */
module StatusCodes {
  import opened Wrappers
  import Decimal
  import Strings

  /** The entries of `StatusCode.CODES`, in the order they are written, as a case table. */
  function Listed(code: int): Option<string> {
    match code
    case 100 => Some("Continue")
    case 101 => Some("Switching Protocols")
    case 102 => Some("Processing (WebDAV)")
    case 200 => Some("OK")
    case 201 => Some("Created")
    case 202 => Some("Accepted")
    case 203 => Some("Non-Authoritative Information")
    case 204 => Some("No Content")
    case 205 => Some("Reset Content")
    case 206 => Some("Partial Content")
    case 207 => Some("Multi - Status(WebDAV)")
    case 208 => Some("Already Reported(WebDAV)")
    case 226 => Some("IM Used")
    case 300 => Some("Multiple Choices")
    case 301 => Some("Moved Permanently")
    case 302 => Some("Found")
    case 303 => Some("See Other")
    case 304 => Some("Not Modified")
    case 305 => Some("Use Proxy")
    case 306 => Some("(Unused)")
    case 307 => Some("Temporary Redirect")
    case 308 => Some("Permanent Redirect(experiemental)")
    case 400 => Some("Bad Request")
    case 401 => Some("Unauthorized")
    case 402 => Some("Payment Required")
    case 403 => Some("Forbidden")
    case 404 => Some("Not Found")
    case 405 => Some("Method Not Allowed")
    case 406 => Some("Not Acceptable")
    case 407 => Some("Proxy Authentication Required")
    case 408 => Some("Request Timeout")
    case 409 => Some("Conflict")
    case 410 => Some("Gone")
    case 411 => Some("Length Required")
    case 412 => Some("Precondition Failed")
    case 413 => Some("Request Entity Too Large")
    case 414 => Some("Request - URI Too Long")
    case 415 => Some("Unsupported Media Type")
    case 416 => Some("Requested Range Not Satisfiable")
    case 417 => Some("Expectation Failed")
    case 418 => Some("I'm a teapot (RFC 2324)")
    case 420 => Some("Enhance Your Calm(Twitter)")
    case 422 => Some("Unprocessable Entity(WebDAV)")
    case 423 => Some("Locked(WebDAV)")
    case 424 => Some("Failed Dependency(WebDAV)")
    case 425 => Some("Reserved for WebDAV")
    case 426 => Some("Upgrade Required")
    case 428 => Some("Precondition Required")
    case 429 => Some("Too Many Requests")
    case 431 => Some("Request Header Fields Too Large")
    case 444 => Some("No Response(Nginx)")
    case 449 => Some("Retry With(Microsoft)")
    case 450 => Some("Blocked by Windows Parental Controls(Microsoft)")
    case 451 => Some("Unavailable For Legal Reasons")
    case 499 => Some("Client Closed Request(Nginx)")
    case 500 => Some("Internal Server Error")
    case 501 => Some("Not Implemented")
    case 502 => Some("Bad Gateway")
    case 503 => Some("Service Unavailable")
    case 504 => Some("Gateway Timeout")
    case 505 => Some("HTTP Version Not Supported")
    case 506 => Some("Variant Also Negotiates(Experimental)")
    case 507 => Some("Insufficient Storage(WebDAV)")
    case 508 => Some("Loop Detected(WebDAV)")
    case 509 => Some("Bandwidth Limit Exceeded(Apache)")
    case 510 => Some("Not Extended")
    case 511 => Some("Network Authentication Required")
    case 598 => Some("Network read timeout error")
    case 599 => Some("Network connect timeout error")
    case _ => None
  }

  /** `StatusCode.CODES`: every listed code is a three-digit status. */
  const Codes: map<int, string> := map code | 100 <= code < 600 && Listed(code).Some? :: Listed(code).value

  /** An instance of `StatusCode`; nothing checks its code against the table. */
  datatype StatusCode = StatusCode(code: int)

  /** The exceptions of this module: the lookup failure, and the `CODES[code]` miss of `text` and `repr`. */
  datatype StatusError = StatusCodeError | KeyError

  /** The global name the registration loop gives a code: `"HTTP{}".format(code)`. */
  function Name(code: int): (n: string)
    ensures |n| > 4 && n[..4] == "HTTP"
  {
    "HTTP" + Decimal.Show(code)
  }

  /** Different codes get different names, so no registration overwrites another. */
  lemma NameInjective(a: int, b: int)
    ensures Name(a) == Name(b) ==> a == b
  {
    if Name(a) == Name(b) {
      assert Decimal.Show(a) == Name(a)[4..] && Decimal.Show(b) == Name(b)[4..];
      Decimal.ShowInjective(a, b);
    }
  }

  /** `NameInjective` for all pairs at once. */
  lemma NamesDistinct()
    ensures forall a, b :: Name(a) == Name(b) ==> a == b
  {
    forall a, b ensures Name(a) == Name(b) ==> a == b {
      NameInjective(a, b);
    }
  }

  /** The globals the `for code in StatusCode.CODES` loop creates with `exec`, one per code of `table`. */
  function Register(table: map<int, string>): (g: map<string, StatusCode>)
    ensures forall code :: code in table ==> Name(code) in g && g[Name(code)] == StatusCode(code)
    ensures forall n :: n in g ==> exists code :: code in table && Name(code) == n
  {
    NamesDistinct();
    map code | code in table :: Name(code) := StatusCode(code)
  }

  /** `get_code` against the globals of `table`: the instance under the code's name, or StatusCodeError. */
  function Find(table: map<int, string>, code: int): (r: Result<StatusCode, StatusError>)
    ensures r.Ok? <==> code in table
    ensures r.Ok? ==> r.value == StatusCode(code)
    ensures r.Err? ==> r.error == StatusCodeError
  {
    var g := Register(table);
    var name := Name(code);
    if name in g then
      assert code in table && g[name] == StatusCode(code) by {
        var c :| c in table && Name(c) == name;
        NameInjective(c, code);
      }
      Ok(g[name])
    else
      Err(StatusCodeError)
  }

  /** The module's own globals. */
  function Registry(): map<string, StatusCode> {
    Register(Codes)
  }

  /** `get_code`: found exactly for the codes of the table, as the instance of that code. */
  function GetCode(code: int): (r: Result<StatusCode, StatusError>)
    ensures r.Ok? <==> code in Codes
    ensures r.Ok? ==> r.value == StatusCode(code) && r.value == Registry()[Name(code)]
    ensures r.Err? ==> r.error == StatusCodeError
  {
    Find(Codes, code)
  }

  /** `StatusCode.text`: the table's text for the instance's code. */
  function Text(s: StatusCode): (r: Result<string, StatusError>)
    ensures r.Ok? <==> s.code in Codes
    ensures r.Ok? ==> r.value == Codes[s.code]
  {
    if s.code in Codes then Ok(Codes[s.code]) else Err(KeyError)
  }

  /** `StatusCode.__repr__`: the decimal code, one space, the text. */
  function Repr(s: StatusCode): (r: Result<string, StatusError>)
    ensures r.Ok? <==> s.code in Codes
  {
    var text :- Text(s);
    Ok(Decimal.Show(s.code) + " " + text)
  }

  /** test_1_statuscodeerror: code 1 is not in the table, so `get_code(1)` raises StatusCodeError. */
  lemma OneIsUnknown()
    ensures GetCode(1) == Err(StatusCodeError)
  {
  }

  /** test_2_statuscode_repr: a registered instance reprs as its code and text, and the code reads back. */
  lemma ReprReadsBack(code: int)
    requires code in Codes
    ensures var r := Repr(Registry()[Name(code)]);
      && r.Ok?
      && r.value == Decimal.Show(code) + " " + Codes[code]
      && Decimal.Parse(Strings.Split(r.value, ' ')[0]) == Some(code)
      && r.value[|Decimal.Show(code)| + 1..] == Codes[code]
  {
    var shown := Decimal.Show(code);
    assert ' ' !in shown by {
      forall i | 0 <= i < |shown| ensures shown[i] != ' ' {
      }
    }
    Strings.SplitHead(shown, Codes[code], ' ');
    Decimal.ParseShow(code);
  }
}
