/**
 * The parts of Django's mail package that djcelery_email/utils.py touches:
 * the EmailMessage record, the values a keyword mapping can hold, the Python
 * exceptions the conversions can raise, and the constructor
 * `EmailMessage(**kwargs)`. Django itself is not part of this model: the
 * constructor is stated abstractly, as a record built from its keyword
 * arguments, and none of Django's own normalisation is claimed.
 */
module Mail {
  import opened Wrappers

  /** An attachment, carried opaquely: a (filename, content, mimetype) triple or a MIME part object. */
  datatype Attachment =
    | Triple(filename: Option<string>, content: string, mimetype: Option<string>)
    | MimePart(id: nat)

  /** The `connection` attribute: None, or an opaque backend object. */
  datatype Connection = NoConnection | Backend(id: nat)

  /** An email message object, with the attributes the conversions read. */
  datatype EmailMessage = EmailMessage(
    subject: string,
    body: string,
    fromEmail: string,
    to: seq<string>,
    bcc: seq<string>,
    cc: seq<string>,
    attachments: seq<Attachment>,
    extraHeaders: map<string, string>,
    connection: Connection)

  /** A value held by a message dict, tagged with its kind. */
  datatype Value =
    | Text(text: string)
    | Addresses(addresses: seq<string>)
    | Files(files: seq<Attachment>)
    | Headers(headers: map<string, string>)
    | Handle(connection: Connection)

  datatype TypeErrorReason =
    | NotAMapping        // `**m` applied to something that is not a dict
    | UnexpectedKeyword  // a key the constructor has no parameter for
    | WrongKind          // a value of the wrong kind for its parameter

  /** The Python exceptions the conversions can raise. */
  datatype Error =
    | AttributeError(attribute: string)
    | TypeError(reason: TypeErrorReason)

  /** The keyword parameters of the EmailMessage constructor. */
  const Keywords: set<string> :=
    {"subject", "body", "from_email", "to", "bcc", "connection", "attachments", "headers", "cc"}

  /** The kind of value each keyword parameter takes. */
  predicate FitsKeyword(name: string, v: Value) {
    match name
    case "subject" => v.Text?
    case "body" => v.Text?
    case "from_email" => v.Text?
    case "to" => v.Addresses?
    case "bcc" => v.Addresses?
    case "cc" => v.Addresses?
    case "attachments" => v.Files?
    case "headers" => v.Headers?
    case "connection" => v.Handle?
    case _ => false
  }

  /** A keyword mapping the constructor accepts: known names, each with a value of its kind. */
  predicate WellFormedKeywords(kwargs: map<string, Value>) {
    forall name | name in kwargs :: FitsKeyword(name, kwargs[name])
  }

  function TextArg(kwargs: map<string, Value>, name: string, default: string): Result<string, Error> {
    if name !in kwargs then Ok(default)
    else if kwargs[name].Text? then Ok(kwargs[name].text)
    else Err(TypeError(WrongKind))
  }

  function AddressesArg(kwargs: map<string, Value>, name: string): Result<seq<string>, Error> {
    if name !in kwargs then Ok([])
    else if kwargs[name].Addresses? then Ok(kwargs[name].addresses)
    else Err(TypeError(WrongKind))
  }

  function FilesArg(kwargs: map<string, Value>): Result<seq<Attachment>, Error> {
    if "attachments" !in kwargs then Ok([])
    else if kwargs["attachments"].Files? then Ok(kwargs["attachments"].files)
    else Err(TypeError(WrongKind))
  }

  function HeadersArg(kwargs: map<string, Value>): Result<map<string, string>, Error> {
    if "headers" !in kwargs then Ok(map[])
    else if kwargs["headers"].Headers? then Ok(kwargs["headers"].headers)
    else Err(TypeError(WrongKind))
  }

  function ConnectionArg(kwargs: map<string, Value>): Result<Connection, Error> {
    if "connection" !in kwargs then Ok(NoConnection)
    else if kwargs["connection"].Handle? then Ok(kwargs["connection"].connection)
    else Err(TypeError(WrongKind))
  }

  /**
   * `EmailMessage(**kwargs)`. A key that names no parameter raises TypeError;
   * a parameter left out takes its empty default. The sender is
   * `from_email or DEFAULT_FROM_EMAIL`: a missing or empty `from_email` gives
   * the setting, passed in as `defaultFrom`. The `headers` argument becomes
   * the `extra_headers` attribute.
   */
  function NewEmailMessage(kwargs: map<string, Value>, defaultFrom: string): (r: Result<EmailMessage, Error>)
    ensures r.Ok? <==> WellFormedKeywords(kwargs)
    ensures r.Ok? ==> r.value.extraHeaders == (if "headers" in kwargs then kwargs["headers"].headers else map[])
    ensures r.Ok? ==>
      r.value.fromEmail == if "from_email" in kwargs && kwargs["from_email"].text != "" then kwargs["from_email"].text else defaultFrom
  {
    if !(kwargs.Keys <= Keywords) then Err(TypeError(UnexpectedKeyword))
    else
      var subject :- TextArg(kwargs, "subject", "");
      var body :- TextArg(kwargs, "body", "");
      var sender :- TextArg(kwargs, "from_email", "");
      var fromEmail := if sender == "" then defaultFrom else sender;
      var to :- AddressesArg(kwargs, "to");
      var bcc :- AddressesArg(kwargs, "bcc");
      var connection :- ConnectionArg(kwargs);
      var attachments :- FilesArg(kwargs);
      var headers :- HeadersArg(kwargs);
      var cc :- AddressesArg(kwargs, "cc");
      Ok(EmailMessage(subject, body, fromEmail, to, bcc, cc, attachments, headers, connection))
  }
}
