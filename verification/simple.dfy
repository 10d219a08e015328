/**
  The `Simple` mail transport's composer: `Simple::deliver` turns a message
  into a header map and a multipart body and hands them, with the recipient
  and subject, to one call of the injected `mail` function.

  Inputs the PHP code obtains from the clock, the filesystem, `uniqid`, the
  parent `Transport` class or PHP's own `wordwrap` are fields of `Env`.
 */
module Simple {
  import opened Wrappers
  import opened Php
  import opened Text
  import opened Base64
  import opened HeaderMap
  import opened Params

  /** The addresses held by one message property, as `_address` receives them. */
  type Addresses = seq<string>

  /** One entry of `$message->types()` with its text `$message->body($type)`. */
  datatype Alternative = Alternative(name: string, mime: string, text: string)

  /**
    One entry of `$message->attachments()`.  `None` is a missing key or a
    null value; for `contentType` a missing key means the default
    `text/plain`, and an explicit null is modelled as `Some("")`.  `data`
    is `None` when no inline content was given (PHP's `false`).
   */
  datatype Attachment = Attachment(
    path: Option<string>,
    data: Option<seq<byte>>,
    filename: Option<string>,
    contentType: Option<string>,
    disposition: Option<string>,
    id: Option<string>)

  /** The message properties `deliver` reads. */
  datatype Message = Message(
    returnPath: Addresses, sender: Addresses, from: Addresses, replyTo: Addresses,
    to: Addresses, cc: Addresses, bcc: Addresses,
    subject: string,
    date: int,
    charset: string,
    headers: Headers,
    types: seq<Alternative>,
    attachments: seq<Attachment>)

  /**
    What the composer takes from outside: `_address` of the parent class,
    `date('r', ...)`, the two `uniqid` boundaries (the alternative one and
    the mixed one), `file_get_contents` (`None` for PHP's `false`), and the
    70-column soft `wordwrap` applied to text bodies.
   */
  datatype Env = Env(
    address: Addresses -> string,
    formatDate: int -> string,
    altBoundary: string,
    mixedBoundary: string,
    read: string -> Option<seq<byte>>,
    softWrap: string -> string)

  /** The `RuntimeException` thrown for an attachment without content. */
  datatype Error = AttachmentUnreadable(path: string)

  /** The exception's message. */
  function ErrorMessage(e: Error): string
  {
    "Can not attach path `" + e.path + "`."
  }

  /** The exception's message names the path between back-quotes, so distinct paths give distinct messages. */
  lemma ErrorMessageNamesPath(e: Error, e': Error)
    ensures |ErrorMessage(e)| == |e.path| + 23
    ensures ErrorMessage(e)[..21] == "Can not attach path `" && ErrorMessage(e)[|e.path| + 21..] == "`."
    ensures ErrorMessage(e)[21..|e.path| + 21] == e.path
    ensures ErrorMessage(e) == ErrorMessage(e') ==> e == e'
  {
  }

  /** The four arguments of the `mail` call. */
  datatype Envelope = Envelope(to: string, subject: string, body: string, headers: string)

  // ---------------------------------------------------------------- headers

  /**
    An entry of `$_messageAddresses`: a property name with an explicit
    header name (a string key) or without one (an integer key).
   */
  datatype AddressEntry = AddressEntry(property: string, header: Option<string>)

  /** `$_messageAddresses`, in declaration order. */
  const MessageAddresses: seq<AddressEntry> := [
    AddressEntry("returnPath", Some("Return-Path")),
    AddressEntry("sender", None),
    AddressEntry("from", None),
    AddressEntry("replyTo", Some("Reply-To")),
    AddressEntry("cc", None),
    AddressEntry("bcc", None)
  ]

  /** The header an entry fills: the explicit name, or `ucfirst` of the property. */
  function HeaderName(e: AddressEntry): string
  {
    match e.header
    case Some(h) => h
    case None => UcFirst(e.property)
  }

  /** `$message->$property` for the address properties; any other name reads as no addresses. */
  function Property(m: Message, p: string): Addresses
  {
    if p == "returnPath" then m.returnPath
    else if p == "sender" then m.sender
    else if p == "from" then m.from
    else if p == "replyTo" then m.replyTo
    else if p == "to" then m.to
    else if p == "cc" then m.cc
    else if p == "bcc" then m.bcc
    else []
  }

  /** The assignments of the address loop, in table order. */
  function AddressUpdates(m: Message, env: Env, table: seq<AddressEntry>): (u: Headers)
    ensures |u| == |table|
    ensures forall i :: 0 <= i < |table| ==>
              u[i] == Header(HeaderName(table[i]), env.address(Property(m, table[i].property)))
  {
    if |table| == 0 then []
    else [Header(HeaderName(table[0]), env.address(Property(m, table[0].property)))]
         + AddressUpdates(m, env, table[1..])
  }

  /** The caller's headers after the address loop, `Date` and `MIME-Version`. */
  function AssembleHeaders(m: Message, env: Env): Headers
  {
    SetAll(m.headers, AddressUpdates(m, env, MessageAddresses)
                      + [Header("Date", env.formatDate(m.date)), Header("MIME-Version", "1.0")])
  }

  /** The top-level Content-Type of a multipart/alternative body. */
  function AlternativeContentType(boundary: string): string
  {
    "multipart/alternative;boundary=\"" + boundary + "\""
  }

  /** The top-level Content-Type of a multipart/mixed body. */
  function MixedContentType(boundary: string): string
  {
    "multipart/mixed;boundary=\"" + boundary + "\""
  }

  /** The header map before filtering: Content-Type is alternative, then mixed when there are attachments. */
  function FinalHeaders(m: Message, env: Env): Headers
  {
    var h := Set(AssembleHeaders(m, env), "Content-Type", AlternativeContentType(env.altBoundary));
    if |m.attachments| > 0 then Set(h, "Content-Type", MixedContentType(env.mixedBoundary)) else h
  }

  // ---------------------------------------------------------------- bodies

  /** A delimiter line of section 5.1.1 of RFC 2046, without its line ending. */
  function Delimiter(boundary: string): string
  {
    "--" + boundary
  }

  /** The close-delimiter line of section 5.1.1 of RFC 2046. */
  function CloseDelimiter(boundary: string): string
  {
    "--" + boundary + "--"
  }

  /** The Content-Type line of one alternative part. */
  function PartContentTypeLine(t: Alternative, charset: string): string
  {
    "Content-Type: " + t.mime + ";charset=\"" + charset + "\""
  }

  /** One alternative part, from its delimiter to the blank line after its text. */
  function AlternativePart(t: Alternative, charset: string, boundary: string, wrap: string -> string): string
  {
    Delimiter(boundary) + "\n" + PartContentTypeLine(t, charset) + "\n\n" + wrap(t.text) + "\n\n"
  }

  /** All alternative parts, in `types()` order. */
  function AlternativeParts(ts: seq<Alternative>, charset: string, boundary: string, wrap: string -> string): string
  {
    if |ts| == 0 then ""
    else AlternativePart(ts[0], charset, boundary, wrap) + AlternativeParts(ts[1..], charset, boundary, wrap)
  }

  /** The line announcing the alternative body inside a mixed body. */
  function AlternativePreambleLine(boundary: string): string
  {
    "Content-Type: " + AlternativeContentType(boundary)
  }

  /**
    The multipart/alternative body.  It always has this form, whatever the
    number of types; the preamble line is present only when the message has
    attachments.
   */
  function AlternativeBody(m: Message, env: Env): string
  {
    (if |m.attachments| > 0 then AlternativePreambleLine(env.altBoundary) + "\n\n" else "")
    + AlternativeParts(m.types, m.charset, env.altBoundary, env.softWrap)
    + CloseDelimiter(env.altBoundary)
  }

  /** The content of an attachment: the file at a truthy path, else the inline data. */
  function Content(a: Attachment, read: string -> Option<seq<byte>>): Option<seq<byte>>
  {
    if Truthy(a.path) then read(a.path.value) else a.data
  }

  /** The path as PHP interpolates it into the error message (null reads as empty). */
  function PathText(a: Attachment): string
  {
    a.path.GetOr("")
  }

  /** `k` is the first attachment whose content cannot be obtained. */
  predicate FirstUnreadable(atts: seq<Attachment>, read: string -> Option<seq<byte>>, k: int)
  {
    && 0 <= k < |atts|
    && Content(atts[k], read).None?
    && forall j :: 0 <= j < k ==> Content(atts[j], read).Some?
  }

  /** The content type an attachment declares: its own, or `text/plain` when the key is missing. */
  function DeclaredType(a: Attachment): string
  {
    a.contentType.GetOr("text/plain")
  }

  /** The header lines of one attachment part, in emission order. */
  function PartHeaderLines(a: Attachment): (r: seq<string>)
    ensures |r| == 1 + (if !Falsy(DeclaredType(a)) then 1 else 0)
                     + (if Truthy(a.disposition) then 1 else 0)
                     + (if Truthy(a.id) then 1 else 0)
    ensures r[|r| - 1] == "Content-Transfer-Encoding: base64"
    ensures forall i :: 0 <= i < |r| ==> |r[i]| >= 8 && r[i][..8] == "Content-"
    ensures !Falsy(DeclaredType(a)) ==> r[0] == "Content-Type: " + Augment(DeclaredType(a), a.filename, "name")
    ensures Truthy(a.disposition) ==>
              r[if !Falsy(DeclaredType(a)) then 1 else 0]
              == "Content-Disposition: " + Augment(a.disposition.value, a.filename, "filename")
    ensures Truthy(a.id) ==> r[|r| - 2] == "Content-ID: <" + a.id.value + ">"
  {
    (if !Falsy(DeclaredType(a)) then ["Content-Type: " + Augment(DeclaredType(a), a.filename, "name")] else [])
    + (if Truthy(a.disposition) then ["Content-Disposition: " + Augment(a.disposition.value, a.filename, "filename")] else [])
    + (if Truthy(a.id) then ["Content-ID: <" + a.id.value + ">"] else [])
    + ["Content-Transfer-Encoding: base64"]
  }

  /** The base64 body of an attachment part, hard-wrapped at 70 columns. */
  function PartBody(content: seq<byte>): string
  {
    HardWrap(Encode(content))
  }

  /** One attachment part, from the line break before its delimiter to the one after its body. */
  function AttachmentPart(a: Attachment, content: seq<byte>, boundary: string): string
  {
    "\n" + Delimiter(boundary) + "\n" + Block(PartHeaderLines(a)) + "\n" + PartBody(content) + "\n"
  }

  /**
    All attachment parts, in list order, or the error for the first
    attachment whose content cannot be obtained.
   */
  function AttachmentParts(atts: seq<Attachment>, read: string -> Option<seq<byte>>, boundary: string): (r: Result<string, Error>)
    ensures r.Failure? <==> exists k :: 0 <= k < |atts| && Content(atts[k], read).None?
    ensures r.Failure? ==> exists k :: FirstUnreadable(atts, read, k) && r.error == AttachmentUnreadable(PathText(atts[k]))
  {
    if |atts| == 0 then Success("")
    else match Content(atts[0], read)
      case None => assert FirstUnreadable(atts, read, 0); Failure(AttachmentUnreadable(PathText(atts[0])))
      case Some(c) =>
        match AttachmentParts(atts[1..], read, boundary)
        case Failure(e) =>
          var k :| FirstUnreadable(atts[1..], read, k) && e == AttachmentUnreadable(PathText(atts[1..][k]));
          assert FirstUnreadable(atts, read, k + 1);
          Failure(e)
        case Success(rest) =>
          assert forall k :: 1 <= k < |atts| ==> atts[k] == atts[1..][k - 1];
          Success(AttachmentPart(atts[0], c, boundary) + rest)
  }

  /** The multipart/mixed body: the alternative body as first part, then the attachment parts. */
  function MixedBody(alternative: string, parts: string, boundary: string): string
  {
    Delimiter(boundary) + "\n" + alternative + "\n" + parts + "\n" + CloseDelimiter(boundary)
  }

  // ---------------------------------------------------------------- deliver

  /**
    The body `deliver` passes to `mail`: the alternative body, wrapped in the
    mixed body when there are attachments, or the error of the first
    attachment whose content cannot be obtained.
   */
  function ComposeBody(m: Message, env: Env): (r: Result<string, Error>)
    ensures r.Failure? <==> exists k :: 0 <= k < |m.attachments| && Content(m.attachments[k], env.read).None?
    ensures r.Failure? ==> exists k :: FirstUnreadable(m.attachments, env.read, k)
                                      && r.error == AttachmentUnreadable(PathText(m.attachments[k]))
    ensures r.Success? && |m.attachments| == 0 ==> r.value == AlternativeBody(m, env)
    ensures r.Success? && |m.attachments| > 0 ==>
              AttachmentParts(m.attachments, env.read, env.mixedBoundary).Success? &&
              r.value == MixedBody(AlternativeBody(m, env),
                                   AttachmentParts(m.attachments, env.read, env.mixedBoundary).value,
                                   env.mixedBoundary)
  {
    if |m.attachments| == 0 then Success(AlternativeBody(m, env))
    else
      match AttachmentParts(m.attachments, env.read, env.mixedBoundary)
      case Failure(e) => Failure(e)
      case Success(parts) => Success(MixedBody(AlternativeBody(m, env), parts, env.mixedBoundary))
  }

  /** The arguments `deliver` passes to `mail`, or the error that stops it first. */
  function Compose(m: Message, env: Env): (r: Result<Envelope, Error>)
    ensures r.Failure? <==> exists k :: 0 <= k < |m.attachments| && Content(m.attachments[k], env.read).None?
    ensures r.Failure? ==> exists k :: FirstUnreadable(m.attachments, env.read, k)
                                      && r.error == AttachmentUnreadable(PathText(m.attachments[k]))
    ensures r.Success? ==> r.value.to == env.address(m.to) && r.value.subject == m.subject
                           && r.value.headers == Serialise(FinalHeaders(m, env))
    ensures r.Success? && |m.attachments| == 0 ==> r.value.body == AlternativeBody(m, env)
    ensures r.Success? && |m.attachments| > 0 ==>
              AttachmentParts(m.attachments, env.read, env.mixedBoundary).Success? &&
              r.value.body == MixedBody(AlternativeBody(m, env),
                                        AttachmentParts(m.attachments, env.read, env.mixedBoundary).value,
                                        env.mixedBoundary)
  {
    match ComposeBody(m, env)
    case Failure(e) => Failure(e)
    case Success(body) => Success(Envelope(env.address(m.to), m.subject, body, Serialise(FinalHeaders(m, env))))
  }

  /**
    `Simple::deliver`: one call of `mail` with the composed arguments, whose
    result is returned as is; an unreadable attachment ends the call with
    its error and `mail` is not reached.
   */
  function Deliver<R>(m: Message, env: Env, mail: (string, string, string, string) -> R): (r: Result<R, Error>)
    ensures r.Failure? <==> exists k :: 0 <= k < |m.attachments| && Content(m.attachments[k], env.read).None?
    ensures r.Failure? ==> exists k :: FirstUnreadable(m.attachments, env.read, k)
                                      && r.error == AttachmentUnreadable(PathText(m.attachments[k]))
    ensures r.Success? ==> (Compose(m, env).Success? &&
                            var e := Compose(m, env).value;
                            r.value == mail(e.to, e.subject, e.body, e.headers))
  {
    match Compose(m, env)
    case Failure(e) => Failure(e)
    case Success(e) => Success(mail(e.to, e.subject, e.body, e.headers))
  }
}
