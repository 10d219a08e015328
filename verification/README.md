# li3_mailer `Simple` transport — a Dafny model of the MIME composer

`Simple::deliver` is the li3_mailer transport that hands a message to PHP's
`mail()`. It does the following, in order:

1. It builds a header map from the caller's headers and a fixed table of
   address properties, then sets `Date`, `MIME-Version` and `Content-Type`.
2. It writes a `multipart/alternative` body with one part per content type.
3. When there are attachments, it wraps that body in a `multipart/mixed`
   body. Each attachment becomes its own part with base64 content.
4. It drops headers with falsy values and serialises the rest as CRLF-joined
   `Name: Value` lines.
5. It calls the injected `mail` function once with recipient, subject, body
   and headers.

This project models that composer as pure functions over immutable data and
proves what the output looks like. The boundaries follow section 5.1.1 of
RFC 2046 and the attachment encoding follows section 4 of RFC 4648 (as
section 6.8 of RFC 2045 uses it). The model proves these properties:

- The header map keeps the caller's keys in order and updates them in place.
  New keys are appended in assignment order.
- Each standard header reads back with the value assigned to it.
- The body, split at line feeds, has exactly the expected sequence of lines.
- The body has exactly one delimiter line per part and one close delimiter,
  and it ends with that close delimiter.
- Parameter augmentation is idempotent.
- Base64 round-trips.
- The 70-column hard wrap has the expected line lengths and loses nothing.
- An unreadable attachment is reported before `mail` is reached.

Files, one module each:

| file | module | contents |
|---|---|---|
| `wrappers.dfy` | `Wrappers` | `Option` and `Result` |
| `php.dfy` | `Php` | string truthiness, `ucfirst` |
| `text.dfy` | `Text` | splitting at line feeds, counting, the 70-column hard wrap |
| `base64.dfy` | `Base64` | encoder, decoder, round trip |
| `headers.dfy` | `HeaderMap` | the PHP header array as an ordered association list: assignment, `array_filter`, serialisation |
| `params.dfy` | `Params` | the `;\s+name=` / `;\s+filename=` test and parameter augmentation |
| `simple.dfy` | `Simple` | the data model and `deliver` itself (`ComposeBody`, `Compose`, `Deliver`) |
| `simple_props.dfy` | `SimpleProperties` | the header map `deliver` builds; the line structure of the alternative body |
| `attachment_props.dfy` | `AttachmentProperties` | attachment parts, the mixed body and its delimiter lines |

Things that PHP takes from the outside world are fields of `Simple.Env`:

- `_address` of the parent class;
- `date('r', ...)`;
- the two `uniqid` boundaries;
- `file_get_contents`;
- PHP's soft `wordwrap` of text bodies.

`mail` is a function parameter of `Deliver`. A thrown `RuntimeException` is
the `Failure` arm of a `Result`.

Four behaviours of the code worth knowing:

- The body is always `multipart/alternative`, even for a single type. There
  is no single-part branch.
- The `Content-Type: multipart/alternative…` preamble line inside the body
  appears only when there are attachments.
- `cc` and `bcc` are in the address table but `to` is not. The recipient is
  passed to `mail` separately and never becomes a header.
- The "already has a name" test needs whitespace after the semicolon.
  `Params.UnspacedParamNotRecognised` shows the consequence.

## Model

| member | source | states |
|---|---|---|
| Php.UcFirst | net/mail/transport/adapter/Simple.php:64-67 | the header name derived from a property keeps its length and tail; an ASCII lower-case first letter becomes its upper-case letter, anything else is unchanged |
| Simple.AddressUpdates | net/mail/transport/adapter/Simple.php:63-69 | one assignment per table entry, in table order, named by the explicit header or `ucfirst(property)` and valued `_address` of that property |
| SimpleProperties.AddressHeaderNames | net/mail/transport/adapter/Simple.php:31-34 | the address table assigns exactly Return-Path, Sender, From, Reply-To, Cc, Bcc in that order |
| SimpleProperties.ToNotStandard | net/mail/transport/adapter/Simple.php:31-34 | `To` is none of the headers `deliver` assigns (the address table, Date, MIME-Version), so the recipient never becomes a header |
| Simple.AssembleHeaders | net/mail/transport/adapter/Simple.php:62-71 | definition: the caller's headers, then the address assignments in table order, then Date and MIME-Version, applied by `SetAll`; its properties are in SimpleProperties.AssembledHeaders and SimpleProperties.AssembledAddressHeaders |
| HeaderMap.Set | net/mail/transport/adapter/Simple.php:68 | `$headers[$name] = $value`: an existing key keeps its position, a new key is appended last, every other entry is untouched, and the key reads back as the new value |
| HeaderMap.SetAllNames | net/mail/transport/adapter/Simple.php:62-71 | after a run of assignments the keys are the old keys in their old order followed by the newly assigned keys in first-assignment order |
| HeaderMap.SetAllLookup | net/mail/transport/adapter/Simple.php:62-71 | after a run of assignments a key reads as its last assignment, or as before when it was never assigned |
| HeaderMap.SetAllUnique | net/mail/transport/adapter/Simple.php:62-71 | assignments never duplicate a key |
| SimpleProperties.AssembledHeaders | net/mail/transport/adapter/Simple.php:62-71 | the map is the caller's keys then the unset standard keys in order Return-Path … Bcc, Date, MIME-Version; each standard key reads as its assigned value; every other caller key is unchanged |
| SimpleProperties.AssembledAddressHeaders | net/mail/transport/adapter/Simple.php:62-71 | each address header reads back as `_address` of its property, Date as the formatted date, MIME-Version as "1.0", and `To` as whatever the caller had |
| Simple.FinalHeaders | net/mail/transport/adapter/Simple.php:80-94 | definition: Content-Type set to the alternative type, then overwritten with the mixed type when there are attachments; its properties are in SimpleProperties.FinalHeadersContentType and SimpleProperties.FinalHeaderNames |
| SimpleProperties.FinalHeadersContentType | net/mail/transport/adapter/Simple.php:78-94 | Content-Type is `multipart/alternative;boundary="B"` without attachments and `multipart/mixed;boundary="M"` with them; no other key changes; keys stay unique |
| SimpleProperties.FinalHeaderNames | net/mail/transport/adapter/Simple.php:62-94 | the final keys are the caller's keys then the fresh standard keys and Content-Type, in assignment order; a caller's Content-Type keeps its position |
| HeaderMap.Filter | net/mail/transport/adapter/Simple.php:140 | `array_filter`: an entry is kept exactly when its value is not falsy (`""` or `"0"`) |
| HeaderMap.FilterAppend | net/mail/transport/adapter/Simple.php:140 | filtering keeps the relative order of entries |
| HeaderMap.FilterLookup | net/mail/transport/adapter/Simple.php:140 | a key survives the filter exactly when its value is not falsy, and keeps that value |
| SimpleProperties.FilteredStandardHeaders | net/mail/transport/adapter/Simple.php:140 | after filtering, a standard header is present exactly when its assigned value is not falsy |
| HeaderMap.RenderAll | net/mail/transport/adapter/Simple.php:142-148 | the `array_map`: one `Name: Value` string per entry, in map order |
| HeaderMap.Serialise | net/mail/transport/adapter/Simple.php:140-149 | definition: the filtered entries rendered and joined with CRLF; its properties are in HeaderMap.SerialiseLines |
| HeaderMap.SerialiseLines | net/mail/transport/adapter/Simple.php:141-149 | the header string has one line per kept header, in map order, each `Name: Value` ended by CR except the last (no trailing CRLF), and is empty when nothing is kept |
| Simple.AlternativeBody | net/mail/transport/adapter/Simple.php:81-88 | definition: the preamble line and a blank line only with attachments, each type's part, then `--B--`; its properties are in SimpleProperties.AlternativeBodyLines and SimpleProperties.AlternativeDelimiters |
| SimpleProperties.AlternativePartsLines | net/mail/transport/adapter/Simple.php:82-87 | read as lines, each type contributes, in `types()` order, `--B`, `Content-Type: <mime>;charset="<cs>"`, a blank line, its wrapped text, a blank line |
| SimpleProperties.AlternativeBodyLines | net/mail/transport/adapter/Simple.php:81-88 | read as lines, the alternative body is the preamble line and a blank line only when there are attachments, then the parts, then `--B--` |
| SimpleProperties.AlternativeLinesCount | net/mail/transport/adapter/Simple.php:82-87 | when no text holds a delimiter line, the parts hold exactly one `--B` per type and no `--B--` |
| SimpleProperties.AlternativeDelimiters | net/mail/transport/adapter/Simple.php:81-88 | the alternative body holds one `--B` line per type and exactly one `--B--`, which is its last line; it opens with `--B` when there are types and no attachments, and with the preamble line when there are attachments |
| Params.HasParam | net/mail/transport/adapter/Simple.php:118-125 | definition of `preg_match('/;\s+KEY=/', s)`: some semicolon is followed by one or more PCRE `\s` characters and then `KEY=`; Params.SemicolonFollowedBy and Params.UnspacedParamNotRecognised show what it rejects |
| Params.Augment | net/mail/transport/adapter/Simple.php:115-130 | `; KEY="FILENAME"` is appended exactly when the filename is truthy and the value does not match `;\s+KEY=`; the result always extends the value, and carries the parameter when the filename is truthy |
| Params.AugmentIdempotent | net/mail/transport/adapter/Simple.php:118-119 | augmenting twice adds the parameter at most once |
| Params.AugmentFirstWins | net/mail/transport/adapter/Simple.php:126-127 | once a filename has been added, a later augmentation with any filename changes nothing |
| Params.UnspacedParamNotRecognised | net/mail/transport/adapter/Simple.php:118 | `application/pdf;name="a.pdf"` does not match `;\s+name=` and receives a second `; name="a.pdf"` |
| Simple.PartHeaderLines | net/mail/transport/adapter/Simple.php:99-134 | the part headers in order: Content-Type (default `text/plain`, augmented with `name`) unless falsy, Content-Disposition (augmented with `filename`) if truthy, `Content-ID: <id>` if truthy, and always `Content-Transfer-Encoding: base64` last; every line starts with `Content-` |
| Text.HardWrap | net/mail/transport/adapter/Simple.php:135 | definition of `wordwrap($s, 70, "\n", true)` on a string without spaces: 70-character slices joined by line feeds; its properties are in the Text.HardWrap* lemmas below |
| Base64.Encode | net/mail/transport/adapter/Simple.php:135 | `base64_encode` output has length 4·⌈n/3⌉ and only alphabet and pad characters |
| Base64.RoundTrip | net/mail/transport/adapter/Simple.php:135 | decoding the encoding gives back the original bytes |
| Text.HardWrapLineCount | net/mail/transport/adapter/Simple.php:135 | the hard wrap of a line-feed-free string has ⌈n/70⌉ lines (one for the empty string) |
| Text.HardWrapLines | net/mail/transport/adapter/Simple.php:135 | line k of the hard wrap is the k-th 70-character slice of the input |
| Text.HardWrapLineLengths | net/mail/transport/adapter/Simple.php:135 | every line of the hard wrap is at most 70 long and all but the last exactly 70 |
| Text.HardWrapUnbreak | net/mail/transport/adapter/Simple.php:135 | deleting the inserted line feeds recovers the unwrapped string |
| AttachmentProperties.PartBodyLines | net/mail/transport/adapter/Simple.php:135 | the part body is lines of base64 characters, at most 70 long and all but the last exactly 70, that decode back to the content once joined |
| Simple.Content | net/mail/transport/adapter/Simple.php:107-110 | definition: the file at the path when the path is truthy, the inline data otherwise; `None` is PHP's `false`; Simple.AttachmentParts states how it decides failure |
| Simple.AttachmentPart | net/mail/transport/adapter/Simple.php:98-135 | definition: a blank line, `--M`, the part header lines, a blank line, the wrapped base64 body and a line feed; its properties are in AttachmentProperties.AttachmentPartLines |
| Simple.AttachmentParts | net/mail/transport/adapter/Simple.php:97-139 | the parts fail exactly when some attachment's content cannot be obtained, and then with the path of the first such attachment |
| Simple.ErrorMessageNamesPath | net/mail/transport/adapter/Simple.php:111-113 | the exception message is the text "Can not attach path ", a back-quote, the path, a back-quote and a full stop; the path can be read back from it, so distinct paths give distinct messages |
| Simple.ComposeBody | net/mail/transport/adapter/Simple.php:81-139 | the body handed to `mail` is an error exactly when some attachment is unreadable, naming the first; otherwise it is the alternative body without attachments, or the mixed body wrapped around it |
| AttachmentProperties.AttachmentPartLines | net/mail/transport/adapter/Simple.php:98-135 | read as lines, an attachment part is a blank line, `--M`, its header lines, a blank line, its base64 lines |
| AttachmentProperties.AttachmentPartsLines | net/mail/transport/adapter/Simple.php:97-136 | when every attachment can be read, the parts succeed and read as the parts' lines in list order |
| Simple.MixedBody | net/mail/transport/adapter/Simple.php:95-137 | definition: `--M`, the alternative body, the attachment parts, then a blank line and `--M--`; its properties are in AttachmentProperties.ComposedMixedLines and AttachmentProperties.MixedDelimiters |
| AttachmentProperties.ComposedMixedLines | net/mail/transport/adapter/Simple.php:91-138 | with readable attachments the body handed to `mail` reads as `--M`, the alternative body verbatim, each attachment part in list order, a blank line and `--M--` |
| AttachmentProperties.AttachmentsLinesCount | net/mail/transport/adapter/Simple.php:97-136 | the attachment parts hold exactly one `--M` each and no `--M--` |
| AttachmentProperties.AlternativeForeignClean | net/mail/transport/adapter/Simple.php:78-96 | with two distinct boundaries (neither equal to the other plus `--`), the alternative body holds no delimiter line of the mixed boundary when its texts hold none |
| AttachmentProperties.MixedDelimiters | net/mail/transport/adapter/Simple.php:91-138 | with readable attachments and a clean alternative body, the body handed to `mail` starts with `--M`, ends with `--M--`, holds one `--M` per attachment besides the first, and exactly one `--M--` |
| Simple.Compose | net/mail/transport/adapter/Simple.php:61-150 | an error exactly when some attachment is unreadable, naming the first; otherwise `to` is `_address($message->to)`, the subject is the message's, the headers are the serialised filtered map, and the body is the alternative body or the mixed body around it |
| Simple.Deliver | net/mail/transport/adapter/Simple.php:150-152 | `mail` is reached only when composition succeeds, once, with `(to, subject, body, headers)`, and its result is returned unchanged; otherwise the first unreadable attachment's error is returned |

## Left out

- `uniqid`: its time-based boundaries are the `altBoundary` and `mixedBoundary` inputs. The delimiter-count lemmas require the texts not to contain delimiter lines, and the mixed lemmas require the two boundaries to be separated.
- `date('r', …)`: its locale and timezone formatting is the `formatDate` input.
- `Transport::_address`: it is in the parent class, which is not part of this model, so it is the `address` input.
- `file_get_contents`: filesystem I/O, so it is the `read` input, with `None` standing for PHP's `false`.
- PHP's `mail()`, and the `_dependencies` / `_autoConfig` merging that selects it: a foreign call and configuration plumbing. `Deliver` takes `mail` as a function parameter.
- The soft `wordwrap($text, 70)` of text bodies: its whitespace rules are not modelled, so it is the opaque `softWrap` input.
- Text.HardWrap: models `wordwrap($s, 70, "\n", true)` only on strings without spaces or line feeds, which is what a base64 encoding is.
- The `Delivery` registry and configuration loading: not part of this model.
- Simple.Attachment: PHP's explicit `'data' => null` is not a separate case. PHP base64-encodes it as an empty part, so it is written `Some([])`. `None` stands for a missing `data` key or `false`. Because `data` is read only when the path is not truthy, a `None` `data` is the "cannot attach" case only then; with a truthy path the result of reading the file decides.
- HeaderMap: PHP arrays cannot hold a key twice. The header lemmas therefore take `Unique(m.headers)` as given for the caller's headers, and prove that every assignment preserves it.
- Integer-like header names, which PHP would turn into integer keys, are not distinguished from other names.
- The line-structure lemmas require boundaries, charset, MIME names and attachment fields without line feeds. The code does not check this, and a line feed in any of them would break the line structure as well as the MIME structure.
- HeaderMap.SerialiseLines: requires every header name and value to be free of line feeds. The code writes a caller header whose value holds a line feed unchanged, and its header block then has more lines than headers, so the one-line-per-header reading is not promised for such input.
