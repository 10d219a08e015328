/**
  Properties of the composer: the header map it builds and the line
  structure of the alternative body it writes.
 */
module SimpleProperties {
  import opened Wrappers
  import opened Php
  import opened Text
  import opened Base64
  import opened HeaderMap
  import opened Params
  import opened Simple

  // ---------------------------------------------------------------- headers

  /** The headers `deliver` assigns before the body is built, in assignment order. */
  const StandardNames: seq<string> :=
    ["Return-Path", "Sender", "From", "Reply-To", "Cc", "Bcc", "Date", "MIME-Version"]

  /** The address table names exactly these six headers, in this order. */
  lemma AddressHeaderNames(m: Message, env: Env)
    ensures Names(AddressUpdates(m, env, MessageAddresses)) == StandardNames[..6]
  {
    var u := AddressUpdates(m, env, MessageAddresses);
    TableHeaderNames();
    forall i | 0 <= i < 6 ensures Names(u)[i] == StandardNames[i] {
      assert u[i].name == HeaderName(MessageAddresses[i]);
    }
    assert Names(u) == StandardNames[..6];
  }

  /** `To` is not a standard header: `deliver` never adds it to the map. */
  lemma ToNotStandard()
    ensures "To" !in StandardNames
  {
  }

  /** The header each entry of the address table fills. */
  lemma TableHeaderNames()
    ensures forall i :: 0 <= i < 6 ==> HeaderName(MessageAddresses[i]) == StandardNames[i]
  {
    assert UcFirst("sender") == "Sender";
    assert UcFirst("from") == "From";
    assert UcFirst("cc") == "Cc";
    assert UcFirst("bcc") == "Bcc";
  }

  /** The assignments made before the body is built. */
  function StandardUpdates(m: Message, env: Env): Headers
  {
    AddressUpdates(m, env, MessageAddresses)
    + [Header("Date", env.formatDate(m.date)), Header("MIME-Version", "1.0")]
  }

  /** The values `deliver` assigns to the standard headers, in the same order. */
  function StandardValues(m: Message, env: Env): seq<string>
  {
    [env.address(m.returnPath), env.address(m.sender), env.address(m.from), env.address(m.replyTo),
     env.address(m.cc), env.address(m.bcc), env.formatDate(m.date), "1.0"]
  }

  /** No standard header name is repeated. */
  lemma StandardNamesDistinct()
    ensures forall i, j :: 0 <= i < j < |StandardNames| ==> StandardNames[i] != StandardNames[j]
  {
    assert StandardNames[2] != StandardNames[6] by {
      assert StandardNames[2][0] != StandardNames[6][0];
    }
  }

  /** The standard updates assign the standard names, in order. */
  lemma StandardUpdateNames(m: Message, env: Env)
    ensures Names(StandardUpdates(m, env)) == StandardNames
  {
    var a := AddressUpdates(m, env, MessageAddresses);
    var u := StandardUpdates(m, env);
    AddressHeaderNames(m, env);
    forall i | 0 <= i < |u| ensures Names(u)[i] == StandardNames[i] {
      if i < 6 {
        assert u[i] == a[i];
        assert Names(a)[i] == StandardNames[i];
      }
    }
  }

  /** Each standard name is assigned once. */
  lemma StandardUpdatesUnique(m: Message, env: Env)
    ensures Unique(StandardUpdates(m, env))
  {
    var u := StandardUpdates(m, env);
    StandardUpdateNames(m, env);
    StandardNamesDistinct();
    forall i, j | 0 <= i < j < |u| ensures u[i].name != u[j].name {
      assert Names(u)[i] == u[i].name && Names(u)[j] == u[j].name;
    }
  }

  /** The standard updates assign the standard values, in order. */
  lemma StandardUpdateValues(m: Message, env: Env)
    ensures |StandardUpdates(m, env)| == |StandardNames|
    ensures forall i :: 0 <= i < |StandardNames| ==> StandardUpdates(m, env)[i].value == StandardValues(m, env)[i]
  {
    var a := AddressUpdates(m, env, MessageAddresses);
    var u := StandardUpdates(m, env);
    forall i | 0 <= i < |StandardNames| ensures u[i].value == StandardValues(m, env)[i] {
      if i < 6 {
        assert u[i] == a[i];
      }
    }
  }

  /**
    The header map after the address loop, `Date` and `MIME-Version`: the
    caller's headers in their order, then the standard headers the caller
    did not set, in assignment order.  Standard headers hold the computed
    values, overwriting the caller's in place; every other header, `To`
    included, is as the caller left it.
   */
  lemma AssembledHeaders(m: Message, env: Env)
    requires Unique(m.headers)
    ensures Unique(AssembleHeaders(m, env))
    ensures Names(AssembleHeaders(m, env)) == Names(m.headers) + Fresh(Names(m.headers), StandardNames)
    ensures forall i :: 0 <= i < |StandardNames| ==>
              Lookup(AssembleHeaders(m, env), StandardNames[i]) == Some(StandardValues(m, env)[i])
    ensures forall n :: n !in StandardNames ==> Lookup(AssembleHeaders(m, env), n) == Lookup(m.headers, n)
  {
    var u := StandardUpdates(m, env);
    assert AssembleHeaders(m, env) == SetAll(m.headers, u);
    StandardUpdateNames(m, env);
    StandardUpdatesUnique(m, env);
    StandardUpdateValues(m, env);
    SetAllUnique(m.headers, u);
    SetAllNames(m.headers, u);
    forall i | 0 <= i < |StandardNames|
      ensures Lookup(AssembleHeaders(m, env), StandardNames[i]) == Some(StandardValues(m, env)[i])
    {
      assert Names(u)[i] == u[i].name;
      LastValueUnique(u, i);
      SetAllLookup(m.headers, u, StandardNames[i]);
    }
    forall n | n !in StandardNames
      ensures Lookup(AssembleHeaders(m, env), n) == Lookup(m.headers, n)
    {
      LastValueAbsent(u, n);
      SetAllLookup(m.headers, u, n);
    }
  }

  /** The address headers read back with the values of their message properties; `To` is never added. */
  lemma AssembledAddressHeaders(m: Message, env: Env)
    requires Unique(m.headers)
    ensures Lookup(AssembleHeaders(m, env), "Return-Path") == Some(env.address(m.returnPath))
    ensures Lookup(AssembleHeaders(m, env), "Sender") == Some(env.address(m.sender))
    ensures Lookup(AssembleHeaders(m, env), "From") == Some(env.address(m.from))
    ensures Lookup(AssembleHeaders(m, env), "Reply-To") == Some(env.address(m.replyTo))
    ensures Lookup(AssembleHeaders(m, env), "Cc") == Some(env.address(m.cc))
    ensures Lookup(AssembleHeaders(m, env), "Bcc") == Some(env.address(m.bcc))
    ensures Lookup(AssembleHeaders(m, env), "Date") == Some(env.formatDate(m.date))
    ensures Lookup(AssembleHeaders(m, env), "MIME-Version") == Some("1.0")
    ensures Lookup(AssembleHeaders(m, env), "To") == Lookup(m.headers, "To")
  {
    AssembledHeaders(m, env);
    ToNotStandard();
    StandardReadings(AssembleHeaders(m, env), StandardValues(m, env));
  }

  /** A map in which every standard name reads as its value, read name by name. */
  lemma StandardReadings(a: Headers, v: seq<string>)
    requires |v| == |StandardNames|
    requires forall i :: 0 <= i < |StandardNames| ==> Lookup(a, StandardNames[i]) == Some(v[i])
    ensures Lookup(a, "Return-Path") == Some(v[0]) && Lookup(a, "Sender") == Some(v[1])
    ensures Lookup(a, "From") == Some(v[2]) && Lookup(a, "Reply-To") == Some(v[3])
    ensures Lookup(a, "Cc") == Some(v[4]) && Lookup(a, "Bcc") == Some(v[5])
    ensures Lookup(a, "Date") == Some(v[6]) && Lookup(a, "MIME-Version") == Some(v[7])
  {
    assert Lookup(a, StandardNames[0]) == Some(v[0]) && Lookup(a, StandardNames[1]) == Some(v[1]);
    assert Lookup(a, StandardNames[2]) == Some(v[2]) && Lookup(a, StandardNames[3]) == Some(v[3]);
    assert Lookup(a, StandardNames[4]) == Some(v[4]) && Lookup(a, StandardNames[5]) == Some(v[5]);
    assert Lookup(a, StandardNames[6]) == Some(v[6]) && Lookup(a, StandardNames[7]) == Some(v[7]);
  }

  /**
    The final header map sets Content-Type to the multipart/mixed type when
    there are attachments and to the multipart/alternative type otherwise;
    every other key reads as after assembly.
   */
  lemma FinalHeadersContentType(m: Message, env: Env)
    requires Unique(m.headers)
    ensures Unique(FinalHeaders(m, env))
    ensures Lookup(FinalHeaders(m, env), "Content-Type")
            == Some(if |m.attachments| > 0 then MixedContentType(env.mixedBoundary)
                    else AlternativeContentType(env.altBoundary))
    ensures forall n :: n != "Content-Type" ==> Lookup(FinalHeaders(m, env), n) == Lookup(AssembleHeaders(m, env), n)
  {
    var a := AssembleHeaders(m, env);
    var h := Set(a, "Content-Type", AlternativeContentType(env.altBoundary));
    AssembledHeaders(m, env);
    SetUnique(a, "Content-Type", AlternativeContentType(env.altBoundary));
    forall n | n != "Content-Type"
      ensures Lookup(FinalHeaders(m, env), n) == Lookup(a, n)
    {
      SetLookupOther(a, "Content-Type", AlternativeContentType(env.altBoundary), n);
      if |m.attachments| > 0 {
        SetLookupOther(h, "Content-Type", MixedContentType(env.mixedBoundary), n);
      }
    }
    if |m.attachments| > 0 {
      SetUnique(h, "Content-Type", MixedContentType(env.mixedBoundary));
    }
  }

  /**
    The final keys: the caller's keys in their order, then the standard
    headers and Content-Type that the caller did not set, in assignment
    order.  A Content-Type set by the caller keeps its position.
   */
  lemma FinalHeaderNames(m: Message, env: Env)
    ensures Names(FinalHeaders(m, env))
            == Names(m.headers) + Fresh(Names(m.headers), StandardNames + ["Content-Type"])
  {
    var u := StandardUpdates(m, env);
    assert AssembleHeaders(m, env) == SetAll(m.headers, u);
    StandardUpdateNames(m, env);
    SetAllThenSetNames(m.headers, u, "Content-Type", AlternativeContentType(env.altBoundary));
  }

  /** Content-Type is not among the standard headers. */
  lemma ContentTypeNotStandard()
    ensures "Content-Type" !in StandardNames
  {
    assert forall i :: 0 <= i < |StandardNames| ==> StandardNames[i][0] != 'C' || |StandardNames[i]| < 12;
  }

  /**
    After filtering, a standard header is present exactly when its value is
    not falsy: an empty address list formatted as "" drops its header.
   */
  lemma FilteredStandardHeaders(m: Message, env: Env)
    requires Unique(m.headers)
    ensures forall i :: 0 <= i < |StandardNames| ==>
              Lookup(Filter(FinalHeaders(m, env)), StandardNames[i])
              == if Falsy(StandardValues(m, env)[i]) then None else Some(StandardValues(m, env)[i])
  {
    FinalHeadersContentType(m, env);
    AssembledHeaders(m, env);
    forall i | 0 <= i < |StandardNames|
      ensures Lookup(Filter(FinalHeaders(m, env)), StandardNames[i])
              == if Falsy(StandardValues(m, env)[i]) then None else Some(StandardValues(m, env)[i])
    {
      ContentTypeNotStandard();
      FilterLookup(FinalHeaders(m, env), StandardNames[i]);
    }
  }

  // ---------------------------------------------------------------- bodies

  /** No line of `s` is a delimiter or the close delimiter of `boundary`. */
  predicate Clean(s: string, boundary: string)
  {
    Count(Lines(s), Delimiter(boundary)) == 0 && Count(Lines(s), CloseDelimiter(boundary)) == 0
  }

  /** The lines of one alternative part. */
  function AlternativePartLineList(t: Alternative, charset: string, boundary: string, wrap: string -> string): seq<string>
  {
    [Delimiter(boundary), PartContentTypeLine(t, charset), ""] + Lines(wrap(t.text)) + [""]
  }

  /** The lines of the alternative parts, part after part. */
  function AlternativeLines(ts: seq<Alternative>, charset: string, boundary: string, wrap: string -> string): seq<string>
  {
    if |ts| == 0 then []
    else AlternativePartLineList(ts[0], charset, boundary, wrap) + AlternativeLines(ts[1..], charset, boundary, wrap)
  }

  /** The boundary, the charset and every type name are single lines. */
  predicate SingleLineAlternatives(ts: seq<Alternative>, charset: string, boundary: string)
  {
    '\n' !in boundary && '\n' !in charset && forall i :: 0 <= i < |ts| ==> '\n' !in ts[i].mime
  }

  /** The text of one alternative part regrouped around its line feeds. */
  lemma PartRegroup(d: string, c: string, w: string, tail: string)
    ensures d + "\n" + c + "\n\n" + w + "\n\n" + tail
            == d + "\n" + (c + "\n" + ("" + "\n" + (w + "\n" + ("" + "\n" + tail))))
  {
  }

  /** The lines of one alternative part followed by `tail`, with the text grouped line feed by line feed. */
  lemma NestedPartLines(d: string, c: string, w: string, tail: string)
    requires '\n' !in d && '\n' !in c
    ensures Lines(d + "\n" + (c + "\n" + ("" + "\n" + (w + "\n" + ("" + "\n" + tail)))))
            == [d] + ([c] + ([""] + (Lines(w) + ([""] + Lines(tail)))))
  {
    LinesOfJoin("", tail);
    LinesOfJoin(w, "" + "\n" + tail);
    LinesOfJoin("", w + "\n" + ("" + "\n" + tail));
    LinesOfJoin(c, "" + "\n" + (w + "\n" + ("" + "\n" + tail)));
    LinesOfJoin(d, c + "\n" + ("" + "\n" + (w + "\n" + ("" + "\n" + tail))));
    LinesOfLine(d);
    LinesOfLine(c);
    LinesOfLine("");
  }

  /** The lines of one alternative part followed by `tail`. */
  lemma PartLines(d: string, c: string, w: string, tail: string)
    requires '\n' !in d && '\n' !in c
    ensures Lines(d + "\n" + c + "\n\n" + w + "\n\n" + tail) == [d, c, ""] + Lines(w) + [""] + Lines(tail)
  {
    PartRegroup(d, c, w, tail);
    NestedPartLines(d, c, w, tail);
    assert [d] + ([c] + ([""] + (Lines(w) + ([""] + Lines(tail))))) == [d, c, ""] + Lines(w) + [""] + Lines(tail);
  }

  /** Read as lines, one alternative part followed by `tail`. */
  lemma AlternativePartLines(t: Alternative, charset: string, boundary: string, wrap: string -> string, tail: string)
    requires '\n' !in boundary && '\n' !in charset && '\n' !in t.mime
    ensures Lines(AlternativePart(t, charset, boundary, wrap) + tail)
            == AlternativePartLineList(t, charset, boundary, wrap) + Lines(tail)
  {
    var d, c, w := Delimiter(boundary), PartContentTypeLine(t, charset), wrap(t.text);
    assert AlternativePart(t, charset, boundary, wrap) + tail == d + "\n" + c + "\n\n" + w + "\n\n" + tail;
    PartLines(d, c, w, tail);
  }

  /** Read as lines, each alternative part is its delimiter, its Content-Type line, a blank line, its text and a blank line. */
  lemma {:induction false} AlternativePartsLines(ts: seq<Alternative>, charset: string, boundary: string,
                                                 wrap: string -> string, rest: string)
    requires SingleLineAlternatives(ts, charset, boundary)
    ensures Lines(AlternativeParts(ts, charset, boundary, wrap) + rest)
            == AlternativeLines(ts, charset, boundary, wrap) + Lines(rest)
  {
    if |ts| == 0 {
      assert AlternativeParts(ts, charset, boundary, wrap) + rest == rest;
    } else {
      SingleLineAlternativesTail(ts, charset, boundary);
      AlternativePartsLines(ts[1..], charset, boundary, wrap, rest);
      AlternativePartsStep(ts, charset, boundary, wrap, rest);
    }
  }

  /** The alternatives after the first are single lines when all are. */
  lemma SingleLineAlternativesTail(ts: seq<Alternative>, charset: string, boundary: string)
    requires |ts| > 0 && SingleLineAlternatives(ts, charset, boundary)
    ensures SingleLineAlternatives(ts[1..], charset, boundary)
  {
    forall i | 0 <= i < |ts[1..]| ensures '\n' !in ts[1..][i].mime {
      assert ts[1..][i] == ts[i + 1];
    }
  }

  /** The lines of the alternative parts from the lines of the first part and of the others. */
  lemma AlternativePartsStep(ts: seq<Alternative>, charset: string, boundary: string, wrap: string -> string, rest: string)
    requires |ts| > 0 && SingleLineAlternatives(ts, charset, boundary)
    requires Lines(AlternativeParts(ts[1..], charset, boundary, wrap) + rest)
             == AlternativeLines(ts[1..], charset, boundary, wrap) + Lines(rest)
    ensures Lines(AlternativeParts(ts, charset, boundary, wrap) + rest)
            == AlternativeLines(ts, charset, boundary, wrap) + Lines(rest)
  {
    var part, others := AlternativePart(ts[0], charset, boundary, wrap), AlternativeParts(ts[1..], charset, boundary, wrap);
    var partLines := AlternativePartLineList(ts[0], charset, boundary, wrap);
    AlternativePartLines(ts[0], charset, boundary, wrap, others + rest);
    LinesGlue(AlternativeParts(ts, charset, boundary, wrap), part, others, rest,
              partLines, AlternativeLines(ts[1..], charset, boundary, wrap));
  }

  /** The preamble line is one line when the boundary is. */
  lemma PreambleSingleLine(boundary: string)
    requires '\n' !in boundary
    ensures '\n' !in AlternativePreambleLine(boundary)
  {
    var h1, h2, h3 := "Content-Type: ", "multipart/alternative;", "boundary=\"";
    assert '\n' !in h1 && '\n' !in h2 && '\n' !in h3;
    assert AlternativePreambleLine(boundary) == h1 + h2 + h3 + boundary + "\"";
  }

  /** Read as lines, the alternative parts followed by the close delimiter. */
  lemma AlternativeTailLines(ts: seq<Alternative>, charset: string, boundary: string, wrap: string -> string)
    requires SingleLineAlternatives(ts, charset, boundary)
    ensures Lines(AlternativeParts(ts, charset, boundary, wrap) + CloseDelimiter(boundary))
            == AlternativeLines(ts, charset, boundary, wrap) + [CloseDelimiter(boundary)]
  {
    AlternativePartsLines(ts, charset, boundary, wrap, CloseDelimiter(boundary));
    LinesOfLine(CloseDelimiter(boundary));
  }

  /**
    Read as lines, the alternative body is: the preamble line and a blank
    line when the message has attachments, then each type's part in
    `types()` order, then the close delimiter as the last line.
   */
  lemma AlternativeBodyLines(m: Message, env: Env)
    requires SingleLineAlternatives(m.types, m.charset, env.altBoundary)
    ensures Lines(AlternativeBody(m, env))
            == (if |m.attachments| > 0 then [AlternativePreambleLine(env.altBoundary), ""] else [])
               + AlternativeLines(m.types, m.charset, env.altBoundary, env.softWrap)
               + [CloseDelimiter(env.altBoundary)]
  {
    if |m.attachments| > 0 {
      PreambledAlternativeBodyLines(m, env);
    } else {
      PlainAlternativeBodyLines(m, env);
    }
  }

  /** Without attachments the alternative body is its parts followed by the close delimiter. */
  lemma PlainAlternativeBodyLines(m: Message, env: Env)
    requires SingleLineAlternatives(m.types, m.charset, env.altBoundary)
    requires |m.attachments| == 0
    ensures Lines(AlternativeBody(m, env))
            == AlternativeLines(m.types, m.charset, env.altBoundary, env.softWrap) + [CloseDelimiter(env.altBoundary)]
  {
    var b := env.altBoundary;
    var tail := AlternativeParts(m.types, m.charset, b, env.softWrap) + CloseDelimiter(b);
    AlternativeTailLines(m.types, m.charset, b, env.softWrap);
    assert AlternativeBody(m, env) == tail;
  }

  /** With attachments the preamble line and a blank line come first. */
  lemma PreambledAlternativeBodyLines(m: Message, env: Env)
    requires SingleLineAlternatives(m.types, m.charset, env.altBoundary)
    requires |m.attachments| > 0
    ensures Lines(AlternativeBody(m, env))
            == [AlternativePreambleLine(env.altBoundary), ""] + AlternativeLines(m.types, m.charset, env.altBoundary, env.softWrap) + [CloseDelimiter(env.altBoundary)]
  {
    var b := env.altBoundary;
    var tail := AlternativeParts(m.types, m.charset, b, env.softWrap) + CloseDelimiter(b);
    AlternativeTailLines(m.types, m.charset, b, env.softWrap);
    var p := AlternativePreambleLine(b);
    PreambleSingleLine(b);
    assert AlternativeBody(m, env) == p + "\n\n" + tail;
    LinesOfHeadParagraph(p, tail);
  }

  /** Lines that start with `Content-` are never delimiter lines. */
  lemma ContentLineNotDelimiter(line: string, boundary: string)
    requires |line| >= 8 && line[..8] == "Content-"
    ensures line != Delimiter(boundary) && line != CloseDelimiter(boundary)
  {
    assert line[0] == 'C';
  }

  /** Each alternative part holds exactly one delimiter line, when the texts hold none. */
  lemma {:induction false} AlternativeLinesCount(ts: seq<Alternative>, charset: string, boundary: string, wrap: string -> string)
    requires CleanTexts(ts, boundary, wrap)
    ensures Count(AlternativeLines(ts, charset, boundary, wrap), Delimiter(boundary)) == |ts|
    ensures Count(AlternativeLines(ts, charset, boundary, wrap), CloseDelimiter(boundary)) == 0
  {
    if |ts| > 0 {
      assert CleanTexts(ts[1..], boundary, wrap) by {
        forall k | 0 <= k < |ts[1..]| ensures ts[1..][k] == ts[k + 1] { }
      }
      var part := AlternativePartLineList(ts[0], charset, boundary, wrap);
      var rest := AlternativeLines(ts[1..], charset, boundary, wrap);
      AlternativeLinesCount(ts[1..], charset, boundary, wrap);
      AlternativePartCount(ts[0], charset, boundary, wrap);
      CountAppend(part, rest, Delimiter(boundary));
      CountAppend(part, rest, CloseDelimiter(boundary));
    }
  }

  /** One alternative part with a clean text holds one delimiter line and no close delimiter. */
  lemma AlternativePartCount(t: Alternative, charset: string, boundary: string, wrap: string -> string)
    requires Clean(wrap(t.text), boundary)
    ensures Count(AlternativePartLineList(t, charset, boundary, wrap), Delimiter(boundary)) == 1
    ensures Count(AlternativePartLineList(t, charset, boundary, wrap), CloseDelimiter(boundary)) == 0
  {
    var d, c, w := Delimiter(boundary), PartContentTypeLine(t, charset), Lines(wrap(t.text));
    ContentLineNotDelimiter(c, boundary);
    assert d != CloseDelimiter(boundary) by {
      assert |d| != |CloseDelimiter(boundary)|;
    }
    PartCount(d, c, w, [], d);
    PartCount(d, c, w, [], CloseDelimiter(boundary));
    assert [d, c, ""] + w + [""] + [] == AlternativePartLineList(t, charset, boundary, wrap);
  }

  /** Counting the lines of one part: its first line, then its text, then what follows. */
  lemma PartCount(d: string, c: string, w: seq<string>, rest: seq<string>, x: string)
    requires c != x && x != ""
    ensures Count([d, c, ""] + w + [""] + rest, x) == (if d == x then 1 else 0) + Count(w, x) + Count(rest, x)
  {
    var head := [d, c, ""];
    CountAppend(head + w + [""], rest, x);
    CountAppend(head + w, [""], x);
    CountAppend(head, w, x);
  }

  /** The counts of the lines `pre + mid + [last]`, piece by piece. */
  lemma CountFramed(pre: seq<string>, mid: seq<string>, last: string, x: string)
    ensures Count(pre + mid + [last], x) == Count(pre, x) + Count(mid, x) + (if last == x then 1 else 0)
  {
    CountAppend(pre + mid, [last], x);
    CountAppend(pre, mid, x);
  }

  /** The preamble line is neither kind of delimiter line. */
  lemma PreambleNotDelimiter(boundary: string)
    ensures AlternativePreambleLine(boundary) != Delimiter(boundary)
    ensures AlternativePreambleLine(boundary) != CloseDelimiter(boundary)
  {
    assert AlternativePreambleLine(boundary)[0] == 'C';
  }

  /** Every wrapped text of the alternatives is clean with respect to the boundary. */
  predicate CleanTexts(ts: seq<Alternative>, boundary: string, wrap: string -> string)
  {
    forall i :: 0 <= i < |ts| ==> Clean(wrap(ts[i].text), boundary)
  }

  /**
    The alternative body is well delimited: one delimiter line per type, one
    close delimiter, and that close delimiter is its last line; without
    attachments it opens with a delimiter line, with attachments with the
    preamble line.
   */
  lemma AlternativeDelimiters(m: Message, env: Env)
    requires SingleLineAlternatives(m.types, m.charset, env.altBoundary)
    requires CleanTexts(m.types, env.altBoundary, env.softWrap)
    ensures var ls := Lines(AlternativeBody(m, env));
            && Count(ls, Delimiter(env.altBoundary)) == |m.types|
            && Count(ls, CloseDelimiter(env.altBoundary)) == 1
            && ls[|ls| - 1] == CloseDelimiter(env.altBoundary)
            && (|m.attachments| > 0 ==> ls[0] == AlternativePreambleLine(env.altBoundary))
            && (|m.attachments| == 0 && |m.types| > 0 ==> ls[0] == Delimiter(env.altBoundary))
  {
    if |m.attachments| > 0 {
      PreambledAlternativeDelimiters(m, env);
    } else {
      PlainAlternativeDelimiters(m, env);
    }
  }

  /** `AlternativeDelimiters` for a message without attachments. */
  lemma PlainAlternativeDelimiters(m: Message, env: Env)
    requires SingleLineAlternatives(m.types, m.charset, env.altBoundary)
    requires CleanTexts(m.types, env.altBoundary, env.softWrap)
    requires |m.attachments| == 0
    ensures var ls := Lines(AlternativeBody(m, env));
            && Count(ls, Delimiter(env.altBoundary)) == |m.types|
            && Count(ls, CloseDelimiter(env.altBoundary)) == 1
            && ls[|ls| - 1] == CloseDelimiter(env.altBoundary)
            && (|m.types| > 0 ==> ls[0] == Delimiter(env.altBoundary))
  {
    var b := env.altBoundary;
    var al := AlternativeLines(m.types, m.charset, b, env.softWrap);
    PlainAlternativeBodyLines(m, env);
    AlternativeLinesCount(m.types, m.charset, b, env.softWrap);
    assert Delimiter(b) != CloseDelimiter(b) by {
      assert |Delimiter(b)| != |CloseDelimiter(b)|;
    }
    CountFramed([], al, CloseDelimiter(b), Delimiter(b));
    CountFramed([], al, CloseDelimiter(b), CloseDelimiter(b));
    assert [] + al + [CloseDelimiter(b)] == al + [CloseDelimiter(b)];
  }

  /** `AlternativeDelimiters` for a message with attachments. */
  lemma PreambledAlternativeDelimiters(m: Message, env: Env)
    requires SingleLineAlternatives(m.types, m.charset, env.altBoundary)
    requires CleanTexts(m.types, env.altBoundary, env.softWrap)
    requires |m.attachments| > 0
    ensures var ls := Lines(AlternativeBody(m, env));
            && Count(ls, Delimiter(env.altBoundary)) == |m.types|
            && Count(ls, CloseDelimiter(env.altBoundary)) == 1
            && ls[|ls| - 1] == CloseDelimiter(env.altBoundary)
            && ls[0] == AlternativePreambleLine(env.altBoundary)
  {
    var b := env.altBoundary;
    var al := AlternativeLines(m.types, m.charset, b, env.softWrap);
    var pre := [AlternativePreambleLine(b), ""];
    PreambledAlternativeBodyLines(m, env);
    AlternativeLinesCount(m.types, m.charset, b, env.softWrap);
    PreambleNotDelimiter(b);
    assert Delimiter(b) != CloseDelimiter(b) by {
      assert |Delimiter(b)| != |CloseDelimiter(b)|;
    }
    assert Count(pre, Delimiter(b)) == 0 && Count(pre, CloseDelimiter(b)) == 0;
    CountFramed(pre, al, CloseDelimiter(b), Delimiter(b));
    CountFramed(pre, al, CloseDelimiter(b), CloseDelimiter(b));
  }
}
