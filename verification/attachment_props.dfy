/**
  Properties of the multipart/mixed body: the base64 body of each
  attachment part, the line structure of the parts and of the whole body,
  and its delimiter lines (section 5.1.1 of RFC 2046).
 */
module AttachmentProperties {
  import opened Wrappers
  import opened Php
  import opened Text
  import opened Base64
  import opened Params
  import opened Simple
  import opened SimpleProperties

  // ---------------------------------------------------------------- base64 bodies

  /** Every character of `s` belongs to the base64 alphabet or is the pad. */
  predicate AllBase64(s: string)
  {
    forall j :: 0 <= j < |s| ==> IsBase64Char(s[j])
  }

  /**
    The body of an attachment part: lines of base64 characters, at most 70
    long and all but the last exactly 70, which joined back together decode
    to the content.
   */
  lemma PartBodyLines(content: seq<byte>)
    ensures var ls := Lines(PartBody(content));
            && (forall k :: 0 <= k < |ls| ==> |ls[k]| <= WrapWidth && AllBase64(ls[k]))
            && (forall k :: 0 <= k < |ls| - 1 ==> |ls[k]| == WrapWidth)
    ensures Decode(Unbreak(PartBody(content))) == Some(content)
  {
    var e := Encode(content);
    assert '\n' !in e;
    HardWrapLines(e);
    HardWrapLineLengths(e);
    var ls := Lines(HardWrap(e));
    forall k | 0 <= k < |ls| ensures AllBase64(ls[k]) {
      var lo, hi := WrapWidth * k, Min(WrapWidth * k + WrapWidth, |e|);
      assert ls[k] == e[lo..hi];
      forall j | 0 <= j < |ls[k]| ensures IsBase64Char(ls[k][j]) {
        assert ls[k][j] == e[lo + j];
      }
    }
    HardWrapUnbreak(e);
    RoundTrip(content);
  }

  /** A line of base64 characters is never a delimiter line: those begin with a hyphen. */
  lemma Base64LineNotDelimiter(line: string, boundary: string)
    requires AllBase64(line)
    ensures line != Delimiter(boundary) && line != CloseDelimiter(boundary)
  {
    if |line| > 0 {
      assert IsBase64Char(line[0]);
    }
  }

  // ---------------------------------------------------------------- attachment parts

  /** The attachment's declared type, disposition, filename and id are single lines. */
  predicate SingleLineAttachment(a: Attachment)
  {
    && '\n' !in DeclaredType(a)
    && '\n' !in a.disposition.GetOr("")
    && '\n' !in a.filename.GetOr("")
    && '\n' !in a.id.GetOr("")
  }

  /** Every attachment of the list is single-line. */
  predicate SingleLineAttachments(atts: seq<Attachment>)
  {
    forall k :: 0 <= k < |atts| ==> SingleLineAttachment(atts[k])
  }

  /** Augmenting a single line with a single-line filename keeps it a single line. */
  lemma AugmentSingleLine(value: string, filename: Option<string>, key: string)
    requires '\n' !in value && '\n' !in key && '\n' !in filename.GetOr("")
    ensures '\n' !in Augment(value, filename, key)
  {
    if Truthy(filename) && !HasParam(value, key) {
      var p1, p2, p3 := "; ", "=\"", "\"";
      assert '\n' !in p1 && '\n' !in p2 && '\n' !in p3;
      assert Augment(value, filename, key) == value + (p1 + key + p2 + filename.value + p3);
    }
  }

  /** The header lines of a single-line attachment are single lines. */
  lemma HeaderLinesSingle(a: Attachment)
    requires SingleLineAttachment(a)
    ensures forall i :: 0 <= i < |PartHeaderLines(a)| ==> '\n' !in PartHeaderLines(a)[i]
  {
    var ct, cd, ci, cte := "Content-Type: ", "Content-Disposition: ", "Content-ID: <", "Content-Transfer-Encoding: base64";
    assert '\n' !in ct && '\n' !in cd && '\n' !in ci && '\n' !in cte && '\n' !in ">";
    var typeLine := ct + Augment(DeclaredType(a), a.filename, "name");
    var dispositionLine := cd + Augment(a.disposition.GetOr(""), a.filename, "filename");
    var idLine := ci + a.id.GetOr("") + ">";
    AugmentSingleLine(DeclaredType(a), a.filename, "name");
    AugmentSingleLine(a.disposition.GetOr(""), a.filename, "filename");
    var r := PartHeaderLines(a);
    forall i | 0 <= i < |r| ensures '\n' !in r[i] {
      assert r[i] in r;
      assert r[i] == typeLine || r[i] == dispositionLine || r[i] == idLine || r[i] == cte;
    }
  }

  /** The lines of one attachment part: a blank line, its delimiter, its header lines, a blank line, its base64 lines. */
  function AttachmentLines(a: Attachment, content: seq<byte>, boundary: string): seq<string>
  {
    ["", Delimiter(boundary)] + PartHeaderLines(a) + [""] + Lines(PartBody(content))
  }

  /** The text of one attachment part regrouped around its line feeds. */
  lemma AttachmentRegroup(d: string, block: string, body: string, tail: string)
    ensures "\n" + d + "\n" + block + "\n" + body + "\n" + tail
            == "" + "\n" + (d + "\n" + (block + ("" + "\n" + (body + "\n" + tail))))
  {
  }

  /** The lines of one attachment part followed by `tail`, with the text grouped line feed by line feed. */
  lemma NestedAttachmentLines(d: string, hs: seq<string>, body: string, tail: string)
    requires '\n' !in d
    requires forall i :: 0 <= i < |hs| ==> '\n' !in hs[i]
    ensures Lines("" + "\n" + (d + "\n" + (Block(hs) + ("" + "\n" + (body + "\n" + tail)))))
            == [""] + ([d] + (hs + ([""] + (Lines(body) + Lines(tail)))))
  {
    LinesOfJoin(body, tail);
    LinesOfHeadLine("", body + "\n" + tail);
    LinesOfBlock(hs, "" + "\n" + (body + "\n" + tail));
    LinesOfHeadLine(d, Block(hs) + ("" + "\n" + (body + "\n" + tail)));
    LinesOfHeadLine("", d + "\n" + (Block(hs) + ("" + "\n" + (body + "\n" + tail))));
  }

  /** The lines of one attachment part's text followed by `tail`. */
  lemma AttachmentTextLines(d: string, hs: seq<string>, body: string, tail: string)
    requires '\n' !in d
    requires forall i :: 0 <= i < |hs| ==> '\n' !in hs[i]
    ensures Lines("\n" + d + "\n" + Block(hs) + "\n" + body + "\n" + tail)
            == ["", d] + hs + [""] + Lines(body) + Lines(tail)
  {
    AttachmentRegroup(d, Block(hs), body, tail);
    NestedAttachmentLines(d, hs, body, tail);
    assert [""] + ([d] + (hs + ([""] + (Lines(body) + Lines(tail)))))
           == ["", d] + hs + [""] + Lines(body) + Lines(tail);
  }

  /** Read as lines, one attachment part followed by `tail`. */
  lemma AttachmentPartLines(a: Attachment, content: seq<byte>, boundary: string, tail: string)
    requires '\n' !in boundary && SingleLineAttachment(a)
    ensures Lines(AttachmentPart(a, content, boundary) + tail) == AttachmentLines(a, content, boundary) + Lines(tail)
  {
    var d, hs, body := Delimiter(boundary), PartHeaderLines(a), PartBody(content);
    assert AttachmentPart(a, content, boundary) + tail == "\n" + d + "\n" + Block(hs) + "\n" + body + "\n" + tail;
    HeaderLinesSingle(a);
    AttachmentTextLines(d, hs, body, tail);
  }

  // ---------------------------------------------------------------- the mixed body

  /** The content of every attachment can be obtained. */
  predicate AllReadable(atts: seq<Attachment>, read: string -> Option<seq<byte>>)
  {
    forall k :: 0 <= k < |atts| ==> Content(atts[k], read).Some?
  }

  /** The lines of all attachment parts, part after part. */
  function AttachmentsLines(atts: seq<Attachment>, read: string -> Option<seq<byte>>, boundary: string): seq<string>
    requires AllReadable(atts, read)
  {
    if |atts| == 0 then []
    else AttachmentLines(atts[0], Content(atts[0], read).value, boundary) + AttachmentsLines(atts[1..], read, boundary)
  }

  /** The attachment parts of a list whose head can be read are the head's part and then the others. */
  lemma AttachmentPartsCons(atts: seq<Attachment>, read: string -> Option<seq<byte>>, boundary: string)
    requires |atts| > 0 && Content(atts[0], read).Some? && AttachmentParts(atts[1..], read, boundary).Success?
    ensures AttachmentParts(atts, read, boundary).Success?
    ensures AttachmentParts(atts, read, boundary).value
            == AttachmentPart(atts[0], Content(atts[0], read).value, boundary) + AttachmentParts(atts[1..], read, boundary).value
  {
  }

  /** The rest of a list of readable single-line attachments is such a list. */
  lemma AttachmentsTail(atts: seq<Attachment>, read: string -> Option<seq<byte>>)
    requires |atts| > 0 && SingleLineAttachments(atts) && AllReadable(atts, read)
    ensures SingleLineAttachments(atts[1..]) && AllReadable(atts[1..], read)
  {
    forall k | 0 <= k < |atts[1..]| ensures atts[1..][k] == atts[k + 1] { }
  }

  /** The inductive step of `AttachmentPartsLines`: from the lines of the rest to the lines of the whole list. */
  lemma AttachmentPartsStep(atts: seq<Attachment>, read: string -> Option<seq<byte>>, boundary: string, tail: string)
    requires |atts| > 0 && '\n' !in boundary && SingleLineAttachment(atts[0]) && AllReadable(atts, read)
    requires AllReadable(atts[1..], read) && AttachmentParts(atts[1..], read, boundary).Success?
    requires Lines(AttachmentParts(atts[1..], read, boundary).value + tail)
             == AttachmentsLines(atts[1..], read, boundary) + Lines(tail)
    ensures AttachmentParts(atts, read, boundary).Success?
    ensures Lines(AttachmentParts(atts, read, boundary).value + tail) == AttachmentsLines(atts, read, boundary) + Lines(tail)
  {
    var c := Content(atts[0], read).value;
    AttachmentPartsCons(atts, read, boundary);
    AttachmentPartLines(atts[0], c, boundary, AttachmentParts(atts[1..], read, boundary).value + tail);
    LinesGlue(AttachmentParts(atts, read, boundary).value, AttachmentPart(atts[0], c, boundary),
              AttachmentParts(atts[1..], read, boundary).value, tail,
              AttachmentLines(atts[0], c, boundary), AttachmentsLines(atts[1..], read, boundary));
  }

  /** Read as lines, the attachment parts are the lines of each part in list order. */
  lemma {:induction false} AttachmentPartsLines(atts: seq<Attachment>, read: string -> Option<seq<byte>>,
                                                boundary: string, tail: string)
    requires '\n' !in boundary && SingleLineAttachments(atts) && AllReadable(atts, read)
    ensures AttachmentParts(atts, read, boundary).Success?
    ensures Lines(AttachmentParts(atts, read, boundary).value + tail) == AttachmentsLines(atts, read, boundary) + Lines(tail)
  {
    if |atts| == 0 {
      assert AttachmentParts(atts, read, boundary).value + tail == tail;
    } else {
      AttachmentsTail(atts, read);
      AttachmentPartsLines(atts[1..], read, boundary, tail);
      AttachmentPartsStep(atts, read, boundary, tail);
    }
  }

  /** Read as lines, the mixed body: its first delimiter, the alternative body, then what follows it. */
  lemma MixedBodyLines(alternative: string, parts: string, boundary: string)
    requires '\n' !in boundary
    ensures Lines(MixedBody(alternative, parts, boundary))
            == [Delimiter(boundary)] + Lines(alternative) + Lines(parts + "\n" + CloseDelimiter(boundary))
  {
    var d, tail := Delimiter(boundary), parts + "\n" + CloseDelimiter(boundary);
    assert MixedBody(alternative, parts, boundary) == d + "\n" + (alternative + "\n" + tail);
    LinesOfJoin(alternative, tail);
    LinesOfHeadLine(d, alternative + "\n" + tail);
  }

  /** The close of the mixed body is a blank line and the close delimiter. */
  lemma CloseLines(boundary: string)
    requires '\n' !in boundary
    ensures Lines("\n" + CloseDelimiter(boundary)) == ["", CloseDelimiter(boundary)]
  {
    assert "\n" + CloseDelimiter(boundary) == "" + "\n" + CloseDelimiter(boundary);
    LinesOfHeadLine("", CloseDelimiter(boundary));
    LinesOfLine(CloseDelimiter(boundary));
  }

  /** Read as lines, a mixed body whose parts, followed by the close, read as `partLines` and the close. */
  lemma MixedLinesOf(alternative: string, parts: string, boundary: string, partLines: seq<string>)
    requires '\n' !in boundary
    requires Lines(parts + ("\n" + CloseDelimiter(boundary))) == partLines + Lines("\n" + CloseDelimiter(boundary))
    ensures Lines(MixedBody(alternative, parts, boundary))
            == [Delimiter(boundary)] + Lines(alternative) + partLines + ["", CloseDelimiter(boundary)]
  {
    assert parts + "\n" + CloseDelimiter(boundary) == parts + ("\n" + CloseDelimiter(boundary));
    MixedBodyLines(alternative, parts, boundary);
    CloseLines(boundary);
  }

  /** With attachments that can all be read, the body is the mixed body around the alternative body. */
  lemma ComposeBodyMixed(m: Message, env: Env)
    requires |m.attachments| > 0 && AllReadable(m.attachments, env.read)
    ensures AttachmentParts(m.attachments, env.read, env.mixedBoundary).Success?
    ensures ComposeBody(m, env)
            == Success(MixedBody(AlternativeBody(m, env),
                                 AttachmentParts(m.attachments, env.read, env.mixedBoundary).value,
                                 env.mixedBoundary))
  {
  }

  /**
    With attachments that can all be read, the body `deliver` passes to
    `mail`, read as lines, is the mixed delimiter, the alternative body, the
    lines of each attachment part, a blank line and the mixed close delimiter.
   */
  lemma ComposedMixedLines(m: Message, env: Env)
    requires |m.attachments| > 0
    requires '\n' !in env.mixedBoundary
    requires SingleLineAttachments(m.attachments) && AllReadable(m.attachments, env.read)
    ensures ComposeBody(m, env).Success?
    ensures Lines(ComposeBody(m, env).value)
            == [Delimiter(env.mixedBoundary)] + Lines(AlternativeBody(m, env))
               + AttachmentsLines(m.attachments, env.read, env.mixedBoundary)
               + ["", CloseDelimiter(env.mixedBoundary)]
  {
    var b := env.mixedBoundary;
    AttachmentPartsLines(m.attachments, env.read, b, "\n" + CloseDelimiter(b));
    ComposeBodyMixed(m, env);
    MixedLinesOf(AlternativeBody(m, env), AttachmentParts(m.attachments, env.read, b).value, b,
                 AttachmentsLines(m.attachments, env.read, b));
  }

  // ---------------------------------------------------------------- delimiter lines

  /** No header line of an attachment part is a delimiter line. */
  lemma HeaderLinesNotDelimiters(a: Attachment, boundary: string)
    ensures Delimiter(boundary) !in PartHeaderLines(a) && CloseDelimiter(boundary) !in PartHeaderLines(a)
  {
    var hs := PartHeaderLines(a);
    forall i | 0 <= i < |hs| ensures hs[i] != Delimiter(boundary) && hs[i] != CloseDelimiter(boundary) {
      ContentLineNotDelimiter(hs[i], boundary);
    }
  }

  /** No base64 line of an attachment part is a delimiter line. */
  lemma BodyLinesNotDelimiters(content: seq<byte>, boundary: string)
    ensures Delimiter(boundary) !in Lines(PartBody(content)) && CloseDelimiter(boundary) !in Lines(PartBody(content))
  {
    var body := Lines(PartBody(content));
    PartBodyLines(content);
    forall i | 0 <= i < |body| ensures body[i] != Delimiter(boundary) && body[i] != CloseDelimiter(boundary) {
      Base64LineNotDelimiter(body[i], boundary);
    }
  }

  /** The count of `x` among the lines `["", first] + hs + [""] + body`. */
  lemma CountAttachment(first: string, hs: seq<string>, body: seq<string>, x: string)
    ensures Count(["", first] + hs + [""] + body, x)
            == (if x == "" then 2 else 0) + (if first == x then 1 else 0) + Count(hs, x) + Count(body, x)
  {
    CountAppend(["", first] + hs + [""], body, x);
    CountAppend(["", first] + hs, [""], x);
    CountAppend(["", first], hs, x);
  }

  /** One attachment part holds one delimiter line and no close delimiter. */
  lemma AttachmentLinesCount(a: Attachment, content: seq<byte>, boundary: string)
    ensures Count(AttachmentLines(a, content, boundary), Delimiter(boundary)) == 1
    ensures Count(AttachmentLines(a, content, boundary), CloseDelimiter(boundary)) == 0
  {
    var d, close := Delimiter(boundary), CloseDelimiter(boundary);
    assert d != close by {
      assert |d| != |close|;
    }
    HeaderLinesNotDelimiters(a, boundary);
    BodyLinesNotDelimiters(content, boundary);
    CountAttachment(d, PartHeaderLines(a), Lines(PartBody(content)), d);
    CountAttachment(d, PartHeaderLines(a), Lines(PartBody(content)), close);
  }

  /** The attachment parts hold one delimiter line each and no close delimiter. */
  lemma {:induction false} AttachmentsLinesCount(atts: seq<Attachment>, read: string -> Option<seq<byte>>, boundary: string)
    requires AllReadable(atts, read)
    ensures Count(AttachmentsLines(atts, read, boundary), Delimiter(boundary)) == |atts|
    ensures Count(AttachmentsLines(atts, read, boundary), CloseDelimiter(boundary)) == 0
  {
    if |atts| > 0 {
      assert AllReadable(atts[1..], read) by {
        forall k | 0 <= k < |atts[1..]| ensures atts[1..][k] == atts[k + 1] { }
      }
      var c := Content(atts[0], read).value;
      AttachmentsLinesCount(atts[1..], read, boundary);
      AttachmentLinesCount(atts[0], c, boundary);
      CountAppend(AttachmentLines(atts[0], c, boundary), AttachmentsLines(atts[1..], read, boundary), Delimiter(boundary));
      CountAppend(AttachmentLines(atts[0], c, boundary), AttachmentsLines(atts[1..], read, boundary), CloseDelimiter(boundary));
    }
  }

  /** The count of `x` among the lines `[first] + mid + rest + ["", last]`. */
  lemma CountMixed(first: string, mid: seq<string>, rest: seq<string>, last: string, x: string)
    ensures Count([first] + mid + rest + ["", last], x)
            == (if first == x then 1 else 0) + Count(mid, x) + Count(rest, x)
               + (if x == "" then 1 else 0) + (if last == x then 1 else 0)
  {
    CountAppend([first] + mid + rest, ["", last], x);
    CountAppend([first] + mid, rest, x);
    CountAppend([first], mid, x);
  }

  /**
    The two boundaries cannot be confused: neither is the other, and neither
    is the other followed by `--`.
   */
  predicate Separated(alternative: string, mixed: string)
  {
    alternative != mixed && alternative != mixed + "--" && mixed != alternative + "--"
  }

  /** Separated boundaries give four distinct delimiter lines. */
  lemma SeparatedDelimiters(alternative: string, mixed: string)
    requires Separated(alternative, mixed)
    ensures Delimiter(alternative) != Delimiter(mixed) && Delimiter(alternative) != CloseDelimiter(mixed)
    ensures CloseDelimiter(alternative) != Delimiter(mixed) && CloseDelimiter(alternative) != CloseDelimiter(mixed)
  {
    assert Delimiter(alternative)[2..] == alternative && Delimiter(mixed)[2..] == mixed;
    assert CloseDelimiter(alternative)[2..] == alternative + "--" && CloseDelimiter(mixed)[2..] == mixed + "--";
    var n, k := |CloseDelimiter(alternative)|, |CloseDelimiter(mixed)|;
    assert CloseDelimiter(alternative)[2..n - 2] == alternative && CloseDelimiter(mixed)[2..k - 2] == mixed;
  }

  /** The alternative parts hold no delimiter line of a separated mixed boundary when their texts hold none. */
  lemma {:induction false} AlternativeLinesForeign(ts: seq<Alternative>, charset: string, alternative: string,
                                                   wrap: string -> string, mixed: string)
    requires Separated(alternative, mixed) && CleanTexts(ts, mixed, wrap)
    ensures Delimiter(mixed) !in AlternativeLines(ts, charset, alternative, wrap)
    ensures CloseDelimiter(mixed) !in AlternativeLines(ts, charset, alternative, wrap)
  {
    if |ts| > 0 {
      var c := PartContentTypeLine(ts[0], charset);
      assert CleanTexts(ts[1..], mixed, wrap) by {
        forall k | 0 <= k < |ts[1..]| ensures ts[1..][k] == ts[k + 1] { }
      }
      AlternativeLinesForeign(ts[1..], charset, alternative, wrap, mixed);
      SeparatedDelimiters(alternative, mixed);
      ContentLineNotDelimiter(c, mixed);
      assert Clean(wrap(ts[0].text), mixed);
      assert AlternativeLines(ts, charset, alternative, wrap)
             == [Delimiter(alternative), c, ""] + Lines(wrap(ts[0].text)) + [""]
                + AlternativeLines(ts[1..], charset, alternative, wrap);
    }
  }

  /**
    The alternative body holds no delimiter line of a separated mixed
    boundary when the texts hold none: the inner body cannot end the outer one.
   */
  lemma AlternativeForeignClean(m: Message, env: Env)
    requires SingleLineAlternatives(m.types, m.charset, env.altBoundary)
    requires Separated(env.altBoundary, env.mixedBoundary)
    requires CleanTexts(m.types, env.mixedBoundary, env.softWrap)
    ensures Clean(AlternativeBody(m, env), env.mixedBoundary)
  {
    var a, b := env.altBoundary, env.mixedBoundary;
    AlternativeBodyLines(m, env);
    AlternativeLinesForeign(m.types, m.charset, a, env.softWrap, b);
    SeparatedDelimiters(a, b);
    assert AlternativePreambleLine(a)[0] == 'C';
  }

  /**
    The mixed body is well delimited: its first line is the mixed delimiter,
    its last the mixed close delimiter, and it holds one delimiter line per
    attachment besides the first and exactly one close delimiter.
   */
  lemma MixedDelimiters(m: Message, env: Env)
    requires |m.attachments| > 0
    requires '\n' !in env.mixedBoundary
    requires SingleLineAttachments(m.attachments) && AllReadable(m.attachments, env.read)
    requires Clean(AlternativeBody(m, env), env.mixedBoundary)
    ensures ComposeBody(m, env).Success?
    ensures var ls := Lines(ComposeBody(m, env).value);
            && ls[0] == Delimiter(env.mixedBoundary)
            && ls[|ls| - 1] == CloseDelimiter(env.mixedBoundary)
            && Count(ls, Delimiter(env.mixedBoundary)) == |m.attachments| + 1
            && Count(ls, CloseDelimiter(env.mixedBoundary)) == 1
  {
    var b := env.mixedBoundary;
    ComposedMixedLines(m, env);
    AttachmentsLinesCount(m.attachments, env.read, b);
    assert Delimiter(b) != CloseDelimiter(b) by {
      assert |Delimiter(b)| != |CloseDelimiter(b)|;
    }
    MixedShape(Lines(ComposeBody(m, env).value), Delimiter(b), CloseDelimiter(b),
               Lines(AlternativeBody(m, env)), AttachmentsLines(m.attachments, env.read, b), |m.attachments|);
  }

  /** The delimiter lines of `[d] + alt + parts + ["", close]` when `alt` holds none and `parts` holds `n` openers. */
  lemma MixedShape(ls: seq<string>, d: string, close: string, alt: seq<string>, parts: seq<string>, n: nat)
    requires ls == [d] + alt + parts + ["", close]
    requires d != close && d != "" && close != ""
    requires Count(alt, d) == 0 && Count(alt, close) == 0
    requires Count(parts, d) == n && Count(parts, close) == 0
    ensures ls[0] == d && ls[|ls| - 1] == close
    ensures Count(ls, d) == n + 1 && Count(ls, close) == 1
  {
    CountMixed(d, alt, parts, close, d);
    CountMixed(d, alt, parts, close, close);
  }
}
