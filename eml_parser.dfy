/**
 * `EmlParser` of src/emlParser.js: the normalisation of the object the
 * EML parsing library returns into the email record the PDF generator
 * consumes. The library itself is foreign; its result is an input here.
 * A text field of that object that is absent, or empty and so falsy, is "".
 */
module EmlParser {
  import opened Wrappers
  import opened JsText

  /** The value of a `data` property: a Node Buffer, a string, some other
      truthy object (with the value its `length` property gives), or
      nothing. */
  datatype Payload =
    | Absent
    | Buffer(bytes: seq<bv8>)
    | Chars(text: string)
    | Other(length: nat)

  /** JavaScript truthiness: an absent value and the empty string are falsy;
      a Buffer is an object and so truthy even when empty. */
  predicate Truthy(p: Payload) {
    !(p.Absent? || p == Chars(""))
  }

  /** `data.length` of a truthy payload: bytes for a Buffer, UTF-16 code
      units for a string. */
  function PayloadLength(p: Payload): nat
    requires Truthy(p)
  {
    match p
    case Buffer(bytes) => |bytes|
    case Chars(text) => Utf16Length(text)
    case Other(length) => length
  }

  // ---------------------------------------------------------------------
  // Addresses
  // ---------------------------------------------------------------------

  /** An address header as the library returns it: nothing, a raw header
      string, an object with an `address` property ("" when absent) and the
      text its `toString()` gives, or an array of such values. */
  datatype AddressValue =
    | NoValue
    | Str(s: string)
    | Obj(address: string, shown: string)
    | Arr(items: seq<AddressValue>)

  predicate AddressTruthy(v: AddressValue) {
    !(v.NoValue? || v == Str(""))
  }

  /** `String(v)`: an array shows its elements joined with `,`, an absent
      element as the empty string. */
  function Shown(v: AddressValue): string
    decreases v
  {
    match v
    case NoValue => ""
    case Str(s) => s
    case Obj(_, shown) => shown
    case Arr(items) => Join(seq(|items|, i requires 0 <= i < |items| => Shown(items[i])), ",")
  }

  /** The group of the first match of `/<([^>]+)>/` in `s` at or after
      `from`: a `<`, then the text up to the next `>`, which must not be
      empty. */
  function AngleGroup(s: string, from: nat): (r: Option<string>)
    requires from <= |s|
    ensures r.Some? ==> |r.value| > 0 && '>' !in r.value
    decreases |s| - from
  {
    if from == |s| then None
    else if s[from] == '<' && IndexOf(s, ">", from + 1) > from + 1 then
      var j := IndexOf(s, ">", from + 1);
      assert '>' !in s[from + 1..j] by {
        forall k | from + 1 <= k < j ensures s[k] != '>' {
          assert !OccursAt(s, ">", k);
          assert s[k..k + 1] == [s[k]];
        }
      }
      Some(s[from + 1..j])
    else AngleGroup(s, from + 1)
  }

  /** A match of `<([^>]+)>` spanning `s[i..j + 1]`: a `<` at `i`, the
      first `>` after it at `j`, and at least one character between. */
  predicate Bracketed(s: string, i: int, j: int)
  {
    0 <= i && i + 1 < j < |s| && s[i] == '<' && s[j] == '>' && forall k :: i < k < j ==> s[k] != '>'
  }

  /** `AngleGroup` finds a match exactly when one starts at or after
      `from`, and then captures the group of the leftmost one. */
  lemma {:induction false} AngleGroupMatches(s: string, from: nat)
    requires from <= |s|
    ensures AngleGroup(s, from).None? <==> !exists i, j :: from <= i && Bracketed(s, i, j)
    ensures AngleGroup(s, from).Some? ==>
      exists i, j :: from <= i && Bracketed(s, i, j) && AngleGroup(s, from).value == s[i + 1..j] &&
        forall i', j' :: from <= i' < i ==> !Bracketed(s, i', j')
    decreases |s| - from
  {
    if from == |s| {
    } else if s[from] == '<' && IndexOf(s, ">", from + 1) > from + 1 {
      AngleHit(s, from);
    } else {
      BracketedEnd(s, from);
      AngleGroupMatches(s, from + 1);
      if AngleGroup(s, from).Some? {
        var i, j :| from + 1 <= i && Bracketed(s, i, j) && AngleGroup(s, from).value == s[i + 1..j] &&
          forall i', j' :: from + 1 <= i' < i ==> !Bracketed(s, i', j');
        assert from <= i && Bracketed(s, i, j) && AngleGroup(s, from).value == s[i + 1..j];
      }
    }
  }

  /** A `<` whose next `>` is not adjacent starts a match. */
  lemma AngleHit(s: string, from: nat)
    requires from < |s| && s[from] == '<' && IndexOf(s, ">", from + 1) > from + 1
    ensures Bracketed(s, from, IndexOf(s, ">", from + 1))
  {
    var j := IndexOf(s, ">", from + 1);
    assert s[j] == '>' by { assert s[j..j + 1] == ">"; }
    forall k | from < k < j ensures s[k] != '>' {
      assert !OccursAt(s, ">", k);
      assert s[k..k + 1] == [s[k]];
    }
  }

  /** A match starting at `i` ends at the first `>` after `i + 1`. */
  lemma BracketedEnd(s: string, i: int)
    requires 0 <= i < |s|
    ensures forall j :: Bracketed(s, i, j) ==> IndexOf(s, ">", i + 1) == j
  {
    forall j | Bracketed(s, i, j) ensures IndexOf(s, ">", i + 1) == j {
      assert OccursAt(s, ">", j) by { assert s[j..j + 1] == [s[j]]; }
      forall k | i + 1 <= k < j ensures !OccursAt(s, ">", k) {
        assert s[k..k + 1] == [s[k]];
      }
      IndexOfFirst(s, ">", i + 1, j);
    }
  }

  /** `extractEmail(emailField)`. */
  function ExtractEmail(v: AddressValue): (r: string)
    ensures !AddressTruthy(v) ==> r == ""
    ensures v.Obj? && v.address != "" ==> r == v.address
  {
    match v
    case NoValue => ""
    case Str(s) =>
      if s == "" then ""
      else
        (match AngleGroup(s, 0)
         case Some(a) => a
         case None => Trim(s))
    case Obj(address, shown) => if address != "" then address else shown
    case Arr(_) => Shown(v)
  }

  /** `Name <addr>` gives `addr` when the name holds no `<`. */
  lemma ExtractNamedAddress(name: string, a: string, rest: string)
    requires '<' !in name && a != [] && '>' !in a
    ensures ExtractEmail(Str(name + "<" + a + ">" + rest)) == a
  {
    var s := name + "<" + a + ">" + rest;
    var i := |name|;
    assert s[i] == '<';
    AngleSkip(s, 0, i);
    var j := i + 1 + |a|;
    assert s[j] == '>';
    assert s[i + 1..j] == a;
    assert OccursAt(s, ">", j) by { assert s[j..j + 1] == ">"; }
    forall k | i + 1 <= k < j ensures !OccursAt(s, ">", k) {
      assert s[k] == a[k - i - 1];
    }
    assert IndexOf(s, ">", i + 1) == j by {
      IndexOfFirst(s, ">", i + 1, j);
    }
  }

  /** A string holding a match gives the group of its leftmost match. */
  lemma ExtractLeftmostGroup(s: string, i: int, j: int)
    requires Bracketed(s, i, j)
    requires forall i', j' :: i' < i ==> !Bracketed(s, i', j')
    ensures ExtractEmail(Str(s)) == s[i + 1..j]
  {
    AngleGroupMatches(s, 0);
    var i2, j2 :| Bracketed(s, i2, j2) && AngleGroup(s, 0).value == s[i2 + 1..j2] &&
      forall i', j' :: 0 <= i' < i2 ==> !Bracketed(s, i', j');
    assert i2 == i;
    BracketedEnd(s, i);
  }

  /** A non-empty string holding no match gives its trimmed text, even
      when it holds a `<` (as in `a < b` or `<>`). */
  lemma ExtractNoGroup(s: string)
    requires s != "" && !exists i, j :: Bracketed(s, i, j)
    ensures ExtractEmail(Str(s)) == Trim(s)
  {
    AngleGroupMatches(s, 0);
  }

  /** Positions before `to` that hold no `<` start no match. */
  lemma {:induction false} AngleSkip(s: string, from: nat, to: nat)
    requires from <= to <= |s|
    requires forall k :: from <= k < to ==> s[k] != '<'
    ensures AngleGroup(s, from) == AngleGroup(s, to)
    decreases |s| - from
  {
    if from < to {
      AngleSkip(s, from + 1, to);
    }
  }

  /** The first occurrence is the one `IndexOf` returns. */
  lemma IndexOfFirst(s: string, pat: string, from: nat, j: nat)
    requires from <= j <= |s| && OccursAt(s, pat, j)
    requires forall k :: from <= k < j ==> !OccursAt(s, pat, k)
    ensures IndexOf(s, pat, from) == j
  {
    var r := IndexOf(s, pat, from);
    assert r != -1;
  }

  /** Without a `<`, the trimmed string. */
  lemma ExtractPlainAddress(s: string)
    requires s != "" && '<' !in s
    ensures ExtractEmail(Str(s)) == Trim(s)
  {
    AngleSkip(s, 0, |s|);
  }

  /** `extractEmails(emailField)`. */
  function ExtractEmails(v: AddressValue): (r: seq<string>)
    ensures !AddressTruthy(v) ==> r == []
    ensures v.Arr? ==> |r| == |v.items| && forall i :: 0 <= i < |r| ==> r[i] == ExtractEmail(v.items[i])
    ensures AddressTruthy(v) && !v.Arr? ==> r == [ExtractEmail(v)]
  {
    if !AddressTruthy(v) then []
    else if v.Arr? then seq(|v.items|, i requires 0 <= i < |v.items| => ExtractEmail(v.items[i]))
    else [ExtractEmail(v)]
  }

  // ---------------------------------------------------------------------
  // Subject
  // ---------------------------------------------------------------------

  /** `subject.replace(/^Subject:\s*\/i, '').trim()`. */
  function CleanSubject(subject: string): (r: string)
    ensures r == [] || (!IsSpace(r[0]) && !IsSpace(r[|r| - 1]))
  {
    var rest := if MatchesAt(subject, Ci("Subject:"), 0) then subject[SkipSpaces(subject, 8)..] else subject;
    Trim(rest)
  }

  /** `cleanSubject(parsed.subject || 'No Subject')`. */
  function Subject(subject: string): string {
    CleanSubject(if subject != "" then subject else "No Subject")
  }

  /** A missing subject reads `No Subject`. */
  lemma MissingSubject()
    ensures Subject("") == "No Subject"
  {
    var s := "No Subject";
    assert s[0] == 'N';
    assert !MatchesAt(s, Ci("Subject:"), 0) by { assert Ci("Subject:")[0] == Fold('S'); }
    TrimKeeps(s);
  }

  /** One leading `Subject:`, in any case, and the spaces after it are
      removed, and the rest is trimmed. */
  lemma CleanSubjectPrefix(p: string, x: string)
    requires |p| == 8 && MatchesAt(p, Ci("Subject:"), 0)
    ensures CleanSubject(p + x) == Trim(x)
  {
    var s := p + x;
    assert MatchesAt(s, Ci("Subject:"), 0) by {
      forall k | 0 <= k < 8 ensures s[k] == p[k] { }
    }
    assert s[8..] == x;
    TrimAfterSpaces(s, 8, SkipSpaces(s, 8));
  }

  /** Spaces in front of the text do not change its trim. */
  lemma TrimAfterSpaces(s: string, i: nat, j: nat)
    requires i <= j <= |s|
    requires forall k :: i <= k < j ==> IsSpace(s[k])
    ensures Trim(s[j..]) == Trim(s[i..])
  {
    var t := Trim(s[j..]);
    var k :| SpaceFramed(s[j..], t, k);
    FramedShift(s, i, j, t, k);
    TrimUnique(s[i..], t, j - i + k);
  }

  /** A slice framed by spaces in `s[j..]` is framed in `s[i..]` too when
      `s[i..j]` holds only spaces. */
  lemma FramedShift(s: string, i: nat, j: nat, t: string, k: int)
    requires i <= j <= |s|
    requires forall m :: i <= m < j ==> IsSpace(s[m])
    requires SpaceFramed(s[j..], t, k)
    ensures SpaceFramed(s[i..], t, j - i + k)
  {
    var u := s[i..];
    var v := s[j..];
    var d := j - i;
    forall m | 0 <= m < d + k ensures IsSpace(u[m]) {
      assert u[m] == s[i + m];
      if m >= d {
        assert v[m - d] == s[i + m];
      }
    }
    assert t == v[k..k + |t|];
    assert t == u[d + k..d + k + |t|];
    forall m | d + k + |t| <= m < |u| ensures IsSpace(u[m]) {
      assert u[m] == v[m - d];
    }
  }

  // ---------------------------------------------------------------------
  // Body
  // ---------------------------------------------------------------------

  /** One part of a multipart body; an absent text field is "". */
  datatype BodyPart = BodyPart(contentType: string, filename: string, data: Payload)

  /** `parsed.body`: absent, a plain string (whose characters the part loop
      visits, none of them having a content type) or an array of parts. */
  datatype BodyValue = NoBody | Unsplit(text: string) | Parts(parts: seq<BodyPart>)

  datatype BodyKind = Html | PlainText

  datatype Body = Body(kind: BodyKind, content: Payload)

  const NoReadableContent: string := "No readable content found"

  /** The kind a part is read as, if any: HTML is tested before plain text. */
  function PartKind(part: BodyPart): Option<BodyKind> {
    if part.contentType != "" && Contains(part.contentType, "text/html") && Truthy(part.data) then Some(Html)
    else if part.contentType != "" && Contains(part.contentType, "text/plain") && Truthy(part.data) then Some(PlainText)
    else None
  }

  function PartBody(part: BodyPart): Body
    requires PartKind(part).Some?
  {
    Body(PartKind(part).value, part.data)
  }

  /** The index of the first readable part at or after `i`, or -1. */
  function FirstReadable(parts: seq<BodyPart>, i: nat): (k: int)
    requires i <= |parts|
    ensures k == -1 || (i <= k < |parts| && PartKind(parts[k]).Some?)
    ensures k == -1 ==> forall m :: i <= m < |parts| ==> PartKind(parts[m]).None?
    ensures k != -1 ==> forall m :: i <= m < k ==> PartKind(parts[m]).None?
    decreases |parts| - i
  {
    if i == |parts| then -1
    else if PartKind(parts[i]).Some? then i
    else FirstReadable(parts, i + 1)
  }

  /** `extractBody(parsed)`: `html`, else `text`, else the first readable
      part, else the fallback text. */
  function ExtractBody(html: string, text: string, body: BodyValue): (r: Body)
    ensures html != "" ==> r == Body(Html, Chars(html))
    ensures html == "" && text != "" ==> r == Body(PlainText, Chars(text))
  {
    if html != "" then Body(Html, Chars(html))
    else if text != "" then Body(PlainText, Chars(text))
    else if body.Parts? && |body.parts| > 0 && FirstReadable(body.parts, 0) != -1 then
      PartBody(body.parts[FirstReadable(body.parts, 0)])
    else Body(PlainText, Chars(NoReadableContent))
  }

  /** Without `html` and `text`, the earliest readable part decides, so a
      plain-text part ahead of an HTML part wins. */
  lemma ExtractBodyFirstPart(parts: seq<BodyPart>, k: nat)
    requires k < |parts| && PartKind(parts[k]).Some?
    requires forall m :: 0 <= m < k ==> PartKind(parts[m]).None?
    ensures ExtractBody("", "", Parts(parts)) == Body(PartKind(parts[k]).value, parts[k].data)
  {
    var j := FirstReadable(parts, 0);
    assert j == k;
  }

  /** With nothing readable, the fallback text. */
  lemma ExtractBodyNothingReadable(body: BodyValue)
    requires body.Parts? ==> forall m :: 0 <= m < |body.parts| ==> PartKind(body.parts[m]).None?
    ensures ExtractBody("", "", body) == Body(PlainText, Chars(NoReadableContent))
  {
    if body.Parts? && |body.parts| > 0 {
      var k := FirstReadable(body.parts, 0);
      assert k == -1;
    }
  }

  // ---------------------------------------------------------------------
  // Attachments
  // ---------------------------------------------------------------------

  /** An entry of `parsed.attachments`; an absent text field is "". */
  datatype RawAttachment = RawAttachment(filename: string, contentType: string, data: Payload)

  /** The attachment record the parser builds. */
  datatype Attachment = Attachment(filename: string, contentType: string, size: nat, data: Payload)

  const UnnamedAttachment: string := "unnamed_attachment"
  const DefaultContentType: string := "application/octet-stream"

  function OrDefault(s: string, default: string): string {
    if s != "" then s else default
  }

  function FromRaw(a: RawAttachment): Attachment {
    Attachment(OrDefault(a.filename, UnnamedAttachment), OrDefault(a.contentType, DefaultContentType),
               if Truthy(a.data) then PayloadLength(a.data) else 0, a.data)
  }

  /** A body part counts as an attachment when it has a file name and data. */
  predicate IsAttachmentPart(part: BodyPart) {
    part.filename != "" && Truthy(part.data)
  }

  function FromPart(part: BodyPart): Attachment
    requires IsAttachmentPart(part)
  {
    Attachment(part.filename, OrDefault(part.contentType, DefaultContentType), PayloadLength(part.data), part.data)
  }

  /** The attachments of `parsed.attachments`, in order. */
  function RawAttachments(raws: Option<seq<RawAttachment>>): (r: seq<Attachment>)
    ensures raws.None? ==> r == []
    ensures raws.Some? ==> |r| == |raws.value|
  {
    if raws.None? then [] else seq(|raws.value|, i requires 0 <= i < |raws.value| => FromRaw(raws.value[i]))
  }

  /** The attachments among the parts `parts[i..]`, in order. */
  function PartAttachments(parts: seq<BodyPart>, i: nat): seq<Attachment>
    requires i <= |parts|
    decreases |parts| - i
  {
    if i == |parts| then []
    else if IsAttachmentPart(parts[i]) then [FromPart(parts[i])] + PartAttachments(parts, i + 1)
    else PartAttachments(parts, i + 1)
  }

  function BodyAttachments(body: BodyValue): seq<Attachment> {
    if body.Parts? then PartAttachments(body.parts, 0) else []
  }

  /** `extractAttachments(parsed)`. */
  function AttachmentsOf(raws: Option<seq<RawAttachment>>, body: BodyValue): seq<Attachment> {
    RawAttachments(raws) + BodyAttachments(body)
  }

  method ExtractAttachments(raws: Option<seq<RawAttachment>>, body: BodyValue) returns (attachments: seq<Attachment>)
    ensures attachments == AttachmentsOf(raws, body)
  {
    attachments := [];
    if raws.Some? {
      var i := 0;
      while i < |raws.value|
        invariant 0 <= i <= |raws.value|
        invariant attachments == RawAttachments(raws)[..i]
      {
        var a := raws.value[i];
        var record := Attachment(if a.filename != "" then a.filename else UnnamedAttachment,
                                 if a.contentType != "" then a.contentType else DefaultContentType,
                                 if Truthy(a.data) then PayloadLength(a.data) else 0, a.data);
        attachments := attachments + [record];
        i := i + 1;
      }
    }
    assert attachments == RawAttachments(raws);
    if body.Parts? {
      var parts := body.parts;
      ghost var before := attachments;
      var i := 0;
      while i < |parts|
        invariant 0 <= i <= |parts|
        invariant attachments + PartAttachments(parts, i) == before + PartAttachments(parts, 0)
      {
        var part := parts[i];
        if part.filename != "" && Truthy(part.data) {
          var record := Attachment(part.filename, if part.contentType != "" then part.contentType else DefaultContentType,
                                   PayloadLength(part.data), part.data);
          assert attachments + PartAttachments(parts, i) == (attachments + [record]) + PartAttachments(parts, i + 1);
          attachments := attachments + [record];
        }
        i := i + 1;
      }
      assert attachments + [] == attachments;
    } else {
      assert attachments + [] == attachments;
    }
  }

  /** How many of `parts[i..]` are attachment parts. */
  function CountAttachmentParts(parts: seq<BodyPart>, i: nat): nat
    requires i <= |parts|
    decreases |parts| - i
  {
    if i == |parts| then 0 else (if IsAttachmentPart(parts[i]) then 1 else 0) + CountAttachmentParts(parts, i + 1)
  }

  lemma {:induction false} PartAttachmentsCount(parts: seq<BodyPart>, i: nat)
    requires i <= |parts|
    ensures |PartAttachments(parts, i)| == CountAttachmentParts(parts, i)
    decreases |parts| - i
  {
    if i < |parts| {
      PartAttachmentsCount(parts, i + 1);
    }
  }

  /** Every record carries a file name and a content type, and its size is
      the length of its data, 0 when there is none. */
  predicate WellFormedAttachment(a: Attachment) {
    a.filename != "" && a.contentType != "" && a.size == (if Truthy(a.data) then PayloadLength(a.data) else 0)
  }

  lemma {:induction false} PartAttachmentsWellFormed(parts: seq<BodyPart>, i: nat)
    requires i <= |parts|
    ensures forall k :: 0 <= k < |PartAttachments(parts, i)| ==> WellFormedAttachment(PartAttachments(parts, i)[k])
    decreases |parts| - i
  {
    if i < |parts| {
      PartAttachmentsWellFormed(parts, i + 1);
    }
  }

  /** The list is the mapped `parsed.attachments` followed by the attachment
      parts, its length the sum of the two counts, and every record is well
      formed. */
  lemma AttachmentsOfFacts(raws: Option<seq<RawAttachment>>, body: BodyValue)
    ensures var atts := AttachmentsOf(raws, body);
      && |atts| == (if raws.Some? then |raws.value| else 0) + (if body.Parts? then CountAttachmentParts(body.parts, 0) else 0)
      && (forall k :: 0 <= k < |atts| ==> WellFormedAttachment(atts[k]))
      && (raws.Some? ==> forall k :: 0 <= k < |raws.value| ==> atts[k] == FromRaw(raws.value[k]))
  {
    var atts := AttachmentsOf(raws, body);
    var front := RawAttachments(raws);
    var back := BodyAttachments(body);
    if body.Parts? {
      PartAttachmentsCount(body.parts, 0);
      PartAttachmentsWellFormed(body.parts, 0);
    }
    forall k | 0 <= k < |atts| ensures WellFormedAttachment(atts[k]) {
      if k >= |front| { assert atts[k] == back[k - |front|]; }
    }
  }

  // ---------------------------------------------------------------------
  // parseFile
  // ---------------------------------------------------------------------

  /** The object the parsing library returns; absent text fields are "". */
  datatype ParsedEml = ParsedEml(
    subject: string, from: AddressValue, to: AddressValue, cc: AddressValue, bcc: AddressValue,
    date: string, html: string, text: string, body: BodyValue,
    attachments: Option<seq<RawAttachment>>, messageId: string, inReplyTo: string)

  /** Where the record's date comes from: the header, or the current time. */
  datatype DateSource = HeaderDate(text: string) | CurrentTime

  datatype EmailRecord = EmailRecord(
    subject: string, from: string, to: seq<string>, cc: seq<string>, bcc: seq<string>,
    date: DateSource, body: Body, attachments: seq<Attachment>, messageId: string, inReplyTo: string)

  const ParseErrorPrefix: string := "Failed to parse EML file: "

  /** The record `parseFile` assembles from a parsed message. */
  function RecordOf(p: ParsedEml): EmailRecord {
    EmailRecord(Subject(p.subject), ExtractEmail(p.from), ExtractEmails(p.to), ExtractEmails(p.cc),
                ExtractEmails(p.bcc), if p.date != "" then HeaderDate(p.date) else CurrentTime,
                ExtractBody(p.html, p.text, p.body), AttachmentsOf(p.attachments, p.body),
                p.messageId, p.inReplyTo)
  }

  /** `parseFile`: `source` is what reading and parsing the file gave, an
      error carrying the message of what was thrown. */
  method ParseFile(source: Result<ParsedEml>) returns (r: Result<EmailRecord>)
    ensures source.Err? ==> r == Err(ParseErrorPrefix + source.message)
    ensures source.Ok? ==> r == Ok(RecordOf(source.value))
  {
    if source.Err? {
      return Err(ParseErrorPrefix + source.message);
    }
    var p := source.value;
    var attachments := ExtractAttachments(p.attachments, p.body);
    r := Ok(EmailRecord(Subject(p.subject), ExtractEmail(p.from), ExtractEmails(p.to), ExtractEmails(p.cc),
                        ExtractEmails(p.bcc), if p.date != "" then HeaderDate(p.date) else CurrentTime,
                        ExtractBody(p.html, p.text, p.body), attachments, p.messageId, p.inReplyTo));
  }
}
