/**
 * `PdfGenerator` of src/pdfGenerator.js: the HTML document handed to the
 * browser for printing, and the file name of the printed PDF. Launching
 * the browser and printing are foreign and left out; dates arrive already
 * formatted, the style sheet and the "Generated on" stamp as parameters.
 */
module PdfGenerator {
  import opened Wrappers
  import opened JsText
  import opened NameCleaning
  import opened EmlParser

  // ---------------------------------------------------------------------
  // Escaping a plain-text body
  // ---------------------------------------------------------------------

  /** The replacement of the single character `a` by `rep` everywhere. */
  function ReplaceChar(s: string, a: char, rep: string): string {
    ReplaceAll(s, Fixed([Exact(a)]), rep)
  }

  /** The body escaping: `&` first, then `<`, `>`, and line feeds. */
  function Escape(s: string): string {
    ReplaceChar(ReplaceChar(ReplaceChar(ReplaceChar(s, '&', "&amp;"), '<', "&lt;"), '>', "&gt;"), '\n', "<br>")
  }

  /** What each character becomes. */
  function EscapeChar(c: char): string {
    if c == '&' then "&amp;" else if c == '<' then "&lt;" else if c == '>' then "&gt;"
    else if c == '\n' then "<br>" else [c]
  }

  // The pieces after the first, second and third replacement.
  function AfterAmp(c: char): string { if c == '&' then "&amp;" else [c] }
  function AfterLt(c: char): string { if c == '<' then "&lt;" else AfterAmp(c) }
  function AfterGt(c: char): string { if c == '>' then "&gt;" else AfterLt(c) }

  lemma EscapeAmpStage()
    ensures forall c, u :: ReplaceChar(Single(c) + u, '&', "&amp;") == AfterAmp(c) + ReplaceChar(u, '&', "&amp;")
  {
    forall c, u ensures ReplaceChar(Single(c) + u, '&', "&amp;") == AfterAmp(c) + ReplaceChar(u, '&', "&amp;") {
      ReplaceAllOneChar(c, u, Exact('&'), "&amp;");
    }
  }

  lemma EscapeLtStage()
    ensures forall c, u :: ReplaceChar(AfterAmp(c) + u, '<', "&lt;") == AfterLt(c) + ReplaceChar(u, '<', "&lt;")
  {
    forall c, u ensures ReplaceChar(AfterAmp(c) + u, '<', "&lt;") == AfterLt(c) + ReplaceChar(u, '<', "&lt;") {
      if c == '&' {
        ReplaceAllPassWithout("&amp;", u, [Exact('<')], '<', "&lt;");
      } else {
        ReplaceAllOneChar(c, u, Exact('<'), "&lt;");
      }
    }
  }

  lemma EscapeGtStage()
    ensures forall c, u :: ReplaceChar(AfterLt(c) + u, '>', "&gt;") == AfterGt(c) + ReplaceChar(u, '>', "&gt;")
  {
    forall c, u ensures ReplaceChar(AfterLt(c) + u, '>', "&gt;") == AfterGt(c) + ReplaceChar(u, '>', "&gt;") {
      if c == '&' {
        ReplaceAllPassWithout("&amp;", u, [Exact('>')], '>', "&gt;");
      } else if c == '<' {
        ReplaceAllPassWithout("&lt;", u, [Exact('>')], '>', "&gt;");
      } else {
        ReplaceAllOneChar(c, u, Exact('>'), "&gt;");
      }
    }
  }

  lemma EscapeBreakStage()
    ensures forall c, u :: ReplaceChar(AfterGt(c) + u, '\n', "<br>") == EscapeChar(c) + ReplaceChar(u, '\n', "<br>")
  {
    forall c, u ensures ReplaceChar(AfterGt(c) + u, '\n', "<br>") == EscapeChar(c) + ReplaceChar(u, '\n', "<br>") {
      if c == '&' {
        ReplaceAllPassWithout("&amp;", u, [Exact('\n')], '\n', "<br>");
      } else if c == '<' {
        ReplaceAllPassWithout("&lt;", u, [Exact('\n')], '\n', "<br>");
      } else if c == '>' {
        ReplaceAllPassWithout("&gt;", u, [Exact('\n')], '\n', "<br>");
      } else {
        ReplaceAllOneChar(c, u, Exact('\n'), "<br>");
      }
    }
  }

  /** The four replacements escape each character on its own: `<` becomes
      exactly `&lt;` (the `&` it contains is not escaped again). */
  lemma EscapeEachChar(s: string)
    ensures Escape(s) == Flat(EscapeChar, s)
  {
    FlatSingle(s);
    EscapeAmpStage();
    ReplaceAllFlat(s, Single, AfterAmp, Fixed([Exact('&')]), "&amp;");
    EscapeLtStage();
    ReplaceAllFlat(s, AfterAmp, AfterLt, Fixed([Exact('<')]), "&lt;");
    EscapeGtStage();
    ReplaceAllFlat(s, AfterLt, AfterGt, Fixed([Exact('>')]), "&gt;");
    EscapeBreakStage();
    ReplaceAllFlat(s, AfterGt, EscapeChar, Fixed([Exact('\n')]), "<br>");
  }

  lemma {:induction false} FlatEscapeNoBreak(s: string)
    ensures '\n' !in Flat(EscapeChar, s)
    decreases |s|
  {
    if s != [] {
      FlatEscapeNoBreak(s[1..]);
    }
  }

  /** The escaped body holds no line feed. */
  lemma EscapeNoLineFeed(s: string)
    ensures '\n' !in Escape(s)
  {
    EscapeEachChar(s);
    FlatEscapeNoBreak(s);
  }

  /** Undoing `<br>`, `&lt;`, `&gt;` and `&amp;`, in that order. */
  function Unescape(s: string): string {
    var a := ReplaceAll(s, Fixed(Lit("<br>")), "\n");
    var b := ReplaceAll(a, Fixed(Lit("&lt;")), "<");
    var c := ReplaceAll(b, Fixed(Lit("&gt;")), ">");
    ReplaceAll(c, Fixed(Lit("&amp;")), "&")
  }

  // The pieces after undoing `&lt;` and `&gt;`.
  function LtRestored(c: char): string { if c == '&' then "&amp;" else if c == '>' then "&gt;" else [c] }
  function GtRestored(c: char): string { if c == '&' then "&amp;" else [c] }

  lemma UnescapeBreakStage()
    ensures forall c, u :: (ReplaceAll(EscapeChar(c) + u, Fixed(Lit("<br>")), "\n") ==
        AfterGt(c) + ReplaceAll(u, Fixed(Lit("<br>")), "\n"))
  {
    var p := Lit("<br>");
    assert p[0] == Exact('<');
    forall c, u ensures ReplaceAll(EscapeChar(c) + u, Fixed(p), "\n") == AfterGt(c) + ReplaceAll(u, Fixed(p), "\n") {
      if c == '\n' {
        ReplaceAllLitStart("<br>", u, "\n");
      } else if c == '&' {
        ReplaceAllPassWithout("&amp;", u, p, '<', "\n");
      } else if c == '<' {
        ReplaceAllPassWithout("&lt;", u, p, '<', "\n");
      } else if c == '>' {
        ReplaceAllPassWithout("&gt;", u, p, '<', "\n");
      } else {
        ReplaceAllPassWithout([c], u, p, '<', "\n");
      }
    }
  }

  lemma UnescapeLtStage()
    ensures forall c, u :: (ReplaceAll(AfterGt(c) + u, Fixed(Lit("&lt;")), "<") ==
        LtRestored(c) + ReplaceAll(u, Fixed(Lit("&lt;")), "<"))
  {
    forall c, u ensures ReplaceAll(AfterGt(c) + u, Fixed(Lit("&lt;")), "<") == LtRestored(c) + ReplaceAll(u, Fixed(Lit("&lt;")), "<") {
      if c == '<' {
        ReplaceAllLitStart("&lt;", u, "<");
      } else if c == '&' {
        ReplaceAllPassLit("&amp;", u, "&lt;", "<");
      } else if c == '>' {
        ReplaceAllPassLit("&gt;", u, "&lt;", "<");
      } else {
        ReplaceAllPassLit([c], u, "&lt;", "<");
      }
    }
  }

  lemma UnescapeGtStage()
    ensures forall c, u :: (ReplaceAll(LtRestored(c) + u, Fixed(Lit("&gt;")), ">") ==
        GtRestored(c) + ReplaceAll(u, Fixed(Lit("&gt;")), ">"))
  {
    forall c, u ensures ReplaceAll(LtRestored(c) + u, Fixed(Lit("&gt;")), ">") == GtRestored(c) + ReplaceAll(u, Fixed(Lit("&gt;")), ">") {
      if c == '>' {
        ReplaceAllLitStart("&gt;", u, ">");
      } else if c == '&' {
        ReplaceAllPassLit("&amp;", u, "&gt;", ">");
      } else {
        ReplaceAllPassLit([c], u, "&gt;", ">");
      }
    }
  }

  lemma UnescapeAmpStage()
    ensures forall c, u :: (ReplaceAll(GtRestored(c) + u, Fixed(Lit("&amp;")), "&") ==
        Single(c) + ReplaceAll(u, Fixed(Lit("&amp;")), "&"))
  {
    forall c, u ensures ReplaceAll(GtRestored(c) + u, Fixed(Lit("&amp;")), "&") == Single(c) + ReplaceAll(u, Fixed(Lit("&amp;")), "&") {
      if c == '&' {
        ReplaceAllLitStart("&amp;", u, "&");
      } else {
        ReplaceAllPassLit([c], u, "&amp;", "&");
      }
    }
  }

  /** Undoing the escapes in the reverse order recovers the body. */
  lemma UnescapeEscape(s: string)
    ensures Unescape(Escape(s)) == s
  {
    EscapeEachChar(s);
    UnescapeBreakStage();
    ReplaceAllFlat(s, EscapeChar, AfterGt, Fixed(Lit("<br>")), "\n");
    UnescapeLtStage();
    ReplaceAllFlat(s, AfterGt, LtRestored, Fixed(Lit("&lt;")), "<");
    UnescapeGtStage();
    ReplaceAllFlat(s, LtRestored, GtRestored, Fixed(Lit("&gt;")), ">");
    UnescapeAmpStage();
    ReplaceAllFlat(s, GtRestored, Single, Fixed(Lit("&amp;")), "&");
    FlatSingle(s);
  }

  /** Without line feeds in the body, the escaped body holds no `<` or `>`:
      no markup of the message reaches the document. */
  lemma {:induction false} EscapeNoMarkup(s: string)
    requires '\n' !in s
    ensures '<' !in Escape(s) && '>' !in Escape(s)
    decreases |s|
  {
    EscapeEachChar(s);
    FlatEscapeNoMarkup(s);
  }

  lemma {:induction false} FlatEscapeNoMarkup(s: string)
    requires '\n' !in s
    ensures '<' !in Flat(EscapeChar, s) && '>' !in Flat(EscapeChar, s)
    decreases |s|
  {
    if s != [] {
      assert '\n' !in s[1..] by { assert forall x :: x in s[1..] ==> x in s; }
      FlatEscapeNoMarkup(s[1..]);
    }
  }

  // ---------------------------------------------------------------------
  // The PDF file name
  // ---------------------------------------------------------------------

  /** `[<>:"/\\|?*\s]`. */
  const Unsafe: Atom := AnyOf(Reserved, true)

  /** `cleanEmailForFilename`: the text before the first `@`, each reserved
      or white-space character made `_`, runs of `_` collapsed and one edge
      `_` dropped at each end. */
  function CleanEmailForFilename(email: string): (r: string)
    ensures FileSafe(r) && '@' !in r
    ensures NoDoubleUnderscore(r) && NoEdgeUnderscore(r)
  {
    var local := BeforeFirst(email, '@');
    var replaced := ReplaceAll(local, Fixed([Unsafe]), "_");
    EmailReplaced(local);
    CleanUnderscoresSafe(replaced);
    CleanUnderscores(replaced)
  }

  /** After the replacement the local part holds no reserved character, no
      white space and no `@`. */
  lemma EmailReplaced(local: string)
    requires '@' !in local
    ensures forall c :: c in ReplaceAll(local, Fixed([Unsafe]), "_") ==> c !in Reserved && !IsSpace(c) && c != '@'
  {
    var replaced := ReplaceAll(local, Fixed([Unsafe]), "_");
    ReplaceEachChar(local, Unsafe, '_');
    ReservedChars('_');
    forall c | c in replaced ensures c !in Reserved && !IsSpace(c) && c != '@' {
      var i :| 0 <= i < |replaced| && replaced[i] == c;
      if AtomMatches(Unsafe, local[i]) {
        assert c == '_';
      } else {
        assert c == local[i] && local[i] in local;
      }
    }
  }

  /** The domain never reaches the file name. */
  lemma CleanEmailLocalPart(local: string, domain: string)
    requires '@' !in local
    ensures CleanEmailForFilename(local + "@" + domain) == CleanEmailForFilename(local)
  {
    BeforeFirstField(local, '@', domain);
    assert BeforeFirst(local, '@') == local;
  }

  /** A local part that holds nothing to replace and no `_` is kept as it is. */
  lemma CleanEmailKeeps(x: string)
    requires FileSafe(x) && '@' !in x && '_' !in x
    ensures CleanEmailForFilename(x) == x
  {
    assert BeforeFirst(x, '@') == x;
    var replaced := ReplaceAll(x, Fixed([Unsafe]), "_");
    ReplaceEachChar(x, Unsafe, '_');
    assert replaced == x;
    CleanWithoutUnderscore(x);
  }

  /** The local date of the message, in the fixed time zone (an input here). */
  datatype LocalDate = LocalDate(year: nat, month: nat, day: nat)

  /** `emailData.to[0] || 'unknown'`. */
  function FirstRecipient(to: seq<string>): string {
    if |to| > 0 && to[0] != "" then to[0] else "unknown"
  }

  /** The part after the date. */
  function PartiesPart(from: string, to: seq<string>): string {
    CleanEmailForFilename(from) + "_to_" + CleanEmailForFilename(FirstRecipient(to)) + ".pdf"
  }

  /** `generateFilename`: `yyyy_MM_dd_<sender>_to_<recipient>.pdf`. */
  function GenerateFilename(d: LocalDate, from: string, to: seq<string>): string {
    PadZeros(NatToString(d.year), 4) + "_" + (PadZeros(NatToString(d.month), 2) + "_" + (
    PadZeros(NatToString(d.day), 2) + "_" + PartiesPart(from, to)))
  }

  /** Read the three leading date fields back, with what follows them. */
  function ReadDate(s: string): Option<(LocalDate, string)> {
    var (y, s1) := NextField(s);
    var (m, s2) := NextField(s1);
    var (dd, rest) := NextField(s2);
    if AllDigits(y) && AllDigits(m) && AllDigits(dd) then
      Some((LocalDate(ParseNat(y), ParseNat(m), ParseNat(dd)), rest))
    else None
  }

  /** The date and the parties can be read back from the file name. */
  lemma ReadDateGenerateFilename(d: LocalDate, from: string, to: seq<string>)
    ensures ReadDate(GenerateFilename(d, from, to)) == Some((d, PartiesPart(from, to)))
  {
    var y := PadZeros(NatToString(d.year), 4);
    var m := PadZeros(NatToString(d.month), 2);
    var dd := PadZeros(NatToString(d.day), 2);
    PadZerosValue(d.year, 4);
    PadZerosValue(d.month, 2);
    PadZerosValue(d.day, 2);
    var tail := PartiesPart(from, to);
    var r2 := dd + "_" + tail;
    var r1 := m + "_" + r2;
    NextFieldOf(y, r1);
    NextFieldOf(m, r2);
    NextFieldOf(dd, tail);
  }

  lemma FileSafeField(f: string, n: string)
    requires AllDigits(f) && FileSafe(n)
    ensures FileSafe(f + "_" + n)
  {
    PlainFileSafe(f);
    PlainFileSafe("_");
    FileSafeConcat(f, "_");
    FileSafeConcat(f + "_", n);
  }

  lemma SeparatorsSafe()
    ensures FileSafe("_to_") && FileSafe(".pdf")
  {
    PlainFileSafe("_to_");
    PlainFileSafe(".pdf");
  }

  lemma PartiesPartSafe(from: string, to: seq<string>)
    ensures FileSafe(PartiesPart(from, to))
  {
    var a := CleanEmailForFilename(from);
    var b := CleanEmailForFilename(FirstRecipient(to));
    SeparatorsSafe();
    FileSafeConcat(a, "_to_");
    FileSafeConcat(a + "_to_", b);
    FileSafeConcat(a + "_to_" + b, ".pdf");
  }

  /** The file name holds no reserved or white-space character. */
  lemma GenerateFilenameSafe(d: LocalDate, from: string, to: seq<string>)
    ensures FileSafe(GenerateFilename(d, from, to))
  {
    var y := PadZeros(NatToString(d.year), 4);
    var m := PadZeros(NatToString(d.month), 2);
    var dd := PadZeros(NatToString(d.day), 2);
    PadZerosValue(d.year, 4);
    PadZerosValue(d.month, 2);
    PadZerosValue(d.day, 2);
    var n0 := PartiesPart(from, to);
    PartiesPartSafe(from, to);
    FileSafeField(dd, n0);
    FileSafeField(m, dd + "_" + n0);
    FileSafeField(y, m + "_" + (dd + "_" + n0));
  }

  /** Without a first recipient the name says `unknown`. */
  lemma GenerateFilenameNoRecipient(from: string, to: seq<string>)
    requires to == [] || to[0] == ""
    ensures PartiesPart(from, to) == CleanEmailForFilename(from) + "_to_" + "unknown" + ".pdf"
  {
    var u := "unknown";
    PlainFileSafe(u);
    CleanEmailKeeps(u);
  }

  // ---------------------------------------------------------------------
  // The HTML document
  // ---------------------------------------------------------------------

  /** A line feed and the twelve spaces that indent the header rows. */
  const Ind: string := "\n            "

  function Span(cls: string, text: string): string {
    "<span class=\"" + cls + "\">" + text + "</span>"
  }

  const AddressClass: string := "meta-value email-address"

  /** A label and its value on two lines. */
  function Row(caption: string, cls: string, value: string): string {
    Ind + Span("meta-label", caption) + Ind + Span(cls, value)
  }

  /** The CC or BCC slot: a row and a blank line when there are addresses,
      else nothing. */
  function OptionalRow(caption: string, values: seq<string>): (r: string)
    ensures r == "" <==> values == []
    ensures values != [] ==> r == Row(caption, AddressClass, Join(values, ", ")) + Ind
  {
    if |values| > 0 then Row(caption, AddressClass, Join(values, ", ")) + Ind else ""
  }

  /** The header rows: From, To, the optional CC and BCC, and Date. */
  function MetaBlock(from: string, to: seq<string>, cc: seq<string>, bcc: seq<string>, date: string): string {
    Row("From:", AddressClass, from) + Ind + Row("To:", AddressClass, Join(to, ", ")) + Ind + Ind
    + OptionalRow("CC:", cc) + Ind + Ind + OptionalRow("BCC:", bcc) + Ind + Row("Date:", "meta-value", date)
  }

  /** One list item per attachment: its name, type and formatted size. */
  function AttachmentItem(a: Attachment, formatSize: nat -> string): string {
    ItemOpen + a.filename + NameClose
    + Span("file-info", "(" + a.contentType + ", " + formatSize(a.size) + ")") + ItemClose
  }

  const ItemOpen: string := "\n              <li>\n                <strong>"
  const NameClose: string := "</strong>\n                "
  const ItemClose: string := "\n              </li>\n            "

  /** `xs.map(item).join('')`. */
  function Items<T>(item: T -> string, xs: seq<T>): string
    decreases |xs|
  {
    if xs == [] then "" else item(xs[0]) + Items(item, xs[1..])
  }

  /** The items of every attachment, in order. */
  function AttachmentItems(atts: seq<Attachment>, formatSize: nat -> string): string {
    Items(a => AttachmentItem(a, formatSize), atts)
  }

  /** The markup that opens and closes the attachments section. */
  const SectionOpen: string :=
    "\n        <div class=\"attachments-section\">\n          <h3>Attachments</h3>\n          <ul class=\"attachments-list\">\n            "
  const SectionClose: string := "\n          </ul>\n        </div>\n      "

  /** The attachments section, empty when there is nothing attached. */
  function AttachmentsList(atts: seq<Attachment>, formatSize: nat -> string): (r: string)
    ensures r == "" <==> atts == []
  {
    if |atts| > 0 then
      assert |SectionOpen| > 0;
      SectionOpen + AttachmentItems(atts, formatSize) + SectionClose
    else ""
  }

  /** The items of two lists are the items of the first, then of the second. */
  lemma {:induction false} ItemsAppend<T>(item: T -> string, a: seq<T>, b: seq<T>)
    ensures Items(item, a + b) == Items(item, a) + Items(item, b)
    decreases |a|
  {
    if a == [] {
      assert a + b == b;
    } else {
      assert (a + b)[0] == a[0];
      assert (a + b)[1..] == a[1..] + b;
      ItemsAppend(item, a[1..], b);
    }
  }

  /** Each attachment has its item, in the order of the list. */
  lemma AttachmentItemAt(atts: seq<Attachment>, k: nat, formatSize: nat -> string)
    requires k < |atts|
    ensures AttachmentItems(atts, formatSize) ==
      AttachmentItems(atts[..k], formatSize) + AttachmentItem(atts[k], formatSize) + AttachmentItems(atts[k + 1..], formatSize)
  {
    var item := a => AttachmentItem(a, formatSize);
    assert atts == atts[..k] + ([atts[k]] + atts[k + 1..]);
    ItemsAppend(item, atts[..k], [atts[k]] + atts[k + 1..]);
    ItemsAppend(item, [atts[k]], atts[k + 1..]);
    assert [atts[k]][1..] == [];
    assert Items(item, [atts[k]]) == item(atts[k]);
  }

  /** The message `TypeError` carries when a plain-text body is not a
      string (its exact wording is the engine's). */
  const BodyNotText: string := "emailData.body.content.replace is not a function"

  /** What stands in the body slot: an HTML body as it is (a non-string
      one as `shown` prints it), a plain-text body escaped. */
  function BodyContent(body: Body, shown: Payload -> string): (r: Result<string>)
    ensures body.kind == Html && body.content.Chars? ==> r == Ok(body.content.text)
    ensures body.kind == PlainText ==> (r.Ok? <==> body.content.Chars?)
    ensures body.kind == PlainText && r.Ok? ==> Unescape(r.value) == body.content.text
  {
    match body.content
    case Chars(text) =>
      if body.kind == Html then Ok(text)
      else
        UnescapeEscape(text);
        Ok(Escape(text))
    case _ => if body.kind == Html then Ok(shown(body.content)) else Err(BodyNotText)
  }

  // The fixed markup of the document, piece by piece.
  const HeadOpen: string :=
    "\n<!DOCTYPE html>\n<html lang=\"en\">\n<head>\n    <meta charset=\"UTF-8\">\n"
    + "    <meta name=\"viewport\" content=\"width=device-width, initial-scale=1.0\">\n"
    + "    <title>Email: "
  const TitleClose: string := "</title>\n    <style>"
  const StyleClose: string :=
    "</style>\n</head>\n<body>\n" + "    <div class=\"email-header\">\n        <div class=\"subject\">"
  const SubjectClose: string := "</div>\n" + "        <div class=\"email-meta\">"
  const MetaClose: string := "\n        </div>\n    </div>\n    \n    <div class=\"email-body\">\n        "
  const BodyClose: string := "\n    </div>\n    \n    "
  const StampOpen: string := "\n    \n    <div class=\"date-info\">\n        Generated on: "
  const DocumentClose: string := "\n    </div>\n</body>\n</html>"

  /** Everything before the body: the document head with the style sheet,
      the subject in the title and the header, and the header rows. */
  function DocumentHead(rec: EmailRecord, date: string, css: string): string {
    HeadOpen + rec.subject + TitleClose + css + StyleClose + rec.subject + SubjectClose
    + MetaBlock(rec.from, rec.to, rec.cc, rec.bcc, date) + MetaClose
  }

  /** Everything after the body: the attachments section and the stamp. */
  function DocumentTail(rec: EmailRecord, generatedOn: string, formatSize: nat -> string): string {
    BodyClose + AttachmentsList(rec.attachments, formatSize) + StampOpen + generatedOn + DocumentClose
  }

  /** `generateHtmlContent`: `date` is the formatted date of the message,
      `css` the fixed style sheet, `generatedOn` the formatted current time,
      `formatSize` the size formatter. */
  function GenerateHtmlContent(rec: EmailRecord, date: string, css: string, generatedOn: string,
                               formatSize: nat -> string, shown: Payload -> string): Result<string>
  {
    match BodyContent(rec.body, shown)
    case Ok(content) => Ok(DocumentHead(rec, date, css) + content + DocumentTail(rec, generatedOn, formatSize))
    case Err(e) => Err(e)
  }

  /** An HTML body reaches the document as it is, between the head and
      the tail. */
  lemma HtmlBodyVerbatim(rec: EmailRecord, date: string, css: string, generatedOn: string,
                         formatSize: nat -> string, shown: Payload -> string)
    requires rec.body.kind == Html && rec.body.content.Chars?
    ensures GenerateHtmlContent(rec, date, css, generatedOn, formatSize, shown) ==
      Ok(DocumentHead(rec, date, css) + rec.body.content.text + DocumentTail(rec, generatedOn, formatSize))
  {
  }

  /** A plain-text body reaches the document escaped: undoing the escapes
      gives the text back, and a one-line text adds no markup. */
  lemma PlainBodyEscaped(rec: EmailRecord, date: string, css: string, generatedOn: string,
                         formatSize: nat -> string, shown: Payload -> string)
    requires rec.body.kind == PlainText && rec.body.content.Chars?
    ensures var r := GenerateHtmlContent(rec, date, css, generatedOn, formatSize, shown);
      var t := rec.body.content.text;
      && r == Ok(DocumentHead(rec, date, css) + Escape(t) + DocumentTail(rec, generatedOn, formatSize))
      && Unescape(Escape(t)) == t
      && ('\n' !in t ==> '<' !in Escape(t) && '>' !in Escape(t))
  {
    var t := rec.body.content.text;
    assert BodyContent(rec.body, shown) == Ok(Escape(t));
    UnescapeEscape(t);
    if '\n' !in t {
      EscapeNoMarkup(t);
    }
  }

  /** A plain-text body that is not a string makes the generation throw. */
  lemma PlainBodyNotText(rec: EmailRecord, date: string, css: string, generatedOn: string,
                         formatSize: nat -> string, shown: Payload -> string)
    requires rec.body.kind == PlainText && !rec.body.content.Chars?
    ensures GenerateHtmlContent(rec, date, css, generatedOn, formatSize, shown) == Err(BodyNotText)
  {
  }

  /** Without CC and BCC addresses the header has no CC or BCC row, only the
      blank lines around their empty slots. */
  lemma MetaBlockWithoutCopies(from: string, to: seq<string>, date: string)
    ensures MetaBlock(from, to, [], [], date) ==
      Row("From:", AddressClass, from) + Ind + Row("To:", AddressClass, Join(to, ", "))
      + Ind + Ind + Ind + Ind + Ind + Row("Date:", "meta-value", date)
  {
  }
}
