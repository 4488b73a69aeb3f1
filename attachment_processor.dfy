/**
 * `AttachmentProcessor` of src/attachmentProcessor.js: which attachments
 * count as PDFs, how their payloads become bytes, the temporary files and
 * the merge order of `mergePdfAttachments`, the records of
 * `extractAttachmentsToDisk`, and its file-name sanitizer.
 *
 * Foreign calls are parameters: `decode` is Node's base64 decoder, `load`
 * what `merger.add` makes of a file's bytes (`None` when it throws),
 * `join` is `path.join`, and `write` tells whether `fs.writeFile`
 * succeeds. A PDF is its sequence of pages `P`.
 */
module AttachmentProcessor {
  import opened Wrappers
  import opened JsText
  import opened NameCleaning
  import opened EmlParser

  // ---------------------------------------------------------------------
  // Which attachments are PDFs
  // ---------------------------------------------------------------------

  const PdfType: string := "application/pdf"

  /** `name.toLowerCase().endsWith('.pdf')`. Outside ASCII only U+0130
      lowers to more than one character (`i` and U+0307) and only U+212A
      lowers to an ASCII letter (`k`), so the lowered name ends in `.pdf`
      exactly when its last four characters lower to it in ASCII. */
  predicate EndsWithPdf(name: string) {
    |name| >= 4 && AsciiLowerString(name[|name| - 4..]) == ".pdf"
  }

  /** The filter of `mergePdfAttachments`. */
  predicate IsPdf(a: Attachment) {
    a.contentType == PdfType || EndsWithPdf(a.filename)
  }

  /** `attachments.filter(IsPdf)`. */
  function PdfAttachments(atts: seq<Attachment>): (r: seq<Attachment>)
    ensures |r| <= |atts|
    ensures forall a :: a in r <==> a in atts && IsPdf(a)
    decreases |atts|
  {
    if atts == [] then []
    else
      var rest := PdfAttachments(atts[1..]);
      assert forall a :: a in atts <==> a == atts[0] || a in atts[1..];
      if IsPdf(atts[0]) then [atts[0]] + rest else rest
  }

  /** The filter keeps the order: filtering a concatenation concatenates
      the filtered parts. */
  lemma {:induction false} PdfAttachmentsAppend(xs: seq<Attachment>, ys: seq<Attachment>)
    ensures PdfAttachments(xs + ys) == PdfAttachments(xs) + PdfAttachments(ys)
    decreases |xs|
  {
    if xs == [] {
      assert xs + ys == ys;
    } else {
      assert (xs + ys)[0] == xs[0];
      assert (xs + ys)[1..] == xs[1..] + ys;
      PdfAttachmentsAppend(xs[1..], ys);
    }
  }

  /** A file name ending in `.PDF`, in any mix of cases, qualifies. */
  lemma UpperCaseExtension(stem: string, ext: string)
    requires |ext| == 4 && ext[0] == '.' && AsciiLower(ext[1]) == 'p' && AsciiLower(ext[2]) == 'd' && AsciiLower(ext[3]) == 'f'
    ensures EndsWithPdf(stem + ext)
  {
    var s := stem + ext;
    assert s[|s| - 4..] == ext;
    var l := AsciiLowerString(ext);
    assert l[0] == '.' && l[1] == 'p' && l[2] == 'd' && l[3] == 'f';
    assert l == ".pdf";
  }

  // ---------------------------------------------------------------------
  // Payloads
  // ---------------------------------------------------------------------

  /** The bytes written for a payload: a Buffer as it is, a string
      base64-decoded, anything else skipped. */
  function PayloadBytes(data: Payload, decode: string -> seq<bv8>): (r: Option<seq<bv8>>)
    ensures r.Some? <==> data.Buffer? || data.Chars?
    ensures data.Buffer? ==> r == Some(data.bytes)
    ensures data.Chars? ==> r == Some(decode(data.text))
  {
    match data
    case Buffer(bytes) => Some(bytes)
    case Chars(text) => Some(decode(text))
    case _ => None
  }

  // ---------------------------------------------------------------------
  // mergePdfAttachments
  // ---------------------------------------------------------------------

  /** A temporary file: its name in the temporary directory and its bytes. */
  datatype TempFile = TempFile(name: string, bytes: seq<bv8>)

  /** `attachment_<i>_<filename>`, `i` the index among the PDFs. */
  function TempName(i: nat, filename: string): string {
    "attachment_" + NatToString(i) + "_" + filename
  }

  /** The temporary files written for the first `n` PDFs. */
  function TempFiles(pdfs: seq<Attachment>, decode: string -> seq<bv8>, n: nat): seq<TempFile>
    requires n <= |pdfs|
  {
    if n == 0 then []
    else
      var a := pdfs[n - 1];
      TempFiles(pdfs, decode, n - 1)
      + match PayloadBytes(a.data, decode)
        case Some(bytes) => [TempFile(TempName(n - 1, a.filename), bytes)]
        case None => []
  }

  /** The pages added from the first `n` temporary files; a file that does
      not load adds none. */
  function AddedPages<P>(temps: seq<TempFile>, load: seq<bv8> -> Option<seq<P>>, n: nat): seq<P>
    requires n <= |temps|
  {
    if n == 0 then []
    else AddedPages(temps, load, n - 1) + load(temps[n - 1].bytes).GetOr([])
  }

  /** `mergePdfAttachments`: returns the path it always returns, the
      temporary files it wrote, and the pages that replace the main PDF
      (`None` when the main PDF is left as it is). `mainPages` is what
      `merger.add` makes of the main PDF, `None` when that throws. */
  method MergePdfAttachments<P>(mainPath: string, attachments: seq<Attachment>, decode: string -> seq<bv8>,
                                mainPages: Option<seq<P>>, load: seq<bv8> -> Option<seq<P>>)
    returns (path: string, temps: seq<TempFile>, merged: Option<seq<P>>)
    ensures path == mainPath
    ensures var pdfs := PdfAttachments(attachments); temps == TempFiles(pdfs, decode, |pdfs|)
    ensures temps == [] || mainPages.None? ==> merged.None?
    ensures temps != [] && mainPages.Some? ==> merged == Some(mainPages.value + AddedPages(temps, load, |temps|))
  {
    var pdfs := PdfAttachments(attachments);
    temps := [];
    if |pdfs| == 0 {
      return mainPath, temps, None;
    }
    temps := WriteTempFiles(pdfs, decode);
    if |temps| == 0 {
      return mainPath, temps, None;
    }
    if mainPages.None? {
      return mainPath, temps, None;
    }
    var pages := AddTempFiles(mainPages.value, temps, load);
    return mainPath, temps, Some(pages);
  }

  /** The first loop: one temporary file per PDF with a usable payload,
      named after its index among the PDFs. */
  method WriteTempFiles(pdfs: seq<Attachment>, decode: string -> seq<bv8>) returns (temps: seq<TempFile>)
    ensures temps == TempFiles(pdfs, decode, |pdfs|)
  {
    temps := [];
    for i := 0 to |pdfs|
      invariant temps == TempFiles(pdfs, decode, i)
    {
      var attachment := pdfs[i];
      var name := "attachment_" + NatToString(i) + "_" + attachment.filename;
      var buffer: seq<bv8>;
      if attachment.data.Buffer? {
        buffer := attachment.data.bytes;
      } else if attachment.data.Chars? {
        buffer := decode(attachment.data.text);
      } else {
        continue;
      }
      temps := temps + [TempFile(name, buffer)];
    }
  }

  /** The second loop: after the main pages, the pages of each temporary
      file that loads, in order; one that fails is skipped. */
  method AddTempFiles<P>(mainPages: seq<P>, temps: seq<TempFile>, load: seq<bv8> -> Option<seq<P>>)
    returns (pages: seq<P>)
    ensures pages == mainPages + AddedPages(temps, load, |temps|)
  {
    pages := mainPages;
    for j := 0 to |temps|
      invariant pages == mainPages + AddedPages(temps, load, j)
    {
      var added := load(temps[j].bytes);
      if added.Some? {
        pages := pages + added.value;
      }
    }
  }

  // ---------------------------------------------------------------------
  // Merge properties
  // ---------------------------------------------------------------------

  /** Only PDFs with a Buffer or string payload get a temporary file. */
  lemma {:induction false} TempFilesCount(pdfs: seq<Attachment>, decode: string -> seq<bv8>, n: nat)
    requires n <= |pdfs|
    ensures |TempFiles(pdfs, decode, n)| <= n
    ensures TempFiles(pdfs, decode, n) == [] <==> forall i :: 0 <= i < n ==> !(pdfs[i].data.Buffer? || pdfs[i].data.Chars?)
    decreases n
  {
    if n > 0 {
      TempFilesCount(pdfs, decode, n - 1);
    }
  }

  /** Each temporary file is named after the index of its attachment among
      the PDFs, not among all attachments, and holds its payload's bytes. */
  lemma {:induction false} TempFileNames(pdfs: seq<Attachment>, decode: string -> seq<bv8>, n: nat, k: nat)
    requires n <= |pdfs|
    requires k < |TempFiles(pdfs, decode, n)|
    ensures exists i :: (0 <= i < n && PayloadBytes(pdfs[i].data, decode).Some? &&
      TempFiles(pdfs, decode, n)[k] == TempFile(TempName(i, pdfs[i].filename), PayloadBytes(pdfs[i].data, decode).value))
    decreases n
  {
    var front := TempFiles(pdfs, decode, n - 1);
    if k < |front| {
      TempFileNames(pdfs, decode, n - 1, k);
      var i :| 0 <= i < n - 1 && PayloadBytes(pdfs[i].data, decode).Some? &&
        front[k] == TempFile(TempName(i, pdfs[i].filename), PayloadBytes(pdfs[i].data, decode).value);
      assert TempFiles(pdfs, decode, n)[k] == front[k];
    } else {
      assert PayloadBytes(pdfs[n - 1].data, decode).Some?;
    }
  }

  /** The indices, among the first `n` PDFs, of those that get a
      temporary file. */
  function TempIndices(pdfs: seq<Attachment>, decode: string -> seq<bv8>, n: nat): seq<nat>
    requires n <= |pdfs|
  {
    if n == 0 then []
    else TempIndices(pdfs, decode, n - 1) + if PayloadBytes(pdfs[n - 1].data, decode).Some? then [n - 1] else []
  }

  /** The temporary files follow the PDFs' order: file `k` is that of PDF
      `idx[k]`, the indices strictly increase, and every PDF with a usable
      payload is among them. */
  lemma {:induction false} TempFilesOrder(pdfs: seq<Attachment>, decode: string -> seq<bv8>, n: nat)
    requires n <= |pdfs|
    ensures var temps := TempFiles(pdfs, decode, n);
      var idx := TempIndices(pdfs, decode, n);
      && |idx| == |temps|
      && (forall k :: 0 <= k < |idx| ==> idx[k] < n)
      && (forall k, l :: 0 <= k < l < |idx| ==> idx[k] < idx[l])
      && (forall k :: 0 <= k < |idx| ==>
            var a := pdfs[idx[k]];
            && PayloadBytes(a.data, decode).Some?
            && temps[k] == TempFile(TempName(idx[k], a.filename), PayloadBytes(a.data, decode).value))
      && (forall i :: 0 <= i < n && PayloadBytes(pdfs[i].data, decode).Some? ==> i in idx)
    decreases n
  {
    if n > 0 {
      TempFilesOrder(pdfs, decode, n - 1);
    }
  }

  /** A temporary file that fails to load adds no page and does not stop
      the files after it. */
  lemma {:induction false} FailedLoadSkipped<P>(temps: seq<TempFile>, load: seq<bv8> -> Option<seq<P>>, j: nat, n: nat)
    requires j < n <= |temps|
    requires load(temps[j].bytes).None?
    ensures var without := temps[..j] + temps[j + 1..];
      AddedPages(temps, load, n) == AddedPages(without, load, n - 1)
    decreases n
  {
    var without := temps[..j] + temps[j + 1..];
    if n == j + 1 {
      AddedPagesPrefix(temps, without, load, j);
    } else {
      FailedLoadSkipped(temps, load, j, n - 1);
      assert without[n - 2] == temps[n - 1];
    }
  }

  /** Two file lists that agree on the first `n` files add the same pages
      from them. */
  lemma {:induction false} AddedPagesPrefix<P>(a: seq<TempFile>, b: seq<TempFile>, load: seq<bv8> -> Option<seq<P>>, n: nat)
    requires n <= |a| && n <= |b| && a[..n] == b[..n]
    ensures AddedPages(a, load, n) == AddedPages(b, load, n)
    decreases n
  {
    if n > 0 {
      assert a[..n - 1] == b[..n - 1] by {
        assert a[..n - 1] == a[..n][..n - 1] && b[..n - 1] == b[..n][..n - 1];
      }
      assert a[n - 1] == a[..n][n - 1] && b[n - 1] == b[..n][n - 1];
      AddedPagesPrefix(a, b, load, n - 1);
    }
  }

  // ---------------------------------------------------------------------
  // sanitizeFilename
  // ---------------------------------------------------------------------

  /** The cap on a sanitized name's length. */
  const MaxNameLength: nat := 200

  /** `[<>:"/\\|?*]`. */
  const ReservedClass: Atom := AnyOf(Reserved, false)

  /** Replacing each run of white space by `_` leaves no white space. */
  lemma {:induction false} ReplaceSpacesFacts(s: string)
    ensures forall c :: c in ReplaceAll(s, Spaces, "_") ==> !IsSpace(c) && (c in s || c == '_')
    decreases |s|
  {
    if s != [] {
      var n := MatchLen(s, Spaces);
      if n > 0 {
        ReplaceSpacesFacts(s[n..]);
        assert forall c :: c in s[n..] ==> c in s;
      } else {
        ReplaceSpacesFacts(s[1..]);
        assert !IsSpace(s[0]);
        assert forall c :: c in s[1..] ==> c in s;
      }
    }
  }

  /** The name after the four replacements, before it is cut. */
  function CleanedName(filename: string): string {
    CleanUnderscores(ReplaceAll(ReplaceAll(filename, Fixed([ReservedClass]), "_"), Spaces, "_"))
  }

  /** `sanitizeFilename`: the cleaned name cut to 200 UTF-16 code units. */
  function SanitizeFilename(filename: string): string {
    var c := CleanedName(filename);
    c[..FitChars(c, MaxNameLength)]
  }

  /** The cleaned name holds no reserved character, no white space, no
      `__` and no `_` at either end. */
  lemma CleanedNameFacts(filename: string)
    ensures var r := CleanedName(filename); FileSafe(r) && NoDoubleUnderscore(r) && NoEdgeUnderscore(r)
  {
    var a := ReplaceAll(filename, Fixed([ReservedClass]), "_");
    ReservedReplaced(filename);
    var b := ReplaceAll(a, Spaces, "_");
    ReplaceSpacesFacts(a);
    ReservedChars('_');
    assert forall c :: c in b ==> c !in Reserved && !IsSpace(c);
    CleanUnderscoresSafe(b);
  }

  /** Replacing the reserved class leaves no reserved character. */
  lemma ReservedReplaced(filename: string)
    ensures forall c :: c in ReplaceAll(filename, Fixed([ReservedClass]), "_") ==> c !in Reserved
  {
    var a := ReplaceAll(filename, Fixed([ReservedClass]), "_");
    ReplaceEachChar(filename, ReservedClass, '_');
    forall c | c in a ensures c !in Reserved {
      var i :| 0 <= i < |a| && a[i] == c;
    }
  }

  /** The sanitized name is at most 200 code units long, the longest
      prefix of the cleaned name that fits, free of reserved characters,
      white space and `__`, and does not start with `_`; it does not end
      with `_` either when the cleaned name needed no cut. */
  lemma SanitizeFilenameFacts(filename: string)
    ensures var r := SanitizeFilename(filename); var c := CleanedName(filename);
      && Utf16Length(r) <= MaxNameLength
      && r == c[..|r|]
      && (|r| < |c| ==> Utf16Length(c[..|r| + 1]) > MaxNameLength)
      && FileSafe(r) && NoDoubleUnderscore(r)
      && (r == [] || r[0] != '_')
      && (Utf16Length(c) <= MaxNameLength ==> r == c && NoEdgeUnderscore(r))
  {
    var c := CleanedName(filename);
    CleanedNameFacts(filename);
    CutFacts(c);
    var r := SanitizeFilename(filename);
    assert r == c[..FitChars(c, MaxNameLength)];
    assert |r| == FitChars(c, MaxNameLength) && r == c[..|r|];
    assert Utf16Length(c) <= MaxNameLength ==> r == c && NoEdgeUnderscore(r);
  }

  /** The cut of a cleaned name to 200 code units: its fit facts and the
      character facts a prefix keeps. */
  lemma CutFacts(c: string)
    requires FileSafe(c) && NoDoubleUnderscore(c) && NoEdgeUnderscore(c)
    ensures var k := FitChars(c, MaxNameLength); var r := c[..k];
      && Utf16Length(r) <= MaxNameLength
      && (k < |c| ==> Utf16Length(c[..k + 1]) > MaxNameLength)
      && FileSafe(r) && NoDoubleUnderscore(r)
      && (r == [] || r[0] != '_')
      && (Utf16Length(c) <= MaxNameLength ==> r == c)
  {
    var k := FitChars(c, MaxNameLength);
    FitCharsFacts(c, MaxNameLength);
    PrefixFacts(c, k);
    assert k == |c| ==> c[..k] == c;
  }

  /** A prefix of a cleaned name keeps its facts, except perhaps a trailing
      `_`. */
  lemma PrefixFacts(c: string, k: nat)
    requires k <= |c| && FileSafe(c) && NoDoubleUnderscore(c) && NoEdgeUnderscore(c)
    ensures var r := c[..k]; FileSafe(r) && NoDoubleUnderscore(r) && (r == [] || r[0] != '_')
  {
    var r := c[..k];
    assert forall i :: 0 <= i < |r| ==> r[i] == c[i];
  }

  /** A name with nothing to replace, no `__` and no edge `_` is cleaned to
      itself. */
  lemma CleanedNameKeeps(x: string)
    requires FileSafe(x) && NoDoubleUnderscore(x) && NoEdgeUnderscore(x)
    ensures CleanedName(x) == x
  {
    var a := ReplaceAll(x, Fixed([ReservedClass]), "_");
    ReplaceEachChar(x, ReservedClass, '_');
    assert a == x;
    assert NoMatch(x, Spaces) by {
      forall i | 0 <= i < |x| ensures MatchLen(x[i..], Spaces) == 0 {
        assert x[i..][0] == x[i];
      }
    }
    NoDoubleNoMatch(x);
    assert CollapseUnderscores(x) == x;
  }

  /** The cut can expose a trailing `_`: 199 letters, `_` and a letter are
      already clean, and cutting them at 200 ends the name with `_`. */
  lemma CutExposesUnderscore(x: string)
    requires x == seq(199, _ => 'a') + "_b"
    ensures |CleanedName(x)| > MaxNameLength
    ensures SanitizeFilename(x)[|SanitizeFilename(x)| - 1] == '_'
  {
    assert |x| == 201;
    assert forall i :: 0 <= i < 199 ==> x[i] == 'a';
    assert x[199] == '_' && x[200] == 'b';
    PlainFileSafe(x);
    assert NoDoubleUnderscore(x);
    CleanedNameKeeps(x);
    assert forall i :: 0 <= i < |x| ==> !Astral(x[i]);
    FitCharsBmp(x, MaxNameLength);
    assert SanitizeFilename(x) == x[..MaxNameLength];
  }

  // ---------------------------------------------------------------------
  // extractAttachmentsToDisk
  // ---------------------------------------------------------------------

  /** One record of `savedAttachments`. */
  datatype SavedAttachment = SavedAttachment(originalName: string, savedPath: string, contentType: string, size: nat)

  /** The name attachment `i` is saved under: its sanitized filename, or
      `attachment_<i>` with a zero-based `i`. */
  function SavedName(i: nat, a: Attachment): string {
    SanitizeFilename(if a.filename != "" then a.filename else "attachment_" + NatToString(i))
  }

  /** The record for attachment `i`, saved under `name(i, a)` in
      `outputDir`, when its payload is usable and the write succeeds. The
      naming rule is a parameter so that the loop's reasoning does not
      depend on it; `SavedName` is the one the program uses. */
  function SaveOne(i: nat, a: Attachment, name: (nat, Attachment) -> string, outputDir: string,
                   decode: string -> seq<bv8>, join: (string, string) -> string,
                   write: (string, seq<bv8>) -> bool): Option<SavedAttachment>
  {
    var path := join(outputDir, name(i, a));
    match PayloadBytes(a.data, decode)
    case Some(bytes) =>
      if write(path, bytes) then Some(SavedAttachment(a.filename, path, a.contentType, a.size)) else None
    case None => None
  }

  /** The records for the first `n` attachments. */
  function SavedUpTo(atts: seq<Attachment>, n: nat, name: (nat, Attachment) -> string, outputDir: string,
                     decode: string -> seq<bv8>, join: (string, string) -> string,
                     write: (string, seq<bv8>) -> bool): seq<SavedAttachment>
    requires n <= |atts|
  {
    if n == 0 then []
    else
      SavedUpTo(atts, n - 1, name, outputDir, decode, join, write)
      + match SaveOne(n - 1, atts[n - 1], name, outputDir, decode, join, write)
        case Some(rec) => [rec]
        case None => []
  }

  /** The indices of the saved ones among the first `n` attachments. */
  function SavedIndices(atts: seq<Attachment>, n: nat, name: (nat, Attachment) -> string, outputDir: string,
                        decode: string -> seq<bv8>, join: (string, string) -> string,
                        write: (string, seq<bv8>) -> bool): seq<nat>
    requires n <= |atts|
  {
    if n == 0 then []
    else
      SavedIndices(atts, n - 1, name, outputDir, decode, join, write)
      + if SaveOne(n - 1, atts[n - 1], name, outputDir, decode, join, write).Some? then [n - 1] else []
  }

  /** `extractAttachmentsToDisk`: every attachment in order, named by
      `SavedName`; the records of those written. */
  method ExtractAttachmentsToDisk(attachments: seq<Attachment>, outputDir: string, decode: string -> seq<bv8>,
                                  join: (string, string) -> string, write: (string, seq<bv8>) -> bool)
    returns (saved: seq<SavedAttachment>)
    ensures saved == SavedUpTo(attachments, |attachments|, SavedName, outputDir, decode, join, write)
  {
    saved := SaveAll(attachments, SavedName, outputDir, decode, join, write);
  }

  /** The loop of `extractAttachmentsToDisk`, for a naming rule `name`. */
  method SaveAll(attachments: seq<Attachment>, name: (nat, Attachment) -> string, outputDir: string,
                 decode: string -> seq<bv8>, join: (string, string) -> string, write: (string, seq<bv8>) -> bool)
    returns (saved: seq<SavedAttachment>)
    ensures saved == SavedUpTo(attachments, |attachments|, name, outputDir, decode, join, write)
  {
    saved := [];
    for i := 0 to |attachments|
      invariant saved == SavedUpTo(attachments, i, name, outputDir, decode, join, write)
    {
      var attachment := attachments[i];
      var safeFilename := name(i, attachment);
      var outputPath := join(outputDir, safeFilename);
      ghost var rec := SaveOne(i, attachment, name, outputDir, decode, join, write);
      assert SavedUpTo(attachments, i + 1, name, outputDir, decode, join, write)
          == saved + match rec case Some(r) => [r] case None => [];
      var buffer: seq<bv8>;
      if attachment.data.Buffer? {
        buffer := attachment.data.bytes;
      } else if attachment.data.Chars? {
        buffer := decode(attachment.data.text);
      } else {
        assert rec == None;
        continue;
      }
      assert PayloadBytes(attachment.data, decode) == Some(buffer);
      if write(outputPath, buffer) {
        assert rec == Some(SavedAttachment(attachment.filename, outputPath, attachment.contentType, attachment.size));
        saved := saved + [SavedAttachment(attachment.filename, outputPath, attachment.contentType, attachment.size)];
      } else {
        assert rec == None;
      }
    }
  }

  /** The records are a subsequence of the attachments in input order:
      record `k` is that of attachment `idx[k]`, the indices strictly
      increase, and each saved attachment had a usable payload. */
  lemma {:induction false} SavedSubsequence(atts: seq<Attachment>, n: nat, name: (nat, Attachment) -> string,
                                            outputDir: string, decode: string -> seq<bv8>,
                                            join: (string, string) -> string, write: (string, seq<bv8>) -> bool)
    requires n <= |atts|
    ensures var saved := SavedUpTo(atts, n, name, outputDir, decode, join, write);
      var idx := SavedIndices(atts, n, name, outputDir, decode, join, write);
      && |idx| == |saved| <= n
      && (forall k :: 0 <= k < |idx| ==> idx[k] < n)
      && (forall k, l :: 0 <= k < l < |idx| ==> idx[k] < idx[l])
      && (forall k :: 0 <= k < |idx| ==>
            var a := atts[idx[k]];
            && (a.data.Buffer? || a.data.Chars?)
            && saved[k] == SavedAttachment(a.filename, join(outputDir, name(idx[k], a)), a.contentType, a.size))
    decreases n
  {
    if n > 0 {
      SavedSubsequence(atts, n - 1, name, outputDir, decode, join, write);
    }
  }

  /** An attachment whose payload is neither a Buffer nor a string is
      skipped and the loop goes on. */
  lemma SkippedPayload(atts: seq<Attachment>, i: nat, name: (nat, Attachment) -> string, outputDir: string,
                       decode: string -> seq<bv8>, join: (string, string) -> string,
                       write: (string, seq<bv8>) -> bool)
    requires i < |atts| && !(atts[i].data.Buffer? || atts[i].data.Chars?)
    ensures SavedUpTo(atts, i + 1, name, outputDir, decode, join, write)
         == SavedUpTo(atts, i, name, outputDir, decode, join, write)
  {
  }

  /** The fallback name is made of word characters and starts with a
      letter, so there is nothing in it to clean. */
  lemma FallbackClean(i: nat)
    ensures var x := "attachment_" + NatToString(i);
      FileSafe(x) && NoDoubleUnderscore(x) && NoEdgeUnderscore(x)
    ensures var x := "attachment_" + NatToString(i);
      forall k :: 0 <= k < |x| ==> IsWordChar(x[k])
  {
    var x := "attachment_" + NatToString(i);
    forall k | 0 <= k < |x| ensures IsWordChar(x[k]) {
      if k >= 11 { assert x[k] == NatToString(i)[k - 11]; }
    }
    PlainFileSafe(x);
    assert x[0] == 'a' && x[|x| - 1] != '_';
    assert NoDoubleUnderscore(x) by {
      forall k | 0 <= k < |x| - 1 ensures !(x[k] == '_' && x[k + 1] == '_') {
        if k >= 11 { assert x[k] == NatToString(i)[k - 11]; }
        if k + 1 >= 11 { assert x[k + 1] == NatToString(i)[k + 1 - 11]; }
      }
    }
  }

  /** The fallback name counts from zero, from the attachment's position. */
  lemma UnnamedFallback(i: nat, a: Attachment)
    requires a.filename == "" && |NatToString(i)| <= MaxNameLength - 11
    ensures SavedName(i, a) == "attachment_" + NatToString(i)
  {
    var x := "attachment_" + NatToString(i);
    FallbackClean(i);
    CleanedNameKeeps(x);
    FitCharsBmp(x, MaxNameLength);
  }
}
