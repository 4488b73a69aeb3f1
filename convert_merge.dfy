/**
 * The attachment handling of convert.js: the numbered list of attachment
 * names drawn under the body, and `mergePdfAttachments`, which appends the
 * pages of every PDF attachment to the main document. A PDF is its
 * sequence of pages `P`; loading one is a function that may fail.
 */
module ConvertMerge {
  import opened Wrappers
  import opened JsText
  import opened DocOps

  /** An attachment as the mail parser returns it; an absent filename or
      content type is "", absent content is `None`. */
  datatype MailAttachment = MailAttachment(filename: string, contentType: string, content: Option<seq<bv8>>)

  // ---------------------------------------------------------------------
  // The list of attachments under the body
  // ---------------------------------------------------------------------

  /** The name shown for attachment `i`: its filename, else a 1-based
      `attachment_<i + 1>`. */
  function ListedName(i: nat, a: MailAttachment): string {
    if a.filename != "" then a.filename else "attachment_" + NatToString(i + 1)
  }

  /** The line for attachment `i`: `<i + 1>. <name>`. */
  function ListedLine(i: nat, a: MailAttachment): string {
    NatToString(i + 1) + ". " + ListedName(i, a)
  }

  /** The ops before the entries: a blank line, the underlined title, a
      smaller gap. */
  const ListingHeader: seq<Op> := [MoveDown(1.0), FontSize(11), Underlined("Attachments:"), MoveDown(0.3)]

  /** The attachments block of the main document (convert.js lines 77-93):
      nothing without attachments, else the header and then, per
      attachment, a size change and its numbered line. */
  method AttachmentListing(atts: seq<MailAttachment>) returns (ops: seq<Op>)
    ensures atts == [] ==> ops == []
    ensures atts != [] ==> |ops| == |ListingHeader| + 2 * |atts| && ops[..|ListingHeader|] == ListingHeader
    ensures atts != [] ==> forall i :: 0 <= i < |atts| ==>
      ops[|ListingHeader| + 2 * i] == FontSize(10) && ops[|ListingHeader| + 2 * i + 1] == Text(ListedLine(i, atts[i]))
  {
    ops := [];
    if |atts| > 0 {
      ops := ListingHeader;
      for i := 0 to |atts|
        invariant |ops| == |ListingHeader| + 2 * i && ops[..|ListingHeader|] == ListingHeader
        invariant forall k :: 0 <= k < i ==>
          ops[|ListingHeader| + 2 * k] == FontSize(10) && ops[|ListingHeader| + 2 * k + 1] == Text(ListedLine(k, atts[k]))
      {
        var name := if atts[i].filename != "" then atts[i].filename else "attachment_" + NatToString(i + 1);
        ghost var prev := ops;
        ops := ops + [FontSize(10), Text(NatToString(i + 1) + ". " + name)];
        assert forall j :: 0 <= j < |prev| ==> ops[j] == prev[j];
        assert ops[|prev|] == FontSize(10) && ops[|prev| + 1] == Text(ListedLine(i, atts[i]));
      }
    }
  }

  /** The paragraphs of the block are the numbered lines, in order. */
  lemma {:induction false} ListingParagraphs(atts: seq<MailAttachment>, ops: seq<Op>, n: nat)
    requires n <= |atts|
    requires |ops| == |ListingHeader| + 2 * n && ops[..|ListingHeader|] == ListingHeader
    requires forall i :: 0 <= i < n ==>
      ops[|ListingHeader| + 2 * i] == FontSize(10) && ops[|ListingHeader| + 2 * i + 1] == Text(ListedLine(i, atts[i]))
    ensures Paragraphs(ops) == seq(n, i requires 0 <= i < n => ListedLine(i, atts[i]))
    decreases n
  {
    var h := |ListingHeader|;
    if n == 0 {
      assert ops == ListingHeader;
      HeaderParagraphs();
    } else {
      var k := h + 2 * (n - 1);
      var front := ops[..k];
      assert front[..h] == ListingHeader;
      ListingParagraphs(atts, front, n - 1);
      var line := ListedLine(n - 1, atts[n - 1]);
      LineParagraphs(ops, k, line);
      var lines := seq(n - 1, i requires 0 <= i < n - 1 => ListedLine(i, atts[i]));
      assert seq(n, i requires 0 <= i < n => ListedLine(i, atts[i])) == lines + [line];
    }
  }

  /** The header starts no paragraph. */
  lemma HeaderParagraphs()
    ensures Paragraphs(ListingHeader) == []
  {
    assert Paragraphs(ListingHeader[3..]) == [];
    assert Paragraphs(ListingHeader[2..]) == [];
    assert Paragraphs(ListingHeader[1..]) == [];
  }

  /** A size change and a line after `ops[..k]` add that one paragraph. */
  lemma LineParagraphs(ops: seq<Op>, k: nat, line: string)
    requires |ops| == k + 2 && ops[k] == FontSize(10) && ops[k + 1] == Text(line)
    ensures Paragraphs(ops) == Paragraphs(ops[..k]) + [line]
  {
    assert ops == ops[..k] + [FontSize(10), Text(line)];
    ParagraphsAppend(ops[..k], [FontSize(10), Text(line)]);
    assert Paragraphs([Text(line)]) == [line];
  }

  // ---------------------------------------------------------------------
  // mergePdfAttachments
  // ---------------------------------------------------------------------

  const PdfType: string := "application/pdf"
  const OctetStream: string := "application/octet-stream"

  /** Only attachments typed exactly `application/pdf` (an absent type
      counting as `application/octet-stream`) that have content. */
  predicate Eligible(a: MailAttachment) {
    (if a.contentType != "" then a.contentType else OctetStream) == PdfType && a.content.Some?
  }

  /** The pages attachment `a` contributes: those of its loaded document,
      none when it is not eligible or fails to load. */
  function PagesOf<P>(a: MailAttachment, load: seq<bv8> -> Option<seq<P>>): seq<P> {
    if Eligible(a) && load(a.content.value).Some? then load(a.content.value).value else []
  }

  /** Whether attachment `a` is merged. */
  predicate Merges<P>(a: MailAttachment, load: seq<bv8> -> Option<seq<P>>) {
    Eligible(a) && load(a.content.value).Some?
  }

  /** The pages of all merged attachments, in attachment order. */
  function AttachedPages<P>(atts: seq<MailAttachment>, load: seq<bv8> -> Option<seq<P>>): seq<P>
    decreases |atts|
  {
    if atts == [] then [] else PagesOf(atts[0], load) + AttachedPages(atts[1..], load)
  }

  /** Whether at least one attachment was merged. */
  predicate AnyMerged<P>(atts: seq<MailAttachment>, load: seq<bv8> -> Option<seq<P>>)
    decreases |atts|
  {
    atts != [] && (Merges(atts[0], load) || AnyMerged(atts[1..], load))
  }

  /** What happens to the main file: left alone, or rewritten with pages. */
  datatype MergeOutcome<P> = Unchanged | Rewritten(pages: seq<P>)

  /** `mergePdfAttachments`: `main` is the loaded main document, `None`
      when reading or loading it throws (the error is only logged). */
  method MergePdfAttachments<P>(main: Option<seq<P>>, attachments: seq<MailAttachment>,
                                load: seq<bv8> -> Option<seq<P>>) returns (out: MergeOutcome<P>)
    ensures main.None? ==> out == Unchanged
    ensures main.Some? && AnyMerged(attachments, load) ==> out == Rewritten(main.value + AttachedPages(attachments, load))
    ensures main.Some? && !AnyMerged(attachments, load) ==> out == Unchanged
  {
    if main.None? {
      return Unchanged;
    }
    var pages, modified := MergeAll(main.value, attachments, load);
    if modified {
      out := Rewritten(pages);
    } else {
      out := Unchanged;
    }
  }

  /** The `for` loop over the attachments: the pages of each one merged are
      appended after `start`, and `modified` records whether any was. */
  method MergeAll<P>(start: seq<P>, attachments: seq<MailAttachment>, load: seq<bv8> -> Option<seq<P>>)
    returns (pages: seq<P>, modified: bool)
    ensures pages == start + AttachedPages(attachments, load)
    ensures modified == AnyMerged(attachments, load)
  {
    pages, modified := start, false;
    for i := 0 to |attachments|
      invariant pages + AttachedPages(attachments[i..], load) == start + AttachedPages(attachments, load)
      invariant (modified || AnyMerged(attachments[i..], load)) == AnyMerged(attachments, load)
    {
      assert attachments[i..][1..] == attachments[i + 1..];
      ghost var one, rest := PagesOf(attachments[i], load), AttachedPages(attachments[i + 1..], load);
      assert (pages + one) + rest == pages + (one + rest);
      var merged;
      pages, merged := MergeAttachment(pages, attachments[i], load);
      modified := modified || merged;
    }
    assert attachments[|attachments|..] == [];
    assert pages + [] == pages;
  }

  /** One pass of the attachment loop: an eligible attachment that loads
      has its pages appended, and is reported as merged. */
  method MergeAttachment<P>(pages: seq<P>, att: MailAttachment, load: seq<bv8> -> Option<seq<P>>)
    returns (newPages: seq<P>, merged: bool)
    ensures newPages == pages + PagesOf(att, load)
    ensures merged == Merges(att, load)
  {
    var contentType := if att.contentType != "" then att.contentType else OctetStream;
    newPages, merged := pages, false;
    if contentType == PdfType && att.content.Some? {
      var loaded := load(att.content.value);
      if loaded.Some? {
        newPages := AddPages(pages, loaded.value);
        merged := true;
      }
    }
    if !merged {
      assert pages + [] == pages;
    }
  }

  /** `copiedPages.forEach(page => mainPdfDoc.addPage(page))`. */
  method AddPages<P>(pages: seq<P>, copied: seq<P>) returns (r: seq<P>)
    ensures r == pages + copied
  {
    r := pages;
    for j := 0 to |copied|
      invariant r == pages + copied[..j]
    {
      assert copied[..j + 1] == copied[..j] + [copied[j]];
      r := r + [copied[j]];
    }
    assert copied[..|copied|] == copied;
  }

  // ---------------------------------------------------------------------
  // Properties
  // ---------------------------------------------------------------------

  /** Merging two lists appends their pages, in list order. */
  lemma {:induction false} AttachedPagesAppend<P>(xs: seq<MailAttachment>, ys: seq<MailAttachment>,
                                                  load: seq<bv8> -> Option<seq<P>>)
    ensures AttachedPages(xs + ys, load) == AttachedPages(xs, load) + AttachedPages(ys, load)
    decreases |xs|
  {
    if xs == [] {
      assert xs + ys == ys;
    } else {
      assert (xs + ys)[0] == xs[0];
      assert (xs + ys)[1..] == xs[1..] + ys;
      AttachedPagesAppend(xs[1..], ys, load);
    }
  }

  /** Some attachment of two lists is merged when one of either is. */
  lemma {:induction false} AnyMergedAppend<P>(xs: seq<MailAttachment>, ys: seq<MailAttachment>,
                                              load: seq<bv8> -> Option<seq<P>>)
    ensures AnyMerged(xs + ys, load) <==> AnyMerged(xs, load) || AnyMerged(ys, load)
    decreases |xs|
  {
    if xs == [] {
      assert xs + ys == ys;
    } else {
      assert (xs + ys)[0] == xs[0];
      assert (xs + ys)[1..] == xs[1..] + ys;
      AnyMergedAppend(xs[1..], ys, load);
    }
  }

  lemma OneAttachment<P>(a: MailAttachment, load: seq<bv8> -> Option<seq<P>>)
    ensures AttachedPages([a], load) == PagesOf(a, load)
    ensures AnyMerged([a], load) <==> Merges(a, load)
  {
    assert [a][1..] == [];
  }

  /** An attachment that is not merged (not eligible, or failing to load)
      contributes nothing and does not stop the others. */
  lemma SkippedAttachment<P>(xs: seq<MailAttachment>, a: MailAttachment, ys: seq<MailAttachment>,
                             load: seq<bv8> -> Option<seq<P>>)
    requires !Merges(a, load)
    ensures AttachedPages(xs + [a] + ys, load) == AttachedPages(xs + ys, load)
    ensures AnyMerged(xs + [a] + ys, load) <==> AnyMerged(xs + ys, load)
  {
    OneAttachment(a, load);
    AttachedPagesAppend(xs, [a], load);
    AttachedPagesAppend(xs + [a], ys, load);
    AttachedPagesAppend(xs, ys, load);
    AnyMergedAppend(xs, [a], load);
    AnyMergedAppend(xs + [a], ys, load);
    AnyMergedAppend(xs, ys, load);
  }

  /** The file is rewritten exactly when some attachment is merged. */
  lemma {:induction false} AnyMergedWitness<P>(atts: seq<MailAttachment>, load: seq<bv8> -> Option<seq<P>>)
    ensures AnyMerged(atts, load) <==> exists k :: 0 <= k < |atts| && Merges(atts[k], load)
    decreases |atts|
  {
    if atts != [] {
      var rest := atts[1..];
      AnyMergedWitness(rest, load);
      if exists k :: 0 <= k < |atts| && Merges(atts[k], load) {
        var k :| 0 <= k < |atts| && Merges(atts[k], load);
        if k > 0 {
          assert rest[k - 1] == atts[k];
        }
      }
      if exists k :: 0 <= k < |rest| && Merges(rest[k], load) {
        var k :| 0 <= k < |rest| && Merges(rest[k], load);
        assert atts[k + 1] == rest[k];
      }
    }
  }

  /** Without a merged attachment no page is added: the unchanged file
      loses nothing. */
  lemma {:induction false} NothingMergedNoPages<P>(atts: seq<MailAttachment>, load: seq<bv8> -> Option<seq<P>>)
    requires !AnyMerged(atts, load)
    ensures AttachedPages(atts, load) == []
    decreases |atts|
  {
    if atts != [] {
      NothingMergedNoPages(atts[1..], load);
    }
  }

  /** The content type must be exactly `application/pdf`: a missing one
      never qualifies. */
  lemma EligibleType(a: MailAttachment)
    ensures Eligible(a) <==> a.contentType == PdfType && a.content.Some?
  {
  }
}
