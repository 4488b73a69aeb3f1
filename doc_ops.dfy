/**
 * The drawing calls convert.js makes on its pdfkit document, as data.  A
 * renderer is modelled by the sequence of calls it makes; page layout,
 * fonts metrics and the text options (width, alignment, gaps) are not.
 */
module DocOps {

  /** The four fonts `addFormattedText` can select. */
  datatype Font = Helvetica | HelveticaBold | HelveticaOblique | HelveticaBoldOblique

  datatype Op =
    | FontSize(size: nat)         // doc.fontSize(size)
    | Text(s: string)             // doc.text(s, ...) as a paragraph of its own
    | Underlined(s: string)       // doc.text(s, { underline: true, ... })
    | Run(s: string, font: Font)  // doc.font(font).text(s, { continued: true })
    | MoveDown(lines: real)       // doc.moveDown(lines)

  /** The ops of `ops` that start a paragraph, in order, as their text. */
  function Paragraphs(ops: seq<Op>): (r: seq<string>)
    ensures |r| <= |ops|
  {
    if ops == [] then []
    else (if ops[0].Text? then [ops[0].s] else []) + Paragraphs(ops[1..])
  }

  lemma {:induction false} ParagraphsAppend(a: seq<Op>, b: seq<Op>)
    ensures Paragraphs(a + b) == Paragraphs(a) + Paragraphs(b)
  {
    if a != [] {
      assert (a + b)[1..] == a[1..] + b;
      ParagraphsAppend(a[1..], b);
    } else {
      assert a + b == b;
    }
  }
}
