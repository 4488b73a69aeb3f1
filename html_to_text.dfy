/**
 * `addHtmlContent` of convert.js: an ordered chain of global regex
 * rewrites turns an HTML body into marked-up text, which is split into
 * trimmed lines; each line becomes a gap, a formatted line or a paragraph.
 */
module HtmlToText {
  import opened JsText
  import opened DocOps
  import opened FormattedText
  import opened FormattedTextOps
  import opened Wrappers

  /** The list-item replacement text.  The file holds the bullet U+2022 as
      its UTF-8 bytes read back as Windows-1252, so the three characters
      U+00E2 U+20AC U+00A2 are what reaches the document. */
  const Bullet: string := "\n\U{E2}\U{20AC}\U{A2} "

  // ---------------------------------------------------------------------
  // The rewrite chain, stage by stage
  // ---------------------------------------------------------------------

  const HeadingOpen: Regex := Fixed(Ci("<h") + [DigitOneToSix] + Ci(">"))
  const HeadingClose: Regex := Fixed(Ci("</h") + [DigitOneToSix] + Ci(">"))

  /** Script and style elements removed with their content. */
  function StripBlocks(s: string): (r: string)
    ensures forall c :: c in r ==> c in s
  {
    var a := ReplaceAll(s, Block("script"), "");
    ReplaceAll(a, Block("style"), "")
  }

  /** Line-break, paragraph, division, heading and list tags become line
      feeds, a list item also opening with the bullet. */
  function BreakLines(s: string): (r: string)
    ensures forall c :: c in r ==> c in s || c in Bullet
  {
    var a := ReplaceAll(s, BrTag, "\n");
    var b := ReplaceAll(a, Fixed(Ci("</p>")), "\n\n");
    var c := ReplaceAll(b, Fixed(Ci("</div>")), "\n");
    var d := ReplaceAll(c, HeadingOpen, "\n");
    var e := ReplaceAll(d, HeadingClose, "\n");
    var f := ReplaceAll(e, Fixed(Ci("<li>")), Bullet);
    ReplaceAll(f, Fixed(Ci("</li>")), "\n")
  }

  /** Bold and italic tags become the `<BOLD>` and `<ITALIC>` markers. */
  function MarkFormatting(s: string): (r: string)
    ensures forall c :: c in r ==> c in s || c in BoldClose || c in ItalicClose
  {
    MarkItalic(MarkBold(s))
  }

  /** The four bold rewrites: `<b>`, `</b>`, `<strong>`, `</strong>`. */
  function MarkBold(s: string): (r: string)
    ensures forall c :: c in r ==> c in s || c in BoldClose
  {
    var a := ReplaceAll(s, Fixed(Ci("<b>")), BoldOpen);
    var b := ReplaceAll(a, Fixed(Ci("</b>")), BoldClose);
    var c := ReplaceAll(b, Fixed(Ci("<strong>")), BoldOpen);
    ReplaceAll(c, Fixed(Ci("</strong>")), BoldClose)
  }

  /** The four italic rewrites: `<i>`, `</i>`, `<em>`, `</em>`. */
  function MarkItalic(s: string): (r: string)
    ensures forall c :: c in r ==> c in s || c in ItalicClose
  {
    var e := ReplaceAll(s, Fixed(Ci("<i>")), ItalicOpen);
    var f := ReplaceAll(e, Fixed(Ci("</i>")), ItalicClose);
    var g := ReplaceAll(f, Fixed(Ci("<em>")), ItalicOpen);
    ReplaceAll(g, Fixed(Ci("</em>")), ItalicClose)
  }

  /** No `<` is followed, anywhere later, by a `>`. */
  predicate NoTagPair(s: string) {
    forall i, j :: 0 <= i < j < |s| && s[i] == '<' ==> s[j] != '>'
  }

  /** `/<[^>]*>/g` replaced by nothing: every remaining tag removed. */
  function StripTags(s: string): (r: string)
    ensures forall c :: c in r ==> c in s
    ensures NoTagPair(r)
  {
    StripTagsNoTagPair(s);
    ReplaceAll(s, AnyTag, "")
  }

  lemma {:induction false} StripTagsNoTagPair(s: string)
    ensures NoTagPair(ReplaceAll(s, AnyTag, ""))
    decreases |s|
  {
    if s != [] {
      var n := MatchLen(s, AnyTag);
      if n > 0 {
        StripTagsNoTagPair(s[n..]);
        assert ReplaceAll(s, AnyTag, "") == ReplaceAll(s[n..], AnyTag, "");
      } else {
        StripTagsNoTagPair(s[1..]);
        StripTagsKeepStep(s);
      }
    }
  }

  /** A character that starts no tag is kept; a kept `<` has no `>` after
      it in the input, so none in the output either. */
  lemma StripTagsKeepStep(s: string)
    requires s != [] && MatchLen(s, AnyTag) == 0
    requires NoTagPair(ReplaceAll(s[1..], AnyTag, ""))
    ensures NoTagPair(ReplaceAll(s, AnyTag, ""))
  {
    var rest := ReplaceAll(s[1..], AnyTag, "");
    var r := [s[0]] + rest;
    assert ReplaceAll(s, AnyTag, "") == r;
    if s[0] == '<' {
      UnclosedTag(s);
      assert '>' !in rest;
    }
    ConsNoTagPair(s[0], rest);
  }

  lemma ConsNoTagPair(c: char, rest: string)
    requires NoTagPair(rest) && (c == '<' ==> '>' !in rest)
    ensures NoTagPair([c] + rest)
  {
    var r := [c] + rest;
    forall i, j | 0 <= i < j < |r| && r[i] == '<' ensures r[j] != '>' {
      assert r[j] == rest[j - 1];
      if i > 0 {
        assert r[i] == rest[i - 1];
      } else {
        assert rest[j - 1] in rest;
      }
    }
  }

  /** A `<` that starts no tag has no `>` anywhere after it. */
  lemma UnclosedTag(s: string)
    requires s != [] && s[0] == '<' && MatchLen(s, AnyTag) == 0
    ensures '>' !in s[1..]
  {
    assert IndexOf(s, ">", 1) == -1;
    forall k | 1 <= k < |s| ensures s[k] != '>' {
      assert !OccursAt(s, ">", k);
      assert s[k..k + 1] == [s[k]];
    }
  }

  /** The five entities, decoded in the order the code applies them. */
  function DecodeEntities(s: string): (r: string)
    ensures '&' !in s ==> r == s
  {
    NoEntities(s);
    var a := ReplaceAll(s, Fixed(Lit("&nbsp;")), " ");
    var b := ReplaceAll(a, Fixed(Lit("&amp;")), "&");
    var c := ReplaceAll(b, Fixed(Lit("&lt;")), "<");
    var d := ReplaceAll(c, Fixed(Lit("&gt;")), ">");
    ReplaceAll(d, Fixed(Lit("&quot;")), "\"")
  }

  lemma NoEntities(s: string)
    ensures '&' !in s ==>
      && NoMatch(s, Fixed(Lit("&nbsp;"))) && NoMatch(s, Fixed(Lit("&amp;")))
      && NoMatch(s, Fixed(Lit("&lt;"))) && NoMatch(s, Fixed(Lit("&gt;")))
      && NoMatch(s, Fixed(Lit("&quot;")))
  {
    if '&' !in s {
      NoMatchWithout(s, Lit("&nbsp;"), '&');
      NoMatchWithout(s, Lit("&amp;"), '&');
      NoMatchWithout(s, Lit("&lt;"), '&');
      NoMatchWithout(s, Lit("&gt;"), '&');
      NoMatchWithout(s, Lit("&quot;"), '&');
    }
  }

  /** The text before entity decoding. */
  function Tagless(html: string): (r: string)
    ensures NoTagPair(r)
  {
    StripTags(MarkFormatting(BreakLines(StripBlocks(html))))
  }

  /** The text `addHtmlContent` splits into lines. */
  function Rewrite(html: string): string {
    DecodeEntities(Tagless(html))
  }

  // ---------------------------------------------------------------------
  // Each stage rewrites what it matches
  // ---------------------------------------------------------------------

  /** A closed element whose content holds no `<` is found by the block
      pattern as a whole: the match runs from the opening tag through the
      first closing tag. */
  lemma BlockMatch(name: string, x: string, u: string)
    requires '<' !in name && '<' !in x
    ensures var w := "<" + name + ">" + x + "</" + name + ">";
      MatchLen(w + u, Block(name)) == |w|
  {
    var w := "<" + name + ">" + x + "</" + name + ">";
    var s := w + u;
    var open := Ci("<" + name);
    assert s == ("<" + name) + (">" + x + "</" + name + ">" + u);
    CiAtStart("<" + name, ">" + x + "</" + name + ">" + u);
    assert s[|open|] == '>';
    BlockCloseFound(name, x, u);
  }

  /** The first closing tag after the opening one is the one after `x`. */
  lemma BlockCloseFound(name: string, x: string, u: string)
    requires '<' !in name && '<' !in x
    ensures var s := "<" + name + ">" + x + "</" + name + ">" + u;
      FindMatch(s, Ci("</" + name + ">"), |Ci("<" + name)|) == 2 + |name| + |x|
  {
    var s := "<" + name + ">" + x + "</" + name + ">" + u;
    var open := Ci("<" + name);
    var close := Ci("</" + name + ">");
    var at := 2 + |name| + |x|;
    assert s == ("<" + name + ">" + x) + (("</" + name + ">") + u);
    CiAtStart("</" + name + ">", u);
    MatchesAtSuffix(s, close, at);
    assert s[at..] == ("</" + name + ">") + u;
    forall k | |open| <= k < at ensures !MatchesAt(s, close, k) {
      assert s[k] != '<' by {
        if k > |open| { assert s[k] == x[k - |open| - 1]; }
      }
      assert close[0] == Fold('<');
      if MatchesAt(s, close, k) { FoldLt(s[k]); }
    }
  }

  /** A script element whose content holds no `<` is removed with that
      content; the text after it, holding no `<`, is kept. */
  lemma StripBlocksScript(x: string, u: string)
    requires '<' !in x && '<' !in u
    ensures StripBlocks("<script>" + x + "</script>" + u) == u
  {
    var w := "<" + "script" + ">" + x + "</" + "script" + ">";
    ScriptLiteral(x);
    BlockMatch("script", x, u);
    ReplaceAllMatchPrefix(w, u, Block("script"), "");
    NoMatchWithoutLt(u, Block("script"));
    var a := ReplaceAll(w + u, Block("script"), "");
    assert a == u;
    NoMatchWithoutLt(u, Block("style"));
    assert StripBlocks(w + u) == ReplaceAll(a, Block("style"), "");
  }

  lemma ScriptLiteral(x: string)
    ensures "<" + "script" + ">" + x + "</" + "script" + ">" == "<script>" + x + "</script>"
  {
  }

  /** `<br/>` becomes a line feed; a rest without `<` passes every other
      line-break rewrite unchanged. */
  lemma BreakLinesBr(u: string)
    requires '<' !in u
    ensures BreakLines("<br/>" + u) == "\n" + u
  {
    var s := "<br/>" + u;
    assert s == "<br" + ("/>" + u);
    CiAtStart("<br", "/>" + u);
    assert s[3] == '/' && s[4] == '>';
    assert MatchLen(s, BrTag) == 5;
    ReplaceAllMatchPrefix("<br/>", u, BrTag, "\n");
    NoMatchWithoutLt(u, BrTag);
    var a := "\n" + u;
    assert '<' !in a;
    NoMatchWithoutLt(a, Fixed(Ci("</p>")));
    NoMatchWithoutLt(a, Fixed(Ci("</div>")));
    NoMatchWithoutLt(a, HeadingOpen);
    NoMatchWithoutLt(a, HeadingClose);
    NoMatchWithoutLt(a, Fixed(Ci("<li>")));
    NoMatchWithoutLt(a, Fixed(Ci("</li>")));
  }

  /** The characters of the bold markers and of `</b>` that the rewrites
      of the other tags fail on. */
  lemma MarkerChars()
    ensures BoldOpen[0] == '<' && BoldOpen[1] == 'B' && '<' !in BoldOpen[1..]
    ensures BoldClose[0] == '<' && BoldClose[1] == '/' && BoldClose[2] == 'B' && '<' !in BoldClose[1..]
    ensures "</b>"[0] == '<' && "</b>"[1] == '/' && '<' !in "</b>"[1..]
  {
  }

  /** A marker whose only `<` starts it, before a text without `<`. */
  lemma LeadingLt(m: string, u: string)
    requires |m| >= 3 && m[0] == '<' && '<' !in m[1..] && '<' !in u
    ensures (m + u)[0] == '<' && '<' !in (m + u)[1..]
    ensures (m + u)[1] == m[1] && (m + u)[2] == m[2]
  {
    assert (m + u)[1..] == m[1..] + u;
  }

  /** A text whose only `<` starts it, where the case-insensitive literal
      `w` fails at position `j`, passes the rewrite of `w`. */
  lemma CiMiss(s: string, w: string, rep: string, j: nat)
    requires |w| >= 2 && w[0] == '<' && s != [] && '<' !in s[1..]
    requires 1 <= j < |w| && j < |s| && AsciiLower(s[j]) != AsciiLower(w[j])
    ensures ReplaceAll(s, Fixed(Ci(w)), rep) == s
  {
    assert Ci(w)[0] == Fold('<') && Ci(w)[j] == Fold(w[j]);
    ReplaceAllMissLt(s, Ci(w), rep, j);
  }

  /** A text that starts with the case-insensitive literal `w`, its only
      `<`, has that literal replaced. */
  lemma CiHit(w: string, u: string, rep: string)
    requires |w| > 0 && w[0] == '<' && '<' !in u
    ensures ReplaceAll(w + u, Fixed(Ci(w)), rep) == rep + u
  {
    CiAtStart(w, u);
    assert MatchLen(w + u, Fixed(Ci(w))) == |w|;
    ReplaceAllMatchPrefix(w, u, Fixed(Ci(w)), rep);
    assert Ci(w)[0] == Fold('<');
    NoMatchWithoutLt(u, Fixed(Ci(w)));
  }

  /** `<b>` becomes the `<BOLD>` marker, which no later formatting rewrite
      touches. */
  lemma MarkFormattingBold(u: string)
    requires '<' !in u
    ensures MarkFormatting("<b>" + u) == BoldOpen + u
  {
    CiHit("<b>", u, BoldOpen);
    var a := BoldOpen + u;
    MarkerChars();
    LeadingLt(BoldOpen, u);
    CiMiss(a, "</b>", BoldClose, 1);
    CiMiss(a, "<strong>", BoldOpen, 1);
    CiMiss(a, "</strong>", BoldClose, 1);
    assert MarkBold("<b>" + u) == a;
    CiMiss(a, "<i>", ItalicOpen, 1);
    CiMiss(a, "</i>", ItalicClose, 1);
    CiMiss(a, "<em>", ItalicOpen, 1);
    CiMiss(a, "</em>", ItalicClose, 1);
  }

  /** `</b>` becomes the `</BOLD>` marker, which no later formatting
      rewrite touches. */
  lemma MarkFormattingBoldClose(u: string)
    requires '<' !in u
    ensures MarkFormatting("</b>" + u) == BoldClose + u
  {
    BoldSkipsBoldClose(u);
    ItalicSkipsBoldClose(u);
  }

  lemma BoldSkipsBoldClose(u: string)
    requires '<' !in u
    ensures MarkBold("</b>" + u) == BoldClose + u
  {
    var s := "</b>" + u;
    MarkerChars();
    LeadingLt("</b>", u);
    CiMiss(s, "<b>", BoldOpen, 1);
    CiHit("</b>", u, BoldClose);
    StrongSkipsBoldClose(u);
  }

  lemma StrongSkipsBoldClose(u: string)
    requires '<' !in u
    ensures var a := BoldClose + u;
      ReplaceAll(ReplaceAll(a, Fixed(Ci("<strong>")), BoldOpen), Fixed(Ci("</strong>")), BoldClose) == a
  {
    var a := BoldClose + u;
    MarkerChars();
    LeadingLt(BoldClose, u);
    CiMiss(a, "<strong>", BoldOpen, 1);
    CiMiss(a, "</strong>", BoldClose, 2);
  }

  lemma ItalicSkipsBoldClose(u: string)
    requires '<' !in u
    ensures MarkItalic(BoldClose + u) == BoldClose + u
  {
    var a := BoldClose + u;
    MarkerChars();
    LeadingLt(BoldClose, u);
    CiMiss(a, "<i>", ItalicOpen, 1);
    CiMiss(a, "</i>", ItalicClose, 2);
    CiMiss(a, "<em>", ItalicOpen, 1);
    CiMiss(a, "</em>", ItalicClose, 2);
  }

  /** The four entities decoded to a single character. */
  predicate SimpleEntity(e: string) {
    e == "&nbsp;" || e == "&lt;" || e == "&gt;" || e == "&quot;"
  }

  /** What such an entity decodes to. */
  function EntityText(e: string): string {
    if e == "&nbsp;" then " " else if e == "&lt;" then "<" else if e == "&gt;" then ">" else "\""
  }

  /** In `t + e + u`, with no `&` in `t` or `u` and only the first character
      of `e` an `&`, that character is the only `&`. */
  lemma OnlyAmp(t: string, e: string, u: string)
    requires '&' !in t && '&' !in u && |e| >= 2 && e[0] == '&' && '&' !in e[1..]
    ensures forall i :: 0 <= i < |t + e + u| ==> ((t + e + u)[i] == '&' <==> i == |t|)
    ensures (t + e + u)[|t| + 1] == e[1]
  {
    var s := t + e + u;
    forall i | 0 <= i < |s| ensures s[i] == '&' <==> i == |t| {
      if i < |t| {
        assert s[i] == t[i];
      } else if i < |t| + |e| {
        assert s[i] == e[i - |t|];
        if i > |t| { assert e[i - |t|] == e[1..][i - |t| - 1]; }
      } else {
        assert s[i] == u[i - |t| - |e|];
      }
    }
  }

  /** The rewrite of an entity that differs from `e` in its second
      character leaves `t + e + u` alone. */
  lemma OtherEntityKeeps(t: string, e: string, u: string, f: string, rep: string)
    requires '&' !in t && '&' !in u && |e| >= 2 && e[0] == '&' && '&' !in e[1..]
    requires |f| >= 2 && f[0] == '&' && f[1] != e[1]
    ensures ReplaceAll(t + e + u, Fixed(Lit(f)), rep) == t + e + u
  {
    OnlyAmp(t, e, u);
    NoEntityMatch(t + e + u, f);
  }

  /** The rewrite of `e` itself replaces it and keeps `t` and `u`. */
  lemma EntityDecodedHere(t: string, e: string, u: string, rep: string)
    requires '&' !in t && '&' !in u && |e| >= 2 && e[0] == '&'
    ensures ReplaceAll(t + e + u, Fixed(Lit(e)), rep) == t + rep + u
  {
    assert Lit(e)[0] == Exact('&');
    assert t + e + u == t + (e + u);
    ReplaceAllPassWithout(t, e + u, Lit(e), '&', rep);
    EntityStart(e, u, rep);
  }

  /** A text without `&` passes every entity rewrite. */
  lemma NoAmpKeeps(s: string, f: string, rep: string)
    requires '&' !in s && |f| >= 1 && f[0] == '&'
    ensures ReplaceAll(s, Fixed(Lit(f)), rep) == s
  {
    assert Lit(f)[0] == Exact('&');
    NoMatchWithout(s, Lit(f), '&');
  }

  /** The second characters of the five entities, and their other `&`-free
      characters. */
  lemma EntityShapes()
    ensures "&nbsp;"[1] == 'n' && "&amp;"[1] == 'a' && "&lt;"[1] == 'l' && "&gt;"[1] == 'g' && "&quot;"[1] == 'q'
    ensures '&' !in "&nbsp;"[1..] && '&' !in "&lt;"[1..] && '&' !in "&gt;"[1..] && '&' !in "&quot;"[1..]
  {
  }

  /** One of `&nbsp;`, `&lt;`, `&gt;` and `&quot;` between texts without
      `&` is decoded to its character, and the texts around it are kept. */
  lemma DecodeOneEntity(t: string, e: string, u: string)
    requires '&' !in t && '&' !in u && SimpleEntity(e)
    ensures DecodeEntities(t + e + u) == t + EntityText(e) + u
  {
    EntityShapes();
    var s := t + e + u;
    var d := t + EntityText(e) + u;
    assert '&' !in d;
    if e == "&nbsp;" {
      EntityDecodedHere(t, e, u, " ");
      NoAmpKeeps(d, "&amp;", "&");
      NoAmpKeeps(d, "&lt;", "<");
      NoAmpKeeps(d, "&gt;", ">");
      NoAmpKeeps(d, "&quot;", "\"");
    } else if e == "&lt;" {
      OtherEntityKeeps(t, e, u, "&nbsp;", " ");
      OtherEntityKeeps(t, e, u, "&amp;", "&");
      EntityDecodedHere(t, e, u, "<");
      NoAmpKeeps(d, "&gt;", ">");
      NoAmpKeeps(d, "&quot;", "\"");
    } else if e == "&gt;" {
      OtherEntityKeeps(t, e, u, "&nbsp;", " ");
      OtherEntityKeeps(t, e, u, "&amp;", "&");
      OtherEntityKeeps(t, e, u, "&lt;", "<");
      EntityDecodedHere(t, e, u, ">");
      NoAmpKeeps(d, "&quot;", "\"");
    } else {
      OtherEntityKeeps(t, e, u, "&nbsp;", " ");
      OtherEntityKeeps(t, e, u, "&amp;", "&");
      OtherEntityKeeps(t, e, u, "&lt;", "<");
      OtherEntityKeeps(t, e, u, "&gt;", ">");
      EntityDecodedHere(t, e, u, "\"");
    }
  }

  // ---------------------------------------------------------------------
  // Lines
  // ---------------------------------------------------------------------

  /** The calls made for one line of the rewritten text. */
  function LineOps(line: string): seq<Op> {
    var t := Trim(line);
    if t == "" then [MoveDown(0.3)]
    else if Contains(t, BoldOpen) || Contains(t, ItalicOpen) then FormattedOps(t)
    else [Text(t)]
  }

  function LinesOps(lines: seq<string>): seq<Op> {
    if lines == [] then [] else LineOps(lines[0]) + LinesOps(lines[1..])
  }

  /** The calls `addHtmlContent(doc, html)` makes. */
  function HtmlOps(html: string): seq<Op> {
    LinesOps(SplitLines(Rewrite(html)))
  }

  method AddHtmlContent(html: string) returns (ops: seq<Op>)
    ensures ops == HtmlOps(html)
  {
    // Remove script and style elements
    var content := ReplaceAll(html, Block("script"), "");
    content := ReplaceAll(content, Block("style"), "");
    assert content == StripBlocks(html);
    ghost var stage := content;

    // Line breaks, headers and lists
    content := ReplaceAll(content, BrTag, "\n");
    content := ReplaceAll(content, Fixed(Ci("</p>")), "\n\n");
    content := ReplaceAll(content, Fixed(Ci("</div>")), "\n");
    content := ReplaceAll(content, HeadingOpen, "\n");
    content := ReplaceAll(content, HeadingClose, "\n");
    content := ReplaceAll(content, Fixed(Ci("<li>")), Bullet);
    content := ReplaceAll(content, Fixed(Ci("</li>")), "\n");
    assert content == BreakLines(stage);
    stage := content;

    // Formatting tags
    content := ReplaceAll(content, Fixed(Ci("<b>")), BoldOpen);
    content := ReplaceAll(content, Fixed(Ci("</b>")), BoldClose);
    content := ReplaceAll(content, Fixed(Ci("<strong>")), BoldOpen);
    content := ReplaceAll(content, Fixed(Ci("</strong>")), BoldClose);
    content := ReplaceAll(content, Fixed(Ci("<i>")), ItalicOpen);
    content := ReplaceAll(content, Fixed(Ci("</i>")), ItalicClose);
    content := ReplaceAll(content, Fixed(Ci("<em>")), ItalicOpen);
    content := ReplaceAll(content, Fixed(Ci("</em>")), ItalicClose);
    assert content == MarkFormatting(stage);

    // Remaining tags, then entities
    content := ReplaceAll(content, AnyTag, "");
    assert content == Tagless(html);
    stage := content;
    content := ReplaceAll(content, Fixed(Lit("&nbsp;")), " ");
    content := ReplaceAll(content, Fixed(Lit("&amp;")), "&");
    content := ReplaceAll(content, Fixed(Lit("&lt;")), "<");
    content := ReplaceAll(content, Fixed(Lit("&gt;")), ">");
    content := ReplaceAll(content, Fixed(Lit("&quot;")), "\"");
    assert content == DecodeEntities(stage);

    ops := DrawLines(SplitLines(content));
  }

  /** `lines.forEach(...)` of `addHtmlContent`: the calls for each line, in
      order. */
  method DrawLines(lines: seq<string>) returns (ops: seq<Op>)
    ensures ops == LinesOps(lines)
  {
    ops := [];
    var index := 0;
    while index < |lines|
      invariant 0 <= index <= |lines|
      invariant ops + LinesOps(lines[index..]) == LinesOps(lines)
      decreases |lines| - index
    {
      assert lines[index..][1..] == lines[index + 1..];
      var lineOps := AddLine(lines[index]);
      assert (ops + lineOps) + LinesOps(lines[index + 1..]) == ops + (lineOps + LinesOps(lines[index + 1..]));
      ops := ops + lineOps;
      index := index + 1;
    }
    assert lines[index..] == [];
    assert ops + [] == ops;
  }

  /** The `forEach` callback of `addHtmlContent` for one line. */
  method AddLine(rawLine: string) returns (lineOps: seq<Op>)
    ensures lineOps == LineOps(rawLine)
  {
    var line := Trim(rawLine);
    if line == "" {
      lineOps := [MoveDown(0.3)];
    } else if Contains(line, BoldOpen) || Contains(line, ItalicOpen) {
      lineOps := AddFormattedText(line);
    } else {
      lineOps := [Text(line)];
    }
  }

  // ---------------------------------------------------------------------
  // What the chain guarantees
  // ---------------------------------------------------------------------

  lemma NoTagPairSlice(s: string, a: int, b: int)
    requires NoTagPair(s) && 0 <= a <= b <= |s|
    ensures NoTagPair(s[a..b])
  {
    var t := s[a..b];
    forall i, j | 0 <= i < j < |t| && t[i] == '<' ensures t[j] != '>' {
      assert t[i] == s[a + i] && t[j] == s[a + j];
    }
  }

  /** A string in which no `<` precedes a `>` holds no `<`...`>` marker. */
  lemma NoTagPairNoMarker(s: string, marker: string)
    requires NoTagPair(s) && |marker| >= 2 && marker[0] == '<' && marker[|marker| - 1] == '>'
    ensures !Contains(s, marker)
  {
  }

  /** The generic tag strip also deletes every `<BOLD>`, `</BOLD>`,
      `<ITALIC>` and `</ITALIC>` marker the formatting stage put in. */
  lemma MarkersStripped(html: string)
    ensures var t := Tagless(html);
      && !Contains(t, BoldOpen) && !Contains(t, BoldClose)
      && !Contains(t, ItalicOpen) && !Contains(t, ItalicClose)
  {
    var t := Tagless(html);
    NoTagPairNoMarker(t, BoldOpen);
    NoTagPairNoMarker(t, BoldClose);
    NoTagPairNoMarker(t, ItalicOpen);
    NoTagPairNoMarker(t, ItalicClose);
  }

  lemma {:induction false} SplitLinesNoTagPair(s: string)
    requires NoTagPair(s)
    ensures forall line :: line in SplitLines(s) ==> NoTagPair(line)
    decreases |s|
  {
    var i := IndexOf(s, "\n", 0);
    if i != -1 {
      NoTagPairSlice(s, 0, i);
      NoTagPairSlice(s, 0, if i > 0 then i - 1 else 0);
      assert s[..i] == s[0..i];
      assert i > 0 ==> s[..i][..i - 1] == s[0..i - 1];
      NoTagPairSlice(s, i + 1, |s|);
      assert s[i + 1..] == s[i + 1..|s|];
      SplitLinesNoTagPair(s[i + 1..]);
    }
  }

  /** A line with no `<` before a `>` is drawn as a gap or a paragraph. */
  lemma LineOpsPlain(line: string)
    requires NoTagPair(line)
    ensures LineOps(line) == [MoveDown(0.3)] || LineOps(line) == [Text(Trim(line))]
  {
    var t := Trim(line);
    var k :| SpaceFramed(line, t, k);
    NoTagPairSlice(line, k, k + |t|);
    NoTagPairNoMarker(t, BoldOpen);
    NoTagPairNoMarker(t, ItalicOpen);
  }

  lemma {:induction false} LinesOpsPlain(lines: seq<string>)
    requires forall line :: line in lines ==> NoTagPair(line)
    ensures forall k :: 0 <= k < |LinesOps(lines)| ==> !LinesOps(lines)[k].Run?
  {
    if lines != [] {
      LineOpsPlain(lines[0]);
      LinesOpsPlain(lines[1..]);
    }
  }

  /** Without an `&` in the body no marker can come back through entity
      decoding, so the formatted branch is never taken and no styled run
      is drawn. */
  lemma NoAmpersandNoRuns(html: string)
    requires '&' !in html
    ensures forall k :: 0 <= k < |HtmlOps(html)| ==> !HtmlOps(html)[k].Run?
  {
    var t := StripTags(MarkFormatting(BreakLines(StripBlocks(html))));
    InsertsWithoutAmpersand();
    assert '&' !in t by {
      var a := StripBlocks(html);
      assert '&' !in a;
      var b := BreakLines(a);
      assert '&' !in b;
      var c := MarkFormatting(b);
      assert '&' !in c;
    }
    assert Rewrite(html) == t;
    SplitLinesNoTagPair(t);
    LinesOpsPlain(SplitLines(t));
  }

  lemma InsertsWithoutAmpersand()
    ensures '&' !in Bullet && '&' !in BoldClose && '&' !in ItalicClose
  {
  }

  /** A body without `<` holds no tag, so every stage before entity
      decoding leaves it unchanged. */
  lemma TaglessWithoutLt(s: string)
    requires '<' !in s
    ensures Tagless(s) == s
  {
    NoMatchWithoutLt(s, Block("script"));
    NoMatchWithoutLt(s, Block("style"));
    NoMatchWithoutLt(s, BrTag);
    NoMatchWithoutLt(s, Fixed(Ci("</p>")));
    NoMatchWithoutLt(s, Fixed(Ci("</div>")));
    NoMatchWithoutLt(s, HeadingOpen);
    NoMatchWithoutLt(s, HeadingClose);
    NoMatchWithoutLt(s, Fixed(Ci("<li>")));
    NoMatchWithoutLt(s, Fixed(Ci("</li>")));
    NoMatchWithoutLt(s, Fixed(Ci("<b>")));
    NoMatchWithoutLt(s, Fixed(Ci("</b>")));
    NoMatchWithoutLt(s, Fixed(Ci("<strong>")));
    NoMatchWithoutLt(s, Fixed(Ci("</strong>")));
    NoMatchWithoutLt(s, Fixed(Ci("<i>")));
    NoMatchWithoutLt(s, Fixed(Ci("</i>")));
    NoMatchWithoutLt(s, Fixed(Ci("<em>")));
    NoMatchWithoutLt(s, Fixed(Ci("</em>")));
    NoMatchWithoutLt(s, AnyTag);
  }

  // ---------------------------------------------------------------------
  // Entity decoding: order and the markers it brings back
  // ---------------------------------------------------------------------

  /** A string in which every `&` is followed by a character other than the
      second one of entity `e` holds no match of `e`. */
  lemma NoEntityMatch(s: string, e: string)
    requires |e| >= 2 && e[0] == '&'
    requires forall i :: 0 <= i < |s| && s[i] == '&' ==> i + 1 < |s| && s[i + 1] != e[1]
    ensures NoMatch(s, Fixed(Lit(e)))
  {
    assert Lit(e)[0] == Exact('&') && Lit(e)[1] == Exact(e[1]);
    forall i | 0 <= i < |s| ensures MatchLen(s[i..], Fixed(Lit(e))) == 0 {
      assert s[i..][0] == s[i];
      if s[i] == '&' {
        assert s[i..][1] == s[i + 1];
      }
    }
  }

  lemma AmpLtKeepsNbsp(s: string)
    requires s == "&amp;lt;" || s == "&amp;nbsp;"
    ensures ReplaceAll(s, Fixed(Lit("&nbsp;")), " ") == s
  {
    NoEntityMatch(s, "&nbsp;");
  }

  /** An entity at the start of a text with no other `&` is replaced and
      the rest is kept. */
  lemma EntityStart(e: string, u: string, rep: string)
    requires |e| > 0 && e[0] == '&' && '&' !in u
    ensures ReplaceAll(e + u, Fixed(Lit(e)), rep) == rep + u
  {
    ReplaceAllLitStart(e, u, rep);
    NoMatchWithout(u, Lit(e), '&');
  }

  /** `&amp;` at the start decodes to `&`, leaving the rest alone. */
  lemma AmpDecoded(s: string, u: string)
    requires '&' !in u && s == "&amp;" + u
    ensures ReplaceAll(s, Fixed(Lit("&amp;")), "&") == "&" + u
  {
    EntityStart("&amp;", u, "&");
  }

  lemma LtDecoded(s: string)
    requires s == "&lt;"
    ensures ReplaceAll(s, Fixed(Lit("&lt;")), "<") == "<"
  {
    assert MatchesAt(s, Lit("&lt;"), 0);
    assert s[4..] == [];
  }

  /** How the two doubly escaped entities split around `&amp;`. */
  lemma EntityTails()
    ensures "&amp;lt;" == "&amp;" + "lt;" && "&" + "lt;" == "&lt;" && '&' !in "lt;"
    ensures "&amp;nbsp;" == "&amp;" + "nbsp;" && "&" + "nbsp;" == "&nbsp;" && '&' !in "nbsp;"
  {
  }

  /** `&amp;` is decoded before `&lt;`, so `&amp;lt;` comes out as `<`. */
  lemma DecodeAmpLt(s: string)
    requires s == "&amp;lt;"
    ensures DecodeEntities(s) == "<"
  {
    AmpLtKeepsNbsp(s);
    EntityTails();
    AmpDecoded(s, "lt;");
    LtDecoded("&lt;");
    NoMatchWithout("<", Lit("&gt;"), '&');
    NoMatchWithout("<", Lit("&quot;"), '&');
  }

  lemma NbspKeeps(s: string, e: string, rep: string)
    requires s == "&nbsp;" && (e == "&lt;" || e == "&gt;" || e == "&quot;")
    ensures ReplaceAll(s, Fixed(Lit(e)), rep) == s
  {
    NoEntityMatch(s, e);
  }

  /** `&nbsp;` is decoded before `&amp;`, so `&amp;nbsp;` comes out as
      `&nbsp;` and not as a space. */
  lemma DecodeAmpNbsp(s: string)
    requires s == "&amp;nbsp;"
    ensures DecodeEntities(s) == "&nbsp;"
  {
    AmpLtKeepsNbsp(s);
    EntityTails();
    AmpDecoded(s, "nbsp;");
    NbspKeeps("&nbsp;", "&lt;", "<");
    NbspKeeps("&nbsp;", "&gt;", ">");
    NbspKeeps("&nbsp;", "&quot;", "\"");
  }

  /** In `&lt;x&gt;` with no `&` in `x`, the only ampersands open the two
      entities. */
  lemma EscapedTagAmps(x: string, e: string)
    requires '&' !in x && |e| >= 2 && e[0] == '&' && e[1] != 'l' && e[1] != 'g'
    ensures NoMatch("&lt;" + x + "&gt;", Fixed(Lit(e)))
  {
    var s := "&lt;" + x + "&gt;";
    forall i | 0 <= i < |s| && s[i] == '&' ensures i + 1 < |s| && s[i + 1] != e[1] {
      if i < 4 {
        assert s[i] == "&lt;"[i];
        assert s[1] == 'l';
      } else if i >= 4 + |x| {
        assert s[i] == "&gt;"[i - 4 - |x|];
        assert s[i + 1] == 'g';
      }
    }
    NoEntityMatch(s, e);
  }

  lemma GtUnderLt()
    ensures ReplaceAll("&gt;", Fixed(Lit("&lt;")), "<") == "&gt;"
  {
    var s := "&gt;";
    assert Lit("&lt;")[1] == Exact('l') && s[1] == 'g';
    assert !MatchesAt(s, Lit("&lt;"), 0);
    NoMatchWithout(s[1..], Lit("&lt;"), '&');
    assert [s[0]] + s[1..] == s;
  }

  lemma EscapedTagLt(x: string)
    requires '&' !in x
    ensures ReplaceAll("&lt;" + x + "&gt;", Fixed(Lit("&lt;")), "<") == "<" + x + "&gt;"
  {
    var t := x + "&gt;";
    assert "&lt;" + x + "&gt;" == "&lt;" + t;
    ReplaceAllLitStart("&lt;", t, "<");
    LtOpensWithAmp();
    ReplaceAllPassWithout(x, "&gt;", Lit("&lt;"), '&', "<");
    GtUnderLt();
    assert "<" + t == "<" + x + "&gt;";
  }

  lemma LtOpensWithAmp()
    ensures |Lit("&lt;")| > 0 && Lit("&lt;")[0] == Exact('&')
  {
  }

  lemma EscapedTagGt(x: string)
    requires '&' !in x
    ensures ReplaceAll("<" + x + "&gt;", Fixed(Lit("&gt;")), ">") == "<" + x + ">"
  {
    ReplaceAllPassWithout("<" + x, "&gt;", Lit("&gt;"), '&', ">");
    EntityStart("&gt;", [], ">");
    assert "&gt;" + [] == "&gt;" && ">" + [] == ">";
  }

  /** An escaped tag decodes to the tag itself. */
  lemma DecodeEscapedTag(x: string)
    requires '&' !in x
    ensures DecodeEntities("&lt;" + x + "&gt;") == "<" + x + ">"
  {
    EscapedTagAmps(x, "&nbsp;");
    EscapedTagAmps(x, "&amp;");
    EscapedTagLt(x);
    EscapedTagGt(x);
    NoMatchWithout("<" + x + ">", Lit("&quot;"), '&');
  }

  lemma OpenerLine()
    ensures LineOps(BoldOpen) == FormattedOps(BoldOpen)
  {
    TrimKeeps(BoldOpen);
    OpenerContained();
  }

  lemma OpenerContained()
    ensures Contains(BoldOpen, BoldOpen)
  {
    assert OccursAt(BoldOpen, BoldOpen, 0) by { assert BoldOpen[0..6] == BoldOpen; }
  }

  /** The escaped text `&lt;BOLD&gt;` survives the tag strip, decodes to a
      `<BOLD>` marker and takes the formatted branch; having no closer, the
      marker is drawn as literal text. */
  lemma EscapedOpenerDrawn()
    ensures HtmlOps("&lt;BOLD&gt;") == [Run(BoldOpen, Helvetica), Text("")]
  {
    EscapedOpenerRewrite();
    OpenerOps();
  }

  lemma EscapedOpenerRewrite()
    ensures Rewrite("&lt;BOLD&gt;") == BoldOpen
  {
    BoldMarkerText();
    TaglessWithoutLt("&lt;BOLD&gt;");
    DecodeEscapedTag("BOLD");
  }

  lemma OpenerOps()
    ensures LinesOps(SplitLines(BoldOpen)) == [Run(BoldOpen, Helvetica), Text("")]
  {
    IndexOfAbsent(BoldOpen, '\n', 0);
    assert SplitLines(BoldOpen) == [BoldOpen];
    OpenerLine();
    OpenerFormatted();
    OneLineOps(BoldOpen);
  }

  /** A lone `<BOLD>` is drawn as literal text in the regular font. */
  lemma OpenerFormatted()
    ensures FormattedOps(BoldOpen) == [Run(BoldOpen, Helvetica), Text("")]
  {
    LoneOpenerScan();
    var ops := PartOps([Part(BoldOpen, false, false)]);
    assert ops == [Run(BoldOpen, Helvetica)];
  }

  /** A lone `<BOLD>` is scanned as one plain part. */
  lemma LoneOpenerScan()
    ensures Scan(BoldOpen, 0) == [Part(BoldOpen, false, false)]
  {
    assert OccursAt(BoldOpen, BoldOpen, 0) by { assert BoldOpen[0..6] == BoldOpen; }
    ScanUnclosed(BoldOpen, 0, 0, BoldStart);
  }

  lemma OneLineOps(line: string)
    ensures LinesOps([line]) == LineOps(line)
  {
    assert [line][1..] == [];
    assert LineOps(line) + [] == LineOps(line);
  }

  lemma BoldMarkerText()
    ensures "&lt;" + "BOLD" + "&gt;" == "&lt;BOLD&gt;"
    ensures "<" + "BOLD" + ">" == BoldOpen && '<' !in "&lt;BOLD&gt;" && '&' !in "BOLD"
  {
  }

  // ---------------------------------------------------------------------
  // The list bullet
  // ---------------------------------------------------------------------

  /** The three UTF-8 bytes of a code point in U+0800..U+FFFF. */
  function Utf8Encode3(cp: nat): (bytes: seq<nat>)
    requires 0x800 <= cp < 0x10000
    ensures |bytes| == 3 && 0xE0 <= bytes[0] < 0xF0
    ensures 0x80 <= bytes[1] < 0xC0 && 0x80 <= bytes[2] < 0xC0
    ensures (bytes[0] - 0xE0) * 0x1000 + (bytes[1] - 0x80) * 0x40 + (bytes[2] - 0x80) == cp
  {
    [0xE0 + cp / 0x1000, 0x80 + (cp / 0x40) % 0x40, 0x80 + cp % 0x40]
  }

  /** One byte read as Windows-1252; the five bytes it leaves undefined
      give `None`. */
  function Cp1252(b: nat): (c: Option<char>)
    requires b < 0x100
    ensures (b < 0x80 || b >= 0xA0) ==> c == Some(b as char)
  {
    if b < 0x80 || b >= 0xA0 then Some(b as char)
    else
      var table: seq<int> := [
        0x20AC, -1, 0x201A, 0x0192, 0x201E, 0x2026, 0x2020, 0x2021,
        0x02C6, 0x2030, 0x0160, 0x2039, 0x0152, -1, 0x017D, -1,
        -1, 0x2018, 0x2019, 0x201C, 0x201D, 0x2022, 0x2013, 0x2014,
        0x02DC, 0x2122, 0x0161, 0x203A, 0x0153, -1, 0x017E, 0x0178];
      var cp := table[b - 0x80];
      if cp < 0 then None else Some(cp as char)
  }

  /** The list bullet is U+2022 encoded as UTF-8 and decoded as
      Windows-1252: what reaches the document is three characters, not a
      bullet. */
  lemma BulletIsMisencoded()
    ensures var bytes := Utf8Encode3(0x2022);
      && bytes == [0xE2, 0x80, 0xA2]
      && Cp1252(bytes[0]) == Some(Bullet[1])
      && Cp1252(bytes[1]) == Some(Bullet[2])
      && Cp1252(bytes[2]) == Some(Bullet[3])
    ensures |Bullet| == 5 && Bullet[0] == '\n' && Bullet[4] == ' ' && '\U{2022}' !in Bullet
  {
  }
}
