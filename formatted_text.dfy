/**
 * `addFormattedText` of convert.js: a left-to-right scanner that cuts one
 * line into runs marked bold or italic by the `<BOLD>…</BOLD>` and
 * `<ITALIC>…</ITALIC>` markers, and then draws each run in its font.
 */
module FormattedText {
  import opened JsText
  import opened DocOps

  const BoldOpen: string := "<BOLD>"
  const BoldClose: string := "</BOLD>"
  const ItalicOpen: string := "<ITALIC>"
  const ItalicClose: string := "</ITALIC>"

  /** One entry of the scanner's `parts` array. */
  datatype Part = Part(text: string, bold: bool, italic: bool)

  datatype Marker = NoMarker | BoldStart | ItalicStart

  /** Which opener the scan meets next from `boldStart` and `italicStart`,
      the two `indexOf` results: the earlier one. (The two openers differ
      in their second character, so they never start at the same place.) */
  function EarliestMarker(boldStart: int, italicStart: int): (m: (int, Marker))
    ensures m.1 == NoMarker <==> boldStart == -1 && italicStart == -1
    ensures m.1 == BoldStart ==> m.0 == boldStart && boldStart != -1
    ensures m.1 == ItalicStart ==> m.0 == italicStart && italicStart != -1
    ensures m.1 == NoMarker ==> m.0 == -1
    ensures m.1 != NoMarker ==> (boldStart == -1 || m.0 <= boldStart) && (italicStart == -1 || m.0 <= italicStart)
  {
    if boldStart != -1 && (italicStart == -1 || boldStart < italicStart) then (boldStart, BoldStart)
    else if italicStart != -1 then (italicStart, ItalicStart)
    else (-1, NoMarker)
  }

  /** A closer cannot start inside the opener it is searched after. */
  lemma CloserAfterOpener(text: string, open: string, close: string, at: int, k: int)
    requires |open| >= 2 && |close| >= 2 && open[0] == '<' && close[0] == '<' && close[1] == '/'
    requires forall j :: 1 <= j < |open| ==> open[j] != '<'
    requires open[1] != '/'
    requires OccursAt(text, open, at) && OccursAt(text, close, k) && at <= k
    ensures k >= at + |open|
  {
    forall j | at + 1 <= j < at + |open| ensures text[j] != '<' {
      assert text[j] == text[at..at + |open|][j - at];
    }
    assert text[at + 1] == text[at..at + |open|][1];
    assert text[k] == text[k..k + |close|][0];
    assert text[k + 1] == text[k..k + |close|][1];
  }

  lemma BoldCloserAfter(text: string, at: int, k: int)
    requires OccursAt(text, BoldOpen, at) && OccursAt(text, BoldClose, k) && at <= k
    ensures k >= at + 6
  {
    CloserAfterOpener(text, BoldOpen, BoldClose, at, k);
  }

  lemma ItalicCloserAfter(text: string, at: int, k: int)
    requires OccursAt(text, ItalicOpen, at) && OccursAt(text, ItalicClose, k) && at <= k
    ensures k >= at + 8
  {
    CloserAfterOpener(text, ItalicOpen, ItalicClose, at, k);
  }

  /** What one pass of the loop body pushes, and where `currentIndex` is
      afterwards (`|text|` for the pass that ends with `break`). */
  datatype Step = Step(parts: seq<Part>, next: nat)

  /** The plain part pushed for the text between `currentIndex` and the
      next marker, if there is any. */
  function Before(text: string, i: nat, nextMarker: int): (r: seq<Part>)
    requires i <= nextMarker <= |text|
    ensures |r| <= 1
  {
    if nextMarker > i then [Part(text[i..nextMarker], false, false)] else []
  }

  /** The opener a marker kind stands for. */
  function Opener(m: Marker): string {
    if m == BoldStart then BoldOpen else ItalicOpen
  }

  /** What a pass pushes for the marker at `nextMarker`, and where it goes on:
      the run up to the first closer, or the opener alone as literal text. */
  function MarkerStep(text: string, nextMarker: int, markerType: Marker): (st: Step)
    requires markerType != NoMarker && OccursAt(text, Opener(markerType), nextMarker)
    ensures nextMarker < st.next <= |text|
  {
    if markerType == BoldStart then
      var endMarker := IndexOf(text, BoldClose, nextMarker);
      if endMarker != -1 then
        BoldCloserAfter(text, nextMarker, endMarker);
        Step([Part(text[nextMarker + 6..endMarker], true, false)], endMarker + 7)
      else
        Step([Part(text[nextMarker..nextMarker + 6], false, false)], nextMarker + 6)
    else
      var endMarker := IndexOf(text, ItalicClose, nextMarker);
      if endMarker != -1 then
        ItalicCloserAfter(text, nextMarker, endMarker);
        Step([Part(text[nextMarker + 8..endMarker], false, true)], endMarker + 9)
      else
        Step([Part(text[nextMarker..nextMarker + 8], false, false)], nextMarker + 8)
  }

  /** One pass of the loop body from `currentIndex == i`. */
  function ScanStep(text: string, i: nat): (st: Step)
    requires i < |text|
    ensures i < st.next <= |text|
  {
    var m := EarliestMarker(IndexOf(text, BoldOpen, i), IndexOf(text, ItalicOpen, i));
    if m.1 == NoMarker then Step([Part(text[i..], false, false)], |text|)
    else
      var ms := MarkerStep(text, m.0, m.1);
      Step(Before(text, i, m.0) + ms.parts, ms.next)
  }

  /** The parts the loop pushes from `currentIndex == i` to the end. */
  function Scan(text: string, i: nat): seq<Part>
    requires i <= |text|
    decreases |text| - i
  {
    if i == |text| then []
    else
      var st := ScanStep(text, i);
      st.parts + Scan(text, st.next)
  }

  /** A part put back between its markers. */
  function Wrap(p: Part): string {
    if p.bold then BoldOpen + p.text + BoldClose
    else if p.italic then ItalicOpen + p.text + ItalicClose
    else p.text
  }

  /** The line the parts came from: each part put back between its markers. */
  function Markup(parts: seq<Part>): string {
    if parts == [] then "" else Wrap(parts[0]) + Markup(parts[1..])
  }

  lemma {:induction false} MarkupAppend(a: seq<Part>, b: seq<Part>)
    ensures Markup(a + b) == Markup(a) + Markup(b)
  {
    if a == [] {
      assert a + b == b;
    } else {
      assert (a + b)[1..] == a[1..] + b;
      MarkupAppend(a[1..], b);
    }
  }

  /** A matched pair: the opener, the run, the closer. */
  lemma PairWrap(text: string, nm: int, open: string, e: int, close: string)
    requires OccursAt(text, open, nm) && OccursAt(text, close, e) && nm + |open| <= e
    ensures text[nm..e + |close|] == open + text[nm + |open|..e] + close
  {
    assert text[nm..e + |close|] == text[nm..nm + |open|] + text[nm + |open|..e] + text[e..e + |close|];
  }

  /** The text before a marker, as a part, is that text. */
  lemma BeforeMarkup(text: string, i: nat, nm: int)
    requires i <= nm <= |text|
    ensures Markup(Before(text, i, nm)) == text[i..nm]
  {
    if nm > i {
      assert Markup([Part(text[i..nm], false, false)]) == text[i..nm];
    }
  }

  /** The parts pushed for a bold marker are the text it consumed. */
  lemma BoldStepMarkup(text: string, nm: int)
    requires OccursAt(text, BoldOpen, nm)
    ensures var st := MarkerStep(text, nm, BoldStart); Markup(st.parts) == text[nm..st.next]
  {
    var e := IndexOf(text, BoldClose, nm);
    if e != -1 {
      BoldCloserAfter(text, nm, e);
      var p := Part(text[nm + 6..e], true, false);
      PairWrap(text, nm, BoldOpen, e, BoldClose);
      assert Markup([p]) == Wrap(p);
    } else {
      var p := Part(text[nm..nm + 6], false, false);
      assert Markup([p]) == Wrap(p);
    }
  }

  /** The parts pushed for an italic marker are the text it consumed. */
  lemma ItalicStepMarkup(text: string, nm: int)
    requires OccursAt(text, ItalicOpen, nm)
    ensures var st := MarkerStep(text, nm, ItalicStart); Markup(st.parts) == text[nm..st.next]
  {
    var e := IndexOf(text, ItalicClose, nm);
    if e != -1 {
      ItalicCloserAfter(text, nm, e);
      var p := Part(text[nm + 8..e], false, true);
      PairWrap(text, nm, ItalicOpen, e, ItalicClose);
      assert Markup([p]) == Wrap(p);
    } else {
      var p := Part(text[nm..nm + 8], false, false);
      assert Markup([p]) == Wrap(p);
    }
  }

  /** One pass pushes parts that, put back between their markers, are the
      text it consumed. */
  lemma StepMarkup(text: string, i: nat)
    requires i < |text|
    ensures Markup(ScanStep(text, i).parts) == text[i..ScanStep(text, i).next]
  {
    var m := EarliestMarker(IndexOf(text, BoldOpen, i), IndexOf(text, ItalicOpen, i));
    if m.1 == NoMarker {
      var p := Part(text[i..], false, false);
      assert Markup([p]) == Wrap(p);
    } else {
      var nm := m.0;
      var ms := MarkerStep(text, nm, m.1);
      if m.1 == BoldStart {
        BoldStepMarkup(text, nm);
      } else {
        ItalicStepMarkup(text, nm);
      }
      BeforeMarkup(text, i, nm);
      MarkupAppend(Before(text, i, nm), ms.parts);
      SliceSplit(text, i, nm, ms.next);
    }
  }

  /** Round trip: putting every run back between its markers gives the line
      the scan started from, so the scan loses and invents no text. */
  lemma {:induction false} ScanMarkup(text: string, i: nat)
    requires i <= |text|
    ensures Markup(Scan(text, i)) == text[i..]
    decreases |text| - i
  {
    if i < |text| {
      var st := ScanStep(text, i);
      assert Scan(text, i) == st.parts + Scan(text, st.next);
      StepMarkup(text, i);
      ScanMarkup(text, st.next);
      JoinMarkup(text, i, st.next, st.parts, Scan(text, st.next));
    }
  }

  /** Parts marking up `text[i..n]` followed by parts marking up `text[n..]`
      mark up `text[i..]`. */
  lemma JoinMarkup(text: string, i: nat, n: nat, front: seq<Part>, rest: seq<Part>)
    requires i <= n <= |text|
    requires Markup(front) == text[i..n] && Markup(rest) == text[n..]
    ensures Markup(front + rest) == text[i..]
  {
    MarkupAppend(front, rest);
    SliceSplit(text, i, n, |text|);
    assert text[i..] == text[i..|text|];
  }

  /** No marker starts anywhere in `s`. */
  predicate MarkerFree(s: string) {
    forall k :: 0 <= k <= |s| ==> !OccursAt(s, BoldOpen, k) && !OccursAt(s, ItalicOpen, k)
  }

  /** What each run may hold: a bold run is never also italic and holds no
      bold closer (it ends at the first one), an italic run likewise; a
      plain run is either an opener left without its closer, taken as
      literal text, or text in which no opener starts. */
  predicate WellFormed(p: Part) {
    && !(p.bold && p.italic)
    && (p.bold ==> forall k :: 0 <= k <= |p.text| ==> !OccursAt(p.text, BoldClose, k))
    && (p.italic ==> forall k :: 0 <= k <= |p.text| ==> !OccursAt(p.text, ItalicClose, k))
    && (!p.bold && !p.italic ==> p.text == BoldOpen || p.text == ItalicOpen || MarkerFree(p.text))
  }

  /** An occurrence inside a slice is an occurrence in the whole. */
  lemma OccursInSlice(s: string, pat: string, lo: int, hi: int, k: int)
    requires 0 <= lo <= hi <= |s| && OccursAt(s[lo..hi], pat, k)
    ensures OccursAt(s, pat, lo + k)
  {
    forall j | 0 <= j < |pat| ensures s[lo + k + j] == pat[j] {
      assert s[lo..hi][k..k + |pat|][j] == pat[j];
    }
    assert s[lo + k..lo + k + |pat|] == pat;
  }

  /** A slice of `s` that ends before every marker occurrence at or after
      its start is marker free. */
  lemma SliceMarkerFree(text: string, lo: int, hi: int)
    requires 0 <= lo <= hi <= |text|
    requires forall k :: lo <= k <= |text| && k + 6 <= hi ==> !OccursAt(text, BoldOpen, k)
    requires forall k :: lo <= k <= |text| && k + 8 <= hi ==> !OccursAt(text, ItalicOpen, k)
    ensures MarkerFree(text[lo..hi])
  {
    forall k | 0 <= k <= |text[lo..hi]|
      ensures !OccursAt(text[lo..hi], BoldOpen, k) && !OccursAt(text[lo..hi], ItalicOpen, k)
    {
      if OccursAt(text[lo..hi], BoldOpen, k) { OccursInSlice(text, BoldOpen, lo, hi, k); }
      if OccursAt(text[lo..hi], ItalicOpen, k) { OccursInSlice(text, ItalicOpen, lo, hi, k); }
    }
  }

  /** A run between an opener and the first closer after it holds no closer. */
  lemma RunCloserFree(text: string, lo: int, hi: int, close: string)
    requires 0 <= lo <= hi <= |text| && |close| > 0
    requires forall k :: lo <= k < hi ==> !OccursAt(text, close, k)
    ensures forall k :: 0 <= k <= |text[lo..hi]| ==> !OccursAt(text[lo..hi], close, k)
  {
    forall k | 0 <= k <= |text[lo..hi]| ensures !OccursAt(text[lo..hi], close, k) {
      if OccursAt(text[lo..hi], close, k) { OccursInSlice(text, close, lo, hi, k); }
    }
  }

  lemma MarkerStepWellFormed(text: string, nm: int, mt: Marker)
    requires mt != NoMarker && OccursAt(text, Opener(mt), nm)
    ensures forall p :: p in MarkerStep(text, nm, mt).parts ==> WellFormed(p)
  {
    if mt == BoldStart {
      var e := IndexOf(text, BoldClose, nm);
      if e != -1 {
        BoldCloserAfter(text, nm, e);
        RunCloserFree(text, nm + 6, e, BoldClose);
      } else {
        assert text[nm..nm + 6] == BoldOpen;
      }
    } else {
      var e := IndexOf(text, ItalicClose, nm);
      if e != -1 {
        ItalicCloserAfter(text, nm, e);
        RunCloserFree(text, nm + 8, e, ItalicClose);
      } else {
        assert text[nm..nm + 8] == ItalicOpen;
      }
    }
  }

  lemma StepWellFormed(text: string, i: nat)
    requires i < |text|
    ensures forall p :: p in ScanStep(text, i).parts ==> WellFormed(p)
  {
    var m := EarliestMarker(IndexOf(text, BoldOpen, i), IndexOf(text, ItalicOpen, i));
    if m.1 == NoMarker {
      SliceMarkerFree(text, i, |text|);
      assert text[i..] == text[i..|text|];
    } else {
      SliceMarkerFree(text, i, m.0);
      MarkerStepWellFormed(text, m.0, m.1);
    }
  }

  lemma {:induction false} ScanWellFormed(text: string, i: nat)
    requires i <= |text|
    ensures forall p :: p in Scan(text, i) ==> WellFormed(p)
    decreases |text| - i
  {
    if i < |text| {
      StepWellFormed(text, i);
      ScanWellFormed(text, ScanStep(text, i).next);
    }
  }

  // ---------------------------------------------------------------------
  // What a pass means, stated without the search calls
  // ---------------------------------------------------------------------

  /** The closer of a marker kind. */
  function Closer(m: Marker): string {
    if m == BoldStart then BoldClose else ItalicClose
  }

  /** Where the scan goes on after a closer of kind `m` that starts at `e`. */
  function CloserEnd(m: Marker, e: int): int {
    e + |Closer(m)|
  }

  /** The part the text `s` between a matched pair of kind `m` becomes. */
  function Styled(m: Marker, s: string): Part {
    Part(s, m == BoldStart, m == ItalicStart)
  }

  /** No closer of kind `m` starts at or after `at`. */
  predicate Unclosed(text: string, m: Marker, at: int) {
    forall k :: at <= k <= |text| ==> !OccursAt(text, Closer(m), k)
  }

  /** `e` is where the first closer of kind `m` at or after `at` starts. */
  predicate FirstCloser(text: string, m: Marker, at: int, e: int) {
    at <= e && OccursAt(text, Closer(m), e) && forall k :: at <= k < e ==> !OccursAt(text, Closer(m), k)
  }

  /** No opener of either kind starts at a position in `[lo, hi)`. */
  predicate NoOpenerIn(text: string, lo: int, hi: int) {
    forall k :: lo <= k < hi ==> !OccursAt(text, BoldOpen, k) && !OccursAt(text, ItalicOpen, k)
  }

  /** What the pass does at an opener: with a closer of its kind after it,
      the text up to the first such closer becomes one styled part, both
      markers dropped, and the scan goes on after that closer; with none,
      the opener alone is pushed as plain text and the scan goes on after
      it. */
  lemma MarkerStepCases(text: string, nm: int, mt: Marker)
    requires mt != NoMarker && OccursAt(text, Opener(mt), nm)
    ensures Unclosed(text, mt, nm) ==>
      MarkerStep(text, nm, mt) == Step([Part(Opener(mt), false, false)], nm + |Opener(mt)|)
    ensures !Unclosed(text, mt, nm) ==> exists e :: FirstCloser(text, mt, nm, e)
    ensures forall e :: FirstCloser(text, mt, nm, e) ==>
      && nm + |Opener(mt)| <= e
      && MarkerStep(text, nm, mt) == Step([Styled(mt, text[nm + |Opener(mt)|..e])], CloserEnd(mt, e))
  {
    var close := Closer(mt);
    var e0 := IndexOf(text, close, nm);
    assert text[nm..nm + |Opener(mt)|] == Opener(mt);
    if Unclosed(text, mt, nm) {
      assert e0 == -1;
    } else {
      var k :| nm <= k <= |text| && OccursAt(text, close, k);
      assert e0 != -1;
      assert FirstCloser(text, mt, nm, e0);
    }
    forall e | FirstCloser(text, mt, nm, e)
      ensures nm + |Opener(mt)| <= e
      ensures MarkerStep(text, nm, mt) == Step([Styled(mt, text[nm + |Opener(mt)|..e])], CloserEnd(mt, e))
    {
      MarkerStepPair(text, nm, mt, e);
    }
  }

  /** The matched-pair half of MarkerStepCases, for one closer position. */
  lemma MarkerStepPair(text: string, nm: int, mt: Marker, e: int)
    requires mt != NoMarker && OccursAt(text, Opener(mt), nm) && FirstCloser(text, mt, nm, e)
    ensures nm + |Opener(mt)| <= e
    ensures MarkerStep(text, nm, mt) == Step([Styled(mt, text[nm + |Opener(mt)|..e])], CloserEnd(mt, e))
  {
    var e0 := IndexOf(text, Closer(mt), nm);
    assert e0 != -1;
    assert e0 == e;
    if mt == BoldStart { BoldCloserAfter(text, nm, e); } else { ItalicCloserAfter(text, nm, e); }
  }

  /** Two different openers cannot start at the same position. */
  lemma OpenersDiffer(text: string, m: int)
    requires OccursAt(text, BoldOpen, m)
    ensures !OccursAt(text, ItalicOpen, m)
  {
    assert text[m + 1] == text[m..m + 6][1];
    if m + 8 <= |text| {
      assert text[m..m + 8][1] == text[m + 1];
    }
  }

  /** With no opener between `i` and `m`, the opener at `m` is the one the
      pass from `i` picks. */
  lemma EarliestAt(text: string, i: nat, m: int, mt: Marker)
    requires i <= m && mt != NoMarker && OccursAt(text, Opener(mt), m) && NoOpenerIn(text, i, m)
    ensures m <= |text|
    ensures EarliestMarker(IndexOf(text, BoldOpen, i), IndexOf(text, ItalicOpen, i)) == (m, mt)
  {
    var b := IndexOf(text, BoldOpen, i);
    var t := IndexOf(text, ItalicOpen, i);
    if mt == BoldStart {
      assert b == m;
      OpenersDiffer(text, m);
      assert t == -1 || t > m;
    } else {
      assert t == m;
      if OccursAt(text, BoldOpen, m) { OpenersDiffer(text, m); }
      assert b == -1 || b > m;
    }
  }

  /** A matched pair: the text before the opener is one plain part (none
      when it is empty), the text between the opener and the first closer
      of its kind one styled part without either marker, and the scan
      goes on after the closer. */
  lemma ScanPair(text: string, i: nat, m: int, mt: Marker, e: int)
    requires i <= m && mt != NoMarker && OccursAt(text, Opener(mt), m) && NoOpenerIn(text, i, m)
    requires FirstCloser(text, mt, m, e)
    ensures m + |Opener(mt)| <= e && CloserEnd(mt, e) <= |text|
    ensures Scan(text, i) == Before(text, i, m) + [Styled(mt, text[m + |Opener(mt)|..e])] + Scan(text, CloserEnd(mt, e))
  {
    MarkerStepPair(text, m, mt, e);
    StepAt(text, i, m, mt);
  }

  /** An opener with no closer of its kind after it stays in the text as a
      plain part of its own, and the scan goes on after it. */
  lemma ScanUnclosed(text: string, i: nat, m: int, mt: Marker)
    requires i <= m && mt != NoMarker && OccursAt(text, Opener(mt), m) && NoOpenerIn(text, i, m)
    requires Unclosed(text, mt, m)
    ensures m + |Opener(mt)| <= |text|
    ensures Scan(text, i) == Before(text, i, m) + [Part(Opener(mt), false, false)] + Scan(text, m + |Opener(mt)|)
  {
    MarkerStepCases(text, m, mt);
    StepAt(text, i, m, mt);
  }

  /** The scan from `i` when the opener at `m` is the first one after `i`. */
  lemma StepAt(text: string, i: nat, m: int, mt: Marker)
    requires i <= m && mt != NoMarker && OccursAt(text, Opener(mt), m) && NoOpenerIn(text, i, m)
    ensures Scan(text, i) == Before(text, i, m) + MarkerStep(text, m, mt).parts + Scan(text, MarkerStep(text, m, mt).next)
  {
    EarliestAt(text, i, m, mt);
    var st := ScanStep(text, i);
    assert st.parts == Before(text, i, m) + MarkerStep(text, m, mt).parts;
    assert Scan(text, i) == st.parts + Scan(text, st.next);
  }

  /** Text in which no opener starts is one plain part. */
  lemma ScanNoOpener(text: string, i: nat)
    requires i < |text| && NoOpenerIn(text, i, |text|)
    ensures Scan(text, i) == [Part(text[i..], false, false)]
  {
    var b := IndexOf(text, BoldOpen, i);
    var t := IndexOf(text, ItalicOpen, i);
    assert b == -1;
    assert t == -1;
    assert Scan(text, i) == ScanStep(text, i).parts + Scan(text, |text|);
  }
}

module FormattedTextOps {
  import opened JsText
  import opened DocOps
  import opened FormattedText

  /** The font `addFormattedText` selects for a part. */
  function PartFont(p: Part): Font {
    if p.bold && p.italic then HelveticaBoldOblique
    else if p.bold then HelveticaBold
    else if p.italic then HelveticaOblique
    else Helvetica
  }

  function PartOps(parts: seq<Part>): (ops: seq<Op>)
    ensures |ops| == |parts|
    ensures forall k :: 0 <= k < |parts| ==> ops[k] == Run(parts[k].text, PartFont(parts[k]))
  {
    seq(|parts|, k requires 0 <= k < |parts| => Run(parts[k].text, PartFont(parts[k])))
  }

  /** The calls `addFormattedText(doc, text)` makes: one continued run per
      part, then `doc.text('')` to end the line. */
  function FormattedOps(text: string): seq<Op> {
    PartOps(Scan(text, 0)) + [Text("")]
  }

  /** The runs of a drawn line put back between markers by their font. */
  function RunMarkup(ops: seq<Op>): string {
    if ops == [] then ""
    else
      (match ops[0]
       case Run(s, HelveticaBold) => BoldOpen + s + BoldClose
       case Run(s, HelveticaOblique) => ItalicOpen + s + ItalicClose
       case Run(s, _) => s
       case _ => "") + RunMarkup(ops[1..])
  }

  lemma {:induction false} RunMarkupParts(parts: seq<Part>)
    requires forall p :: p in parts ==> !(p.bold && p.italic)
    ensures RunMarkup(PartOps(parts)) == Markup(parts)
  {
    if parts != [] {
      assert PartOps(parts)[1..] == PartOps(parts[1..]);
      RunMarkupParts(parts[1..]);
    }
  }

  lemma {:induction false} RunMarkupAppend(a: seq<Op>, b: seq<Op>)
    ensures RunMarkup(a + b) == RunMarkup(a) + RunMarkup(b)
  {
    if a == [] {
      assert a + b == b;
    } else {
      assert (a + b)[1..] == a[1..] + b;
      RunMarkupAppend(a[1..], b);
    }
  }

  /** Every run `addFormattedText` draws is well formed, so none is both
      bold and italic and the Helvetica-BoldOblique branch is never taken;
      and putting each bold run back between `<BOLD>` markers and each
      oblique run between `<ITALIC>` markers gives the line back. */
  lemma FormattedOpsFacts(text: string)
    ensures forall k :: 0 <= k < |FormattedOps(text)| && FormattedOps(text)[k].Run? ==>
      FormattedOps(text)[k].font != HelveticaBoldOblique
    ensures RunMarkup(FormattedOps(text)) == text
  {
    ScanWellFormed(text, 0);
    NoBoldObliqueRun(Scan(text, 0));
    LineMarkup(text);
  }

  /** Drawing parts none of which is both bold and italic never selects
      Helvetica-BoldOblique. */
  lemma NoBoldObliqueRun(parts: seq<Part>)
    requires forall p :: p in parts ==> WellFormed(p)
    ensures forall k :: 0 <= k < |PartOps(parts) + [Text("")]| && (PartOps(parts) + [Text("")])[k].Run? ==>
      (PartOps(parts) + [Text("")])[k].font != HelveticaBoldOblique
  {
    var ops := PartOps(parts) + [Text("")];
    forall k | 0 <= k < |ops| && ops[k].Run?
      ensures ops[k].font != HelveticaBoldOblique
    {
      assert k < |parts|;
      assert parts[k] in parts;
    }
  }

  lemma LineMarkup(text: string)
    ensures RunMarkup(FormattedOps(text)) == text
  {
    var parts := Scan(text, 0);
    ScanWellFormed(text, 0);
    ScanMarkup(text, 0);
    RunMarkupParts(parts);
    RunMarkupAppend(PartOps(parts), [Text("")]);
    assert RunMarkup([Text("")]) == "";
  }

  /** How `addFormattedText` draws the first marker of a line that has a
      closer of its kind after it: the text before the marker in the
      regular font, then the enclosed text alone, both markers gone, in
      Helvetica-Bold for `<BOLD>` and Helvetica-Oblique for `<ITALIC>`. */
  lemma PairDrawn(text: string, m: int, mt: Marker, e: int)
    requires mt != NoMarker && OccursAt(text, Opener(mt), m) && NoOpenerIn(text, 0, m)
    requires FirstCloser(text, mt, m, e)
    ensures m + |Opener(mt)| <= e
    ensures m > 0 ==> |FormattedOps(text)| > 1 && FormattedOps(text)[0] == Run(text[..m], Helvetica)
    ensures var k := if m > 0 then 1 else 0;
      |FormattedOps(text)| > k &&
      FormattedOps(text)[k] == Run(text[m + |Opener(mt)|..e], if mt == BoldStart then HelveticaBold else HelveticaOblique)
  {
    PairParts(text, m, mt, e);
    var k := if m > 0 then 1 else 0;
    OpsOfPart(text, k);
    if m > 0 { OpsOfPart(text, 0); }
  }

  /** The parts of a line whose first marker is matched. */
  lemma PairParts(text: string, m: int, mt: Marker, e: int)
    requires mt != NoMarker && OccursAt(text, Opener(mt), m) && NoOpenerIn(text, 0, m)
    requires FirstCloser(text, mt, m, e)
    ensures m + |Opener(mt)| <= e
    ensures var parts := Scan(text, 0); var k := if m > 0 then 1 else 0;
      && |parts| > k && parts[k] == Styled(mt, text[m + |Opener(mt)|..e])
      && (m > 0 ==> parts[0] == Part(text[..m], false, false))
  {
    ScanPair(text, 0, m, mt, e);
    var parts := Scan(text, 0);
    var k := if m > 0 then 1 else 0;
    assert parts[k] == Styled(mt, text[m + |Opener(mt)|..e]);
    if m > 0 {
      assert parts[0] == Part(text[0..m], false, false);
      assert text[0..m] == text[..m];
    }
  }

  /** Run `k` of a line is drawn from part `k` of its scan. */
  lemma OpsOfPart(text: string, k: int)
    requires 0 <= k < |Scan(text, 0)|
    ensures |FormattedOps(text)| > k
    ensures FormattedOps(text)[k] == Run(Scan(text, 0)[k].text, PartFont(Scan(text, 0)[k]))
  {
  }

  /** The first marker of a line with no closer of its kind after it is
      drawn as literal text in the regular font, after the text before it. */
  lemma UnclosedOpenerDrawn(text: string, m: int, mt: Marker)
    requires mt != NoMarker && OccursAt(text, Opener(mt), m) && NoOpenerIn(text, 0, m)
    requires Unclosed(text, mt, m)
    ensures m > 0 ==> |FormattedOps(text)| > 1 && FormattedOps(text)[0] == Run(text[..m], Helvetica)
    ensures var k := if m > 0 then 1 else 0;
      |FormattedOps(text)| > k && FormattedOps(text)[k] == Run(Opener(mt), Helvetica)
  {
    ScanUnclosed(text, 0, m, mt);
    var parts := Scan(text, 0);
    var k := if m > 0 then 1 else 0;
    assert parts[k] == Part(Opener(mt), false, false);
    if m > 0 {
      assert parts[0] == Part(text[0..m], false, false);
      assert text[0..m] == text[..m];
    }
  }

  /** What the loop body of `addFormattedText` pushes for the marker at
      `nextMarker`, and where `currentIndex` goes. */
  method MarkerRun(text: string, nextMarker: int, markerType: Marker) returns (run: seq<Part>, next: nat)
    requires markerType != NoMarker && OccursAt(text, Opener(markerType), nextMarker)
    ensures Step(run, next) == MarkerStep(text, nextMarker, markerType)
    ensures Unclosed(text, markerType, nextMarker) ==>
      run == [Part(Opener(markerType), false, false)] && next == nextMarker + |Opener(markerType)|
    ensures forall e :: FirstCloser(text, markerType, nextMarker, e) ==>
      && nextMarker + |Opener(markerType)| <= e
      && run == [Styled(markerType, text[nextMarker + |Opener(markerType)|..e])]
      && next == CloserEnd(markerType, e)
  {
    MarkerStepCases(text, nextMarker, markerType);
    if markerType == BoldStart {
      var endMarker := IndexOf(text, BoldClose, nextMarker);
      if endMarker != -1 {
        BoldCloserAfter(text, nextMarker, endMarker);
        run := [Part(text[nextMarker + 6..endMarker], true, false)];
        next := endMarker + 7;
      } else {
        run := [Part(text[nextMarker..nextMarker + 6], false, false)];
        next := nextMarker + 6;
      }
    } else {
      var endMarker := IndexOf(text, ItalicClose, nextMarker);
      if endMarker != -1 {
        ItalicCloserAfter(text, nextMarker, endMarker);
        run := [Part(text[nextMarker + 8..endMarker], false, true)];
        next := endMarker + 9;
      } else {
        run := [Part(text[nextMarker..nextMarker + 8], false, false)];
        next := nextMarker + 8;
      }
    }
  }

  /** One pass of the loop of `addFormattedText` from `currentIndex`: the
      parts it pushes and the next `currentIndex`. The pass that ends the
      loop with `break` returns the length of the text. */
  method ScanPass(text: string, currentIndex: nat) returns (run: seq<Part>, next: nat)
    requires currentIndex < |text|
    ensures Step(run, next) == ScanStep(text, currentIndex)
  {
    var boldStart := IndexOf(text, BoldOpen, currentIndex);
    var italicStart := IndexOf(text, ItalicOpen, currentIndex);

    var nextMarker := -1;
    var markerType := NoMarker;
    if boldStart != -1 && (italicStart == -1 || boldStart < italicStart) {
      nextMarker := boldStart;
      markerType := BoldStart;
    } else if italicStart != -1 {
      nextMarker := italicStart;
      markerType := ItalicStart;
    }
    assert (nextMarker, markerType) == EarliestMarker(boldStart, italicStart);

    if nextMarker == -1 {
      return [Part(text[currentIndex..], false, false)], |text|;
    }

    run := [];
    if nextMarker > currentIndex {
      run := [Part(text[currentIndex..nextMarker], false, false)];
    }
    assert run == Before(text, currentIndex, nextMarker);
    var marked, after := MarkerRun(text, nextMarker, markerType);
    run := run + marked;
    next := after;
  }

  /** The first loop of `addFormattedText`: cut `text` into parts. */
  method SplitMarkers(text: string) returns (parts: seq<Part>)
    ensures parts == Scan(text, 0)
    ensures Markup(parts) == text
    ensures forall p :: p in parts ==> WellFormed(p)
  {
    parts := [];
    var currentIndex := 0;
    while currentIndex < |text|
      invariant 0 <= currentIndex <= |text|
      invariant parts + Scan(text, currentIndex) == Scan(text, 0)
      decreases |text| - currentIndex
    {
      var run, next := ScanPass(text, currentIndex);
      assert Scan(text, currentIndex) == run + Scan(text, next);
      assert (parts + run) + Scan(text, next) == parts + (run + Scan(text, next));
      parts := parts + run;
      currentIndex := next;
    }
    assert parts + [] == parts;
    ScanMarkup(text, 0);
    ScanWellFormed(text, 0);
  }

  /** `addFormattedText`: the marker scanner loop, then the drawing loop. */
  method AddFormattedText(text: string) returns (ops: seq<Op>)
    ensures ops == FormattedOps(text)
    ensures forall k :: 0 <= k < |ops| && ops[k].Run? ==> ops[k].font != HelveticaBoldOblique
    ensures RunMarkup(ops) == text
  {
    var parts := SplitMarkers(text);
    ops := [];
    var k := 0;
    while k < |parts|
      invariant 0 <= k <= |parts|
      invariant |ops| == k
      invariant forall j :: 0 <= j < k ==> ops[j] == Run(parts[j].text, PartFont(parts[j]))
    {
      ops := ops + [Run(parts[k].text, PartFont(parts[k]))];
      k := k + 1;
    }
    assert ops == PartOps(parts);
    ops := ops + [Text("")];
    FormattedOpsFacts(text);
  }
}
