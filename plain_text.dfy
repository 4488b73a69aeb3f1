/**
 * `addPlainTextContent` of convert.js: one paragraph per line of the text,
 * and an extra half-line gap after an empty line that is followed by
 * another empty line.
 */
module PlainText {
  import opened JsText
  import opened DocOps

  /** The gap drawn after line `i`: only between two consecutive empty lines. */
  function Gap(lines: seq<string>, i: nat): (g: seq<Op>)
    requires i < |lines|
    ensures g == [] || (g == [MoveDown(0.5)] && i + 1 < |lines| && lines[i] == "" && lines[i + 1] == "")
    ensures i + 1 < |lines| && lines[i] == "" && lines[i + 1] == "" ==> g == [MoveDown(0.5)]
  {
    if i < |lines| - 1 && lines[i] == "" && lines[i + 1] == "" then [MoveDown(0.5)] else []
  }

  /** The calls made for lines `i..` of `lines`. */
  function PlainOpsFrom(lines: seq<string>, i: nat): seq<Op>
    requires i <= |lines|
    decreases |lines| - i
  {
    if i == |lines| then [] else [Text(lines[i])] + Gap(lines, i) + PlainOpsFrom(lines, i + 1)
  }

  /** The calls `addPlainTextContent(doc, text)` makes. */
  function PlainOps(text: string): seq<Op> {
    PlainOpsFrom(SplitLines(text), 0)
  }

  method AddPlainTextContent(text: string) returns (ops: seq<Op>)
    ensures ops == PlainOps(text)
  {
    var lines := SplitLines(text);
    ops := [];
    var index := 0;
    while index < |lines|
      invariant 0 <= index <= |lines|
      invariant ops + PlainOpsFrom(lines, index) == PlainOpsFrom(lines, 0)
      decreases |lines| - index
    {
      var lineOps := [Text(lines[index])];
      if index < |lines| - 1 && lines[index] == "" && lines[index + 1] == "" {
        lineOps := lineOps + [MoveDown(0.5)];
      }
      assert lineOps == [Text(lines[index])] + Gap(lines, index);
      ghost var rest := PlainOpsFrom(lines, index + 1);
      assert PlainOpsFrom(lines, index) == lineOps + rest;
      assert ops + (lineOps + rest) == (ops + lineOps) + rest;
      ops := ops + lineOps;
      index := index + 1;
    }
    assert ops + [] == ops;
  }

  /** The paragraphs drawn are exactly the lines, in order. */
  lemma {:induction false} PlainParagraphs(lines: seq<string>, i: nat)
    requires i <= |lines|
    ensures Paragraphs(PlainOpsFrom(lines, i)) == lines[i..]
    decreases |lines| - i
  {
    if i < |lines| {
      PlainParagraphs(lines, i + 1);
      var g := Gap(lines, i);
      ParagraphsAppend([Text(lines[i])] + g, PlainOpsFrom(lines, i + 1));
      ParagraphsAppend([Text(lines[i])], g);
      assert Paragraphs(g) == [];
      assert lines[i..] == [lines[i]] + lines[i + 1..];
    }
  }

  /** Every gap sits between the paragraphs of two consecutive empty lines,
      and every op is a paragraph or that gap. */
  predicate GapsBetweenEmpty(ops: seq<Op>) {
    && (forall k :: 0 <= k < |ops| ==> ops[k].Text? || ops[k] == MoveDown(0.5))
    && (forall k :: 0 <= k < |ops| && ops[k].MoveDown? ==>
          0 < k < |ops| - 1 && ops[k - 1] == Text("") && ops[k + 1] == Text(""))
  }

  lemma {:induction false} PlainGaps(lines: seq<string>, i: nat)
    requires i <= |lines|
    ensures i < |lines| ==> |PlainOpsFrom(lines, i)| > 0 && PlainOpsFrom(lines, i)[0] == Text(lines[i])
    ensures GapsBetweenEmpty(PlainOpsFrom(lines, i))
    decreases |lines| - i
  {
    if i < |lines| {
      PlainGaps(lines, i + 1);
      var rest := PlainOpsFrom(lines, i + 1);
      var g := Gap(lines, i);
      var ops := [Text(lines[i])] + g + rest;
      assert PlainOpsFrom(lines, i) == ops;
      var n := 1 + |g|;
      forall k | 0 <= k < |ops| ensures ops[k].Text? || ops[k] == MoveDown(0.5) {
        if k >= n { assert ops[k] == rest[k - n]; }
      }
      forall k | 0 <= k < |ops| && ops[k].MoveDown?
        ensures 0 < k < |ops| - 1 && ops[k - 1] == Text("") && ops[k + 1] == Text("")
      {
        if k >= n {
          assert ops[k] == rest[k - n];
          assert ops[k - 1] == rest[k - n - 1] && ops[k + 1] == rest[k - n + 1];
        } else {
          assert k == 1 && g == [MoveDown(0.5)];
          assert ops[2] == rest[0];
        }
      }
    }
  }

  /** The number of extra gaps is the number of consecutive empty pairs. */
  function EmptyPairs(lines: seq<string>, i: nat): nat
    requires i <= |lines|
    decreases |lines| - i
  {
    if i + 1 >= |lines| then 0
    else (if lines[i] == "" && lines[i + 1] == "" then 1 else 0) + EmptyPairs(lines, i + 1)
  }

  function Gaps(ops: seq<Op>): nat {
    if ops == [] then 0 else (if ops[0].MoveDown? then 1 else 0) + Gaps(ops[1..])
  }

  lemma {:induction false} GapsAppend(a: seq<Op>, b: seq<Op>)
    ensures Gaps(a + b) == Gaps(a) + Gaps(b)
  {
    if a == [] {
      assert a + b == b;
    } else {
      assert (a + b)[1..] == a[1..] + b;
      GapsAppend(a[1..], b);
    }
  }

  lemma {:induction false} PlainGapCount(lines: seq<string>, i: nat)
    requires i <= |lines|
    ensures Gaps(PlainOpsFrom(lines, i)) == EmptyPairs(lines, i)
    decreases |lines| - i
  {
    if i < |lines| {
      PlainGapCount(lines, i + 1);
      var g := Gap(lines, i);
      GapsAppend([Text(lines[i])] + g, PlainOpsFrom(lines, i + 1));
      GapsAppend([Text(lines[i])], g);
      assert Gaps([Text(lines[i])]) == 0;
      assert Gaps(g) == if g == [] then 0 else 1;
      if i + 1 == |lines| {
        assert PlainOpsFrom(lines, i + 1) == [];
      }
    }
  }

  /** The paragraphs are the lines of the text, and the gaps are one per
      pair of consecutive empty lines, each drawn between them. */
  lemma PlainOpsFacts(text: string)
    ensures Paragraphs(PlainOps(text)) == SplitLines(text)
    ensures GapsBetweenEmpty(PlainOps(text))
    ensures Gaps(PlainOps(text)) == EmptyPairs(SplitLines(text), 0)
  {
    var lines := SplitLines(text);
    PlainParagraphs(lines, 0);
    assert lines[0..] == lines;
    PlainGaps(lines, 0);
    PlainGapCount(lines, 0);
  }
}
