/**
 * The line merger of the receipt package (`mergeOCRlines`).
 *
 * OCR lines are grouped into buckets by the vertical position of their first
 * word. Buckets are kept in the order they were opened; a line joins the
 * first bucket whose anchor is within one unit of its own anchor, and opens
 * a new bucket otherwise. A bucket's anchor is fixed when it is opened.
 */
module Merger {
  import opened GoStrings

  /** An OCR word; only its top coordinate matters to the merger. */
  datatype OCRWord = OCRWord(top: int)

  /** An OCR line: its words and its text. */
  datatype OCRLine = OCRLine(words: seq<OCRWord>, lineText: string)

  /** A bucket: the anchor it was opened with and the text gathered so far. */
  datatype MergedLine = MergedLine(top: int, lineText: string)

  /** `top` lies within one unit of `anchor`, both ends included. */
  predicate Near(top: int, anchor: int)
  {
    anchor - 1 <= top <= anchor + 1
  }

  /** A line with words has an anchor: the top of its first word. */
  predicate HasWords(line: OCRLine)
  {
    |line.words| > 0
  }

  function Anchor(line: OCRLine): int
    requires HasWords(line)
  {
    line.words[0].top
  }

  /** Index of the first bucket near `top`, or `|buckets|` when there is none. */
  function FirstNear(buckets: seq<MergedLine>, top: int): (j: nat)
    ensures j <= |buckets|
    ensures j < |buckets| ==> Near(top, buckets[j].top)
    ensures forall k :: 0 <= k < j ==> !Near(top, buckets[k].top)
  {
    if buckets == [] then 0
    else if Near(top, buckets[0].top) then 0
    else 1 + FirstNear(buckets[1..], top)
  }

  /** A bucket with `text` added after a single space. */
  function Extend(b: MergedLine, text: string): MergedLine
  {
    MergedLine(b.top, b.lineText + " " + text)
  }

  /** One step of the merger for a line with anchor `top` and text `text`. */
  function Insert(buckets: seq<MergedLine>, top: int, text: string): seq<MergedLine>
  {
    var j := FirstNear(buckets, top);
    if j < |buckets| then buckets[j := Extend(buckets[j], text)]
    else buckets + [MergedLine(top, text)]
  }

  /** One step of the merger for a whole OCR line: a line without words is skipped. */
  function Place(buckets: seq<MergedLine>, line: OCRLine): seq<MergedLine>
  {
    if HasWords(line) then Insert(buckets, Anchor(line), line.lineText) else buckets
  }

  /** The buckets after all of `lines` have been placed, first to last. */
  function Merge(lines: seq<OCRLine>): seq<MergedLine>
    decreases |lines|
  {
    if lines == [] then []
    else Place(Merge(lines[..|lines| - 1]), lines[|lines| - 1])
  }

  /** Any two anchors differ by more than one unit. */
  predicate Separated(buckets: seq<MergedLine>)
  {
    forall i, j :: 0 <= i < j < |buckets| ==> !Near(buckets[j].top, buckets[i].top)
  }

  /** The lines that have words, in their order. */
  function WithWords(lines: seq<OCRLine>): seq<OCRLine>
    decreases |lines|
  {
    if lines == [] then []
    else
      var last := lines[|lines| - 1];
      WithWords(lines[..|lines| - 1]) + (if HasWords(last) then [last] else [])
  }

  /**
   * `mergeOCRlines`: skips lines without words, then scans the buckets in
   * order and extends the first near one, or appends a new bucket.
   */
  method MergeOCRLines(ocrLines: seq<OCRLine>) returns (mergedLines: seq<MergedLine>)
    ensures mergedLines == Merge(ocrLines)
    ensures Separated(mergedLines)
    ensures |mergedLines| <= |WithWords(ocrLines)|
  {
    mergedLines := [];
    for n := 0 to |ocrLines|
      invariant mergedLines == Merge(ocrLines[..n])
    {
      assert ocrLines[..n + 1][..n] == ocrLines[..n];
      var line := ocrLines[n];
      if |line.words| == 0 {
        continue;
      }
      var topValue := line.words[0].top;
      var found := false;
      ghost var before := mergedLines;
      var i := 0;
      while i < |mergedLines|
        invariant 0 <= i <= |mergedLines|
        invariant !found ==> mergedLines == before
        invariant !found ==> forall k :: 0 <= k < i ==> !Near(topValue, before[k].top)
        invariant found ==> mergedLines == Insert(before, topValue, line.lineText)
      {
        if topValue >= mergedLines[i].top - 1 && topValue <= mergedLines[i].top + 1 {
          assert FirstNear(before, topValue) == i;
          mergedLines := mergedLines[i := MergedLine(mergedLines[i].top, mergedLines[i].lineText + " " + line.lineText)];
          found := true;
          break;
        }
        i := i + 1;
      }
      if !found {
        assert FirstNear(before, topValue) == |before|;
        mergedLines := mergedLines + [MergedLine(topValue, line.lineText)];
      }
    }
    assert ocrLines[..|ocrLines|] == ocrLines;
    MergeSeparated(ocrLines);
    MergeLength(ocrLines);
  }

  // ---------------------------------------------------------------------------
  // One step

  /**
   * A line joins the lowest-index bucket within one unit of its anchor and
   * leaves every other bucket as it was; when no bucket qualifies, a new
   * bucket is appended and the existing ones are untouched.
   */
  lemma InsertStep(buckets: seq<MergedLine>, top: int, text: string)
    ensures var r := Insert(buckets, top, text);
            (exists k :: 0 <= k < |buckets| && Near(top, buckets[k].top)) ==>
              exists j :: 0 <= j < |buckets| && Near(top, buckets[j].top) &&
                (forall k :: 0 <= k < j ==> !Near(top, buckets[k].top)) &&
                |r| == |buckets| &&
                r[j] == MergedLine(buckets[j].top, buckets[j].lineText + " " + text) &&
                (forall k :: 0 <= k < |buckets| && k != j ==> r[k] == buckets[k])
    ensures (forall k :: 0 <= k < |buckets| ==> !Near(top, buckets[k].top)) ==>
              Insert(buckets, top, text) == buckets + [MergedLine(top, text)]
  {
    var j := FirstNear(buckets, top);
    if exists k :: 0 <= k < |buckets| && Near(top, buckets[k].top) {
      var k :| 0 <= k < |buckets| && Near(top, buckets[k].top);
      assert j <= k;
    }
  }

  /** A step never moves an anchor, and adds at most one bucket. */
  lemma InsertKeepsAnchors(buckets: seq<MergedLine>, top: int, text: string)
    ensures var r := Insert(buckets, top, text);
            |buckets| <= |r| <= |buckets| + 1 &&
            (forall k :: 0 <= k < |buckets| ==> r[k].top == buckets[k].top) &&
            (|r| == |buckets| + 1 ==> r[|buckets|] == MergedLine(top, text))
  {
  }

  /** A step keeps the anchors more than one unit apart. */
  lemma InsertSeparated(buckets: seq<MergedLine>, top: int, text: string)
    requires Separated(buckets)
    ensures Separated(Insert(buckets, top, text))
  {
    var r := Insert(buckets, top, text);
    var j := FirstNear(buckets, top);
    forall a, b | 0 <= a < b < |r|
      ensures !Near(r[b].top, r[a].top)
    {
      if b < |buckets| {
        assert r[a].top == buckets[a].top && r[b].top == buckets[b].top;
      } else {
        assert r[b].top == top && r[a].top == buckets[a].top;
      }
    }
  }

  // ---------------------------------------------------------------------------
  // The whole merge

  lemma MergeAppend(lines: seq<OCRLine>, line: OCRLine)
    ensures Merge(lines + [line]) == Place(Merge(lines), line)
  {
    assert (lines + [line])[..|lines|] == lines;
  }

  /** Any two anchors of the result differ by more than one unit. */
  lemma {:induction false} MergeSeparated(lines: seq<OCRLine>)
    ensures Separated(Merge(lines))
    decreases |lines|
  {
    if lines != [] {
      var last := lines[|lines| - 1];
      MergeSeparated(lines[..|lines| - 1]);
      if HasWords(last) {
        InsertSeparated(Merge(lines[..|lines| - 1]), Anchor(last), last.lineText);
      }
    }
  }

  /** Lines without words have no influence: merging only the lines with words gives the same buckets. */
  lemma {:induction false} MergeIgnoresEmptyLines(lines: seq<OCRLine>)
    ensures Merge(lines) == Merge(WithWords(lines))
    decreases |lines|
  {
    if lines != [] {
      var init, last := lines[..|lines| - 1], lines[|lines| - 1];
      MergeIgnoresEmptyLines(init);
      if HasWords(last) {
        MergeAppend(WithWords(init), last);
      } else {
        assert WithWords(lines) == WithWords(init);
      }
    }
  }

  /** There are at most as many buckets as lines with words. */
  lemma {:induction false} MergeLength(lines: seq<OCRLine>)
    ensures |Merge(lines)| <= |WithWords(lines)|
    decreases |lines|
  {
    if lines != [] {
      var init, last := lines[..|lines| - 1], lines[|lines| - 1];
      MergeLength(init);
      InsertKeepsAnchors(Merge(init), if HasWords(last) then Anchor(last) else 0, last.lineText);
    }
  }

  /** The result is empty exactly when no line has words. */
  lemma {:induction false} MergeEmpty(lines: seq<OCRLine>)
    ensures Merge(lines) == [] <==> forall i :: 0 <= i < |lines| ==> !HasWords(lines[i])
    decreases |lines|
  {
    if lines != [] {
      var init, last := lines[..|lines| - 1], lines[|lines| - 1];
      MergeEmpty(init);
      if HasWords(last) {
        InsertKeepsAnchors(Merge(init), Anchor(last), last.lineText);
        assert |Merge(lines)| > 0;
      } else {
        assert forall i :: 0 <= i < |init| ==> init[i] == lines[i];
      }
    }
  }

  /**
   * Anchors never change: the buckets after the first `p` lines keep their
   * anchors, in the same positions, through all later lines.
   */
  lemma {:induction false} AnchorsStable(lines: seq<OCRLine>, p: nat, q: nat)
    requires p <= q <= |lines|
    ensures |Merge(lines[..p])| <= |Merge(lines[..q])|
    ensures forall k :: 0 <= k < |Merge(lines[..p])| ==> Merge(lines[..q])[k].top == Merge(lines[..p])[k].top
    decreases q - p
  {
    if p < q {
      AnchorsStable(lines, p, q - 1);
      var init, last := lines[..q - 1], lines[q - 1];
      assert lines[..q] == init + [last];
      MergeAppend(init, last);
      InsertKeepsAnchors(Merge(init), if HasWords(last) then Anchor(last) else 0, last.lineText);
    }
  }

  /**
   * Every bucket was opened by some line with words: bucket `j` is created,
   * holding exactly that line's anchor and text, when line `p` is placed.
   */
  lemma {:induction false} BucketOpener(lines: seq<OCRLine>, j: nat)
    requires j < |Merge(lines)|
    ensures exists p :: 0 <= p < |lines| && HasWords(lines[p]) &&
              |Merge(lines[..p])| == j &&
              Merge(lines[..p + 1]) == Merge(lines[..p]) + [MergedLine(Anchor(lines[p]), lines[p].lineText)]
    decreases |lines|
  {
    var n := |lines|;
    var init, last := lines[..n - 1], lines[n - 1];
    assert lines[..n] == lines;
    assert lines[..n - 1] == init;
    InsertKeepsAnchors(Merge(init), if HasWords(last) then Anchor(last) else 0, last.lineText);
    if j < |Merge(init)| {
      BucketOpener(init, j);
      var p :| 0 <= p < |init| && HasWords(init[p]) &&
               |Merge(init[..p])| == j &&
               Merge(init[..p + 1]) == Merge(init[..p]) + [MergedLine(Anchor(init[p]), init[p].lineText)];
      assert init[..p] == lines[..p] && init[..p + 1] == lines[..p + 1];
      assert init[p] == lines[p];
    } else {
      assert HasWords(last) && j == |Merge(init)|;
      assert Merge(lines[..n - 1 + 1]) == Merge(lines[..n - 1]) + [MergedLine(Anchor(lines[n - 1]), lines[n - 1].lineText)];
    }
  }

  /** Line `p` opens a new bucket. */
  predicate Opens(lines: seq<OCRLine>, p: nat)
    requires p < |lines|
  {
    |Merge(lines[..p + 1])| == |Merge(lines[..p])| + 1
  }

  /** Buckets come in the order of the lines that opened them: a later opener opens a later bucket. */
  lemma OpenedInLineOrder(lines: seq<OCRLine>, p: nat, q: nat)
    requires p < q < |lines| && Opens(lines, p)
    ensures |Merge(lines[..p])| < |Merge(lines[..q])|
  {
    AnchorsStable(lines, p + 1, q);
  }

  /** Two lines with words form one bucket when their anchors are within one unit and two buckets otherwise. */
  lemma TwoLines(a: OCRLine, b: OCRLine)
    requires HasWords(a) && HasWords(b)
    ensures Near(Anchor(b), Anchor(a)) ==>
              Merge([a, b]) == [MergedLine(Anchor(a), a.lineText + " " + b.lineText)]
    ensures !Near(Anchor(b), Anchor(a)) ==>
              Merge([a, b]) == [MergedLine(Anchor(a), a.lineText), MergedLine(Anchor(b), b.lineText)]
  {
    assert [a][..0] == [];
    assert Merge([a]) == [MergedLine(Anchor(a), a.lineText)];
    assert [a, b][..1] == [a];
    assert Merge([a, b]) == Insert([MergedLine(Anchor(a), a.lineText)], Anchor(b), b.lineText);
  }

  // ---------------------------------------------------------------------------
  // What each bucket holds

  /** The index of the bucket line `line` goes to, given the buckets so far. */
  function Target(buckets: seq<MergedLine>, line: OCRLine): nat
    requires HasWords(line)
  {
    FirstNear(buckets, Anchor(line))
  }

  /** The texts of the lines the merger places in bucket `j`, in their order. */
  function TextsOf(lines: seq<OCRLine>, j: nat): seq<string>
    decreases |lines|
  {
    if lines == [] then []
    else
      var init, last := lines[..|lines| - 1], lines[|lines| - 1];
      TextsOf(init, j) +
        (if HasWords(last) && Target(Merge(init), last) == j then [last.lineText] else [])
  }

  /** No line is placed in a bucket that does not exist yet. */
  lemma {:induction false} TextsOfBeyond(lines: seq<OCRLine>, j: nat)
    requires |Merge(lines)| <= j
    ensures TextsOf(lines, j) == []
    decreases |lines|
  {
    if lines != [] {
      var init, last := lines[..|lines| - 1], lines[|lines| - 1];
      InsertKeepsAnchors(Merge(init), if HasWords(last) then Anchor(last) else 0, last.lineText);
      TextsOfBeyond(init, j);
    }
  }

  /**
   * A bucket's text is the texts of the lines placed in it, in the order
   * they came, joined by single spaces; no text is lost or repeated.
   */
  lemma {:induction false} BucketText(lines: seq<OCRLine>, j: nat)
    requires j < |Merge(lines)|
    ensures |TextsOf(lines, j)| > 0
    ensures Merge(lines)[j].lineText == Join(TextsOf(lines, j), " ")
    decreases |lines|
  {
    var init, last := lines[..|lines| - 1], lines[|lines| - 1];
    var before := Merge(init);
    if !HasWords(last) {
      BucketText(init, j);
      assert Merge(lines) == before;
      assert TextsOf(lines, j) == TextsOf(init, j);
    } else {
      var f := Target(before, last);
      if j < |before| {
        BucketText(init, j);
        assert Merge(lines) == Insert(before, Anchor(last), last.lineText);
        if f == j {
          JoinSnoc(TextsOf(init, j), last.lineText, " ");
          assert TextsOf(lines, j) == TextsOf(init, j) + [last.lineText];
        } else {
          assert Merge(lines)[j] == before[j];
          assert TextsOf(lines, j) == TextsOf(init, j);
        }
      } else {
        InsertKeepsAnchors(before, Anchor(last), last.lineText);
        assert j == |before| && f == j;
        TextsOfBeyond(init, j);
        assert TextsOf(lines, j) == [last.lineText];
      }
    }
  }
}
