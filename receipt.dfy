/**
 * The reconstruction inside `Handler`: the OCR lines of the first parsed
 * result are merged into logical lines, and the logical lines are routed
 * into a receipt.
 */
module Receipt {
  import opened GoStrings
  import opened Patterns
  import opened Merger
  import opened Classifier

  /** The texts of the logical lines, in bucket order. */
  function LineTexts(merged: seq<MergedLine>): seq<string>
  {
    seq(|merged|, i requires 0 <= i < |merged| => merged[i].lineText)
  }

  /** The receipt that a list of OCR lines gives. */
  function ReceiptFromOCR(ocrLines: seq<OCRLine>): ReceiptData
  {
    ReceiptOf(RowsOf(LineTexts(Merge(ocrLines))))
  }

  /**
   * Merging, then classifying every logical line. Without a line that has
   * words there are no items and every amount stays "0.00".
   */
  method Reconstruct(ocrLines: seq<OCRLine>) returns (receipt: ReceiptData)
    ensures receipt == ReceiptFromOCR(ocrLines)
    ensures (forall i :: 0 <= i < |ocrLines| ==> !HasWords(ocrLines[i])) ==> receipt == EmptyReceipt
    ensures forall m :: 0 <= m < |receipt.items| ==> WellFormedItem(receipt.items[m])
  {
    var linesByTop := MergeOCRLines(ocrLines);
    var texts := seq(|linesByTop|, i requires 0 <= i < |linesByTop| => linesByTop[i].lineText);
    assert texts == LineTexts(linesByTop);
    receipt := ClassifyLines(texts);
    MergeEmpty(ocrLines);
  }

  // ---------------------------------------------------------------------------
  // Worked receipts
  //
  // The lemmas below take their example text or row as a parameter fixed by a
  // `requires`, rather than writing the literal in the `ensures`: that keeps
  // the evaluation of the literal inside the lemma and out of its callers.
  // Each line of an example has its own split, routing and step lemma.

  lemma AppleSplit(text: string)
    requires text == "Apple 1.00"
    ensures SplitRow(text) == Row("Apple", "1.00")
  {
    SplitLabelPrice(text, "Apple", "1.00");
  }

  lemma AppleRoute()
    ensures Classify(Row("Apple", "1.00")) == ItemRow
  {
    assert Fold("Apple"[0]) != Fold("total"[0]);
    SingleWordRow("Apple", "1.00");
  }

  lemma BreadSplit(text: string)
    requires text == "Bread 2.50"
    ensures SplitRow(text) == Row("Bread", "2.50")
  {
    SplitLabelPrice(text, "Bread", "2.50");
  }

  lemma BreadRoute()
    ensures Classify(Row("Bread", "2.50")) == ItemRow
  {
    assert Fold("Bread"[0]) != Fold("total"[0]);
    SingleWordRow("Bread", "2.50");
  }

  lemma TaxSplit(text: string)
    requires text == "Tax 0.30"
    ensures SplitRow(text) == Row("Tax", "0.30")
  {
    SplitLabelPrice(text, "Tax", "0.30");
  }

  lemma TaxRoute()
    ensures Classify(Row("Tax", "0.30")) == TaxRow
  {
    assert EqualIgnoringCase("Tax", "tax");
    SingleWordRow("Tax", "0.30");
  }

  lemma TotalSplit(text: string)
    requires text == "Total 3.80"
    ensures SplitRow(text) == Row("Total", "3.80")
  {
    SplitLabelPrice(text, "Total", "3.80");
  }

  lemma TotalRoute()
    ensures Classify(Row("Total", "3.80")) == TotalRow
  {
    assert EqualIgnoringCase("Total", "total");
    SingleWordRow("Total", "3.80");
  }

  lemma SubtotalSplit(text: string)
    requires text == "Subtotal 3.50"
    ensures SplitRow(text) == Row("Subtotal", "3.50")
  {
    SplitLabelPrice(text, "Subtotal", "3.50");
  }

  lemma SubtotalRoute()
    ensures Classify(Row("Subtotal", "3.50")) == Discarded
  {
    assert EqualIgnoringCase("Subtotal", "subtotal");
    SingleWordRow("Subtotal", "3.50");
  }

  lemma ReceiptOfSnoc(rows: seq<Row>, r: Row)
    ensures ReceiptOf(rows + [r]) == Route(ReceiptOf(rows), r)
  {
    assert (rows + [r])[..|rows|] == rows;
  }

  lemma AppleStep(acc: ReceiptData, r: Row)
    requires r == Row("Apple", "1.00")
    ensures Route(acc, r) == acc.(items := acc.items + [Item("Apple", "1.00")])
  {
    AppleRoute();
  }

  lemma BreadStep(acc: ReceiptData, r: Row)
    requires r == Row("Bread", "2.50")
    ensures Route(acc, r) == acc.(items := acc.items + [Item("Bread", "2.50")])
  {
    BreadRoute();
  }

  lemma TaxStep(acc: ReceiptData, r: Row)
    requires r == Row("Tax", "0.30")
    ensures Route(acc, r) == acc.(tax := "0.30")
  {
    TaxRoute();
  }

  lemma TotalStep(acc: ReceiptData, r: Row)
    requires r == Row("Total", "3.80")
    ensures Route(acc, r) == acc.(total := "3.80")
  {
    TotalRoute();
  }

  lemma SubtotalStep(acc: ReceiptData, r: Row)
    requires r == Row("Subtotal", "3.50")
    ensures Route(acc, r) == acc
  {
    SubtotalRoute();
  }

  /** One row per logical line, for four lines. */
  lemma RowsOfFour(a: string, b: string, c: string, d: string)
    ensures RowsOf([a, b, c, d]) == [SplitRow(a), SplitRow(b), SplitRow(c), SplitRow(d)]
  {
  }

  lemma RowsOfThree(a: string, b: string, c: string)
    ensures RowsOf([a, b, c]) == [SplitRow(a), SplitRow(b), SplitRow(c)]
  {
  }

  lemma ReceiptOfItemsTaxTotal(a: Row, b: Row, x: Row, t: Row)
    requires a == Row("Apple", "1.00") && b == Row("Bread", "2.50")
    requires x == Row("Tax", "0.30") && t == Row("Total", "3.80")
    ensures ReceiptOf([a, b, x, t]) ==
            ReceiptData([Item("Apple", "1.00"), Item("Bread", "2.50")], "0.30", "0.00", "3.80")
  {
    ReceiptOfSnoc([], a);
    assert [] + [a] == [a];
    AppleStep(EmptyReceipt, a);
    ReceiptOfSnoc([a], b);
    assert [a] + [b] == [a, b];
    BreadStep(ReceiptOf([a]), b);
    ReceiptOfSnoc([a, b], x);
    assert [a, b] + [x] == [a, b, x];
    TaxStep(ReceiptOf([a, b]), x);
    ReceiptOfSnoc([a, b, x], t);
    assert [a, b, x] + [t] == [a, b, x, t];
    TotalStep(ReceiptOf([a, b, x]), t);
  }

  /** Two items, a tax row and a total row; no tip row, so the tip stays "0.00". */
  lemma ScenarioItemsTaxTotal(apple: string, bread: string, tax: string, total: string)
    requires apple == "Apple 1.00" && bread == "Bread 2.50" && tax == "Tax 0.30" && total == "Total 3.80"
    ensures ReceiptOf(RowsOf([apple, bread, tax, total])) ==
            ReceiptData([Item("Apple", "1.00"), Item("Bread", "2.50")], "0.30", "0.00", "3.80")
  {
    RowsOfFour(apple, bread, tax, total);
    AppleSplit(apple); BreadSplit(bread); TaxSplit(tax); TotalSplit(total);
    ReceiptOfItemsTaxTotal(SplitRow(apple), SplitRow(bread), SplitRow(tax), SplitRow(total));
  }

  lemma ReceiptOfSubtotal(s: Row, x: Row, t: Row)
    requires s == Row("Subtotal", "3.50") && x == Row("Tax", "0.30") && t == Row("Total", "3.80")
    ensures ReceiptOf([s, x, t]) == ReceiptData([], "0.30", "0.00", "3.80")
  {
    ReceiptOfSnoc([], s);
    assert [] + [s] == [s];
    SubtotalStep(EmptyReceipt, s);
    ReceiptOfSnoc([s], x);
    assert [s] + [x] == [s, x];
    TaxStep(ReceiptOf([s]), x);
    ReceiptOfSnoc([s, x], t);
    assert [s, x] + [t] == [s, x, t];
    TotalStep(ReceiptOf([s, x]), t);
  }

  /** The subtotal row is discarded, not taken for the total. */
  lemma ScenarioSubtotal(subtotal: string, tax: string, total: string)
    requires subtotal == "Subtotal 3.50" && tax == "Tax 0.30" && total == "Total 3.80"
    ensures ReceiptOf(RowsOf([subtotal, tax, total])) == ReceiptData([], "0.30", "0.00", "3.80")
  {
    RowsOfThree(subtotal, tax, total);
    SubtotalSplit(subtotal); TaxSplit(tax); TotalSplit(total);
    ReceiptOfSubtotal(SplitRow(subtotal), SplitRow(tax), SplitRow(total));
  }

  /** A line without a price gives an empty row, which is discarded. */
  lemma ScenarioNoPrice(text: string)
    requires text == "Service Fee"
    ensures SplitRow(text) == Row("", "")
    ensures forall acc :: Route(acc, SplitRow(text)) == acc
  {
    assert Join(["Service", "Fee"], " ") == text by {
      assert ["Service", "Fee"][1..] == ["Fee"];
    }
    FieldsJoinRoundTrip(["Service", "Fee"]);
    assert !IsPrice("Service") && !IsPrice("Fee");
    assert LastPriceIndex(["Service", "Fee"]) == -1 by {
      assert ["Service", "Fee"][..1] == ["Service"];
      assert ["Service"][..0] == [];
    }
  }

  /** Anchors 100 and 101 share a bucket; anchors 100 and 103 do not. */
  lemma ScenarioTolerance()
    ensures Merge([OCRLine([OCRWord(100)], "Apple"), OCRLine([OCRWord(101)], "1.00")]) ==
            [MergedLine(100, "Apple 1.00")]
    ensures Merge([OCRLine([OCRWord(100)], "Apple"), OCRLine([OCRWord(103)], "1.00")]) ==
            [MergedLine(100, "Apple"), MergedLine(103, "1.00")]
  {
    TwoLines(OCRLine([OCRWord(100)], "Apple"), OCRLine([OCRWord(101)], "1.00"));
    assert "Apple" + " " + "1.00" == "Apple 1.00";
    TwoLines(OCRLine([OCRWord(100)], "Apple"), OCRLine([OCRWord(103)], "1.00"));
  }

  /** No OCR lines: no items, and tax, tip and total all "0.00". */
  lemma ScenarioEmpty()
    ensures ReceiptFromOCR([]) == ReceiptData([], "0.00", "0.00", "0.00")
  {
  }

  /** A name and its price detected as two OCR lines one unit apart become one item. */
  lemma ScenarioFragments(a: OCRLine, b: OCRLine)
    requires a == OCRLine([OCRWord(100)], "Apple") && b == OCRLine([OCRWord(101)], "1.00")
    ensures ReceiptFromOCR([a, b]) == ReceiptData([Item("Apple", "1.00")], Zero, Zero, Zero)
  {
    TwoLines(a, b);
    var text := a.lineText + " " + b.lineText;
    assert LineTexts(Merge([a, b])) == [text];
    AppleSplit(text);
    assert RowsOf([text]) == [SplitRow(text)];
    ReceiptOfSnoc([], SplitRow(text));
    assert [] + [SplitRow(text)] == [SplitRow(text)];
    AppleStep(EmptyReceipt, SplitRow(text));
  }
}
