/**
 * The row classifier of the receipt package: `findItem` splits a logical line
 * into a name and a price, and the loop of `Handler` routes each row to the
 * tax, tip or total amount, to the item list, or nowhere.
 */
module Classifier {
  import opened GoStrings
  import opened Patterns

  /** A purchased item. */
  datatype Item = Item(name: string, price: string)

  /** The reconstructed receipt. */
  datatype ReceiptData = ReceiptData(items: seq<Item>, tax: string, tip: string, total: string)

  /** What `findItem` returns: a name and a price, both empty when no price was found. */
  datatype Row = Row(name: string, price: string)

  /** Where a row goes. */
  datatype Outcome = Discarded | TaxRow | TipRow | TotalRow | ItemRow

  /** The amount every one of tax, tip and total starts at. */
  const Zero: string := "0.00"

  /** The receipt before any row has been seen. */
  const EmptyReceipt: ReceiptData := ReceiptData([], Zero, Zero, Zero)

  // ---------------------------------------------------------------------------
  // Splitting a row

  /** Index of the rightmost price among `parts`, or -1 when none is a price. */
  function LastPriceIndex(parts: seq<string>): (k: int)
    ensures -1 <= k < |parts|
    ensures k >= 0 ==> IsPrice(parts[k])
    ensures forall j :: k < j < |parts| ==> !IsPrice(parts[j])
  {
    if parts == [] then -1
    else if IsPrice(parts[|parts| - 1]) then |parts| - 1
    else LastPriceIndex(parts[..|parts| - 1])
  }

  /** The row `findItem` makes of a logical line. */
  function SplitRow(text: string): Row
  {
    var parts := Fields(text);
    var k := LastPriceIndex(parts);
    if k < 0 then Row("", "") else Row(Join(parts[..k], " "), parts[k])
  }

  /**
   * `findItem`: scans the white-space separated tokens from the right; the
   * first price found is the price and the tokens before it, joined by
   * single spaces, the name. The tokens after it are dropped.
   */
  method FindItem(input: string) returns (name: string, price: string)
    ensures Row(name, price) == SplitRow(input)
    ensures var parts := Fields(input);
            price == "" <==> forall j :: 0 <= j < |parts| ==> !IsPrice(parts[j])
    ensures var parts := Fields(input);
            price != "" ==>
              exists k :: 0 <= k < |parts| && IsPrice(parts[k]) && price == parts[k] &&
                name == Join(parts[..k], " ") &&
                forall j :: k < j < |parts| ==> !IsPrice(parts[j])
    ensures price == "" ==> name == ""
  {
    var parts := Fields(input);
    name, price := "", "";
    ghost var at := -1;
    for i := |parts| downto 0
      invariant forall j :: i <= j < |parts| ==> !IsPrice(parts[j])
      invariant name == "" && price == ""
    {
      if IsPrice(parts[i]) {
        price := parts[i];
        name := Join(parts[..i], " ");
        at := i;
        break;
      }
    }
    assert at == LastPriceIndex(parts);
    SplitRowSpec(input);
  }

  /** The rightmost price is the price, and a price is found exactly when some token is one. */
  lemma SplitRowSpec(text: string)
    ensures SplitRow(text).price == "" <==> forall j :: 0 <= j < |Fields(text)| ==> !IsPrice(Fields(text)[j])
    ensures SplitRow(text).price == "" ==> SplitRow(text).name == ""
    ensures SplitRow(text).price != "" ==>
              exists k :: 0 <= k < |Fields(text)| && IsPrice(Fields(text)[k]) && SplitRow(text).price == Fields(text)[k] &&
                SplitRow(text).name == Join(Fields(text)[..k], " ") &&
                (forall j :: k < j < |Fields(text)| ==> !IsPrice(Fields(text)[j]))
  {
    var parts := Fields(text);
    var k := LastPriceIndex(parts);
    if k >= 0 {
      PriceIsNonEmpty(parts[k]);
    }
  }

  /** The name splits back into exactly the tokens before the price. */
  lemma SplitRowName(text: string)
    ensures var parts, k := Fields(text), LastPriceIndex(Fields(text));
            k >= 0 ==> Fields(SplitRow(text).name) == parts[..k]
  {
    var parts := Fields(text);
    var k := LastPriceIndex(parts);
    if k >= 0 {
      assert AllFields(parts[..k]) by {
        forall m | 0 <= m < k ensures parts[..k][m] == parts[m] { }
      }
      FieldsJoinRoundTrip(parts[..k]);
    }
  }

  /** A word followed by a price splits into that word and that price. */
  lemma SplitLabelPrice(text: string, word: string, price: string)
    requires IsLabel(word) && IsPrice(price) && text == word + " " + price
    ensures SplitRow(text) == Row(word, price)
  {
    PriceIsNonEmpty(price);
    assert IsField(word);
    assert IsField(price) by {
      forall k | 0 <= k < |price| ensures !IsSpace(price[k]) {
        assert price[k] == '$' || price[k] == '.' || IsDigit(price[k]);
      }
    }
    assert Join([word, price], " ") == word + " " + price by {
      assert [word, price][1..] == [price];
    }
    FieldsJoinRoundTrip([word, price]);
    assert Fields(text) == [word, price];
    assert [word, price][..1] == [word];
  }

  // ---------------------------------------------------------------------------
  // Routing a row

  /** The routing rules of `Handler`, first match wins. */
  function Classify(r: Row): Outcome
  {
    if r.name == "" || r.price == "" || ContainsAsWord(r.name, "subtotal") then Discarded
    else if ContainsAsWord(r.name, "tax") then TaxRow
    else if ContainsAsWord(r.name, "tip") then TipRow
    else if ContainsAsWord(r.name, "total") then TotalRow
    else ItemRow
  }

  /** The rows `findItem` makes of the logical lines, one per line. */
  function RowsOf(texts: seq<string>): seq<Row>
  {
    seq(|texts|, i requires 0 <= i < |texts| => SplitRow(texts[i]))
  }

  /** The receipt after one more row has been routed. */
  function Route(acc: ReceiptData, r: Row): ReceiptData
  {
    match Classify(r)
    case Discarded => acc
    case TaxRow => acc.(tax := r.price)
    case TipRow => acc.(tip := r.price)
    case TotalRow => acc.(total := r.price)
    case ItemRow => acc.(items := acc.items + [Item(r.name, r.price)])
  }

  /** The receipt that `rows` give, routed first to last. */
  function ReceiptOf(rows: seq<Row>): ReceiptData
    decreases |rows|
  {
    if rows == [] then EmptyReceipt
    else Route(ReceiptOf(rows[..|rows| - 1]), rows[|rows| - 1])
  }

  /**
   * The classification loop of `Handler`: tax, tip and total start at
   * "0.00"; each line is split into a row, which is then discarded, routed
   * to an amount, or appended as an item.
   */
  method ClassifyLines(lines: seq<string>) returns (receipt: ReceiptData)
    ensures receipt == ReceiptOf(RowsOf(lines))
    ensures receipt.items == ItemsOf(RowsOf(lines))
    ensures forall m :: 0 <= m < |receipt.items| ==> WellFormedItem(receipt.items[m])
  {
    ghost var rows := RowsOf(lines);
    var items: seq<Item> := [];
    var tax := "0.00";
    var tip := "0.00";
    var total := "0.00";
    for n := 0 to |lines|
      invariant ReceiptData(items, tax, tip, total) == ReceiptOf(rows[..n])
    {
      assert rows[..n + 1][..n] == rows[..n];
      var name, price := FindItem(lines[n]);
      assert rows[n] == Row(name, price);
      if name == "" || price == "" || ContainsAsWord(name, "subtotal") {
        continue;
      }
      if ContainsAsWord(name, "tax") {
        tax := price;
        continue;
      }
      if ContainsAsWord(name, "tip") {
        tip := price;
        continue;
      }
      if ContainsAsWord(name, "total") {
        total := price;
        continue;
      }
      items := items + [Item(name, price)];
    }
    receipt := ReceiptData(items, tax, tip, total);
    assert rows[..|lines|] == rows;
    ItemsInOrder(rows);
    RowsPriced(lines);
    ItemsWellFormed(rows);
  }

  // ---------------------------------------------------------------------------
  // What the receipt holds

  /** Every row has no price or a price that `isPrice` accepts. */
  predicate Priced(rows: seq<Row>)
  {
    forall i :: 0 <= i < |rows| ==> rows[i].price == "" || IsPrice(rows[i].price)
  }

  /** The rows `findItem` makes are priced. */
  lemma RowsPriced(texts: seq<string>)
    ensures Priced(RowsOf(texts))
  {
    forall i | 0 <= i < |texts|
      ensures RowsOf(texts)[i].price == "" || IsPrice(RowsOf(texts)[i].price)
    {
      SplitRowSpec(texts[i]);
    }
  }

  /** The amount an amount outcome writes to. */
  predicate IsAmount(o: Outcome)
  {
    o.TaxRow? || o.TipRow? || o.TotalRow?
  }

  function AmountOf(d: ReceiptData, o: Outcome): string
    requires IsAmount(o)
  {
    match o
    case TaxRow => d.tax
    case TipRow => d.tip
    case TotalRow => d.total
  }

  /** Routing one row changes an amount only when the row is routed there. */
  lemma RouteAmount(acc: ReceiptData, r: Row, o: Outcome)
    requires IsAmount(o)
    ensures AmountOf(Route(acc, r), o) == if Classify(r) == o then r.price else AmountOf(acc, o)
  {
  }

  /** Tax, tip and total stay "0.00" when no row is routed there. */
  lemma {:induction false} AmountDefault(rows: seq<Row>, o: Outcome)
    requires IsAmount(o)
    requires forall i :: 0 <= i < |rows| ==> Classify(rows[i]) != o
    ensures AmountOf(ReceiptOf(rows), o) == Zero
    decreases |rows|
  {
    if rows != [] {
      var n := |rows| - 1;
      assert forall i :: 0 <= i < n ==> rows[..n][i] == rows[i];
      AmountDefault(rows[..n], o);
      RouteAmount(ReceiptOf(rows[..n]), rows[n], o);
    }
  }

  /** Otherwise each holds the price of the last row routed there: later rows replace earlier ones. */
  lemma {:induction false} LastWriteWins(rows: seq<Row>, o: Outcome, k: nat)
    requires IsAmount(o)
    requires k < |rows| && Classify(rows[k]) == o
    requires forall j :: k < j < |rows| ==> Classify(rows[j]) != o
    ensures AmountOf(ReceiptOf(rows), o) == rows[k].price
    decreases |rows|
  {
    var n := |rows| - 1;
    var init := rows[..n];
    RouteAmount(ReceiptOf(init), rows[n], o);
    if k < n {
      assert init[k] == rows[k];
      assert forall j :: k < j < n ==> Classify(init[j]) != o by {
        forall j | k < j < n ensures Classify(init[j]) != o {
          assert init[j] == rows[j];
        }
      }
      LastWriteWins(init, o, k);
    }
  }

  /** The index of the last row with outcome `o`, when there is one. */
  function LastOf(rows: seq<Row>, o: Outcome): (k: nat)
    requires exists i :: 0 <= i < |rows| && Classify(rows[i]) == o
    ensures k < |rows| && Classify(rows[k]) == o
    ensures forall j :: k < j < |rows| ==> Classify(rows[j]) != o
    decreases |rows|
  {
    var n := |rows| - 1;
    if Classify(rows[n]) == o then n
    else
      assert forall i :: 0 <= i < n ==> rows[..n][i] == rows[i];
      LastOf(rows[..n], o)
  }

  /** Every amount on the receipt is "0.00" or a price. */
  lemma AmountIsPrice(rows: seq<Row>, o: Outcome)
    requires IsAmount(o) && Priced(rows)
    ensures AmountOf(ReceiptOf(rows), o) == Zero || IsPrice(AmountOf(ReceiptOf(rows), o))
  {
    if exists i :: 0 <= i < |rows| && Classify(rows[i]) == o {
      var k := LastOf(rows, o);
      LastWriteWins(rows, o, k);
    } else {
      AmountDefault(rows, o);
    }
  }

  /** The item a row adds: itself when it is an item row, nothing otherwise. */
  function ItemOf(r: Row): seq<Item>
  {
    if Classify(r) == ItemRow then [Item(r.name, r.price)] else []
  }

  /** The items of the rows routed to the item list, in the order of their rows. */
  function ItemsOf(rows: seq<Row>): seq<Item>
    decreases |rows|
  {
    if rows == [] then [] else ItemOf(rows[0]) + ItemsOf(rows[1..])
  }

  lemma {:induction false} ItemsOfAppend(rows: seq<Row>, r: Row)
    ensures ItemsOf(rows + [r]) == ItemsOf(rows) + ItemOf(r)
    decreases |rows|
  {
    if rows == [] {
      assert rows + [r] == [r];
      assert ItemsOf([r]) == ItemOf(r) + ItemsOf([]);
    } else {
      var h, t := rows[0], rows[1..];
      assert rows + [r] == [h] + (t + [r]);
      assert ItemsOf(rows + [r]) == ItemOf(h) + ItemsOf(t + [r]);
      ItemsOfAppend(t, r);
      assert ItemsOf(rows) == ItemOf(h) + ItemsOf(t);
    }
  }

  /** The item list holds the item rows, each once, in the order the rows came. */
  lemma {:induction false} ItemsInOrder(rows: seq<Row>)
    ensures ReceiptOf(rows).items == ItemsOf(rows)
    decreases |rows|
  {
    if rows != [] {
      var n := |rows| - 1;
      ItemsInOrder(rows[..n]);
      assert rows == rows[..n] + [rows[n]];
      ItemsOfAppend(rows[..n], rows[n]);
    }
  }

  /** An item has a name, a price, and none of the routing words in its name. */
  predicate WellFormedItem(it: Item)
  {
    it.name != "" && IsPrice(it.price) &&
    !ContainsAsWord(it.name, "subtotal") && !ContainsAsWord(it.name, "tax") &&
    !ContainsAsWord(it.name, "tip") && !ContainsAsWord(it.name, "total")
  }

  /** Every item on the receipt is well formed. */
  lemma {:induction false} ItemsWellFormed(rows: seq<Row>)
    requires Priced(rows)
    ensures forall m :: 0 <= m < |ReceiptOf(rows).items| ==> WellFormedItem(ReceiptOf(rows).items[m])
    decreases |rows|
  {
    if rows != [] {
      var n := |rows| - 1;
      assert Priced(rows[..n]) by {
        assert forall i :: 0 <= i < n ==> rows[..n][i] == rows[i];
      }
      ItemsWellFormed(rows[..n]);
    }
  }

  /**
   * A row of one word and a price is routed by comparing the word, ignoring
   * case, with the routing words in priority order.
   */
  lemma SingleWordRow(w: string, p: string)
    requires IsLabel(w) && NoFoldSpecials(w) && IsPrice(p)
    ensures Classify(Row(w, p)) ==
            if EqualIgnoringCase(w, "subtotal") then Discarded
            else if EqualIgnoringCase(w, "tax") then TaxRow
            else if EqualIgnoringCase(w, "tip") then TipRow
            else if EqualIgnoringCase(w, "total") then TotalRow
            else ItemRow
  {
    PriceIsNonEmpty(p);
    SingleWordContains(w, "subtotal");
    SingleWordContains(w, "tax");
    SingleWordContains(w, "tip");
    SingleWordContains(w, "total");
  }

  /**
   * A row whose name holds the word "subtotal" is discarded before the
   * amount rules are tried.
   */
  lemma SubtotalIsDiscarded(r: Row)
    requires ContainsAsWord(r.name, "subtotal")
    ensures Classify(r) == Discarded
  {
  }

  /**
   * The order of the rules matters: "Subtotal Total" holds the word "total"
   * as well, yet the subtotal rule, tried first, discards the row.
   */
  lemma SubtotalBeforeTotal(name: string, price: string)
    requires name == "Subtotal Total" && IsPrice(price)
    ensures ContainsAsWord(name, "total")
    ensures Classify(Row(name, price)) == Discarded
  {
    PriceIsNonEmpty(price);
    assert MatchesAt(name, "subtotal", 0) by {
      assert name[0..8] == "Subtotal";
    }
    assert MatchesAt(name, "total", 9) by {
      assert name[9..14] == "Total";
    }
  }
}
