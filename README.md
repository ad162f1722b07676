# Receipt reconstruction, modelled in Dafny

The receipt endpoint takes the lines that an OCR service found on a photographed
receipt and rebuilds the receipt: a list of items (name and price) plus the tax,
tip and total amounts. This project models that reconstruction and proves what it
promises. It has three parts.

- **Line merger** (`mergeOCRlines`, module `Merger`). OCR lines without words are
  skipped. Each other line is anchored at the top of its first word. It joins the
  first bucket whose anchor is within one unit of its own, after a single space,
  or it opens a new bucket at the end. Anchors never change.
- **Row splitter** (`isPrice`, `findItem`, modules `Patterns` and `Classifier`).
  A logical line is split on white space; the rightmost token of the form
  `$`? digits `.` digit digit is the price, and the tokens before it, joined by
  single spaces, are the name.
- **Row classifier** (the loop in `Handler`, plus `containsAsWord`). A row with an
  empty name or price, or whose name has the whole word "subtotal", is dropped.
  Otherwise the first of "tax", "tip", "total" found as a whole word, ignoring
  case, decides the amount the price goes to; a row with none of them is an item.
  The amounts start at "0.00" and a later row replaces an earlier one.

Files:

- `go_strings.dfy` (`GoStrings`): Go's `strings.Fields`, with the white-space set
  of `unicode.IsSpace`, and `strings.Join`.
- `patterns.dfy` (`Patterns`): the two regular expressions as character
  predicates. `IsPrice` is `^\$?\d*\.\d{2}$`. `ContainsAsWord` is
  `(?i)\b<target>\b` as RE2 reads it: `\b` is an ASCII word boundary (letters,
  digits, `_`), and `(?i)` compares characters by case-fold orbit. For ASCII
  letters these orbits add the KELVIN SIGN (U+212A) to `k` and LONG S (U+017F)
  to `s`. As a result, "xſubtotal" holds the word "subtotal" for RE2, because `ſ`
  matches `s` but is not a word character. The word-list lemmas therefore assume
  the name holds neither character.
- `merger.dfy` (`Merger`): the OCR line and bucket types, the merge step, the
  imperative `MergeOCRLines`, and the lemmas about the buckets.
- `classifier.dfy` (`Classifier`): `Item`, `ReceiptData`, the imperative
  `FindItem` and `ClassifyLines`, and the lemmas about the receipt.
- `receipt.dfy` (`Receipt`): merging followed by classifying, and worked receipts.

Each loop of the source is a method with a `while`/`for` loop, proved equal to a
function: `MergeOCRLines` to `Merge`, which folds one merge step over the OCR
lines; `FindItem` to `SplitRow`; and `ClassifyLines` to `ReceiptOf(RowsOf(lines))`,
which folds one routing step over the rows that `findItem` makes of the lines.
The properties are proved as lemmas about those functions.

The OCR types are not part of the files modelled. They are declared with only
what the merger reads: a word has an integer `top`, and a line has its words and
its text.

## Model

| member | source | states |
|---|---|---|
| GoStrings.FieldsJoinRoundTrip | api/receipt/index.go:54-61 | splitting the single-space join of white-space-free, non-empty tokens gives the tokens back |
| GoStrings.JoinEmpty | api/receipt/index.go:61 | a join with a non-empty separator is empty exactly when nothing, or one empty string, is joined |
| Patterns.IsPriceIff | api/receipt/index.go:40-43 | `isPrice` holds exactly of an optional `$`, then digits, then `.`, then two digits |
| Patterns.PriceIsNonEmpty | api/receipt/index.go:40-43 | a price has at least three characters, each `$`, `.` or a digit |
| Patterns.PriceAcceptsAmount | api/receipt/index.go:40-43 | accepts "3.00" |
| Patterns.PriceAcceptsDollarAmount | api/receipt/index.go:40-43 | accepts "$3.00" |
| Patterns.PriceAcceptsCentsOnly | api/receipt/index.go:40-43 | accepts ".99": the digits before the point may be absent |
| Patterns.PriceAcceptsLeadingZero | api/receipt/index.go:40-43 | accepts "0.99" |
| Patterns.PriceAcceptsHalf | api/receipt/index.go:40-43 | accepts ".50" |
| Patterns.PriceExamplesRejected | api/receipt/index.go:40-43 | rejects "300", "3.0", "3.005", "$", "abc", "$$1.00", "", "1,00" |
| Patterns.MatchesAtLabel | api/receipt/index.go:45-51 | for a word target and a string without U+212A or U+017F, a match is a case-insensitive occurrence with a non-word character or an edge on each side |
| Patterns.ContainsAsWordIffWord | api/receipt/index.go:45-51 | for a word target and a string without U+212A or U+017F, `containsAsWord` holds exactly when some maximal word of the string equals the target, ignoring case |
| Patterns.SingleWordContains | api/receipt/index.go:45-51 | within one word without U+212A or U+017F, whole-word search is case-insensitive equality |
| Patterns.WordExamplesFound | api/receipt/index.go:45-51 | "SALES TAX" and "Tax" hold "tax", and "Tip (18%)" holds "tip" |
| Patterns.WordExamplesNotFound | api/receipt/index.go:45-51 | "Vitamins" does not hold "tip", and "Subtotal" does not hold "total" |
| Classifier.LastPriceIndex | api/receipt/index.go:58-64 | the index is that of a price with no price to its right, or -1 when no token is a price |
| Classifier.FindItem | api/receipt/index.go:53-67 | the price is the rightmost price token and the name the tokens before it joined by spaces; both are empty exactly when no token is a price |
| Classifier.SplitRowSpec | api/receipt/index.go:53-67 | the same about the function the classifier uses: rightmost price, name before it, empty when none |
| Classifier.SplitRowName | api/receipt/index.go:54-61 | the name splits back into exactly the tokens before the price |
| Classifier.SplitLabelPrice | api/receipt/index.go:53-67 | a word followed by a price splits into that word and that price |
| Classifier.SingleWordRow | api/receipt/index.go:187-206 | a one-word row without U+212A or U+017F is routed by comparing the word with "subtotal", "tax", "tip", "total" in that order |
| Classifier.SubtotalIsDiscarded | api/receipt/index.go:187-189 | a name holding the word "subtotal" is discarded, never routed to the total |
| Classifier.SubtotalBeforeTotal | api/receipt/index.go:187-204 | "Subtotal Total" holds the word "total", yet the row is discarded, because the subtotal rule is tried first |
| Classifier.ClassifyLines | api/receipt/index.go:179-207 | the loop builds the receipt that routing the rows of the lines, first to last, gives; its items are the item rows in order, each well formed |
| Classifier.RowsPriced | api/receipt/index.go:53-67 | every row `findItem` makes has an empty price or one that `isPrice` accepts |
| Classifier.RouteAmount | api/receipt/index.go:191-204 | routing a row changes an amount only when the row is routed to that amount |
| Classifier.AmountDefault | api/receipt/index.go:180-182 | an amount that no row is routed to stays "0.00" |
| Classifier.LastWriteWins | api/receipt/index.go:191-204 | otherwise the amount is the price of the last row routed to it |
| Classifier.LastOf | api/receipt/index.go:191-204 | when some row is routed to an amount, the last such row: it is routed there and no later row is |
| Classifier.AmountIsPrice | api/receipt/index.go:179-207 | when every row has no price or a valid one, tax, tip and total are each "0.00" or a price |
| Classifier.ItemsInOrder | api/receipt/index.go:184-206 | the item list is exactly the item rows, in the order of their lines |
| Classifier.ItemsWellFormed | api/receipt/index.go:187-206 | when every row has no price or a valid one, every item has a non-empty name, a price, and none of the words subtotal, tax, tip, total |
| Merger.FirstNear | api/receipt/index.go:85-91 | the scan yields the lowest bucket within one unit, or the bucket count when none is |
| Merger.MergeOCRLines | api/receipt/index.go:74-102 | the loop computes the fold of merge steps; anchors are pairwise more than one unit apart; at most one bucket per line with words |
| Merger.InsertStep | api/receipt/index.go:85-98 | a line joins the lowest-index near bucket after a single space and leaves the others alone; with no near bucket, one is appended |
| Merger.InsertKeepsAnchors | api/receipt/index.go:85-98 | a step moves no anchor and adds at most one bucket, at the end, holding the line's anchor and text |
| Merger.InsertSeparated | api/receipt/index.go:85-98 | a step keeps every two anchors more than one unit apart |
| Merger.MergeSeparated | api/receipt/index.go:85-98 | in the result every two anchors differ by more than one unit |
| Merger.MergeIgnoresEmptyLines | api/receipt/index.go:77-80 | merging gives the same buckets as merging only the lines that have words |
| Merger.MergeLength | api/receipt/index.go:77-98 | there are at most as many buckets as lines with words |
| Merger.MergeEmpty | api/receipt/index.go:77-98 | the result is empty exactly when no line has words |
| Merger.AnchorsStable | api/receipt/index.go:85-98 | later lines keep every existing bucket at its position with its anchor |
| Merger.BucketOpener | api/receipt/index.go:93-98 | every bucket was opened by a line with words, holding that line's anchor and text |
| Merger.OpenedInLineOrder | api/receipt/index.go:93-98 | the bucket a line opens has an index below the bucket count at every later line, so buckets come in the order of the lines that opened them |
| Merger.BucketText | api/receipt/index.go:85-98 | a bucket's text is the texts of the lines placed in it, in order, joined by single spaces |
| Merger.TwoLines | api/receipt/index.go:85-98 | two lines share one bucket when their anchors are within one unit, and get two buckets otherwise |
| Receipt.Reconstruct | api/receipt/index.go:176-207 | merging then classifying gives the receipt of the merged texts; with no line that has words it is empty with all amounts "0.00" |
| Receipt.ScenarioItemsTaxTotal | api/receipt/index.go:179-207 | "Apple 1.00", "Bread 2.50", "Tax 0.30", "Total 3.80" give two items, tax 0.30, tip 0.00, total 3.80 |
| Receipt.ScenarioSubtotal | api/receipt/index.go:187-204 | "Subtotal 3.50", "Tax 0.30", "Total 3.80" give no items, tax 0.30, total 3.80 |
| Receipt.ScenarioNoPrice | api/receipt/index.go:185-189 | "Service Fee" gives an empty row, which leaves any receipt as it was |
| Receipt.ScenarioTolerance | api/receipt/index.go:85-98 | anchors 100 and 101 share a bucket; anchors 100 and 103 do not |
| Receipt.ScenarioEmpty | api/receipt/index.go:179-182 | no OCR lines give no items and all amounts "0.00" |
| Receipt.ScenarioFragments | api/receipt/index.go:176-207 | a name and its price found as two OCR lines one unit apart become one item |

## Left out

- HTTP handling in `Handler`: decoding the request body, the empty-image check, the error responses and writing the response (api/receipt/index.go:104-175, 209-217). These are I/O and framing.
- The OCR call: the API key, the form values, the POST request and decoding the OCR JSON (api/receipt/index.go:131-164). The HTTP client and the response writer are not part of this model. The model starts from the OCR lines of the first parsed result (api/receipt/index.go:176).
- Logging of the OCR response (api/receipt/index.go:153).
- When no row is an item, Go's items slice is nil and would be written as JSON `null`; the model has an empty sequence. This only matters for the JSON encoding.
- The conversion of a word's floating-point top to `int` (api/receipt/index.go:82): tops are integers from the start.
- Merger.Near: Go's 64-bit `int` could overflow in `Top-1` or `Top+1` at the extremes of the range; the model uses unbounded integers.
- OCR words carry only their top; their text, left, width and height are not read by the core.
- Strings are sequences of Unicode code points; Go's byte strings with invalid UTF-8 are not modelled.
- Patterns.Fold: case folding is exact for ASCII letters and targets made of them, which covers every target the package uses ("subtotal", "tax", "tip", "total"). For non-ASCII letters in a target or a name, only identical characters are taken as equal, whereas RE2 would also match other members of their case-fold orbits.
- Patterns.MatchesAtLabel: stated only for strings without KELVIN SIGN (U+212A) or LONG S (U+017F). With them, a character that is not a word character can match a letter of the target (see `Patterns.Fold`).
- Patterns.ContainsAsWordIffWord: stated only for strings without U+212A or U+017F, for the same reason; with them, "xſubtotal" holds the word "subtotal" although its words are "x" and "ubtotal".
- Patterns.SingleWordContains: stated only for words without U+212A or U+017F, for the same reason.
- Classifier.SingleWordRow: stated only for names without U+212A or U+017F, because it rests on Patterns.SingleWordContains.
