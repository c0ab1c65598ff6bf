/**
 * The record the two VTEX-store scrapers (zonasul.py and santaluzia.py)
 * write: a description, a price assembled from the three price spans the
 * store renders, and a product URL, with "N/A" standing for a missing
 * value.
 */
module Fields {
  import opened Common
  import opened Text

  /** The placeholder the scripts write for a value they could not find. */
  const NotAvailable: string := "N/A"

  /** The `DictWriter` field names, in column order. */
  const RecordColumns: seq<string> := ["Description", "Price", "URL"]

  datatype ProductRecord = ProductRecord(description: string, price: string, url: string)

  /** The CSV row `DictWriter` writes for a record: its values in field-name order. */
  function RecordRow(r: ProductRecord): seq<string> {
    [r.description, r.price, r.url]
  }

  /** Reads a written row back as a record, as `csv.DictReader` would with the same field names. */
  function RowRecord(row: seq<string>): Option<ProductRecord> {
    if |row| == |RecordColumns| then Some(ProductRecord(row[0], row[1], row[2])) else None
  }

  /** The CSV file: the header row, then one row per record, in order. */
  function RecordTable(records: seq<ProductRecord>): Table {
    Table(RecordColumns, seq(|records|, i requires 0 <= i < |records| => RecordRow(records[i])))
  }

  /** Every written row has one value per field name and reads back as the record it came from. */
  lemma RecordTableReadsBack(records: seq<ProductRecord>)
    ensures |RecordTable(records).rows| == |records|
    ensures forall i :: 0 <= i < |records| ==> |RecordTable(records).rows[i]| == |RecordTable(records).header|
    ensures forall i :: 0 <= i < |records| ==> RowRecord(RecordTable(records).rows[i]) == Some(records[i])
  {
  }

  /**
   * The text of an optional span given by its text pieces,
   * `span.get_text(strip=True) if span else "N/A"`: the pieces stripped
   * and run together, or "N/A" when the span is missing.
   */
  function SpanText(span: Option<seq<string>>): string {
    if span.Some? then StrippedText(span.value) else NotAvailable
  }

  /**
   * The price: the texts of the integer, decimal-separator and fraction
   * spans run together when all three are present, "N/A" otherwise.
   */
  function PriceText(integer: Option<seq<string>>, decimal: Option<seq<string>>, fraction: Option<seq<string>>): string {
    if integer.Some? && decimal.Some? && fraction.Some? then
      StrippedText(integer.value) + StrippedText(decimal.value) + StrippedText(fraction.value)
    else NotAvailable
  }

  /** The longest prefix of `s` made of decimal digits. */
  function DigitPrefix(s: string): (d: string)
    ensures d <= s && IsDigits(d)
    ensures |d| < |s| ==> !('0' <= s[|d|] <= '9')
  {
    if s != [] && '0' <= s[0] <= '9' then [s[0]] + DigitPrefix(s[1..]) else []
  }

  lemma {:induction false} DigitPrefixOf(d: string, rest: string)
    requires IsDigits(d) && (rest == [] || !('0' <= rest[0] <= '9'))
    ensures DigitPrefix(d + rest) == d
  {
    if d != [] {
      assert (d + rest)[1..] == d[1..] + rest;
      DigitPrefixOf(d[1..], rest);
    } else {
      assert d + rest == rest;
    }
  }

  /**
   * Reads a numeric price back into its integer and fraction digits: the
   * digits before the separator and everything after the separator.
   */
  function SplitPrice(price: string): Option<(string, string)> {
    var integer := DigitPrefix(price);
    if |integer| < |price| && price[|integer|] == ',' then Some((integer, price[|integer| + 1..]))
    else None
  }

  /** Digits, a comma and digits split back at the comma; such a price is not the placeholder. */
  lemma SplitPriceInverse(i: string, f: string)
    requires IsDigits(i) && IsDigits(f)
    ensures SplitPrice(i + "," + f) == Some((i, f))
    ensures i + "," + f != NotAvailable
  {
    var price := i + "," + f;
    assert price == i + ("," + f);
    DigitPrefixOf(i, "," + f);
    assert price[|i|] == ',';
    assert price[|i| + 1..] == f;
    assert forall k :: 0 <= k < |NotAvailable| ==> NotAvailable[k] != ',';
  }

  /**
   * A numeric price assembled from all three spans is never the "N/A"
   * placeholder, and reads back into the integer and fraction digits it
   * was made of.
   */
  lemma NumericPriceReadsBack(integer: seq<string>, decimal: seq<string>, fraction: seq<string>)
    requires IsDigits(StrippedText(integer)) && StrippedText(decimal) == "," && IsDigits(StrippedText(fraction))
    ensures PriceText(Some(integer), Some(decimal), Some(fraction)) != NotAvailable
    ensures SplitPrice(PriceText(Some(integer), Some(decimal), Some(fraction)))
            == Some((StrippedText(integer), StrippedText(fraction)))
  {
    var i, f := StrippedText(integer), StrippedText(fraction);
    assert PriceText(Some(integer), Some(decimal), Some(fraction)) == i + "," + f;
    SplitPriceInverse(i, f);
  }

  /** A missing span of the three gives the placeholder. */
  lemma MissingPartIsNotAvailable(integer: Option<seq<string>>, decimal: Option<seq<string>>,
                                  fraction: Option<seq<string>>)
    requires integer.None? || decimal.None? || fraction.None?
    ensures PriceText(integer, decimal, fraction) == NotAvailable
    ensures SplitPrice(PriceText(integer, decimal, fraction)).None?
  {
    assert DigitPrefix(NotAvailable) == [];
  }

  /**
   * The stored span text is already stripped, so stripping it again
   * changes nothing; it is empty exactly when every piece of the span is
   * blank.
   */
  lemma SpanTextStripped(span: Option<seq<string>>)
    ensures Strip(SpanText(span)) == SpanText(span)
    ensures span.Some? ==> (SpanText(span) == [] <==> forall p :: p in span.value ==> Strip(p) == [])
  {
    if span.Some? {
      StrippedTextStripped(span.value);
    } else {
      StripFixed(NotAvailable);
    }
  }
}
