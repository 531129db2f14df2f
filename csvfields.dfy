/** The two per-cell callbacks `parseCSVData` hands to the CSV reader
    (src/utils/dataParser.ts:46-64): `transformHeader` renames the display
    headers of the dataset to record field names, and `transform` turns the
    cells of the four numeric fields into integers. The reader itself is not
    part of this model. */
module CsvFields {
  import opened JsText
  import opened Grouping

  /** The keys of `CSV_HEADER_MAP`: the display headers of the dataset. */
  const DisplayHeaders: seq<string> := [
    "VIN (1-10)", "County", "City", "State", "Postal Code", "Model Year", "Make", "Model",
    "Electric Vehicle Type", "Clean Alternative Fuel Vehicle (CAFV) Eligibility",
    "Electric Range", "Base MSRP", "Legislative District", "DOL Vehicle ID",
    "Vehicle Location", "Electric Utility", "2020 Census Tract"]

  /** The values of `CSV_HEADER_MAP`, position by position: the record fields,
      in declaration order. */
  const FieldNames: seq<string> := [
    "vin", "county", "city", "state", "postalCode", "modelYear", "make", "model",
    "electricVehicleType", "cafvEligibility", "electricRange", "baseMSRP",
    "legislativeDistrict", "dolVehicleId", "vehicleLocation", "electricUtility", "censusTract"]

  /** `NUMERIC_FIELDS`: the fields whose cells become integers. */
  const NumericFields: seq<string> := ["modelYear", "electricRange", "baseMSRP", "legislativeDistrict"]

  /** The table is a one-to-one map: 17 distinct headers onto 17 distinct fields,
      and no field name is also a header. */
  lemma HeaderTableShape()
    ensures |DisplayHeaders| == |FieldNames| == 17
    ensures NoDuplicates(DisplayHeaders) && NoDuplicates(FieldNames)
    ensures forall i, j :: 0 <= i < |DisplayHeaders| && 0 <= j < |FieldNames| ==> DisplayHeaders[i] != FieldNames[j]
  {
  }

  /** `transformHeader`, `CSV_HEADER_MAP[header] || header`: the field of a
      display header, any other header unchanged. No field name is "", so the
      `||` fallback is taken exactly for unknown headers. */
  function RenameHeader(header: string): (name: string)
    ensures header in DisplayHeaders ==> name in FieldNames
    ensures header !in DisplayHeaders ==> name == header
  {
    var i := FirstIndex(DisplayHeaders, header);
    if i < |DisplayHeaders| then FieldNames[i] else header
  }

  /** Each display header is renamed to the field at its position. */
  lemma RenameHeaderAt(i: int)
    requires 0 <= i < |DisplayHeaders|
    ensures RenameHeader(DisplayHeaders[i]) == FieldNames[i]
  {
    HeaderTableShape();
    assert FirstIndex(DisplayHeaders, DisplayHeaders[i]) == i;
  }

  /** Renaming twice is renaming once. */
  lemma RenameHeaderIdempotent(header: string)
    ensures RenameHeader(RenameHeader(header)) == RenameHeader(header)
  {
    HeaderTableShape();
    if header in DisplayHeaders {
      var j :| 0 <= j < |FieldNames| && FieldNames[j] == RenameHeader(header);
      assert RenameHeader(header) !in DisplayHeaders;
    }
  }

  /** Two display headers never land on the same field. */
  lemma RenameHeaderInjective(i: int, j: int)
    requires 0 <= i < j < |DisplayHeaders|
    ensures RenameHeader(DisplayHeaders[i]) != RenameHeader(DisplayHeaders[j])
  {
    HeaderTableShape();
    RenameHeaderAt(i);
    RenameHeaderAt(j);
  }

  /** A parsed cell: the text as read, or a number. */
  datatype Cell = Text(text: string) | Number(number: int)

  /** `transform`: a cell of a numeric field becomes 0 when empty and
      `_.toInteger` of its text otherwise; other cells are kept as text. */
  function TransformValue(value: string, header: string): (c: Cell)
    ensures header !in NumericFields ==> c == Text(value)
    ensures header in NumericFields && value == "" ==> c == Number(0)
  {
    if header in NumericFields then
      (if value == "" then Number(0) else Number(ToInteger(value)))
    else Text(value)
  }

  /** The empty check only restates what `_.toInteger` does with "": a numeric
      cell is always `_.toInteger` of its text. */
  lemma NumericCellIsToInteger(value: string, header: string)
    requires header in NumericFields
    ensures TransformValue(value, header) == Number(ToInteger(value))
  {
  }

  /** A numeric cell written as `String(n)` reads back as `n`. */
  lemma NumericCellRoundTrip(n: int, header: string)
    requires header in NumericFields
    ensures TransformValue(IntToString(n), header) == Number(n)
  {
    ToIntegerOfString(n);
  }

  /** A numeric cell with a decimal fraction is truncated toward zero. */
  lemma NumericCellTruncates(n: int, fraction: string, header: string)
    requires header in NumericFields
    requires AllDigits(fraction)
    ensures TransformValue(IntToString(n) + "." + fraction, header) == Number(n)
  {
    ToIntegerTruncates(n, fraction);
  }

  /** A numeric cell that is not a number becomes 0. */
  lemma NonNumericCellIsZero(value: string, header: string)
    requires header in NumericFields
    requires value != [] && !IsDigit(value[0]) && value[0] != '-' && value[0] != '+' && value[0] != '.'
    ensures TransformValue(value, header) == Number(0)
  {
    assert FirstOf(value, '.') > 0;
    assert !AllDigits(value[..FirstOf(value, '.')]);
  }

  /** The callbacks as the reader applies them: the header is renamed first, and
      the cell is transformed under the renamed header. */
  function TransformCell(rawHeader: string, value: string): (c: Cell)
    ensures RenameHeader(rawHeader) in NumericFields ==> c == Number(ToInteger(value))
    ensures RenameHeader(rawHeader) !in NumericFields ==> c == Text(value)
  {
    TransformValue(value, RenameHeader(rawHeader))
  }

  /** Exactly the four display headers of the numeric fields give numbers. */
  lemma NumericHeaders(i: int)
    requires 0 <= i < |DisplayHeaders|
    ensures RenameHeader(DisplayHeaders[i]) in NumericFields <==> (i == 5 || i == 10 || i == 11 || i == 12)
  {
    assert NumericFields == [FieldNames[5], FieldNames[10], FieldNames[11], FieldNames[12]] by {
      assert FieldNames[5] == "modelYear" && FieldNames[10] == "electricRange";
      assert FieldNames[11] == "baseMSRP" && FieldNames[12] == "legislativeDistrict";
    }
    RenameHeaderAt(i);
    HeaderTableShape();
  }
}
