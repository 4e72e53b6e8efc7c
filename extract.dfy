/** Record extraction (`parseXlsx`): turns one decoded spreadsheet, a matrix of
    cells whose first row is the header, into validated (section, price) records. */
module Extract {
  import opened Wrappers
  import opened Seqs
  import opened Text
  import opened JsNumber

  /** A decoded spreadsheet cell; Empty is a missing cell (`undefined`). */
  datatype Cell = Num(n: real) | Str(s: string) | Empty

  type Row = seq<Cell>

  type Sheet = seq<Row>

  /** ClearingPrice: one section's price in one term. */
  datatype PriceRecord = PriceRecord(section: string, price: int, term: string, termIndex: int)

  /** `row[i]`: a missing or out-of-range cell reads as Empty. */
  function CellAt(row: Row, i: int): Cell {
    if 0 <= i < |row| then row[i] else Empty
  }

  /** `String(h || '').toLowerCase()`. A number's string form (digits, sign, point,
      exponent, "Infinity") never contains the words looked for, so a numeric
      header is read as "" here. */
  function HeaderText(c: Cell): string {
    match c
    case Str(s) => ToLower(s)
    case _ => ""
  }

  predicate IsSectionHeader(c: Cell) {
    Contains(HeaderText(c), "section") || Contains(HeaderText(c), "course")
  }

  predicate IsPriceHeader(c: Cell) {
    Contains(HeaderText(c), "price") || Contains(HeaderText(c), "clearing")
  }

  /** The index of the last header satisfying `p`, or -1. */
  function LastWhere(hs: Row, p: Cell -> bool): (r: int)
    ensures -1 <= r < |hs|
    ensures r >= 0 ==> p(hs[r])
    ensures forall j :: r < j < |hs| ==> !p(hs[j])
  {
    if hs == [] then -1
    else if p(hs[|hs| - 1]) then |hs| - 1
    else LastWhere(hs[..|hs| - 1], p)
  }

  /** The section column: the LAST header mentioning "section" or "course", else column 0. */
  function SectionColumn(headers: Row): (col: int)
    ensures (exists i :: 0 <= i < |headers| && IsSectionHeader(headers[i])) ==>
              0 <= col < |headers| && IsSectionHeader(headers[col])
              && forall j :: col < j < |headers| ==> !IsSectionHeader(headers[j])
    ensures (forall i :: 0 <= i < |headers| ==> !IsSectionHeader(headers[i])) ==> col == 0
  {
    var last := LastWhere(headers, IsSectionHeader);
    if last == -1 then 0 else last
  }

  /** The price column: the LAST header mentioning "price" or "clearing", else the
      last column (-1 for an empty header row). */
  function PriceColumn(headers: Row): (col: int)
    ensures (exists i :: 0 <= i < |headers| && IsPriceHeader(headers[i])) ==>
              0 <= col < |headers| && IsPriceHeader(headers[col])
              && forall j :: col < j < |headers| ==> !IsPriceHeader(headers[j])
    ensures (forall i :: 0 <= i < |headers| ==> !IsPriceHeader(headers[i])) ==> col == |headers| - 1
  {
    var last := LastWhere(headers, IsPriceHeader);
    if last == -1 then |headers| - 1 else last
  }

  /** The header scan of `parseXlsx`: `headers.forEach` overwrites the column on every
      match and never stops early. */
  method DetectColumns(headers: Row) returns (sectionCol: int, priceCol: int)
    ensures sectionCol == SectionColumn(headers)
    ensures priceCol == PriceColumn(headers)
  {
    sectionCol, priceCol := -1, -1;
    for i := 0 to |headers|
      invariant sectionCol == LastWhere(headers[..i], IsSectionHeader)
      invariant priceCol == LastWhere(headers[..i], IsPriceHeader)
    {
      assert headers[..i + 1][..i] == headers[..i];
      var header := HeaderText(headers[i]);
      if Contains(header, "section") || Contains(header, "course") {
        sectionCol := i;
      }
      if Contains(header, "price") || Contains(header, "clearing") {
        priceCol := i;
      }
    }
    assert headers[..|headers|] == headers;
    if sectionCol == -1 {
      sectionCol := 0;
    }
    if priceCol == -1 {
      priceCol := |headers| - 1;
    }
  }

  /** `String(cell || '')` for a section cell. A number's string form cannot begin
      with four letters, so a numeric cell is read as "", which is rejected just as
      its string form would be. */
  function SectionText(c: Cell): string {
    match c
    case Str(s) => s
    case _ => ""
  }

  /** `.trim().toUpperCase()` */
  function NormalizeSection(c: Cell): string {
    ToUpper(Trim(SectionText(c)))
  }

  /** `/^[A-Z]{4}\d{6,7}$/`: four capital letters, then six or seven digits, nothing else. */
  predicate IsValidSection(s: string) {
    (|s| == 10 || |s| == 11)
    && (forall i :: 0 <= i < 4 ==> IsUpperLetter(s[i]))
    && (forall i :: 4 <= i < |s| ==> IsDigit(s[i]))
  }

  /** The price before rounding: a number cell as it is, anything else through
      parseFloat, where NaN (and 0) become 0. A missing cell is `String(undefined)`,
      "undefined", which parseFloat reads as NaN. */
  function PriceValue(c: Cell): real {
    match c
    case Num(x) => x
    case Str(s) => ParseFloat(s).GetOr(0.0)
    case Empty => 0.0
  }

  /** One data row: None for an empty row or a section failing validation, else the
      record with the rounded price and the placeholder termIndex 0. */
  function ExtractRow(row: Row, sectionCol: int, priceCol: int, term: string): (r: Option<PriceRecord>)
    ensures r.Some? <==> |row| > 0 && IsValidSection(NormalizeSection(CellAt(row, sectionCol)))
    ensures r.Some? ==> (r.value.section == NormalizeSection(CellAt(row, sectionCol))
                         && r.value.price == Round(PriceValue(CellAt(row, priceCol)))
                         && r.value.term == term && r.value.termIndex == 0)
  {
    if |row| == 0 then None
    else
      var section := NormalizeSection(CellAt(row, sectionCol));
      if !IsValidSection(section) then None
      else Some(PriceRecord(section, Round(PriceValue(CellAt(row, priceCol))), term, 0))
  }

  /** The row-by-row extraction under fixed columns. */
  function RowExtractor(sectionCol: int, priceCol: int, term: string): Row -> Option<PriceRecord> {
    row => ExtractRow(row, sectionCol, priceCol, term)
  }

  /** What `parseXlsx` returns for a decoded sheet: nothing for a sheet without a
      header row, else the records of rows 1.. under the detected columns. */
  function ParseSheet(data: Sheet, term: string): (rs: seq<PriceRecord>)
    ensures |data| == 0 ==> rs == []
    ensures |data| > 0 ==> |rs| <= |data| - 1
    ensures forall r :: r in rs ==> IsValidSection(r.section) && r.term == term && r.termIndex == 0
  {
    if |data| == 0 then []
    else
      var rs := FilterMap(data[1..], RowExtractor(SectionColumn(data[0]), PriceColumn(data[0]), term));
      FilterMapValid(data[1..], SectionColumn(data[0]), PriceColumn(data[0]), term);
      rs
  }

  /** parseXlsx, from the decoded cell matrix on. */
  method ParseXlsx(data: Sheet, term: string) returns (prices: seq<PriceRecord>)
    ensures prices == ParseSheet(data, term)
  {
    prices := [];
    if |data| == 0 {
      return;
    }
    var headers := data[0];
    var sectionCol, priceCol := DetectColumns(headers);
    ghost var extract := RowExtractor(sectionCol, priceCol, term);
    for i := 1 to |data|
      invariant prices == FilterMap(data[1..i], extract)
    {
      var row := data[i];
      ghost var found := ExtractRow(row, sectionCol, priceCol, term);
      if |row| > 0 {
        var section := NormalizeSection(CellAt(row, sectionCol));
        if IsValidSection(section) {
          var price := PriceValue(CellAt(row, priceCol));
          prices := prices + [PriceRecord(section, Round(price), term, 0)];
        }
      }
      assert prices == FilterMap(data[1..i], extract) + (if found.Some? then [found.value] else []);
      RowStep(data, i, extract);
    }
    assert data[1..|data|] == data[1..];
  }

  /** FilterMap over rows 1..i+1 extends the one over rows 1..i by row i. */
  lemma RowStep(data: Sheet, i: nat, f: Row -> Option<PriceRecord>)
    requires 1 <= i < |data|
    ensures FilterMap(data[1..i + 1], f)
         == FilterMap(data[1..i], f) + (if f(data[i]).Some? then [f(data[i]).value] else [])
  {
    assert data[1..i + 1][..i - 1] == data[1..i];
  }

  lemma {:induction false} FilterMapValid(rows: seq<Row>, sectionCol: int, priceCol: int, term: string)
    ensures forall r :: r in FilterMap(rows, RowExtractor(sectionCol, priceCol, term)) ==>
              IsValidSection(r.section) && r.term == term && r.termIndex == 0
    decreases |rows|
  {
    if rows != [] {
      FilterMapValid(rows[..|rows| - 1], sectionCol, priceCol, term);
    }
  }

  /** Output order: record k is the record of data row 1 + Kept(...)[k]; those rows
      increase with k, so there is at most one record per row, in row order, the
      header row never yields one, and every row that passes validation does. */
  lemma ParseSheetRowOrder(data: Sheet, term: string)
    requires |data| > 0
    ensures var kept := Kept(data[1..], RowExtractor(SectionColumn(data[0]), PriceColumn(data[0]), term));
      && |kept| == |ParseSheet(data, term)|
      && (forall k :: 0 <= k < |kept| ==>
            1 + kept[k] < |data|
            && ExtractRow(data[1 + kept[k]], SectionColumn(data[0]), PriceColumn(data[0]), term)
               == Some(ParseSheet(data, term)[k]))
      && (forall k, l :: 0 <= k < l < |kept| ==> kept[k] < kept[l])
      && (forall i :: 1 <= i < |data| && ExtractRow(data[i], SectionColumn(data[0]), PriceColumn(data[0]), term).Some?
            ==> i - 1 in kept)
  {
    var f := RowExtractor(SectionColumn(data[0]), PriceColumn(data[0]), term);
    KeptGivesResults(data[1..], f);
    KeptInOrder(data[1..], f);
    forall i | 1 <= i < |data| ensures data[1..][i - 1] == data[i] { }
  }
  /** A number cell is rounded; a negative number passes through unchanged. */
  lemma PriceOfNumber()
    ensures Round(PriceValue(Num(450.0))) == 450
    ensures Round(PriceValue(Num(449.5))) == 450
    ensures Round(PriceValue(Num(-20.0))) == -20
  {
  }

  lemma Value450()
    ensures AllDigits("450") && DigitsValue("450") == 450
  {
    assert "450"[..2] == "45" && "45"[..1] == "4" && "4"[..0] == [];
  }

  /** A decimal string is parsed and rounded half up. */
  lemma PriceOfDecimal()
    ensures PriceValue(Str("450.6")) == 450.6
    ensures Round(PriceValue(Str("450.6"))) == 451
  {
    assert "450" + "." + "6" + "" == "450.6";
    Value450();
    assert "6"[..0] == [];
    assert DigitsValue("6") == 6 && FractionValue("6") == 0.6;
    ParseFloatDecimal("450", "6", "");
    assert ParseFloat("450.6") == Some(450.6);
  }

  /** Text after the digits is ignored. */
  lemma PriceOfTrailingText()
    ensures Round(PriceValue(Str("450abc"))) == 450
  {
    assert "450" + "abc" == "450abc";
    Value450();
    ParseFloatDigits("450", "abc");
  }

  /** Non-numeric text and a missing cell (read as "undefined") become 0. */
  lemma PriceOfNonNumeric()
    ensures Round(PriceValue(Str("N/A"))) == 0
    ensures Round(PriceValue(Empty)) == 0
  {
    ParseFloatNaN("N/A");
  }

  /** The section pattern: four capitals and six or seven digits, nothing more. */
  lemma SectionExamples()
    ensures IsValidSection("ACCT6110001")
    ensures IsValidSection("FNCE100001")
    ensures !IsValidSection("ACCT611")
    ensures !IsValidSection("ACC61100010")
    ensures !IsValidSection("ACCT61100010")
  {
    assert !IsUpperLetter("ACC61100010"[3]);
  }
}
