/**
 * The Excel upload helpers: the checks made on an uploaded file before it is
 * read, the ZIP signature test, column identifiers (letters, numbers, header
 * names) and the column-structure validation of a worksheet.
 *
 * Opening the workbook is done by a spreadsheet library that is not part of
 * this model: the worksheet (present or not) and the used cells of its first
 * row are inputs.
 */
module Excel {
  import opened Common

  // ----- ValidateExcelFile -----

  /** The upload size limit, 10 MiB. */
  const MaxFileBytes: nat := 10 * 1024 * 1024

  const XlsxContentType: string := "application/vnd.openxmlformats-officedocument.spreadsheetml.sheet"

  datatype FileError = FileIsEmpty | FileSizeExceedsLimit(sizeInMB: nat) | InvalidFileType

  /**
   * The checks on an uploaded file, in order: an empty file, a file over
   * 10 MiB (exactly 10 MiB passes), and a content type that does not start
   * with the spreadsheet MIME type.
   */
  function ValidateExcelFile(length: nat, contentType: string): (r: Result<(), FileError>)
    ensures r.Ok? <==> 0 < length <= MaxFileBytes && StartsWith(contentType, XlsxContentType)
    ensures r == Err(FileIsEmpty) <==> length == 0
    ensures r == Err(FileSizeExceedsLimit(10)) <==> length > MaxFileBytes
    ensures r == Err(InvalidFileType) <==> 0 < length <= MaxFileBytes && !StartsWith(contentType, XlsxContentType)
  {
    if length == 0 then Err(FileIsEmpty)
    else if length > 10 * 1024 * 1024 then Err(FileSizeExceedsLimit(10))
    else if !StartsWith(contentType, XlsxContentType) then Err(InvalidFileType)
    else Ok(())
  }

  // ----- IsExcelFile -----

  /** The ZIP local file header signature (section 4.3.7 of PKWARE's APPNOTE.TXT) that every .xlsx file starts with. */
  const ZipSignature: seq<bv8> := [0x50, 0x4B, 0x03, 0x04]

  predicate HasZipSignature(data: seq<bv8>)
  {
    |data| >= |ZipSignature| && data[..|ZipSignature|] == ZipSignature
  }

  /** The signature test: at least four bytes, and the first four are the signature. */
  method IsExcelFile(fileData: array<bv8>) returns (r: bool)
    ensures r <==> HasZipSignature(fileData[..])
  {
    if fileData.Length < |ZipSignature| {
      return false;
    }
    for i := 0 to |ZipSignature|
      invariant fileData[..i] == ZipSignature[..i]
    {
      if fileData[i] != ZipSignature[i] {
        assert fileData[..|ZipSignature|][i] != ZipSignature[i];
        return false;
      }
      assert fileData[..i + 1] == fileData[..i] + [fileData[i]];
      assert ZipSignature[..i + 1] == ZipSignature[..i] + [ZipSignature[i]];
    }
    return true;
  }

  /** Only the first four bytes matter: the signature followed by anything passes, and so does nothing shorter. */
  lemma SignatureIsPrefix(rest: seq<bv8>, short: seq<bv8>)
    requires |short| < |ZipSignature|
    ensures HasZipSignature(ZipSignature + rest)
    ensures !HasZipSignature(short)
  {
    assert (ZipSignature + rest)[..|ZipSignature|] == ZipSignature;
  }

  // ----- column letters -----

  /** The sum the conversion loop computes: each character counts its distance from 'A' plus one, in base 26. */
  function LettersValue(s: string): int
  {
    if s == [] then 0 else 26 * LettersValue(s[..|s| - 1]) + (s[|s| - 1] as int - 'A' as int + 1)
  }

  predicate AllUpperLetters(s: string)
  {
    forall i :: 0 <= i < |s| ==> 'A' <= s[i] <= 'Z'
  }

  /** The column number of a letter identifier: -1 for the empty string, otherwise the value of its upper-cased letters. */
  function ColumnNumber(columnLetter: string): int
  {
    if columnLetter == [] then -1 else LettersValue(Upper(columnLetter))
  }

  /** `ConvertColumnLetterToNumber`: upper-case, then fold the characters left to right. */
  method ConvertColumnLetterToNumber(columnLetter: string) returns (r: int)
    ensures r == ColumnNumber(columnLetter)
  {
    if columnLetter == [] {
      return -1;
    }
    var letters := Upper(columnLetter);
    var sum := 0;
    for i := 0 to |letters|
      invariant sum == LettersValue(letters[..i])
    {
      assert letters[..i + 1][..i] == letters[..i];
      sum := sum * 26;
      sum := sum + (letters[i] as int - 'A' as int + 1);
    }
    assert letters[..|letters|] == letters;
    return sum;
  }

  /** The column name of a positive column number: the inverse of the conversion (1 is "A", 27 is "AA"). */
  function ColumnName(n: int): (r: string)
    requires n >= 1
    ensures |r| > 0 && AllUpperLetters(r)
  {
    var rest := (n - 1) / 26;
    (if rest == 0 then [] else ColumnName(rest)) + [('A' as int + (n - 1) % 26) as char]
  }

  /** Letters are worth at least one per letter-string, so a non-empty identifier of letters is a positive column. */
  lemma {:induction false} LettersPositive(s: string)
    requires AllUpperLetters(s)
    ensures LettersValue(s) >= 0
    ensures |s| > 0 ==> LettersValue(s) >= 1
  {
    if s != [] {
      LettersPositive(s[..|s| - 1]);
    }
  }

  /** Different letter identifiers name different columns. */
  lemma {:induction false} LettersInjective(s: string, t: string)
    requires AllUpperLetters(s) && AllUpperLetters(t)
    requires LettersValue(s) == LettersValue(t)
    ensures s == t
  {
    if s == [] {
      LettersPositive(t);
    } else if t == [] {
      LettersPositive(s);
    } else {
      var p, q := s[..|s| - 1], t[..|t| - 1];
      var c, d := s[|s| - 1] as int - 'A' as int + 1, t[|t| - 1] as int - 'A' as int + 1;
      assert 26 * LettersValue(p) + c == 26 * LettersValue(q) + d;
      assert c == d by {
        assert 1 <= c <= 26 && 1 <= d <= 26;
        assert (c - d) % 26 == 0 by {
          assert c - d == 26 * (LettersValue(q) - LettersValue(p));
        }
      }
      LettersInjective(p, q);
      assert s == p + [s[|s| - 1]] && t == q + [t[|t| - 1]];
    }
  }

  /** Converting a column name gives back its number. */
  lemma {:induction false} ColumnNameValue(n: int)
    requires n >= 1
    ensures LettersValue(ColumnName(n)) == n
  {
    var rest := (n - 1) / 26;
    var s := ColumnName(n);
    assert s[..|s| - 1] == (if rest == 0 then [] else ColumnName(rest));
    if rest != 0 {
      ColumnNameValue(rest);
    }
  }

  /**
   * On upper-case letters the conversion is a bijection onto the positive
   * numbers: every non-empty letter identifier is the name of its number, and
   * every positive number has a name that converts back to it.
   */
  lemma ColumnNumberBijective(s: string, n: int)
    requires |s| > 0 && AllUpperLetters(s)
    requires n >= 1
    ensures ColumnNumber(s) >= 1 && ColumnName(ColumnNumber(s)) == s
    ensures ColumnNumber(ColumnName(n)) == n
  {
    assert Upper(s) == s;
    LettersPositive(s);
    ColumnNameValue(LettersValue(s));
    LettersInjective(ColumnName(LettersValue(s)), s);
    var name := ColumnName(n);
    assert Upper(name) == name;
    ColumnNameValue(n);
  }

  /** The conversion ignores case: "ab" and "AB" name the same column. */
  lemma ColumnNumberIgnoresCase(s: string, t: string)
    requires EqualsIgnoreCase(s, t)
    ensures ColumnNumber(s) == ColumnNumber(t)
  {
    assert |s| == |Upper(s)| == |Upper(t)| == |t|;
  }

  /** The conversion on a few identifiers. */
  lemma ColumnNumberExamples()
    ensures ColumnNumber("A") == 1 && ColumnNumber("Z") == 26
    ensures ColumnNumber("AA") == 27 && ColumnNumber("AZ") == 52 && ColumnNumber("BA") == 53
    ensures ColumnNumber("ab") == ColumnNumber("AB") == 28
  {
    assert Upper("A") == "A" && Upper("Z") == "Z";
    assert Upper("AA") == "AA" && Upper("AZ") == "AZ" && Upper("BA") == "BA";
    assert Upper("ab") == "AB" && Upper("AB") == "AB";
    assert "AA"[..1] == "A" && "AZ"[..1] == "A" && "BA"[..1] == "B" && "AB"[..1] == "A";
    assert LettersValue("B") == 2;
  }

  // ----- int.TryParse -----

  const Int32Min: int := -0x8000_0000
  const Int32Max: int := 0x7FFF_FFFF

  predicate IsDigit(c: char)
  {
    '0' <= c <= '9'
  }

  predicate AllDigits(s: string)
  {
    forall i :: 0 <= i < |s| ==> IsDigit(s[i])
  }

  function DigitsValue(s: string): nat
    requires AllDigits(s)
  {
    if s == [] then 0 else 10 * DigitsValue(s[..|s| - 1]) + (s[|s| - 1] as int - '0' as int)
  }

  /**
   * `int.TryParse` with the default integer style: surrounding white space,
   * an optional sign, then at least one digit, within the 32-bit range.
   */
  function TryParseInt(s: string): (r: Option<int>)
    ensures r.Some? ==> Int32Min <= r.value <= Int32Max
  {
    var t := Trim(s);
    var signed := |t| > 0 && (t[0] == '-' || t[0] == '+');
    var digits := if signed then t[1..] else t;
    if digits == [] || !AllDigits(digits) then None
    else
      var v: int := if signed && t[0] == '-' then -(DigitsValue(digits) as int) else DigitsValue(digits);
      if Int32Min <= v <= Int32Max then Some(v) else None
  }

  lemma {:induction false} DigitsOfNatToString(n: nat)
    ensures AllDigits(NatToString(n))
    ensures DigitsValue(NatToString(n)) == n
  {
    if n >= 10 {
      var s := NatToString(n);
      assert s[..|s| - 1] == NatToString(n / 10);
      DigitsOfNatToString(n / 10);
    }
  }

  /** Parsing reads back what `ToString` wrote, for every 32-bit integer. */
  lemma ParseIntRoundTrip(n: int)
    requires Int32Min <= n <= Int32Max
    ensures TryParseInt(IntToString(n)) == Some(n)
  {
    var s := IntToString(n);
    var m: nat := if n < 0 then -n else n;
    DigitsOfNatToString(m);
    var digits := NatToString(m);
    assert s[|s| - 1] == digits[|digits| - 1];
    TrimNoEdges(s);
    assert Trim(s) == s;
    if n < 0 {
      assert s == "-" + digits;
      assert s[1..] == digits;
    } else {
      assert s == digits;
      assert IsDigit(s[0]);
    }
  }

  // ----- column identifiers -----

  /** How an attribute identifies its column. */
  datatype IdentifierType = Letter | Number | Name

  /** An `ExcelColumn` attribute: the identifier, an optional expected header text, and the identifier's kind. */
  datatype ColumnAttribute = ColumnAttribute(identifier: string, columnName: Option<string>, identifierType: IdentifierType)

  /** The attribute constructor taking a column letter. */
  function LetterColumn(columnLetter: string, columnName: Option<string>): (a: ColumnAttribute)
    ensures a.identifierType == Letter && a.identifier == columnLetter && a.columnName == columnName
  {
    ColumnAttribute(columnLetter, columnName, Letter)
  }

  /** The attribute constructor taking a column number, kept as its decimal text. */
  function NumberColumn(columnNumber: int, columnName: Option<string>): (a: ColumnAttribute)
    ensures a.identifierType == Number && a.identifier == IntToString(columnNumber) && a.columnName == columnName
  {
    ColumnAttribute(IntToString(columnNumber), columnName, Number)
  }

  /** The key a header text is found under: the header dictionary compares keys ignoring case. */
  function HeaderKey(text: string): string
  {
    Upper(text)
  }

  /**
   * `GetColumnIndex`: a letter identifier is converted, a number identifier
   * parsed (-1 when it does not parse), a name looked up in the header
   * dictionary (-1 when absent or when there is no dictionary).
   */
  function GetColumnIndex(attribute: ColumnAttribute, headerToColumnIndex: Option<map<string, int>>): (r: int)
    ensures attribute.identifierType == Number && TryParseInt(attribute.identifier).None? ==> r == -1
    ensures attribute.identifierType == Name && headerToColumnIndex.None? ==> r == -1
    ensures attribute.identifierType == Name && headerToColumnIndex.Some? ==>
      r == -1 || r in headerToColumnIndex.value.Values
  {
    match attribute.identifierType
    case Letter => ColumnNumber(attribute.identifier)
    case Number =>
      (match TryParseInt(attribute.identifier)
       case Some(columnNumber) => columnNumber
       case None => -1)
    case Name =>
      if headerToColumnIndex.Some? && HeaderKey(attribute.identifier) in headerToColumnIndex.value
      then headerToColumnIndex.value[HeaderKey(attribute.identifier)]
      else -1
  }

  /**
   * Each constructor's attribute resolves to the column it was given: a
   * column name to its number, a 32-bit number to itself; a name never
   * resolves without a header dictionary.
   */
  lemma ColumnIndexOfAttributes(n: int, columnName: Option<string>, identifier: string, headers: Option<map<string, int>>)
    requires n >= 1 && n <= Int32Max
    ensures GetColumnIndex(LetterColumn(ColumnName(n), columnName), headers) == n
    ensures GetColumnIndex(NumberColumn(n, columnName), headers) == n
    ensures GetColumnIndex(ColumnAttribute(identifier, columnName, Name), None) == -1
  {
    ColumnNumberBijective(ColumnName(n), n);
    ParseIntRoundTrip(n);
  }

  // ----- ValidateColumnStructure -----

  /** A used cell of the header row: its 1-based column and its text. */
  datatype HeaderCell = HeaderCell(column: int, text: string)

  /**
   * A cell reference: a column and a row number.  The source builds it as
   * the text `$"{column}{row}"`, which `Text` renders.
   */
  datatype Cell = Cell(column: string, row: int)
  {
    function Text(): string
    {
      column + IntToString(row)
    }
  }

  /** The text of a cell determines its row within a column. */
  lemma CellTextDeterminesRow(column: string, row: int, row': int)
    requires Cell(column, row).Text() == Cell(column, row').Text()
    ensures row == row'
  {
    var a, b := Cell(column, row).Text(), Cell(column, row').Text();
    assert a[|column|..] == IntToString(row) && b[|column|..] == IntToString(row');
    IntToStringInjective(row, row');
  }

  /** A property of the target type with its column attribute. */
  datatype ColumnMapping = ColumnMapping(property: string, attribute: ColumnAttribute)

  datatype StructureError =
    | FileEmpty
    | InvalidFile
    | WorksheetNotFound
    | NoExcelColumns
    | MissingColumn(property: string, identifier: string)
    | MissingNamedColumn(identifier: string, columnName: string)
    | InvalidColumnIndex(property: string, identifier: string)
    | ColumnOutOfRange(property: string, identifier: string, columnCount: nat)
    | NoHeaderForName(property: string, identifier: string)

  /** The key a header cell is entered under: its trimmed text ignoring case, none for a blank cell. */
  function HeaderEntry(cell: HeaderCell): Option<string>
  {
    var text := Trim(cell.text);
    if text == "" then None else Some(HeaderKey(text))
  }

  /**
   * A dictionary built from the cells in order: each cell with an entry maps
   * it to the cell's column, a later cell overriding an earlier one.  The
   * entry function is a parameter so that the dictionary's properties are
   * proved once, apart from how header texts are keyed.
   */
  function IndexBy(cells: seq<HeaderCell>, entry: HeaderCell -> Option<string>): map<string, int>
  {
    if cells == [] then map[]
    else
      var index := IndexBy(cells[..|cells| - 1], entry);
      var cell := cells[|cells| - 1];
      match entry(cell)
      case None => index
      case Some(key) => index[key := cell.column]
  }

  /** The header dictionary: each non-blank trimmed header text, keyed ignoring case, maps to its column. */
  function HeaderIndex(cells: seq<HeaderCell>): (r: map<string, int>)
    ensures |r| <= |cells|
  {
    IndexBySize(cells, HeaderEntry);
    IndexBy(cells, HeaderEntry)
  }

  /** The dictionary has at most one entry per cell. */
  lemma {:induction false} IndexBySize(cells: seq<HeaderCell>, entry: HeaderCell -> Option<string>)
    ensures |IndexBy(cells, entry)| <= |cells|
  {
    if cells != [] {
      IndexBySize(cells[..|cells| - 1], entry);
    }
  }

  /** Some used header cell has the given entry. */
  predicate HasEntry(cells: seq<HeaderCell>, entry: HeaderCell -> Option<string>, key: string)
  {
    exists i :: 0 <= i < |cells| && entry(cells[i]) == Some(key)
  }

  /** A key is in the dictionary exactly when some cell has it as its entry. */
  lemma {:induction false} IndexByKeys(cells: seq<HeaderCell>, entry: HeaderCell -> Option<string>, key: string)
    ensures key in IndexBy(cells, entry) <==> HasEntry(cells, entry, key)
  {
    if cells != [] {
      var init := cells[..|cells| - 1];
      IndexByKeys(init, entry, key);
      if HasEntry(init, entry, key) {
        var i :| 0 <= i < |init| && entry(init[i]) == Some(key);
        assert cells[i] == init[i];
      }
      if HasEntry(cells, entry, key) && entry(cells[|cells| - 1]) != Some(key) {
        var i :| 0 <= i < |cells| && entry(cells[i]) == Some(key);
        assert cells[i] == init[i];
      }
    }
  }

  /** A key maps to the column of the last cell that has it as its entry. */
  lemma {:induction false} IndexByLastWins(cells: seq<HeaderCell>, entry: HeaderCell -> Option<string>, key: string, i: int)
    requires 0 <= i < |cells| && entry(cells[i]) == Some(key)
    requires forall j :: i < j < |cells| ==> entry(cells[j]) != Some(key)
    ensures key in IndexBy(cells, entry) && IndexBy(cells, entry)[key] == cells[i].column
  {
    var init := cells[..|cells| - 1];
    if i < |cells| - 1 {
      assert init[i] == cells[i];
      forall j | i < j < |init| ensures entry(init[j]) != Some(key) {
        assert init[j] == cells[j];
      }
      IndexByLastWins(init, entry, key, i);
    }
  }

  /**
   * The header dictionary holds a key exactly when some used header cell's
   * trimmed text has that key, and it maps the key to the last such cell's
   * column.
   */
  lemma HeaderIndexKeys(cells: seq<HeaderCell>, key: string)
    ensures key in HeaderIndex(cells) <==> HasEntry(cells, HeaderEntry, key)
    ensures forall i ::
      (0 <= i < |cells| && HeaderEntry(cells[i]) == Some(key) &&
       forall j :: i < j < |cells| ==> HeaderEntry(cells[j]) != Some(key))
      ==> key in HeaderIndex(cells) && HeaderIndex(cells)[key] == cells[i].column
  {
    IndexByKeys(cells, HeaderEntry, key);
    forall i | 0 <= i < |cells| && HeaderEntry(cells[i]) == Some(key) &&
      (forall j :: i < j < |cells| ==> HeaderEntry(cells[j]) != Some(key))
      ensures key in HeaderIndex(cells) && HeaderIndex(cells)[key] == cells[i].column
    {
      IndexByLastWins(cells, HeaderEntry, key, i);
    }
  }

  /** The error one mapping produces, if any, with or without a header row. */
  function MappingError(m: ColumnMapping, hasHeaderRow: bool, index: map<string, int>, columnCount: nat): Option<StructureError>
  {
    var a := m.attribute;
    if hasHeaderRow then
      if a.identifierType == Name then
        if HeaderKey(a.identifier) !in index then Some(MissingColumn(m.property, a.identifier)) else None
      else if a.columnName.Some? && a.columnName.value != "" then
        if HeaderKey(a.columnName.value) !in index then Some(MissingNamedColumn(a.identifier, a.columnName.value)) else None
      else
        var columnIndex := GetColumnIndex(a, Some(index));
        if columnIndex <= 0 then Some(InvalidColumnIndex(m.property, a.identifier))
        else if columnIndex > columnCount then Some(ColumnOutOfRange(m.property, a.identifier, columnCount))
        else None
    else
      if a.identifierType == Name then Some(NoHeaderForName(m.property, a.identifier))
      else if GetColumnIndex(a, None) <= 0 then Some(InvalidColumnIndex(m.property, a.identifier))
      else None
  }

  /** The errors of the mappings, in declaration order. */
  function MappingErrors(mappings: seq<ColumnMapping>, hasHeaderRow: bool, index: map<string, int>, columnCount: nat)
    : (r: seq<StructureError>)
    ensures r == [] <==> forall i :: 0 <= i < |mappings| ==> MappingError(mappings[i], hasHeaderRow, index, columnCount).None?
  {
    if mappings == [] then []
    else
      var init := mappings[..|mappings| - 1];
      var rest := MappingErrors(init, hasHeaderRow, index, columnCount);
      assert forall i :: 0 <= i < |init| ==> init[i] == mappings[i];
      rest + match MappingError(mappings[|mappings| - 1], hasHeaderRow, index, columnCount)
        case Some(e) => [e]
        case None => []
  }

  /**
   * The whole validation: an empty file, a file without the signature, a
   * missing worksheet and a type without column attributes each stop it
   * with one error; otherwise the mappings' errors.
   */
  function StructureErrors(fileData: seq<bv8>, worksheet: Option<seq<HeaderCell>>, mappings: seq<ColumnMapping>, hasHeaderRow: bool)
    : (r: seq<StructureError>)
    ensures |fileData| == 0 ==> r == [FileEmpty]
    ensures r == [] ==> |fileData| > 0 && HasZipSignature(fileData) && worksheet.Some? && mappings != []
  {
    if |fileData| == 0 then [FileEmpty]
    else if !HasZipSignature(fileData) then [InvalidFile]
    else if worksheet.None? then [WorksheetNotFound]
    else if mappings == [] then [NoExcelColumns]
    else if hasHeaderRow then MappingErrors(mappings, true, HeaderIndex(worksheet.value), |worksheet.value|)
    else MappingErrors(mappings, false, map[], 0)
  }

  /**
   * `ValidateColumnStructure`: builds the header dictionary from the first
   * row's used cells when there is a header row, then checks each mapping.
   * `worksheet` holds the used cells of the worksheet's first row, or is
   * absent when the worksheet is not found.
   */
  method ValidateColumnStructure(fileData: array<bv8>, worksheet: Option<seq<HeaderCell>>, mappings: seq<ColumnMapping>,
                                 hasHeaderRow: bool)
    returns (errors: seq<StructureError>)
    ensures errors == StructureErrors(fileData[..], worksheet, mappings, hasHeaderRow)
  {
    if fileData.Length == 0 {
      return [FileEmpty];
    }
    var isExcel := IsExcelFile(fileData);
    if !isExcel {
      return [InvalidFile];
    }
    if worksheet.None? {
      return [WorksheetNotFound];
    }
    if mappings == [] {
      return [NoExcelColumns];
    }
    var headerRow := worksheet.value;
    var headerToColumnIndex: map<string, int> := map[];
    if hasHeaderRow {
      for i := 0 to |headerRow|
        invariant headerToColumnIndex == HeaderIndex(headerRow[..i])
      {
        assert headerRow[..i + 1][..i] == headerRow[..i];
        var headerValue := Trim(headerRow[i].text);
        if headerValue != "" {
          headerToColumnIndex := headerToColumnIndex[HeaderKey(headerValue) := headerRow[i].column];
        }
      }
      assert headerRow[..|headerRow|] == headerRow;
    }
    var columnCount := if hasHeaderRow then |headerRow| else 0;
    errors := [];
    for k := 0 to |mappings|
      invariant errors == MappingErrors(mappings[..k], hasHeaderRow, headerToColumnIndex, columnCount)
    {
      assert mappings[..k + 1][..k] == mappings[..k];
      var e := MappingError(mappings[k], hasHeaderRow, headerToColumnIndex, columnCount);
      if e.Some? {
        errors := errors + [e.value];
      }
    }
    assert mappings[..|mappings|] == mappings;
  }

  /** A structure passes exactly when the file is a non-empty ZIP, the worksheet exists, and every mapping is error-free. */
  lemma StructurePassesIff(fileData: seq<bv8>, worksheet: Option<seq<HeaderCell>>, mappings: seq<ColumnMapping>, hasHeaderRow: bool)
    ensures StructureErrors(fileData, worksheet, mappings, hasHeaderRow) == [] <==>
      && HasZipSignature(fileData)
      && worksheet.Some?
      && |mappings| > 0
      && forall i :: 0 <= i < |mappings| ==>
           MappingError(mappings[i], hasHeaderRow,
                        if hasHeaderRow then HeaderIndex(worksheet.value) else map[],
                        if hasHeaderRow then |worksheet.value| else 0).None?
  {
  }

  /**
   * Letter columns each carrying a header name pass the header-row check
   * when every name appears, in any case and with any surrounding white
   * space, among the used header cells.
   */
  lemma NamedLetterColumnsPass(mappings: seq<ColumnMapping>, cells: seq<HeaderCell>)
    requires forall i :: 0 <= i < |mappings| ==>
      mappings[i].attribute.identifierType == Letter && mappings[i].attribute.columnName.Some?
    requires forall i :: 0 <= i < |mappings| ==> HasEntry(cells, HeaderEntry, HeaderKey(mappings[i].attribute.columnName.value))
    ensures MappingErrors(mappings, true, HeaderIndex(cells), |cells|) == []
  {
    forall i | 0 <= i < |mappings| ensures MappingError(mappings[i], true, HeaderIndex(cells), |cells|).None? {
      NamedLetterColumnPasses(mappings[i], cells);
    }
  }

  lemma NamedLetterColumnPasses(m: ColumnMapping, cells: seq<HeaderCell>)
    requires m.attribute.identifierType == Letter && m.attribute.columnName.Some?
    requires HasEntry(cells, HeaderEntry, HeaderKey(m.attribute.columnName.value))
    ensures MappingError(m, true, HeaderIndex(cells), |cells|).None?
  {
    var name := m.attribute.columnName.value;
    var key := HeaderKey(name);
    var index := HeaderIndex(cells);
    HeaderIndexKeys(cells, key);
    assert key in index;
    var j :| 0 <= j < |cells| && HeaderEntry(cells[j]) == Some(key);
    EntryNotEmpty(cells[j]);
    assert |name| == |key| > 0;
    assert MappingError(m, true, index, |cells|) == None;
  }

  /** A header entry is never the empty key. */
  lemma EntryNotEmpty(cell: HeaderCell)
    ensures HeaderEntry(cell).Some? ==> |HeaderEntry(cell).value| > 0
  {
  }

  /** Without a header row, letter columns named by non-empty letters all pass. */
  lemma LetterColumnsPassWithoutHeader(mappings: seq<ColumnMapping>)
    requires forall i :: 0 <= i < |mappings| ==>
      mappings[i].attribute.identifierType == Letter &&
      |mappings[i].attribute.identifier| > 0 && AllUpperLetters(mappings[i].attribute.identifier)
    ensures MappingErrors(mappings, false, map[], 0) == []
  {
    forall i | 0 <= i < |mappings| ensures MappingError(mappings[i], false, map[], 0).None? {
      ColumnNumberBijective(mappings[i].attribute.identifier, 1);
    }
  }
}
