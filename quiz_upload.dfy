/**
 * The quiz-question upload: the row validator, the per-row error cells,
 * the row check over the whole sheet, the import of the rows, and the
 * endpoint that ties them to the file checks and the question table.
 *
 * The workbook itself is not modelled: the header row of the first
 * worksheet and the parsed rows are inputs.
 */
module QuizUpload {
  import opened Common
  import opened DailyReadData
  import opened Excel
  import opened QuizQuestions

  /** A parsed sheet row; every cell may be missing. */
  datatype UploadRow = UploadRow(
    quizNumber: Option<int>,
    question: Option<string>,
    optionA: Option<string>,
    optionB: Option<string>,
    optionC: Option<string>,
    optionD: Option<string>,
    optionE: Option<string>,
    correctOption: Option<string>)

  /** The columns the upload row is read from: letter columns A to H, each with its header name. */
  const UploadColumns: seq<ColumnMapping> := [
    ColumnMapping("QuizNumber", LetterColumn("A", Some("QuizNumber"))),
    ColumnMapping("Question", LetterColumn("B", Some("Question"))),
    ColumnMapping("OptionA", LetterColumn("C", Some("OptionA"))),
    ColumnMapping("OptionB", LetterColumn("D", Some("OptionB"))),
    ColumnMapping("OptionC", LetterColumn("E", Some("OptionC"))),
    ColumnMapping("OptionD", LetterColumn("F", Some("OptionD"))),
    ColumnMapping("OptionE", LetterColumn("G", Some("OptionE"))),
    ColumnMapping("CorrectOption", LetterColumn("H", Some("CorrectOption")))
  ]

  // ----- error cells -----

  /** The cell an error of the named property is reported at: the property's column and the row number. */
  function ResolveExcelColumn(propertyName: Option<string>, rowIndex: int): Cell
  {
    var prop := if propertyName.Some? then Lower(propertyName.value) else "";
    if OccursFrom(prop, "quiznumber", 0) then Cell("A", rowIndex)
    else if OccursFrom(prop, "question", 0) then Cell("B", rowIndex)
    else if OccursFrom(prop, "optiona", 0) then Cell("C", rowIndex)
    else if OccursFrom(prop, "optionb", 0) then Cell("D", rowIndex)
    else if OccursFrom(prop, "optionc", 0) then Cell("E", rowIndex)
    else if OccursFrom(prop, "optiond", 0) then Cell("F", rowIndex)
    else if OccursFrom(prop, "optione", 0) then Cell("G", rowIndex)
    else if OccursFrom(prop, "correctoption", 0) then Cell("H", rowIndex)
    else Cell("Unknown", rowIndex)
  }

  /*
   * Each lower-cased property name contains itself and none of the names
   * checked before it, so the chain of checks in `ResolveExcelColumn` stops
   * at its own column.
   */

  lemma QuizNumberNamesResolve()
    ensures OccursFrom("quiznumber", "quiznumber", 0)
    ensures OccursFrom("question", "question", 0) && !OccursFrom("question", "quiznumber", 0)
  {
    OccursFromItself("quiznumber");
    OccursFromItself("question");
    NoOccursFrom("question", "quiznumber", 0);
  }

  lemma OptionNamesResolve()
    ensures OccursFrom("optiona", "optiona", 0) && !OccursFrom("optiona", "quiznumber", 0) && !OccursFrom("optiona", "question", 0)
    ensures OccursFrom("optionb", "optionb", 0) && !OccursFrom("optionb", "quiznumber", 0) && !OccursFrom("optionb", "question", 0) && !OccursFrom("optionb", "optiona", 0)
    ensures OccursFrom("optionc", "optionc", 0) && !OccursFrom("optionc", "quiznumber", 0) && !OccursFrom("optionc", "question", 0) && !OccursFrom("optionc", "optiona", 0) && !OccursFrom("optionc", "optionb", 0)
    ensures OccursFrom("optiond", "optiond", 0) && !OccursFrom("optiond", "quiznumber", 0) && !OccursFrom("optiond", "question", 0) && !OccursFrom("optiond", "optiona", 0) && !OccursFrom("optiond", "optionb", 0) && !OccursFrom("optiond", "optionc", 0)
    ensures OccursFrom("optione", "optione", 0) && !OccursFrom("optione", "quiznumber", 0) && !OccursFrom("optione", "question", 0) && !OccursFrom("optione", "optiona", 0) && !OccursFrom("optione", "optionb", 0) && !OccursFrom("optione", "optionc", 0) && !OccursFrom("optione", "optiond", 0)
  {
    OccursFromItself("optiona");
    NoOccursFrom("optiona", "quiznumber", 0);
    NoOccursFrom("optiona", "question", 0);
    OccursFromItself("optionb");
    NoOccursFrom("optionb", "quiznumber", 0);
    NoOccursFrom("optionb", "question", 0);
    SameLengthNoOccurs("optionb", "optiona", 6);
    OccursFromItself("optionc");
    NoOccursFrom("optionc", "quiznumber", 0);
    NoOccursFrom("optionc", "question", 0);
    SameLengthNoOccurs("optionc", "optiona", 6);
    SameLengthNoOccurs("optionc", "optionb", 6);
    OccursFromItself("optiond");
    NoOccursFrom("optiond", "quiznumber", 0);
    NoOccursFrom("optiond", "question", 0);
    SameLengthNoOccurs("optiond", "optiona", 6);
    SameLengthNoOccurs("optiond", "optionb", 6);
    SameLengthNoOccurs("optiond", "optionc", 6);
    OccursFromItself("optione");
    NoOccursFrom("optione", "quiznumber", 0);
    NoOccursFrom("optione", "question", 0);
    SameLengthNoOccurs("optione", "optiona", 6);
    SameLengthNoOccurs("optione", "optionb", 6);
    SameLengthNoOccurs("optione", "optionc", 6);
    SameLengthNoOccurs("optione", "optiond", 6);
  }

  /** No "op" starts within the first seven positions of "correctoption". */
  lemma CorrectOptionHasNoOption(sub: string)
    requires |sub| == 7 && sub[0] == 'o' && sub[1] == 'p'
    ensures !OccursFrom("correctoption", sub, 0)
  {
    var s := "correctoption";
    assert s[0] == 'c' && s[1] == 'o' && s[2] == 'r' && s[3] == 'r' && s[4] == 'e' && s[5] == 'c' && s[6] == 't';
    NoOccursFrom(s, sub, 0);
  }

  lemma CorrectOptionNameResolves()
    ensures OccursFrom("correctoption", "correctoption", 0) && !OccursFrom("correctoption", "quiznumber", 0) && !OccursFrom("correctoption", "question", 0) && !OccursFrom("correctoption", "optiona", 0) && !OccursFrom("correctoption", "optionb", 0) && !OccursFrom("correctoption", "optionc", 0) && !OccursFrom("correctoption", "optiond", 0) && !OccursFrom("correctoption", "optione", 0)
  {
    var s := "correctoption";
    OccursFromItself(s);
    assert s[0] == 'c' && s[1] == 'o' && s[2] == 'r' && s[3] == 'r' && s[4] == 'e' && s[5] == 'c';
    assert s[6] == 't' && s[7] == 'o' && s[8] == 'p' && s[9] == 't' && s[10] == 'i' && s[11] == 'o';
    NoOccursFrom(s, "quiznumber", 0);
    NoOccursFrom(s, "question", 0);
    CorrectOptionHasNoOption("optiona");
    CorrectOptionHasNoOption("optionb");
    CorrectOptionHasNoOption("optionc");
    CorrectOptionHasNoOption("optiond");
    CorrectOptionHasNoOption("optione");
  }

  /** The eight properties of the upload row, each at its column. */
  lemma PropertyColumns(r: int)
    ensures ResolveExcelColumn(Some("QuizNumber"), r) == Cell("A", r)
    ensures ResolveExcelColumn(Some("Question"), r) == Cell("B", r)
    ensures ResolveExcelColumn(Some("OptionA"), r) == Cell("C", r)
    ensures ResolveExcelColumn(Some("OptionB"), r) == Cell("D", r)
    ensures ResolveExcelColumn(Some("OptionC"), r) == Cell("E", r)
    ensures ResolveExcelColumn(Some("OptionD"), r) == Cell("F", r)
    ensures ResolveExcelColumn(Some("OptionE"), r) == Cell("G", r)
    ensures ResolveExcelColumn(Some("CorrectOption"), r) == Cell("H", r)
  {
    assert Lower("QuizNumber") == "quiznumber";
    assert Lower("Question") == "question";
    assert Lower("OptionA") == "optiona";
    assert Lower("OptionB") == "optionb";
    assert Lower("OptionC") == "optionc";
    assert Lower("OptionD") == "optiond";
    assert Lower("OptionE") == "optione";
    assert Lower("CorrectOption") == "correctoption";
    QuizNumberNamesResolve();
    OptionNamesResolve();
    CorrectOptionNameResolves();
  }

  /**
   * Every property the upload row is read from is reported at its own
   * column: the column letter its attribute names, followed by the row
   * number; a failure without a property name is reported as "Unknown".
   */
  lemma ErrorCellIsPropertyColumn(rowIndex: int)
    ensures forall m :: m in UploadColumns ==>
      ResolveExcelColumn(Some(m.property), rowIndex) == Cell(m.attribute.identifier, rowIndex)
    ensures ResolveExcelColumn(None, rowIndex) == Cell("Unknown", rowIndex)
  {
    PropertyColumns(rowIndex);
    forall m | m in UploadColumns
      ensures ResolveExcelColumn(Some(m.property), rowIndex) == Cell(m.attribute.identifier, rowIndex)
    {
      var k :| 0 <= k < |UploadColumns| && UploadColumns[k] == m;
      assert k in {0, 1, 2, 3, 4, 5, 6, 7};
    }
    assert !OccursFrom("", "quiznumber", 0) && !OccursFrom("", "question", 0) && !OccursFrom("", "optiona", 0);
    assert !OccursFrom("", "optionb", 0) && !OccursFrom("", "optionc", 0) && !OccursFrom("", "optiond", 0);
    assert !OccursFrom("", "optione", 0) && !OccursFrom("", "correctoption", 0);
  }

  // ----- the row validator -----

  /** The failure kinds of the row validator, and the duplicate-number error. */
  datatype UploadRule =
    | QuizNumberRequired
    | QuestionRequired
    | OptionARequired
    | OptionBRequired
    | CorrectOptionRequired
    | CorrectOptionNotLetter
    | CorrectOptionWithoutText
    | QuizNumberNotUnique

  /** A validation failure: the property it is about and the rule that failed. */
  datatype Failure = Failure(propertyName: string, rule: UploadRule)

  /** An error of the upload: the cell it is reported at and the rule. */
  datatype CellError = CellError(cell: Cell, rule: UploadRule)

  /** `row.CorrectOption = row.CorrectOption.ToUpper().Trim()` when it is not blank. */
  function Normalize(row: UploadRow): UploadRow
  {
    if Blank(row.correctOption) then row
    else row.(correctOption := Some(Trim(Upper(row.correctOption.value))))
  }

  function NormalizedRows(rows: seq<UploadRow>): (r: seq<UploadRow>)
    ensures |r| == |rows| && forall i :: 0 <= i < |rows| ==> r[i] == Normalize(rows[i])
  {
    seq(|rows|, i requires 0 <= i < |rows| => Normalize(rows[i]))
  }

  /** The option text of a choice letter. */
  function OptionFor(row: UploadRow, letter: string): Option<string>
  {
    match letter
    case "A" => row.optionA
    case "B" => row.optionB
    case "C" => row.optionC
    case "D" => row.optionD
    case "E" => row.optionE
    case _ => None
  }

  /** Whether the row breaks the rule; the duplicate-number rule is not a row rule. */
  predicate Breaks(row: UploadRow, rule: UploadRule)
  {
    match rule
    case QuizNumberRequired => row.quizNumber.None?
    case QuestionRequired => Blank(row.question)
    case OptionARequired => Blank(row.optionA)
    case OptionBRequired => Blank(row.optionB)
    case CorrectOptionRequired => Blank(row.correctOption)
    case CorrectOptionNotLetter => !(row.correctOption.Some? && IsChoiceLetter(row.correctOption.value))
    case CorrectOptionWithoutText => CorrectOptionHasNoText(row)
    case QuizNumberNotUnique => false
  }

  /** A correct option naming a letter whose option is blank. */
  predicate CorrectOptionHasNoText(row: UploadRow)
  {
    row.correctOption.Some? && IsChoiceLetter(row.correctOption.value)
    && Blank(OptionFor(row, Upper(row.correctOption.value)))
  }

  /** The property a rule is declared on. */
  function PropertyOf(rule: UploadRule): string
  {
    match rule
    case QuizNumberRequired => "QuizNumber"
    case QuestionRequired => "Question"
    case OptionARequired => "OptionA"
    case OptionBRequired => "OptionB"
    case CorrectOptionRequired => "CorrectOption"
    case CorrectOptionNotLetter => "CorrectOption"
    case CorrectOptionWithoutText => "CorrectOption"
    case QuizNumberNotUnique => "QuizNumber"
  }

  /**
   * `QuizQuestionUploadDtoValidator` as written, in declaration order: a
   * quiz number is present; question, option A, option B and the correct
   * option are not blank; the correct option upper-cases to A to E.
   */
  const RulesAsWritten: seq<UploadRule> := [
    QuizNumberRequired, UploadRule.QuestionRequired, OptionARequired, OptionBRequired,
    CorrectOptionRequired, CorrectOptionNotLetter
  ]

  /**
   * The validator with the rule that the create and update validators
   * already have: the correct option must be one of the choices the row
   * gives, so its option must not be blank.
   */
  const Rules: seq<UploadRule> := RulesAsWritten + [CorrectOptionWithoutText]

  /** Every rule runs; the failures come in rule order. */
  function FailuresOf(row: UploadRow, rules: seq<UploadRule>): (r: seq<Failure>)
    ensures |r| <= |rules|
  {
    if rules == [] then []
    else
      (if Breaks(row, rules[0]) then [Failure(PropertyOf(rules[0]), rules[0])] else [])
      + FailuresOf(row, rules[1..])
  }

  /** The failures are exactly the broken rules, in rule order, each on its own property. */
  lemma {:induction false} FailuresOfBroken(row: UploadRow, rules: seq<UploadRule>)
    ensures FailuresOf(row, rules) == [] <==> forall k :: 0 <= k < |rules| ==> !Breaks(row, rules[k])
    ensures forall f :: f in FailuresOf(row, rules) <==>
      f.rule in rules && Breaks(row, f.rule) && f.propertyName == PropertyOf(f.rule)
  {
    if rules != [] {
      FailuresOfBroken(row, rules[1..]);
      assert forall k :: 1 <= k < |rules| ==> rules[1..][k - 1] == rules[k];
    }
  }

  lemma {:induction false} FailuresOfAppend(row: UploadRow, a: seq<UploadRule>, b: seq<UploadRule>)
    ensures FailuresOf(row, a + b) == FailuresOf(row, a) + FailuresOf(row, b)
  {
    if a == [] {
      assert a + b == b;
    } else {
      assert (a + b)[0] == a[0] && (a + b)[1..] == a[1..] + b;
      FailuresOfAppend(row, a[1..], b);
    }
  }

  /**
   * The validator as written: at most one failure per rule, and a row
   * without failures has a quiz number, a question, options A and B and a
   * correct option that is a letter A to E.
   */
  function RowFailuresAsWritten(row: UploadRow): (r: seq<Failure>)
    ensures |r| <= |RulesAsWritten|
    ensures r == [] ==> && row.quizNumber.Some? && !Blank(row.question) && !Blank(row.optionA) && !Blank(row.optionB)
                        && row.correctOption.Some? && IsChoiceLetter(row.correctOption.value)
  {
    FailuresOfBroken(row, RulesAsWritten);
    assert RulesAsWritten[0] == QuizNumberRequired && RulesAsWritten[1] == UploadRule.QuestionRequired;
    assert RulesAsWritten[2] == OptionARequired && RulesAsWritten[3] == OptionBRequired;
    assert RulesAsWritten[4] == CorrectOptionRequired && RulesAsWritten[5] == CorrectOptionNotLetter;
    FailuresOf(row, RulesAsWritten)
  }

  /**
   * The corrected validator: at most one failure per rule, and a row
   * without failures also has text for the option its correct option names.
   */
  function RowFailures(row: UploadRow): (r: seq<Failure>)
    ensures |r| <= |Rules|
    ensures r == [] ==> && row.quizNumber.Some? && !Blank(row.question) && !Blank(row.optionA) && !Blank(row.optionB)
                        && row.correctOption.Some? && IsChoiceLetter(row.correctOption.value)
                        && !Blank(OptionFor(row, Upper(row.correctOption.value)))
  {
    FailuresOfBroken(row, Rules);
    assert Rules[0] == QuizNumberRequired && Rules[1] == UploadRule.QuestionRequired;
    assert Rules[2] == OptionARequired && Rules[3] == OptionBRequired;
    assert Rules[4] == CorrectOptionRequired && Rules[5] == CorrectOptionNotLetter && Rules[6] == CorrectOptionWithoutText;
    FailuresOf(row, Rules)
  }

  /** What the validator accepts. */
  predicate RowAccepted(row: UploadRow)
  {
    && row.quizNumber.Some?
    && !Blank(row.question) && !Blank(row.optionA) && !Blank(row.optionB)
    && row.correctOption.Some? && IsChoiceLetter(row.correctOption.value)
    && !Blank(OptionFor(row, Upper(row.correctOption.value)))
  }

  /** The corrected validator reports what the validator as written reports, then the correct option without text. */
  lemma RowFailuresExtendAsWritten(row: UploadRow)
    ensures RowFailures(row) == RowFailuresAsWritten(row)
      + (if CorrectOptionHasNoText(row) then [Failure("CorrectOption", CorrectOptionWithoutText)] else [])
  {
    FailuresOfAppend(row, RulesAsWritten, [CorrectOptionWithoutText]);
    assert [CorrectOptionWithoutText][1..] == [];
  }

  /** The corrected validator reports nothing exactly for the rows it accepts. */
  lemma RowFailuresEmpty(row: UploadRow)
    ensures RowFailures(row) == [] <==> RowAccepted(row)
  {
    FailuresOfBroken(row, Rules);
    if row.correctOption.Some? && IsChoiceLetter(row.correctOption.value) {
      ChoiceLetterNormalized(row.correctOption.value);
      assert !IsWhiteSpace(row.correctOption.value[0]);
    }
    assert Rules[0] == QuizNumberRequired && Rules[1] == UploadRule.QuestionRequired;
    assert Rules[2] == OptionARequired && Rules[3] == OptionBRequired;
    assert Rules[5] == CorrectOptionNotLetter && Rules[6] == CorrectOptionWithoutText;
  }

  function CellErrors(failures: seq<Failure>, rowIndex: int): (r: seq<CellError>)
    ensures |r| == |failures|
    ensures forall i :: 0 <= i < |failures| ==>
      r[i] == CellError(ResolveExcelColumn(Some(failures[i].propertyName), rowIndex), failures[i].rule)
  {
    seq(|failures|, i requires 0 <= i < |failures| =>
      CellError(ResolveExcelColumn(Some(failures[i].propertyName), rowIndex), failures[i].rule))
  }

  /** The quiz number a row adds to the seen set. */
  function NumberOf(row: UploadRow): set<int>
  {
    if row.quizNumber.Some? then {row.quizNumber.value} else {}
  }

  /** The quiz numbers of the rows. */
  function NumbersOf(rows: seq<UploadRow>): set<int>
  {
    if rows == [] then {} else NumberOf(rows[0]) + NumbersOf(rows[1..])
  }

  /** One row's errors: its failures at its row number, then a duplicate-number error at column A. */
  function RowErrors(row: UploadRow, rowIndex: int, seen: set<int>): seq<CellError>
  {
    CellErrors(RowFailures(row), rowIndex)
    + (if row.quizNumber.Some? && row.quizNumber.value in seen
       then [CellError(Cell("A", rowIndex), QuizNumberNotUnique)] else [])
  }

  /** The errors of the rows numbered from `rowIndex` on, with `seen` the numbers of the rows before them. */
  function ErrorsFrom(rows: seq<UploadRow>, rowIndex: int, seen: set<int>): seq<CellError>
  {
    if rows == [] then []
    else RowErrors(rows[0], rowIndex, seen) + ErrorsFrom(rows[1..], rowIndex + 1, seen + NumberOf(rows[0]))
  }

  /** All errors of the (normalised) rows; the first data row is reported as row 2. */
  function RowsErrors(rows: seq<UploadRow>): seq<CellError>
  {
    ErrorsFrom(rows, 2, {})
  }

  /**
   * `ValidateRows`: normalises each row's correct option in place, then
   * validates it; the check fails exactly when an error was found, and
   * then it reports all of them.
   */
  method ValidateRows(rows: array<UploadRow>) returns (r: Result<(), seq<CellError>>)
    modifies rows
    ensures rows[..] == NormalizedRows(old(rows[..]))
    ensures r.Ok? <==> RowsErrors(rows[..]) == []
    ensures r.Err? ==> r.error == RowsErrors(rows[..])
  {
    ghost var normalized := NormalizedRows(rows[..]);
    var results: seq<CellError> := [];
    var idx := 2;
    var uniqueNumbers: set<int> := {};
    var i := 0;
    while i < rows.Length
      invariant 0 <= i <= rows.Length && idx == i + 2
      invariant forall k :: 0 <= k < i ==> rows[k] == normalized[k]
      invariant forall k :: i <= k < rows.Length ==> rows[k] == old(rows[k])
      invariant results + ErrorsFrom(normalized[i..], idx, uniqueNumbers) == RowsErrors(normalized)
    {
      var row := rows[i];
      if !Blank(row.correctOption) {
        row := row.(correctOption := Some(Trim(Upper(row.correctOption.value))));
        rows[i] := row;
      }
      assert row == normalized[i];
      ErrorsFromStep(normalized, i, idx, uniqueNumbers);
      var errors, seen := CheckRow(row, idx, uniqueNumbers);
      AppendAssoc(results, errors, ErrorsFrom(normalized[i + 1..], idx + 1, seen));
      results := results + errors;
      uniqueNumbers := seen;
      idx := idx + 1;
      i := i + 1;
    }
    assert rows[..] == normalized;
    assert normalized[i..] == [];
    if results != [] {
      return Err(results);
    }
    return Ok(());
  }

  /** The checks of one normalised row inside `ValidateRows`: its errors, and the quiz numbers seen once it is counted. */
  method CheckRow(row: UploadRow, idx: int, uniqueNumbers: set<int>) returns (errors: seq<CellError>, seen: set<int>)
    ensures errors == RowErrors(row, idx, uniqueNumbers)
    ensures seen == uniqueNumbers + NumberOf(row)
  {
    var failures := RowFailures(row);
    errors := CellErrors(failures, idx);
    seen := uniqueNumbers;
    if row.quizNumber.Some? {
      if row.quizNumber.value in uniqueNumbers {
        errors := errors + [CellError(Cell("A", idx), QuizNumberNotUnique)];
      }
      seen := uniqueNumbers + {row.quizNumber.value};
    }
  }

  /** One step of the row check: the first row's errors, then the rest with its number seen. */
  lemma ErrorsFromStep(rows: seq<UploadRow>, i: nat, rowIndex: int, seen: set<int>)
    requires i < |rows|
    ensures ErrorsFrom(rows[i..], rowIndex, seen) ==
      RowErrors(rows[i], rowIndex, seen) + ErrorsFrom(rows[i + 1..], rowIndex + 1, seen + NumberOf(rows[i]))
  {
    assert rows[i..][1..] == rows[i + 1..];
  }


  /** No two rows carry the same quiz number. */
  predicate DistinctNumbers(rows: seq<UploadRow>)
  {
    forall i, j :: 0 <= i < j < |rows| && rows[i].quizNumber.Some? && rows[j].quizNumber.Some? ==>
      rows[i].quizNumber.value != rows[j].quizNumber.value
  }

  lemma {:induction false} NumbersOfMembers(rows: seq<UploadRow>)
    ensures forall v :: v in NumbersOf(rows) <==>
      exists i :: 0 <= i < |rows| && rows[i].quizNumber == Some(v)
  {
    if rows != [] {
      NumbersOfMembers(rows[1..]);
      assert forall i :: 1 <= i < |rows| ==> rows[1..][i - 1] == rows[i];
      forall v | v in NumbersOf(rows[1..]) ensures exists i :: 0 <= i < |rows| && rows[i].quizNumber == Some(v) {
        var i :| 0 <= i < |rows| - 1 && rows[1..][i].quizNumber == Some(v);
        assert rows[i + 1].quizNumber == Some(v);
      }
    }
  }

  /**
   * The check passes exactly when every row passes the validator, no row
   * repeats a number seen before it, and no two rows share a number.
   */
  lemma {:induction false} ErrorsFromEmpty(rows: seq<UploadRow>, rowIndex: int, seen: set<int>)
    ensures ErrorsFrom(rows, rowIndex, seen) == [] <==> Clean(rows, seen)
  {
    if rows != [] {
      ErrorsFromEmpty(rows[1..], rowIndex + 1, seen + NumberOf(rows[0]));
      CleanCons(rows, seen);
      var head := RowErrors(rows[0], rowIndex, seen);
      assert |head| == 0 <==> RowFailures(rows[0]) == [] && !(rows[0].quizNumber.Some? && rows[0].quizNumber.value in seen);
    }
  }

  /** Every row passes the validator, no row repeats a number of `seen`, and no two rows share a number. */
  predicate Clean(rows: seq<UploadRow>, seen: set<int>)
  {
    && (forall i :: 0 <= i < |rows| ==> RowFailures(rows[i]) == [])
    && (forall i :: 0 <= i < |rows| && rows[i].quizNumber.Some? ==> rows[i].quizNumber.value !in seen)
    && DistinctNumbers(rows)
  }

  /** `Clean` row by row: the first row is clean and the rest are clean with its number seen. */
  lemma CleanCons(rows: seq<UploadRow>, seen: set<int>)
    requires rows != []
    ensures Clean(rows, seen) <==>
      && RowFailures(rows[0]) == []
      && !(rows[0].quizNumber.Some? && rows[0].quizNumber.value in seen)
      && Clean(rows[1..], seen + NumberOf(rows[0]))
  {
    var tail := rows[1..];
    var seen' := seen + NumberOf(rows[0]);
    assert forall i :: 1 <= i < |rows| ==> tail[i - 1] == rows[i];
    if Clean(rows, seen) {
      forall i | 0 <= i < |tail| && tail[i].quizNumber.Some? ensures tail[i].quizNumber.value !in seen' {
        assert tail[i] == rows[i + 1];
      }
      forall i, j | 0 <= i < j < |tail| && tail[i].quizNumber.Some? && tail[j].quizNumber.Some?
        ensures tail[i].quizNumber.value != tail[j].quizNumber.value
      {
        assert tail[i] == rows[i + 1] && tail[j] == rows[j + 1];
      }
    }
    if && RowFailures(rows[0]) == []
       && !(rows[0].quizNumber.Some? && rows[0].quizNumber.value in seen)
       && Clean(tail, seen')
    {
      forall i, j | 0 <= i < j < |rows| && rows[i].quizNumber.Some? && rows[j].quizNumber.Some?
        ensures rows[i].quizNumber.value != rows[j].quizNumber.value
      {
        if i == 0 {
          assert rows[j] == tail[j - 1];
        } else {
          assert rows[i] == tail[i - 1] && rows[j] == tail[j - 1];
        }
      }
    }
  }


  /** The rows check reports nothing exactly for rows the validator accepts, with distinct quiz numbers. */
  lemma RowsErrorsEmpty(rows: seq<UploadRow>)
    ensures RowsErrors(rows) == [] <==>
      (forall i :: 0 <= i < |rows| ==> RowAccepted(rows[i])) && DistinctNumbers(rows)
  {
    ErrorsFromEmpty(rows, 2, {});
    forall i | 0 <= i < |rows| ensures RowFailures(rows[i]) == [] <==> RowAccepted(rows[i]) {
      RowFailuresEmpty(rows[i]);
    }
  }

  /**
   * Numbering runs on across the sheet: the errors of `a + b` are those of
   * `a`, then those of `b` numbered from the row after `a`'s last, with
   * `a`'s numbers already seen.
   */
  lemma {:induction false} ErrorsFromAppend(a: seq<UploadRow>, b: seq<UploadRow>, rowIndex: int, seen: set<int>)
    ensures ErrorsFrom(a + b, rowIndex, seen) ==
      ErrorsFrom(a, rowIndex, seen) + ErrorsFrom(b, rowIndex + |a|, seen + NumbersOf(a))
  {
    if a == [] {
      assert a + b == b && seen + NumbersOf(a) == seen;
    } else {
      assert (a + b)[0] == a[0] && (a + b)[1..] == a[1..] + b;
      ErrorsFromAppend(a[1..], b, rowIndex + 1, seen + NumberOf(a[0]));
      assert seen + NumberOf(a[0]) + NumbersOf(a[1..]) == seen + NumbersOf(a);
    }
  }

  /**
   * A quiz number repeated at rows `i < j` is reported at column A of the
   * later row, numbered `j + 2`.
   */
  lemma DuplicateReportedAtLaterRow(rows: seq<UploadRow>, i: nat, j: nat)
    requires i < j < |rows| && rows[i].quizNumber.Some? && rows[i].quizNumber == rows[j].quizNumber
    ensures CellError(Cell("A", j + 2), QuizNumberNotUnique) in RowsErrors(rows)
  {
    var a, b := rows[..j], rows[j..];
    assert rows == a + b;
    ErrorsFromAppend(a, b, 2, {});
    NumbersOfMembers(a);
    var v := rows[j].quizNumber.value;
    assert a[i].quizNumber == Some(v);
    assert exists k :: 0 <= k < |a| && a[k].quizNumber == Some(v);
    assert v in NumbersOf(a);
    assert b[0] == rows[j];
    var e := CellError(Cell("A", j + 2), QuizNumberNotUnique);
    var row := RowErrors(b[0], 2 + j, {} + NumbersOf(a));
    assert row[|row| - 1] == e;
    assert ErrorsFrom(b, 2 + j, {} + NumbersOf(a)) == row + ErrorsFrom(b[1..], 3 + j, {} + NumbersOf(a) + NumberOf(b[0]));
    assert RowsErrors(rows)[|ErrorsFrom(a, 2, {})| + |row| - 1] == e;
  }

  /** The first row carrying a number gets no duplicate error for it. */
  lemma FirstOccurrenceNotReported(rows: seq<UploadRow>, j: nat)
    requires j < |rows| && rows[j].quizNumber.Some?
    requires forall i :: 0 <= i < j ==> rows[i].quizNumber != rows[j].quizNumber
    ensures RowErrors(rows[j], j + 2, NumbersOf(rows[..j])) == CellErrors(RowFailures(rows[j]), j + 2)
  {
    NumbersOfMembers(rows[..j]);
    var v := rows[j].quizNumber.value;
    forall i | 0 <= i < j ensures rows[..j][i].quizNumber != Some(v) {
      assert rows[..j][i] == rows[i];
    }
    assert v !in NumbersOf(rows[..j]);
  }

  // ----- the import -----

  /** A choice for a non-blank option: the letter and the trimmed text. */
  function OptionChoice(letter: string, option: Option<string>): seq<QuizChoice>
  {
    if Blank(option) then [] else [QuizChoice(letter, Trim(option.value))]
  }

  /** The choices of a row for the given letters: one per non-blank option, in letter order. */
  function ChoicesFor(row: UploadRow, letters: seq<string>): seq<QuizChoice>
  {
    if letters == [] then []
    else
      var n := |letters| - 1;
      ChoicesFor(row, letters[..n]) + OptionChoice(letters[n], OptionFor(row, letters[n]))
  }

  /** The choices of a row: one per non-blank option, in letter order A to E. */
  function UploadChoices(row: UploadRow): seq<QuizChoice>
  {
    OptionChoice("A", row.optionA) + OptionChoice("B", row.optionB) + OptionChoice("C", row.optionC)
    + OptionChoice("D", row.optionD) + OptionChoice("E", row.optionE)
  }

  /** The five options are the options of the five choice letters, in order. */
  lemma UploadChoicesForLetters(row: UploadRow)
    ensures UploadChoices(row) == ChoicesFor(row, ChoiceLetters)
  {
    var l := ChoiceLetters;
    assert l[..4] == ["A", "B", "C", "D"] && l[..4][..3] == ["A", "B", "C"];
    assert l[..4][..3][..2] == ["A", "B"] && l[..4][..3][..2][..1] == ["A"];
    assert ["A"][..0] == [];
    assert ChoicesFor(row, ["A"]) == OptionChoice("A", row.optionA);
    assert ChoicesFor(row, ["A", "B"]) == ChoicesFor(row, ["A"]) + OptionChoice("B", row.optionB);
    assert ChoicesFor(row, ["A", "B", "C"]) == ChoicesFor(row, ["A", "B"]) + OptionChoice("C", row.optionC);
    assert ChoicesFor(row, ["A", "B", "C", "D"]) == ChoicesFor(row, ["A", "B", "C"]) + OptionChoice("D", row.optionD);
  }

  /** The choices carry only the given letters, at most one per letter, each with a non-empty answer. */
  lemma {:induction false} ChoicesForLetters(row: UploadRow, letters: seq<string>)
    ensures |ChoicesFor(row, letters)| <= |letters|
    ensures forall c :: c in ChoicesFor(row, letters) ==> c.choice in letters && c.answer != ""
  {
    if letters != [] {
      var n := |letters| - 1;
      ChoicesForLetters(row, letters[..n]);
      var option := OptionFor(row, letters[n]);
      if !Blank(option) {
        TrimEmptyIffBlank(option.value);
      }
    }
  }

  /** Distinct letters give choices with distinct letters. */
  lemma {:induction false} ChoicesForDistinct(row: UploadRow, letters: seq<string>)
    requires forall i, j :: 0 <= i < j < |letters| ==> letters[i] != letters[j]
    ensures forall i, j :: 0 <= i < j < |ChoicesFor(row, letters)| ==>
      ChoicesFor(row, letters)[i].choice != ChoicesFor(row, letters)[j].choice
  {
    if letters != [] {
      var n := |letters| - 1;
      var init := letters[..n];
      ChoicesForDistinct(row, init);
      ChoicesForLetters(row, init);
      var prev := ChoicesFor(row, init);
      var r := ChoicesFor(row, letters);
      assert r == prev + OptionChoice(letters[n], OptionFor(row, letters[n]));
      assert letters[n] !in init;
      forall i, j | 0 <= i < j < |r| ensures r[i].choice != r[j].choice {
        if j >= |prev| {
          assert r[i] in prev;
        } else {
          assert r[i] == prev[i] && r[j] == prev[j];
        }
      }
    }
  }

  /** Every letter whose option is not blank has its choice. */
  lemma {:induction false} ChoicesForPresent(row: UploadRow, letters: seq<string>, k: nat)
    requires k < |letters| && !Blank(OptionFor(row, letters[k]))
    ensures exists i :: 0 <= i < |ChoicesFor(row, letters)| && ChoicesFor(row, letters)[i].choice == letters[k]
  {
    var n := |letters| - 1;
    var prev := ChoicesFor(row, letters[..n]);
    var r := ChoicesFor(row, letters);
    assert r == prev + OptionChoice(letters[n], OptionFor(row, letters[n]));
    if k < n {
      ChoicesForPresent(row, letters[..n], k);
      var i :| 0 <= i < |prev| && prev[i].choice == letters[..n][k];
      assert r[i].choice == letters[k];
    } else {
      assert r[|prev|].choice == letters[k];
    }
  }

  /** A row the import turns into a question: it has a quiz number and a non-blank question. */
  predicate Imports(row: UploadRow)
  {
    row.quizNumber.Some? && !Blank(row.question)
  }

  /** The question an imported row becomes; its correct option must be present. */
  function ImportedQuestion(dailyReadId: int, row: UploadRow): QuestionRow
    requires Imports(row) && row.correctOption.Some?
  {
    QuestionRow(dailyReadId, row.quizNumber.value, Trim(row.question.value), Trim(row.correctOption.value), UploadChoices(row))
  }

  /** Every row that is imported has a correct option. */
  predicate Importable(rows: seq<UploadRow>)
  {
    forall i :: 0 <= i < |rows| && Imports(rows[i]) ==> rows[i].correctOption.Some?
  }

  /** The questions the rows become, skipping rows without a number or question, in row order. */
  function Imported(dailyReadId: int, rows: seq<UploadRow>): seq<QuestionRow>
    requires Importable(rows)
  {
    if rows == [] then []
    else
      var last := rows[|rows| - 1];
      assert Importable(rows[..|rows| - 1]) by {
        assert forall i :: 0 <= i < |rows| - 1 ==> rows[..|rows| - 1][i] == rows[i];
      }
      Imported(dailyReadId, rows[..|rows| - 1])
      + (if Imports(last) then [ImportedQuestion(dailyReadId, last)] else [])
  }

  /** `if (!string.IsNullOrWhiteSpace(option)) quizQuestion.AddChoice(letter, option.Trim())`. */
  method AddOption(quizQuestion: Question, letter: string, option: Option<string>)
    modifies quizQuestion
    ensures quizQuestion.Row() == old(quizQuestion.Row()).(choices := old(quizQuestion.choices) + OptionChoice(letter, option))
  {
    if !Blank(option) {
      quizQuestion.AddChoice(letter, Trim(option.value));
    }
  }

  /** `QuizQuestion.Create` and the `AddChoice` calls for one imported row. */
  method ImportQuestion(dailyReadId: int, dto: UploadRow) returns (q: QuestionRow)
    requires Imports(dto) && dto.correctOption.Some?
    ensures q == ImportedQuestion(dailyReadId, dto)
  {
    var quizQuestion := new Question.Create(dailyReadId, dto.quizNumber.value, Trim(dto.question.value), Trim(dto.correctOption.value));
    AddOption(quizQuestion, "A", dto.optionA);
    assert [] + OptionChoice("A", dto.optionA) == OptionChoice("A", dto.optionA);
    AddOption(quizQuestion, "B", dto.optionB);
    AddOption(quizQuestion, "C", dto.optionC);
    AddOption(quizQuestion, "D", dto.optionD);
    AddOption(quizQuestion, "E", dto.optionE);
    q := quizQuestion.Row();
  }

  /** The import loop: one question per importable row, in row order. */
  method ImportRows(dailyReadId: int, rows: seq<UploadRow>) returns (added: seq<QuestionRow>)
    requires Importable(rows)
    ensures added == Imported(dailyReadId, rows)
  {
    added := [];
    for i := 0 to |rows|
      invariant Importable(rows[..i])
      invariant added == Imported(dailyReadId, rows[..i])
    {
      assert rows[..i + 1][..i] == rows[..i];
      if Imports(rows[i]) {
        var q := ImportQuestion(dailyReadId, rows[i]);
        added := added + [q];
      }
    }
    assert rows[..|rows|] == rows;
  }

  /**
   * A row the corrected validator accepts, after normalisation, imports as
   * a consistent question: a non-empty question, two to five distinct
   * choice letters from A to E, every answer non-empty, and the correct
   * option one of the choice letters.
   */
  lemma AcceptedRowIsConsistent(dailyReadId: int, row: UploadRow)
    requires row == Normalize(row) && RowAccepted(row)
    ensures Consistent(ImportedQuestion(dailyReadId, row))
  {
    TrimEmptyIffBlank(row.question.value);
    var c := row.correctOption.value;
    NormalizedCorrectOption(row);
    UploadChoicesForLetters(row);
    ChoicesForShape(row, ChoiceLetters, c);
  }

  /** A normalised correct option that names a letter is that upper-case letter, untouched by trimming. */
  lemma NormalizedCorrectOption(row: UploadRow)
    requires row == Normalize(row) && row.correctOption.Some? && IsChoiceLetter(row.correctOption.value)
    ensures var c := row.correctOption.value; Trim(c) == c && c == Upper(c) && c in ChoiceLetters
  {
    var c := row.correctOption.value;
    ChoiceLetterNormalized(c);
    assert !IsWhiteSpace(c[0]);
    assert !Blank(row.correctOption);
  }

  /**
   * Choices over distinct letters, two of which have text: at least two
   * and at most one per letter, distinct letters from the list, non-empty
   * answers, and one for each letter with text.
   */
  lemma ChoicesForShape(row: UploadRow, letters: seq<string>, c: string)
    requires 2 <= |letters| && forall i, j :: 0 <= i < j < |letters| ==> letters[i] != letters[j]
    requires !Blank(OptionFor(row, letters[0])) && !Blank(OptionFor(row, letters[1]))
    requires c in letters && !Blank(OptionFor(row, c))
    ensures var chs := ChoicesFor(row, letters);
      && 2 <= |chs| <= |letters|
      && (forall i :: 0 <= i < |chs| ==> chs[i].choice in letters && chs[i].answer != "")
      && (forall i, j :: 0 <= i < j < |chs| ==> chs[i].choice != chs[j].choice)
      && (exists i :: 0 <= i < |chs| && chs[i].choice == c)
  {
    var chs := ChoicesFor(row, letters);
    ChoicesForLetters(row, letters);
    ChoicesForDistinct(row, letters);
    var k :| 0 <= k < |letters| && letters[k] == c;
    ChoicesForPresent(row, letters, k);
    ChoicesForPresent(row, letters, 0);
    ChoicesForPresent(row, letters, 1);
    var a :| 0 <= a < |chs| && chs[a].choice == letters[0];
    var b :| 0 <= b < |chs| && chs[b].choice == letters[1];
    assert a != b;
    assert forall i :: 0 <= i < |chs| ==> chs[i] in chs;
  }



  // ----- normalisation -----

  lemma NotBlankAt(s: string, k: nat)
    requires k < |s| && !IsWhiteSpace(s[k])
    ensures !IsBlank(s)
  {
  }

  /** Upper-casing twice is upper-casing once. */
  lemma UpperIdempotent(s: string)
    ensures Upper(Upper(s)) == Upper(s)
  {
  }

  /** The trim of an upper-cased string is upper-cased: it is a piece of it. */
  lemma {:induction false} TrimKeepsUpper(u: string)
    requires Upper(u) == u
    ensures Upper(Trim(u)) == Trim(u)
  {
    var ts := TrimStart(u);
    TrimStartFacts(u);
    TrimEndFacts(ts);
    var t := Trim(u);
    forall i | 0 <= i < |t| ensures UpperChar(t[i]) == t[i] {
      assert t[i] == ts[i] == u[|u| - |ts| + i];
      assert Upper(u)[|u| - |ts| + i] == UpperChar(u[|u| - |ts| + i]);
    }
  }

  /** The normalised correct option of a non-blank one is not blank. */
  lemma NormalizedNotBlank(v: string)
    requires !IsBlank(v)
    ensures !IsBlank(Trim(Upper(v)))
  {
    var k :| 0 <= k < |v| && !IsWhiteSpace(v[k]);
    assert !IsWhiteSpace(Upper(v)[k]);
    TrimEmptyIffBlank(Upper(v));
    TrimFacts(Upper(v));
  }

  /** Normalising a normalised row changes nothing. */
  lemma NormalizeIdempotent(row: UploadRow)
    ensures Normalize(Normalize(row)) == Normalize(row)
  {
    if !Blank(row.correctOption) {
      var v := row.correctOption.value;
      NormalizedNotBlank(v);
      UpperIdempotent(v);
      TrimKeepsUpper(Upper(v));
      TrimIdempotent(Upper(v));
    }
  }

  // ----- validated rows and the import -----

  /** When the rows pass, every row is imported, in order. */
  lemma {:induction false} ImportCountWhenValid(dailyReadId: int, rows: seq<UploadRow>)
    requires forall i :: 0 <= i < |rows| ==> Imports(rows[i]) && rows[i].correctOption.Some?
    ensures Importable(rows)
    ensures |Imported(dailyReadId, rows)| == |rows|
    ensures forall k :: 0 <= k < |rows| ==> Imported(dailyReadId, rows)[k] == ImportedQuestion(dailyReadId, rows[k])
  {
    if rows != [] {
      var init := rows[..|rows| - 1];
      assert forall i :: 0 <= i < |init| ==> init[i] == rows[i];
      ImportCountWhenValid(dailyReadId, init);
    }
  }

  /**
   * The questions an accepted upload stores all belong to the daily read,
   * are consistent, and have distinct numbers: the question table's
   * invariant survives the import.
   */
  lemma ImportedConsistent(dailyReadId: int, raw: seq<UploadRow>)
    requires RowsErrors(NormalizedRows(raw)) == []
    ensures Importable(NormalizedRows(raw))
    ensures var added := Imported(dailyReadId, NormalizedRows(raw));
      && |added| == |raw|
      && (forall i :: 0 <= i < |added| ==> added[i].dailyReadId == dailyReadId && Consistent(added[i]))
      && UniqueSeqs(added)
  {
    var rows := NormalizedRows(raw);
    RowsErrorsEmpty(rows);
    assert forall i :: 0 <= i < |rows| ==> Imports(rows[i]) && rows[i].correctOption.Some?;
    ImportCountWhenValid(dailyReadId, rows);
    var added := Imported(dailyReadId, rows);
    forall i | 0 <= i < |added| ensures added[i].dailyReadId == dailyReadId && Consistent(added[i]) {
      NormalizeIdempotent(raw[i]);
      AcceptedRowIsConsistent(dailyReadId, rows[i]);
    }
    forall i, j | 0 <= i < j < |added| ensures added[i].questionSeq != added[j].questionSeq {
      assert added[i].questionSeq == rows[i].quizNumber.value;
      assert added[j].questionSeq == rows[j].quizNumber.value;
    }
  }

  // ----- the endpoint -----

  datatype UploadError =
    | DailyReadNotFound
    | FileRejected(fileError: FileError)
    | StructureInvalid(structureErrors: seq<StructureError>)
    | RowsInvalid(rowErrors: seq<CellError>)

  /**
   * What the upload answers, check by check: the daily read must exist,
   * the file must pass the file checks and the column-structure check,
   * and the normalised rows the row check.
   */
  function UploadOutcome(dailyReads: seq<DailyRead>, dailyReadId: int, contentType: string, fileData: seq<bv8>,
                         worksheet: Option<seq<HeaderCell>>, raw: seq<UploadRow>): Result<(), UploadError>
  {
    if FindDailyRead(dailyReads, dailyReadId).None? then Err(UploadError.DailyReadNotFound)
    else if ValidateExcelFile(|fileData|, contentType).Err? then Err(FileRejected(ValidateExcelFile(|fileData|, contentType).error))
    else if StructureErrors(fileData, worksheet, UploadColumns, true) != [] then
      Err(StructureInvalid(StructureErrors(fileData, worksheet, UploadColumns, true)))
    else if RowsErrors(NormalizedRows(raw)) != [] then Err(RowsInvalid(RowsErrors(NormalizedRows(raw))))
    else Ok(())
  }

  /**
   * An upload succeeds exactly when the daily read exists, the file is a
   * non-empty spreadsheet of at most 10 MiB with the expected header row,
   * every row passes the validator, and no two rows share a quiz number;
   * every row then becomes a question.
   */
  lemma UploadSucceedsIff(dailyReads: seq<DailyRead>, dailyReadId: int, contentType: string, fileData: seq<bv8>,
                          worksheet: Option<seq<HeaderCell>>, raw: seq<UploadRow>)
    ensures UploadOutcome(dailyReads, dailyReadId, contentType, fileData, worksheet, raw).Ok? <==>
      && FindDailyRead(dailyReads, dailyReadId).Some?
      && 0 < |fileData| <= MaxFileBytes && StartsWith(contentType, XlsxContentType)
      && StructureErrors(fileData, worksheet, UploadColumns, true) == []
      && (forall i :: 0 <= i < |raw| ==> RowAccepted(Normalize(raw[i])))
      && DistinctNumbers(NormalizedRows(raw))
    ensures UploadOutcome(dailyReads, dailyReadId, contentType, fileData, worksheet, raw).Ok? ==>
      |Imported(dailyReadId, NormalizedRows(raw))| == |raw|
  {
    var rows := NormalizedRows(raw);
    RowsErrorsEmpty(rows);
    if RowsErrors(rows) == [] {
      ImportedConsistent(dailyReadId, raw);
    }
  }

  /**
   * `UploadQuizQuestionsEndpoint.HandleAsync`: answers as `UploadOutcome`
   * says; on success the daily read's questions are replaced by one
   * question per row, otherwise the table is unchanged.  `fileData` is the
   * uploaded file, `worksheet` the header row of its first worksheet,
   * `rows` the parsed rows, which the row check normalises in place.
   */
  method Upload(table: QuestionTable, dailyReads: seq<DailyRead>, dailyReadId: int, contentType: string,
                fileData: array<bv8>, worksheet: Option<seq<HeaderCell>>, rows: array<UploadRow>)
    returns (r: Result<(), UploadError>)
    requires table.Valid()
    modifies table, rows
    ensures table.Valid()
    ensures r == UploadOutcome(dailyReads, dailyReadId, contentType, old(fileData[..]), worksheet, old(rows[..]))
    ensures r.Ok? ==>
      && Importable(NormalizedRows(old(rows[..])))
      && table.rows == RemoveQuestionsOf(old(table.rows), dailyReadId) + Imported(dailyReadId, NormalizedRows(old(rows[..])))
    ensures r.Err? ==> table.rows == old(table.rows)
  {
    if FindDailyRead(dailyReads, dailyReadId).None? {
      return Err(UploadError.DailyReadNotFound);
    }
    var validateResult := ValidateExcelFile(fileData.Length, contentType);
    if validateResult.Err? {
      return Err(FileRejected(validateResult.error));
    }
    var structureErrors := ValidateColumnStructure(fileData, worksheet, UploadColumns, true);
    if structureErrors != [] {
      return Err(StructureInvalid(structureErrors));
    }
    var imported := ImportRowsInto(table, dailyReadId, rows);
    if imported.Err? {
      return Err(RowsInvalid(imported.error));
    }
    return Ok(());
  }

  /**
   * The second half of the upload: the row check, then, when it passes,
   * the daily read's questions replaced by the imported rows.
   */
  method ImportRowsInto(table: QuestionTable, dailyReadId: int, rows: array<UploadRow>)
    returns (r: Result<(), seq<CellError>>)
    requires table.Valid()
    modifies table, rows
    ensures table.Valid()
    ensures rows[..] == NormalizedRows(old(rows[..]))
    ensures r.Err? <==> RowsErrors(NormalizedRows(old(rows[..]))) != []
    ensures r.Err? ==> r.error == RowsErrors(NormalizedRows(old(rows[..])))
    ensures r.Ok? ==>
      && Importable(NormalizedRows(old(rows[..])))
      && table.rows == RemoveQuestionsOf(old(table.rows), dailyReadId) + Imported(dailyReadId, NormalizedRows(old(rows[..])))
    ensures r.Err? ==> table.rows == old(table.rows)
  {
    ghost var raw := rows[..];
    var results := ValidateRows(rows);
    if results.Err? {
      return Err(results.error);
    }
    ImportedConsistent(dailyReadId, raw);
    var added := ImportRows(dailyReadId, rows[..]);
    table.ReplaceQuestionsOf(dailyReadId, added);
    return Ok(());
  }

  /** The upload's column attributes pass the header check when every header name appears in the header row. */
  lemma UploadColumnsPass(fileData: seq<bv8>, cells: seq<HeaderCell>)
    requires HasZipSignature(fileData)
    requires forall i :: 0 <= i < |UploadColumns| ==>
      HasEntry(cells, HeaderEntry, HeaderKey(UploadColumns[i].attribute.columnName.value))
    ensures StructureErrors(fileData, Some(cells), UploadColumns, true) == []
  {
    NamedLetterColumnsPass(UploadColumns, cells);
  }

  // ----- the correct option without text -----

  /**
   * The validator as written accepts a row whose correct option names a
   * letter with no option text: the row below, with options A and B and
   * correct option E, passes it, is rejected by the corrected validator,
   * and would be stored as a question no answer can match.
   */
  lemma UploadAsWrittenStoresUnanswerable(dailyReadId: int)
    ensures var row := UploadRow(Some(1), Some("Q"), Some("a"), Some("b"), None, None, None, Some("E"));
      && Normalize(row) == row
      && RowFailuresAsWritten(row) == []
      && RowFailures(row) == [Failure("CorrectOption", CorrectOptionWithoutText)]
      && !Consistent(ImportedQuestion(dailyReadId, row))
  {
    var row := UploadRow(Some(1), Some("Q"), Some("a"), Some("b"), None, None, None, Some("E"));
    UnanswerableRowPasses(row);
    UnanswerableRowStored(dailyReadId, row);
  }

  /** The row of `UploadAsWrittenStoresUnanswerable` passes the validator as written and fails the corrected one. */
  lemma UnanswerableRowPasses(row: UploadRow)
    requires row == UploadRow(Some(1), Some("Q"), Some("a"), Some("b"), None, None, None, Some("E"))
    ensures Normalize(row) == row
    ensures RowFailuresAsWritten(row) == []
    ensures RowFailures(row) == [Failure("CorrectOption", CorrectOptionWithoutText)]
  {
    UnanswerableRowFields(row);
    forall k | 0 <= k < |RulesAsWritten| ensures !Breaks(row, RulesAsWritten[k]) {
      assert RulesAsWritten[k] in {QuizNumberRequired, UploadRule.QuestionRequired, OptionARequired, OptionBRequired,
        CorrectOptionRequired, CorrectOptionNotLetter};
    }
    FailuresOfBroken(row, RulesAsWritten);
    RowFailuresExtendAsWritten(row);
  }

  /** The fields of that row: four texts that are not blank, a correct option E, and no option E. */
  lemma UnanswerableRowFields(row: UploadRow)
    requires row == UploadRow(Some(1), Some("Q"), Some("a"), Some("b"), None, None, None, Some("E"))
    ensures !Blank(row.question) && !Blank(row.optionA) && !Blank(row.optionB) && !Blank(row.correctOption)
    ensures Upper("E") == "E" && Trim("E") == "E" && IsChoiceLetter("E")
    ensures Blank(OptionFor(row, "E")) && CorrectOptionHasNoText(row)
  {
    assert Upper("E") == "E";
    TrimNoEdges("E");
    NotBlankAt("E", 0);
    NotBlankAt("Q", 0);
    NotBlankAt("a", 0);
    NotBlankAt("b", 0);
    assert OptionFor(row, "E") == None;
  }

  /** The question stored for that row names a correct letter none of its choices has. */
  lemma UnanswerableRowStored(dailyReadId: int, row: UploadRow)
    requires row == UploadRow(Some(1), Some("Q"), Some("a"), Some("b"), None, None, None, Some("E"))
    ensures Imports(row) && !Consistent(ImportedQuestion(dailyReadId, row))
  {
    TrimNoEdges("E");
    TrimNoEdges("a");
    TrimNoEdges("b");
    TrimNoEdges("Q");
    var q := ImportedQuestion(dailyReadId, row);
    assert q.choices == [QuizChoice("A", "a"), QuizChoice("B", "b")];
  }

  /**
   * The upload takes any present quiz number, where the create endpoint
   * demands a positive one: a row numbered 0 passes the row check.
   */
  lemma UploadAcceptsNonPositiveNumber()
    ensures var row := UploadRow(Some(0), Some("Q"), Some("a"), Some("b"), None, None, None, Some("A"));
      && RowsErrors([row]) == []
      && CreateErrors(CreateRequest(0, "Q", "A", [ChoiceDto("A", "a"), ChoiceDto("B", "b")])) != []
  {
    var row := UploadRow(Some(0), Some("Q"), Some("a"), Some("b"), None, None, None, Some("A"));
    assert Upper("A") == "A";
    NotBlankAt("A", 0);
    NotBlankAt("Q", 0);
    NotBlankAt("a", 0);
    NotBlankAt("b", 0);
    assert OptionFor(row, "A") == Some("a");
    RowFailuresEmpty(row);
    RowsErrorsEmpty([row]);
  }
}
