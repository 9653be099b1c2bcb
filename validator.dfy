/**
 * The row validator of main.go:183-256, factored out of the read loop as a
 * function from the header map and one row to a verdict. Checks run in a
 * fixed order and the first failing check decides the row's only error.
 */
module RowValidator {
  import opened Wrappers
  import opened Schema
  import opened Strconv
  import opened HeaderMap

  /** Why a data row was rejected; each error carries the offending value. */
  datatype RowError =
    | FieldCount(got: nat, want: nat)
    | MissingColumn(column: string)
    | IdNotEightDigits(value: string)
    | IdInvalid(value: string, cause: NumError)
    | IdNegative(id: int)
    | NameTooLong(column: string, value: string)
    | NameEmpty(column: string)
    | PhoneInvalid(value: string)

  /**
   * The outcome for one data row. IndexOutOfRange stands for the runtime
   * panic of indexing the row with a header position past its end, which the
   * source does not guard against.
   */
  datatype Verdict = Accept(rec: Record) | Reject(error: RowError) | IndexOutOfRange(column: string)

  /** Either a checked value, or the verdict that ends the row. */
  datatype Step<T> = Pass(value: T) | Stop(verdict: Verdict)

  /** The column is in the header and its position lies inside the row. */
  predicate Readable(header: map<string, nat>, row: seq<string>, column: string) {
    column in header && header[column] < |row|
  }

  function Field(header: map<string, nat>, row: seq<string>, column: string): string
    requires Readable(header, row, column)
  {
    row[header[column]]
  }

  /** Looking a column up: missing from the header, past the end of the row, or its value. */
  function Column(header: map<string, nat>, row: seq<string>, column: string): Step<string> {
    if column !in header then Stop(Reject(MissingColumn(column)))
    else if header[column] >= |row| then Stop(IndexOutOfRange(column))
    else Pass(row[header[column]])
  }

  /** The internal id rules (main.go:188-205): 8 bytes, an integer, not negative. */
  function CheckId(header: map<string, nat>, row: seq<string>): (r: Step<int>)
    ensures r.Pass? ==> Readable(header, row, ID) && |Field(header, row, ID)| == IdWidth
    ensures r.Pass? ==> Atoi(Field(header, row, ID)) == Success(r.value) && 0 <= r.value < 100000000
  {
    match Column(header, row, ID)
    case Stop(v) => Stop(v)
    case Pass(field) =>
      if |field| != IdWidth then Stop(Reject(IdNotEightDigits(field)))
      else
        match Atoi(field)
        case Failure(e) => Stop(Reject(IdInvalid(field, e)))
        case Success(n) =>
          if n < 0 then Stop(Reject(IdNegative(n)))
          else EightByteRange(field); Pass(n)
  }

  /**
   * A name part (main.go:207-243): at most 15 bytes, and not empty when
   * `required` (first and last names; the middle name may be empty).
   */
  function CheckName(header: map<string, nat>, row: seq<string>, column: string, required: bool): (r: Step<string>)
    ensures r.Pass? ==> Readable(header, row, column) && r.value == Field(header, row, column)
    ensures r.Pass? ==> |r.value| <= MaxNameLength && (required ==> r.value != "")
  {
    match Column(header, row, column)
    case Stop(v) => Stop(v)
    case Pass(field) =>
      if |field| > MaxNameLength then Stop(Reject(NameTooLong(column, field)))
      else if required && field == "" then Stop(Reject(NameEmpty(column)))
      else Pass(field)
  }

  /** The phone rule (main.go:245-254). */
  function CheckPhone(header: map<string, nat>, row: seq<string>): (r: Step<string>)
    ensures r.Pass? ==> Readable(header, row, Phone) && r.value == Field(header, row, Phone)
    ensures r.Pass? ==> PhoneMatches(r.value)
  {
    match Column(header, row, Phone)
    case Stop(v) => Stop(v)
    case Pass(field) => if PhoneMatches(field) then Pass(field) else Stop(Reject(PhoneInvalid(field)))
  }

  /**
   * One data row against the header map. An accepted record is well formed
   * and copies its text fields verbatim from the columns the header names.
   */
  function Validate(header: map<string, nat>, row: seq<string>): (v: Verdict)
    ensures v.Accept? ==> WellFormed(v.rec)
    ensures v.Accept? ==> (
      && |row| == |header|
      && Readable(header, row, ID) && Atoi(Field(header, row, ID)) == Success(v.rec.internalId)
      && Readable(header, row, FName) && v.rec.name.first == Field(header, row, FName)
      && Readable(header, row, MName) && v.rec.name.middle == Field(header, row, MName)
      && Readable(header, row, LName) && v.rec.name.last == Field(header, row, LName)
      && Readable(header, row, Phone) && v.rec.phone == Field(header, row, Phone))
    ensures v.Reject? && v.error.FieldCount? <==> |row| != |header|
    ensures v.Reject? && v.error.FieldCount? ==> v.error == FieldCount(|row|, |header|)
    ensures v.IndexOutOfRange? ==> |row| == |header| && v.column in header && header[v.column] >= |row|
  {
    if |row| != |header| then Reject(FieldCount(|row|, |header|))
    else
      match CheckId(header, row)
      case Stop(v) => v
      case Pass(id) =>
        match CheckName(header, row, FName, true)
        case Stop(v) => v
        case Pass(first) =>
          match CheckName(header, row, MName, false)
          case Stop(v) => v
          case Pass(middle) =>
            match CheckName(header, row, LName, true)
            case Stop(v) => v
            case Pass(last) =>
              match CheckPhone(header, row)
              case Stop(v) => v
              case Pass(phone) => Accept(Record(id, Name(first, middle, last), phone))
  }

  /** When every header position lies below the header size, no lookup runs past a row that passed the count check. */
  lemma NoOutOfRangeWhenPositionsFit(header: map<string, nat>, row: seq<string>)
    requires forall name :: name in header ==> header[name] < |header|
    ensures !Validate(header, row).IndexOutOfRange?
  {
  }

  /**
   * With a header map built from distinct names, indexing is always in
   * bounds; a panic needs a header row with a repeated name.
   */
  lemma DistinctHeaderNeverPanics(headerRow: seq<string>, row: seq<string>)
    requires Distinct(headerRow)
    ensures !Validate(HeaderOf(headerRow), row).IndexOutOfRange?
  {
    DistinctPositionsInRange(headerRow);
    NoOutOfRangeWhenPositionsFit(HeaderOf(headerRow), row);
  }

  /**
   * A row as wide as the header row (which Go's CSV reader enforces by
   * default) fails the count check exactly when the header repeats a name,
   * and never indexes out of range.
   */
  lemma SameWidthRows(headerRow: seq<string>, row: seq<string>)
    requires |row| == |headerRow|
    ensures Validate(HeaderOf(headerRow), row).Reject? && Validate(HeaderOf(headerRow), row).error.FieldCount?
        <==> !Distinct(headerRow)
    ensures !Validate(HeaderOf(headerRow), row).IndexOutOfRange?
  {
    HeaderSize(headerRow);
    if Distinct(headerRow) {
      DistinctHeaderNeverPanics(headerRow, row);
    }
  }

  /**
   * The rules of main.go:183-254 as independent checks. Each check that
   * reads a field also requires the field to be readable.
   */
  datatype Check =
    | CountMatches
    | Present(column: string)
    | IdIsEightBytes
    | IdParses
    | IdNotNegative
    | NotTooLong(column: string)
    | NotEmpty(column: string)
    | PhonePattern

  /** The order in which the source applies the checks. */
  const Chain: seq<Check> := [
    CountMatches,
    Present(ID), IdIsEightBytes, IdParses, IdNotNegative,
    Present(FName), NotTooLong(FName), NotEmpty(FName),
    Present(MName), NotTooLong(MName),
    Present(LName), NotTooLong(LName), NotEmpty(LName),
    Present(Phone), PhonePattern
  ]

  predicate Passes(header: map<string, nat>, row: seq<string>, c: Check) {
    match c
    case CountMatches => |row| == |header|
    case Present(column) => column in header
    case IdIsEightBytes => Readable(header, row, ID) && |Field(header, row, ID)| == IdWidth
    case IdParses => Readable(header, row, ID) && Atoi(Field(header, row, ID)).Success?
    case IdNotNegative =>
      Readable(header, row, ID) && Atoi(Field(header, row, ID)).Success? && Atoi(Field(header, row, ID)).value >= 0
    case NotTooLong(column) => Readable(header, row, column) && |Field(header, row, column)| <= MaxNameLength
    case NotEmpty(column) => Readable(header, row, column) && Field(header, row, column) != ""
    case PhonePattern => Readable(header, row, Phone) && PhoneMatches(Field(header, row, Phone))
  }

  /** The check was able to look at what it checks, and found it wrong. */
  predicate Refutes(header: map<string, nat>, row: seq<string>, c: Check) {
    match c
    case CountMatches => |row| != |header|
    case Present(column) => column !in header
    case IdIsEightBytes => Readable(header, row, ID) && |Field(header, row, ID)| != IdWidth
    case IdParses => Readable(header, row, ID) && Atoi(Field(header, row, ID)).Failure?
    case IdNotNegative =>
      Readable(header, row, ID) && Atoi(Field(header, row, ID)).Success? && Atoi(Field(header, row, ID)).value < 0
    case NotTooLong(column) => Readable(header, row, column) && |Field(header, row, column)| > MaxNameLength
    case NotEmpty(column) => Readable(header, row, column) && Field(header, row, column) == ""
    case PhonePattern => Readable(header, row, Phone) && !PhoneMatches(Field(header, row, Phone))
  }

  /** The check an error reports. */
  function CheckOf(e: RowError): Check {
    match e
    case FieldCount(_, _) => CountMatches
    case MissingColumn(column) => Present(column)
    case IdNotEightDigits(_) => IdIsEightBytes
    case IdInvalid(_, _) => IdParses
    case IdNegative(_) => IdNotNegative
    case NameTooLong(column, _) => NotTooLong(column)
    case NameEmpty(column) => NotEmpty(column)
    case PhoneInvalid(_) => PhonePattern
  }

  /**
   * The error a refuted check reports, with the value its message quotes:
   * the widths, the column, the id field, Atoi's error, the parsed id, the
   * name field or the phone field.
   */
  function ErrorFor(header: map<string, nat>, row: seq<string>, c: Check): (e: RowError)
    requires Refutes(header, row, c)
    ensures CheckOf(e) == c
  {
    match c
    case CountMatches => FieldCount(|row|, |header|)
    case Present(column) => MissingColumn(column)
    case IdIsEightBytes => IdNotEightDigits(Field(header, row, ID))
    case IdParses => IdInvalid(Field(header, row, ID), Atoi(Field(header, row, ID)).error)
    case IdNotNegative => IdNegative(Atoi(Field(header, row, ID)).value)
    case NotTooLong(column) => NameTooLong(column, Field(header, row, column))
    case NotEmpty(column) => NameEmpty(column)
    case PhonePattern => PhoneInvalid(Field(header, row, Phone))
  }

  /** The position in `checks`, from k on, of the first check that does not pass. */
  function FailureFrom(checks: seq<Check>, header: map<string, nat>, row: seq<string>, k: nat): (r: Option<nat>)
    requires k <= |checks|
    ensures r.Some? ==> k <= r.value < |checks|
    decreases |checks| - k
  {
    if k == |checks| then None
    else if !Passes(header, row, checks[k]) then Some(k)
    else FailureFrom(checks, header, row, k + 1)
  }

  /** The position in Chain of the first check a row fails, if any. */
  function FirstFailure(header: map<string, nat>, row: seq<string>): (r: Option<nat>)
    ensures r.Some? ==> r.value < |Chain|
  {
    FailureFrom(Chain, header, row, 0)
  }

  /** FailureFrom finds a failing check with every check before it (from k) passing, or none fails. */
  lemma {:induction false} FailureFromIsFirst(checks: seq<Check>, header: map<string, nat>, row: seq<string>, k: nat)
    requires k <= |checks|
    ensures var r := FailureFrom(checks, header, row, k);
      && (r.Some? ==> !Passes(header, row, checks[r.value]))
      && (r.Some? ==> forall j :: k <= j < r.value ==> Passes(header, row, checks[j]))
      && (r.None? ==> forall j :: k <= j < |checks| ==> Passes(header, row, checks[j]))
    decreases |checks| - k
  {
    if k < |checks| && Passes(header, row, checks[k]) {
      FailureFromIsFirst(checks, header, row, k + 1);
    }
  }

  /**
   * A step that covers the checks checks[k..next] agrees with them: it
   * passes when they all pass, and otherwise stops with the verdict the first
   * failing one calls for.
   */
  predicate Agrees<T>(checks: seq<Check>, header: map<string, nat>, row: seq<string>, step: Step<T>, k: nat, next: nat)
    requires k <= next <= |checks|
  {
    var r := FailureFrom(checks, header, row, k);
    && (step.Pass? ==> r == FailureFrom(checks, header, row, next))
    && (step.Stop? ==> !step.verdict.Accept? && r.Some? && r.value < next)
    && (step.Stop? && step.verdict.Reject? ==>
          && checks[r.value] == CheckOf(step.verdict.error) && Refutes(header, row, CheckOf(step.verdict.error))
          && step.verdict.error == ErrorFor(header, row, checks[r.value]))
    && (step.Stop? && step.verdict.IndexOutOfRange? ==> !Refutes(header, row, checks[r.value]))
  }

  lemma Unroll(checks: seq<Check>, header: map<string, nat>, row: seq<string>, k: nat)
    requires k < |checks|
    ensures FailureFrom(checks, header, row, k)
      == if Passes(header, row, checks[k]) then FailureFrom(checks, header, row, k + 1) else Some(k)
  {
  }

  lemma IdAgrees(checks: seq<Check>, header: map<string, nat>, row: seq<string>)
    requires 5 <= |checks|
    requires checks[1] == Present(ID) && checks[2] == IdIsEightBytes
    requires checks[3] == IdParses && checks[4] == IdNotNegative
    ensures Agrees(checks, header, row, CheckId(header, row), 1, 5)
  {
    Unroll(checks, header, row, 1);
    Unroll(checks, header, row, 2);
    Unroll(checks, header, row, 3);
    Unroll(checks, header, row, 4);
  }

  lemma NameAgrees(checks: seq<Check>, header: map<string, nat>, row: seq<string>, column: string, required: bool, k: nat)
    requires k + 2 + (if required then 1 else 0) <= |checks|
    requires checks[k] == Present(column) && checks[k + 1] == NotTooLong(column)
    requires required ==> checks[k + 2] == NotEmpty(column)
    ensures Agrees(checks, header, row, CheckName(header, row, column, required), k, k + 2 + (if required then 1 else 0))
  {
    Unroll(checks, header, row, k);
    Unroll(checks, header, row, k + 1);
    if required {
      Unroll(checks, header, row, k + 2);
    }
  }

  lemma PhoneAgrees(checks: seq<Check>, header: map<string, nat>, row: seq<string>)
    requires 15 <= |checks|
    requires checks[13] == Present(Phone) && checks[14] == PhonePattern
    ensures Agrees(checks, header, row, CheckPhone(header, row), 13, 15)
  {
    Unroll(checks, header, row, 13);
    Unroll(checks, header, row, 14);
  }

  /** The checks in the order of Chain, spelled out position by position. */
  predicate InChainOrder(checks: seq<Check>) {
    && |checks| == 15
    && checks[0] == CountMatches
    && checks[1] == Present(ID) && checks[2] == IdIsEightBytes && checks[3] == IdParses && checks[4] == IdNotNegative
    && checks[5] == Present(FName) && checks[6] == NotTooLong(FName) && checks[7] == NotEmpty(FName)
    && checks[8] == Present(MName) && checks[9] == NotTooLong(MName)
    && checks[10] == Present(LName) && checks[11] == NotTooLong(LName) && checks[12] == NotEmpty(LName)
    && checks[13] == Present(Phone) && checks[14] == PhonePattern
  }

  lemma ValidateFollows(checks: seq<Check>, header: map<string, nat>, row: seq<string>)
    requires InChainOrder(checks)
    ensures var r := FailureFrom(checks, header, row, 0); var v := Validate(header, row);
      && (v.Accept? <==> r.None?)
      && (v.Reject? ==> r.Some? && checks[r.value] == CheckOf(v.error) && Refutes(header, row, CheckOf(v.error)))
      && (v.Reject? ==> v.error == ErrorFor(header, row, checks[r.value]))
      && (v.IndexOutOfRange? ==> r.Some? && !Refutes(header, row, checks[r.value]))
  {
    Unroll(checks, header, row, 0);
    if |row| == |header| {
      IdAgrees(checks, header, row);
      match CheckId(header, row)
      case Stop(_) =>
      case Pass(_) =>
        NameAgrees(checks, header, row, FName, true, 5);
        match CheckName(header, row, FName, true)
        case Stop(_) =>
        case Pass(_) =>
          NameAgrees(checks, header, row, MName, false, 8);
          match CheckName(header, row, MName, false)
          case Stop(_) =>
          case Pass(_) =>
            NameAgrees(checks, header, row, LName, true, 10);
            match CheckName(header, row, LName, true)
            case Stop(_) =>
            case Pass(_) =>
              PhoneAgrees(checks, header, row);
              assert FailureFrom(checks, header, row, 15) == None;
    }
  }

  /**
   * Fail-fast: a row is accepted exactly when every check passes; a rejected
   * row reports the first check in Chain that fails, and that check really
   * refutes the row; a panic happens at the first failing check when that
   * check cannot read its field.
   */
  lemma ValidateIsFirstFailure(header: map<string, nat>, row: seq<string>)
    ensures Validate(header, row).Accept? <==> FirstFailure(header, row).None?
    ensures Validate(header, row).Reject? ==>
      var e := Validate(header, row).error;
      FirstFailure(header, row).Some? && Chain[FirstFailure(header, row).value] == CheckOf(e)
      && Refutes(header, row, CheckOf(e))
      && e == ErrorFor(header, row, Chain[FirstFailure(header, row).value])
    ensures Validate(header, row).IndexOutOfRange? ==>
      FirstFailure(header, row).Some? && !Refutes(header, row, Chain[FirstFailure(header, row).value])
  {
    assert InChainOrder(Chain);
    ValidateFollows(Chain, header, row);
  }

  /** The header row in the order the schema lists the columns. */
  const SchemaHeaderRow: seq<string> := [ID, FName, MName, LName, Phone]

  /** Each schema column at the position the schema lists it, and no other column. */
  predicate SchemaLayout(header: map<string, nat>) {
    && |header| == 5
    && ID in header && header[ID] == 0 && FName in header && header[FName] == 1
    && MName in header && header[MName] == 2 && LName in header && header[LName] == 3
    && Phone in header && header[Phone] == 4
  }

  /** A header row naming the schema's columns in order lays them out at positions 0 to 4. */
  lemma SchemaPositions()
    ensures SchemaLayout(HeaderOf(SchemaHeaderRow))
  {
    SchemaOrderLayout(SchemaHeaderRow);
  }

  lemma SchemaOrderLayout(r: seq<string>)
    requires |r| == 5 && r[0] == ID && r[1] == FName && r[2] == MName && r[3] == LName && r[4] == Phone
    ensures SchemaLayout(HeaderOf(r))
  {
    assert ID[0] == 'I' && FName[0] == 'F' && MName[0] == 'M' && LName[0] == 'L' && Phone[0] == 'P';
    assert Distinct(r) by {
      forall i, j | 0 <= i < j < |r| ensures r[i] != r[j] {
        assert r[i][0] != r[j][0];
      }
    }
    HeaderSize(r);
    HeaderOfSpec(r);
    assert ID in r && FName in r && MName in r && LName in r && Phone in r;
  }

  /** A fully valid row is accepted with its fields copied. */
  lemma AcceptExample(header: map<string, nat>)
    requires SchemaLayout(header)
    ensures Validate(header, ["12345678", "Jane", "Q", "Doe", "555-123-4567"])
         == Accept(Record(12345678, Name("Jane", "Q", "Doe"), "555-123-4567"))
  {
    AtoiExamples();
    PhoneExamples();
  }

  /** A '+' signed id and an empty middle name are accepted. */
  lemma SignedIdExample(header: map<string, nat>)
    requires SchemaLayout(header)
    ensures Validate(header, ["+1234567", "Jane", "", "Doe", "555-123-4567"])
         == Accept(Record(1234567, Name("Jane", "", "Doe"), "555-123-4567"))
  {
    AtoiSignedExamples();
    PhoneExamples();
  }

  /** A '-' sign in front of seven zeros passes every id rule, as id 0. */
  lemma NegativeZeroIdExample(header: map<string, nat>)
    requires SchemaLayout(header)
    ensures Validate(header, ["-0000000", "Jane", "Q", "Doe", "555-123-4567"])
         == Accept(Record(0, Name("Jane", "Q", "Doe"), "555-123-4567"))
  {
    NegativeZeroExample();
    PhoneExamples();
  }

  /** The three id rules, each shown failing on its own. */
  lemma IdRejectionExamples(header: map<string, nat>)
    requires SchemaLayout(header)
    ensures Validate(header, ["1234567", "Jane", "Q", "Doe", "555-123-4567"]) == Reject(IdNotEightDigits("1234567"))
    ensures Validate(header, ["12ab5678", "Jane", "Q", "Doe", "555-123-4567"]) == Reject(IdInvalid("12ab5678", InvalidSyntax))
    ensures Validate(header, ["-0000001", "Jane", "Q", "Doe", "555-123-4567"]) == Reject(IdNegative(-1))
  {
    AtoiExamples();
    AtoiSignedExamples();
  }

  /**
   * Fail-fast: a row with both an empty first name and a bad phone reports
   * only the first name; with the name fixed it reports the phone. A short
   * row reports only the count.
   */
  lemma FirstErrorWinsExamples(header: map<string, nat>)
    requires SchemaLayout(header)
    ensures Validate(header, ["12345678", "", "Q", "Doe", "5551234567"]) == Reject(NameEmpty(FName))
    ensures Validate(header, ["12345678", "Jane", "Q", "Doe", "5551234567"]) == Reject(PhoneInvalid("5551234567"))
    ensures Validate(header, ["1234567", "", "Q", "Doe"]) == Reject(FieldCount(4, 5))
  {
    AtoiExamples();
    PhoneExamples();
  }
}
