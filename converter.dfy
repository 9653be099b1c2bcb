/**
 * The read loop of processFile (main.go:163-257). The CSV reader is a
 * sequence of read results; the loop numbers every read from 1, turns the
 * first row it gets into the header map, and gives every later read exactly
 * one outcome: a record appended to `records`, or a (line, message) entry
 * appended to `errs`.
 */
module FileConverter {
  import opened Wrappers
  import opened Schema
  import opened HeaderMap
  import opened RowValidator

  /** One call of the CSV reader: a row of fields, or a parse error. End of input ends the sequence. */
  datatype ReadResult = Row(fields: seq<string>) | ParseError(message: string)

  /** An error message in the report: from the reader, or from the row validator. */
  datatype ErrorMessage = ReadFailure(message: string) | Invalid(error: RowError)

  /**
   * A row of the error table: the fixed title row (the cells "LINE_NUM" and
   * "ERROR_MSG", main.go:140-145), or one error with the number of its read.
   */
  datatype ErrRow = TitleRow | ErrorRow(line: nat, message: ErrorMessage)

  /** What a single read contributes to the session. */
  datatype Outcome = HeaderRead | Accepted(rec: Record) | Rejected(message: ErrorMessage) | Crashed

  /** How the loop ended: at end of input, or by a runtime panic on the read with this line number. */
  datatype Status = Completed | Panicked(line: nat)

  /** The position of the first read that yields a row: the header row. */
  function HeaderIndex(input: seq<ReadResult>): (r: Option<nat>)
    ensures r.Some? ==> r.value < |input| && input[r.value].Row?
  {
    if |input| == 0 then None
    else if input[0].Row? then Some(0)
    else
      match HeaderIndex(input[1..])
      case None => None
      case Some(k) => Some(k + 1)
  }

  /** The header row is the first row: every read before it is a parse error, and without one every read is. */
  lemma {:induction false} HeaderIndexSpec(input: seq<ReadResult>)
    ensures HeaderIndex(input).Some? ==> forall j :: 0 <= j < HeaderIndex(input).value ==> input[j].ParseError?
    ensures HeaderIndex(input).None? ==> forall j :: 0 <= j < |input| ==> input[j].ParseError?
  {
    if |input| > 0 && input[0].ParseError? {
      HeaderIndexSpec(input[1..]);
      assert forall j :: 1 <= j < |input| ==> input[j] == input[1..][j - 1];
    }
  }

  /** Any row read comes at or after the header row. */
  lemma HeaderIndexFirst(input: seq<ReadResult>, i: nat)
    requires i < |input| && input[i].Row?
    ensures HeaderIndex(input).Some? && HeaderIndex(input).value <= i
  {
    HeaderIndexSpec(input);
  }

  /**
   * The outcome of read i, stated without reference to the loop: a parse
   * error is reported; the first row is the header; every later row is
   * validated against the header map of the first row.
   */
  function OutcomeAt(input: seq<ReadResult>, i: nat): (o: Outcome)
    requires i < |input|
    ensures o.HeaderRead? <==> HeaderIndex(input) == Some(i)
  {
    match input[i]
    case ParseError(message) => Rejected(ReadFailure(message))
    case Row(fields) =>
      HeaderIndexFirst(input, i);
      var h := HeaderIndex(input).value;
      if h == i then HeaderRead else ToOutcome(Validate(HeaderOf(input[h].fields), fields))
  }

  /** How the loop acts on a validator verdict. */
  function ToOutcome(v: Verdict): Outcome {
    match v
    case Accept(rec) => Accepted(rec)
    case Reject(e) => Rejected(Invalid(e))
    case IndexOutOfRange(_) => Crashed
  }

  /** The outcomes of the first n reads, in read order. */
  function OutcomesUpTo(input: seq<ReadResult>, n: nat): (os: seq<Outcome>)
    requires n <= |input|
    ensures |os| == n
  {
    if n == 0 then [] else OutcomesUpTo(input, n - 1) + [OutcomeAt(input, n - 1)]
  }

  /** The outcome of every read of the file. */
  function Outcomes(input: seq<ReadResult>): (os: seq<Outcome>)
    ensures |os| == |input|
  {
    OutcomesUpTo(input, |input|)
  }

  lemma {:induction false} OutcomesUpToAt(input: seq<ReadResult>, n: nat, i: nat)
    requires i < n <= |input|
    ensures OutcomesUpTo(input, n)[i] == OutcomeAt(input, i)
  {
    if i < n - 1 {
      OutcomesUpToAt(input, n - 1, i);
    }
  }

  /** Entry i of the outcome sequence is the outcome of read i. */
  lemma OutcomesAt(input: seq<ReadResult>, i: nat)
    requires i < |input|
    ensures Outcomes(input)[i] == OutcomeAt(input, i)
  {
    OutcomesUpToAt(input, |input|, i);
  }

  /** A prefix of the outcome sequence is the outcome sequence of the prefix reads. */
  lemma {:induction false} OutcomesPrefix(input: seq<ReadResult>, n: nat, m: nat)
    requires m <= n <= |input|
    ensures OutcomesUpTo(input, n)[..m] == OutcomesUpTo(input, m)
  {
    if m < n {
      OutcomesPrefix(input, n - 1, m);
      assert OutcomesUpTo(input, n)[..n - 1] == OutcomesUpTo(input, n - 1);
    } else {
      assert OutcomesUpTo(input, n)[..n] == OutcomesUpTo(input, n);
    }
  }

  /** No read ran into the out-of-range panic. */
  predicate CrashFree(os: seq<Outcome>) {
    Crashed !in os
  }

  /** The records one outcome contributes. */
  function RecordShare(o: Outcome): seq<Record> {
    if o.Accepted? then [o.rec] else []
  }

  /** The error rows one outcome contributes, reported on line `line`. */
  function ErrorShare(line: nat, o: Outcome): seq<ErrRow> {
    if o.Rejected? then [ErrorRow(line, o.message)] else []
  }

  /** The accepted records, in read order. */
  function AcceptedRecords(os: seq<Outcome>): seq<Record> {
    if |os| == 0 then [] else AcceptedRecords(os[..|os| - 1]) + RecordShare(os[|os| - 1])
  }

  /**
   * The error table: the title row, then the rejections in read order, each
   * with its line number (its position plus one).
   */
  function ErrorTable(os: seq<Outcome>): (t: seq<ErrRow>)
    ensures |t| >= 1 && t[0] == TitleRow
  {
    if |os| == 0 then [TitleRow] else ErrorTable(os[..|os| - 1]) + ErrorShare(|os|, os[|os| - 1])
  }

  /** How many reads were taken as the header. */
  function HeaderReads(os: seq<Outcome>): nat {
    if |os| == 0 then 0
    else HeaderReads(os[..|os| - 1]) + if os[|os| - 1].HeaderRead? then 1 else 0
  }

  /** Appending one outcome extends each summary by that outcome's share. */
  lemma SnocStep(os: seq<Outcome>, o: Outcome)
    ensures AcceptedRecords(os + [o]) == AcceptedRecords(os) + RecordShare(o)
    ensures ErrorTable(os + [o]) == ErrorTable(os) + ErrorShare(|os| + 1, o)
    ensures HeaderReads(os + [o]) == HeaderReads(os) + if o.HeaderRead? then 1 else 0
  {
    assert (os + [o])[..|os|] == os;
  }

  /**
   * What the loop knows about the header after `done` reads: nothing before
   * the header row, and afterwards the map built from it.
   */
  predicate HeaderState(input: seq<ReadResult>, done: nat, header: Option<map<string, nat>>) {
    match header
    case None => HeaderIndex(input).None? || HeaderIndex(input).value >= done
    case Some(m) =>
      && HeaderIndex(input).Some? && HeaderIndex(input).value < done
      && m == HeaderOf(input[HeaderIndex(input).value].fields)
  }

  /**
   * The loop state after `done` reads: the header state, and records and
   * error table summarising the outcomes of those reads, none of which panicked.
   */
  predicate LoopState(input: seq<ReadResult>, done: nat, header: Option<map<string, nat>>,
                      records: seq<Record>, errs: seq<ErrRow>)
    requires done <= |input|
  {
    && HeaderState(input, done, header)
    && CrashFree(OutcomesUpTo(input, done))
    && records == AcceptedRecords(OutcomesUpTo(input, done))
    && errs == ErrorTable(OutcomesUpTo(input, done))
  }

  /**
   * One pass of the loop body (main.go:167-256) on read number `done`: a
   * parse error is reported; the first row builds the header map; any later
   * row is validated, then appended to `records` or reported in `errs`.
   * `crashed` is the out-of-range panic of `record[id]`, which leaves the
   * rest of the state as it was.
   */
  method HandleRead(input: seq<ReadResult>, done: nat, header: Option<map<string, nat>>,
                    records: seq<Record>, errs: seq<ErrRow>)
    returns (header': Option<map<string, nat>>, records': seq<Record>, errs': seq<ErrRow>, crashed: bool)
    requires done < |input| && LoopState(input, done, header, records, errs)
    ensures crashed <==> OutcomeAt(input, done).Crashed?
    ensures crashed ==> Crashed in Outcomes(input) && records' == records && errs' == errs
    ensures !crashed ==> LoopState(input, done + 1, header', records', errs')
  {
    ghost var o := OutcomeAt(input, done);
    var line := done + 1;
    header', records', errs', crashed := header, records, errs, false;
    match input[done] {
      case ParseError(message) =>
        assert o == Rejected(ReadFailure(message));
        errs' := errs + [ErrorRow(line, ReadFailure(message))];
      case Row(fields) =>
        if header.None? {
          HeaderIndexFirst(input, done);
          assert o == HeaderRead;
          var h := BuildHeader(fields);
          header' := Some(h);
        } else {
          var v := Validate(header.value, fields);
          assert o == ToOutcome(v);
          match v {
            case Accept(rec) =>
              records' := records + [rec];
            case Reject(e) =>
              errs' := errs + [ErrorRow(line, Invalid(e))];
            case IndexOutOfRange(_) =>
              OutcomesAt(input, done);
              crashed := true;
          }
        }
    }
    if !crashed {
      LoopStateStep(input, done, header', records, errs);
    }
  }

  /** Adding the share of one more read, that did not panic, to a loop state gives the next loop state. */
  lemma LoopStateStep(input: seq<ReadResult>, done: nat, header': Option<map<string, nat>>,
                      records: seq<Record>, errs: seq<ErrRow>)
    requires done < |input|
    requires CrashFree(OutcomesUpTo(input, done))
    requires records == AcceptedRecords(OutcomesUpTo(input, done))
    requires errs == ErrorTable(OutcomesUpTo(input, done))
    requires !OutcomeAt(input, done).Crashed? && HeaderState(input, done + 1, header')
    ensures LoopState(input, done + 1, header', records + RecordShare(OutcomeAt(input, done)),
                      errs + ErrorShare(done + 1, OutcomeAt(input, done)))
  {
    SnocStep(OutcomesUpTo(input, done), OutcomeAt(input, done));
  }

  /**
   * The loop of main.go:165-257: reads are numbered from 1; `records` and
   * `errs` only grow; a panic on an out-of-range column stops everything.
   */
  method ProcessRows(input: seq<ReadResult>) returns (records: seq<Record>, errs: seq<ErrRow>, status: Status)
    ensures status.Completed? <==> CrashFree(Outcomes(input))
    ensures status.Panicked? ==> 1 <= status.line <= |input| && OutcomeAt(input, status.line - 1).Crashed?
    ensures var n := if status.Panicked? then status.line - 1 else |input|;
      && n <= |input|
      && CrashFree(OutcomesUpTo(input, n))
      && records == AcceptedRecords(OutcomesUpTo(input, n))
      && errs == ErrorTable(OutcomesUpTo(input, n))
  {
    records := [];
    errs := [TitleRow];
    var header: Option<map<string, nat>> := None;
    var done := 0;  // reads taken so far; the next read has line number done + 1
    while done < |input|
      invariant done <= |input| && LoopState(input, done, header, records, errs)
    {
      var crashed;
      header, records, errs, crashed := HandleRead(input, done, header, records, errs);
      if crashed {
        status := Panicked(done + 1);
        return;
      }
      done := done + 1;
    }
    status := Completed;
  }

  /** Every read is accounted for once: as a record, as an error row, or as the header. */
  lemma {:induction false} OneOutcomePerRead(os: seq<Outcome>)
    requires CrashFree(os)
    ensures |AcceptedRecords(os)| + (|ErrorTable(os)| - 1) + HeaderReads(os) == |os|
  {
    if |os| > 0 {
      var init, last := os[..|os| - 1], os[|os| - 1];
      assert os == init + [last];
      assert CrashFree(init) && last != Crashed;
      OneOutcomePerRead(init);
    }
  }

  /** Exactly one read, the first row, is taken as the header; none when no row arrives. */
  lemma {:induction false} HeaderReadsUpTo(input: seq<ReadResult>, n: nat)
    requires n <= |input|
    ensures HeaderReads(OutcomesUpTo(input, n))
         == if HeaderIndex(input).Some? && HeaderIndex(input).value < n then 1 else 0
  {
    if n > 0 {
      HeaderReadsUpTo(input, n - 1);
      var o := OutcomeAt(input, n - 1);
      assert o.HeaderRead? <==> HeaderIndex(input) == Some(n - 1);
      SnocStep(OutcomesUpTo(input, n - 1), o);
    }
  }

  /**
   * The counts of the session: every read other than the header row gives
   * one record or one error row (main.go:165-257).
   */
  lemma EveryReadAccountedFor(input: seq<ReadResult>)
    requires CrashFree(Outcomes(input))
    ensures |AcceptedRecords(Outcomes(input))| + (|ErrorTable(Outcomes(input))| - 1)
         == |input| - if HeaderIndex(input).Some? then 1 else 0
  {
    OneOutcomePerRead(Outcomes(input));
    HeaderReadsUpTo(input, |input|);
  }

  /** AcceptedRecords keeps read order: the records of a concatenation are the concatenated records. */
  lemma {:induction false} AcceptedRecordsAppend(a: seq<Outcome>, b: seq<Outcome>)
    ensures AcceptedRecords(a + b) == AcceptedRecords(a) + AcceptedRecords(b)
  {
    if |b| > 0 {
      var init, last := b[..|b| - 1], b[|b| - 1];
      var r := RecordShare(last);
      calc {
        AcceptedRecords(a + b);
      == { assert a + b == (a + init) + [last]; SnocStep(a + init, last); }
        AcceptedRecords(a + init) + r;
      == { AcceptedRecordsAppend(a, init); }
        (AcceptedRecords(a) + AcceptedRecords(init)) + r;
      ==
        AcceptedRecords(a) + (AcceptedRecords(init) + r);
      == { assert b == init + [last]; SnocStep(init, last); }
        AcceptedRecords(a) + AcceptedRecords(b);
      }
    } else {
      assert a + b == a;
    }
  }

  /** The records are exactly the accepted outcomes. */
  lemma {:induction false} AcceptedRecordsExact(os: seq<Outcome>)
    ensures forall r :: r in AcceptedRecords(os) ==> Accepted(r) in os
    ensures forall i :: 0 <= i < |os| && os[i].Accepted? ==> os[i].rec in AcceptedRecords(os)
  {
    if |os| > 0 {
      var init, last := os[..|os| - 1], os[|os| - 1];
      AcceptedRecordsExact(init);
      assert os == init + [last];
      forall i | 0 <= i < |os| && os[i].Accepted? ensures os[i].rec in AcceptedRecords(os) {
        if i < |init| {
          assert os[i] == init[i];
        }
      }
    }
  }

  /** No record is accepted exactly when no read was accepted. */
  lemma NoneAccepted(os: seq<Outcome>)
    ensures AcceptedRecords(os) == [] <==> forall i :: 0 <= i < |os| ==> !os[i].Accepted?
  {
    AcceptedRecordsExact(os);
    var recs := AcceptedRecords(os);
    if recs != [] {
      assert Accepted(recs[0]) in os;
    }
  }

  /**
   * Each error row after the title records a rejection on its own line, and
   * lines strictly increase down the table.
   */
  lemma {:induction false} ErrorTableSound(os: seq<Outcome>)
    ensures forall k :: 1 <= k < |ErrorTable(os)| ==>
      && ErrorTable(os)[k].ErrorRow?
      && 1 <= ErrorTable(os)[k].line <= |os|
      && os[ErrorTable(os)[k].line - 1] == Rejected(ErrorTable(os)[k].message)
    ensures forall a, b :: 1 <= a < b < |ErrorTable(os)| ==> ErrorTable(os)[a].line < ErrorTable(os)[b].line
  {
    if |os| > 0 {
      var init, last := os[..|os| - 1], os[|os| - 1];
      ErrorTableSound(init);
      var t, t0 := ErrorTable(os), ErrorTable(init);
      assert t == t0 + ErrorShare(|os|, last);
      forall k | 1 <= k < |t|
        ensures t[k].ErrorRow? && 1 <= t[k].line <= |os| && os[t[k].line - 1] == Rejected(t[k].message)
      {
        if k < |t0| {
          assert t[k] == t0[k];
          assert os[t0[k].line - 1] == init[t0[k].line - 1];
        }
      }
    }
  }

  /** Every rejection appears in the table, with its line number. */
  lemma {:induction false} ErrorTableComplete(os: seq<Outcome>)
    ensures forall i :: 0 <= i < |os| && os[i].Rejected? ==> ErrorRow(i + 1, os[i].message) in ErrorTable(os)
  {
    if |os| > 0 {
      var init, last := os[..|os| - 1], os[|os| - 1];
      ErrorTableComplete(init);
      assert ErrorTable(os) == ErrorTable(init) + ErrorShare(|os|, last);
      forall i | 0 <= i < |os| && os[i].Rejected? ensures ErrorRow(i + 1, os[i].message) in ErrorTable(os) {
        if i < |init| {
          assert os[i] == init[i];
        }
      }
    }
  }

  /** The table holds more than its title row exactly when some read was rejected. */
  lemma ErrorTableHasErrors(os: seq<Outcome>)
    ensures |ErrorTable(os)| > 1 <==> exists i :: 0 <= i < |os| && os[i].Rejected?
  {
    ErrorTableSound(os);
    ErrorTableComplete(os);
    var t := ErrorTable(os);
    if |t| > 1 {
      assert os[t[1].line - 1].Rejected?;
    }
    if exists i :: 0 <= i < |os| && os[i].Rejected? {
      var i :| 0 <= i < |os| && os[i].Rejected?;
      assert ErrorRow(i + 1, os[i].message) in t;
      assert t != [TitleRow];
    }
  }

  /** A read the CSV reader could not parse is reported on its own line. */
  lemma ParseErrorReported(input: seq<ReadResult>, i: nat)
    requires i < |input| && input[i].ParseError?
    ensures ErrorRow(i + 1, ReadFailure(input[i].message)) in ErrorTable(Outcomes(input))
  {
    OutcomesAt(input, i);
    ErrorTableComplete(Outcomes(input));
  }

  /** Every accepted record meets the schema, whatever the file holds. */
  lemma AcceptedAreWellFormed(input: seq<ReadResult>)
    ensures forall r :: r in AcceptedRecords(Outcomes(input)) ==> WellFormed(r)
  {
    var os := Outcomes(input);
    AcceptedRecordsExact(os);
    forall r | r in AcceptedRecords(os) ensures WellFormed(r) {
      var i :| 0 <= i < |os| && os[i] == Accepted(r);
      OutcomesAt(input, i);
    }
  }

  /** A header row without repeated names rules out the panic for the whole file. */
  lemma NoCrashWithDistinctHeader(input: seq<ReadResult>)
    requires HeaderIndex(input).Some? && Distinct(input[HeaderIndex(input).value].fields)
    ensures CrashFree(Outcomes(input))
  {
    var os := Outcomes(input);
    forall i | 0 <= i < |os| ensures os[i] != Crashed {
      OutcomesAt(input, i);
      if input[i].Row? {
        DistinctHeaderNeverPanics(input[HeaderIndex(input).value].fields, input[i].fields);
      }
    }
  }

  /**
   * A read crashes only when it is a row after the header and the header
   * row repeats a name.
   */
  lemma CrashNeedsDuplicateHeader(input: seq<ReadResult>, k: nat)
    requires k < |input| && OutcomeAt(input, k).Crashed?
    ensures input[k].Row? && HeaderIndex(input).Some? && HeaderIndex(input).value < k
    ensures !Distinct(input[HeaderIndex(input).value].fields)
  {
    HeaderIndexFirst(input, k);
    var h := HeaderIndex(input).value;
    if Distinct(input[h].fields) {
      DistinctHeaderNeverPanics(input[h].fields, input[k].fields);
    }
  }

  /**
   * Rows as wide as the header row, which the CSV reader enforces by
   * default, rule out the panic too.
   */
  lemma NoCrashWithUniformWidth(input: seq<ReadResult>)
    requires HeaderIndex(input).Some?
    requires forall i :: 0 <= i < |input| && input[i].Row? ==>
      |input[i].fields| == |input[HeaderIndex(input).value].fields|
    ensures CrashFree(Outcomes(input))
  {
    var os := Outcomes(input);
    forall i | 0 <= i < |os| ensures os[i] != Crashed {
      OutcomesAt(input, i);
      if input[i].Row? {
        SameWidthRows(input[HeaderIndex(input).value].fields, input[i].fields);
      }
    }
  }

  /** A file holding only its header row yields no record and an error table with the title alone. */
  lemma HeaderOnlyFile(headerRow: seq<string>)
    ensures AcceptedRecords(Outcomes([Row(headerRow)])) == []
    ensures ErrorTable(Outcomes([Row(headerRow)])) == [TitleRow]
  {
    var input := [Row(headerRow)];
    OutcomesAt(input, 0);
    assert Outcomes(input) == [HeaderRead];
  }

  /**
   * A header row naming the schema's columns in order, one valid row and
   * one row whose id has seven digits: one record, and one error row on
   * line 3.
   */
  lemma TwoRowFileExample(headerRow: seq<string>)
    requires |headerRow| == 5 && headerRow[0] == ID && headerRow[1] == FName
    requires headerRow[2] == MName && headerRow[3] == LName && headerRow[4] == Phone
    ensures var input := [Row(headerRow),
                          Row(["12345678", "Jane", "Q", "Doe", "555-123-4567"]),
                          Row(["1234567", "Jane", "Q", "Doe", "555-123-4567"])];
      && CrashFree(Outcomes(input))
      && AcceptedRecords(Outcomes(input)) == [Record(12345678, Name("Jane", "Q", "Doe"), "555-123-4567")]
      && ErrorTable(Outcomes(input)) == [TitleRow, ErrorRow(3, Invalid(IdNotEightDigits("1234567")))]
  {
    var input := [Row(headerRow),
                  Row(["12345678", "Jane", "Q", "Doe", "555-123-4567"]),
                  Row(["1234567", "Jane", "Q", "Doe", "555-123-4567"])];
    SchemaOrderLayout(headerRow);
    AcceptExample(HeaderOf(headerRow));
    IdRejectionExamples(HeaderOf(headerRow));
    ThreeReads(input, Record(12345678, Name("Jane", "Q", "Doe"), "555-123-4567"), IdNotEightDigits("1234567"));
  }

  /** The outcomes of a header row followed by one accepted and one rejected row. */
  lemma ThreeReads(input: seq<ReadResult>, rec: Record, e: RowError)
    requires |input| == 3 && input[0].Row? && input[1].Row? && input[2].Row?
    requires Validate(HeaderOf(input[0].fields), input[1].fields) == Accept(rec)
    requires Validate(HeaderOf(input[0].fields), input[2].fields) == Reject(e)
    ensures CrashFree(Outcomes(input))
    ensures AcceptedRecords(Outcomes(input)) == [rec]
    ensures ErrorTable(Outcomes(input)) == [TitleRow, ErrorRow(3, Invalid(e))]
  {
    assert HeaderIndex(input) == Some(0);
    OutcomesAt(input, 0);
    OutcomesAt(input, 1);
    OutcomesAt(input, 2);
    assert Outcomes(input) == [HeaderRead, Accepted(rec), Rejected(Invalid(e))];
    ThreeOutcomes(rec, Invalid(e));
  }

  lemma ThreeOutcomes(rec: Record, m: ErrorMessage)
    ensures CrashFree([HeaderRead, Accepted(rec), Rejected(m)])
    ensures AcceptedRecords([HeaderRead, Accepted(rec), Rejected(m)]) == [rec]
    ensures ErrorTable([HeaderRead, Accepted(rec), Rejected(m)]) == [TitleRow, ErrorRow(3, m)]
  {
    var s1 := [HeaderRead];
    assert s1[..0] == [];
    var s2 := s1 + [Accepted(rec)];
    SnocStep(s1, Accepted(rec));
    var s3 := s2 + [Rejected(m)];
    SnocStep(s2, Rejected(m));
    assert s3 == [HeaderRead, Accepted(rec), Rejected(m)];
  }
}
