/**
 * processFile (main.go:137-299) as a whole: the extension test, the read
 * loop, then the JSON output, the error report and the removal of the input
 * file. Each file-system call is reduced to whether it succeeds, and the
 * files the call leaves behind are listed as effects.
 */
module FileProcessing {
  import opened Schema
  import opened HeaderMap
  import opened Paths
  import opened FileConverter

  /** Whether each file-system call of processFile succeeds. */
  datatype Env = Env(openOk: bool, writeJsonOk: bool, writeReportOk: bool, removeOk: bool)

  /**
   * The JSON document: `records` starts as a nil slice, which marshals to
   * null, and becomes an array with the first accepted record.
   */
  datatype JsonDoc = Null | Array(items: seq<Record>)

  /** What processFile leaves behind, in order. */
  datatype Effect =
    | WroteJson(name: string, doc: JsonDoc)
    | WroteErrorReport(name: string, rows: seq<ErrRow>)
    | RemovedInput(path: string)

  /** The file-system calls whose error processFile returns. */
  datatype IoCall = OpenInput | WriteJson | RemoveInput

  /**
   * How processFile ends: it returns nil, returns the error of a call,
   * panics on an out-of-range column at a line, or ends the process
   * through a fatal log when the error report cannot be written.
   */
  datatype Exit = Finished | IoFailed(call: IoCall) | PanicAt(line: nat) | Terminated

  datatype Run = Run(effects: seq<Effect>, exit: Exit)

  /** The position of the first crash among the outcomes. */
  function FirstCrash(os: seq<Outcome>): (k: nat)
    requires Crashed in os
    ensures k < |os| && os[k] == Crashed && Crashed !in os[..k]
  {
    if os[0] == Crashed then 0
    else
      var k := FirstCrash(os[1..]);
      assert os[..k + 1] == [os[0]] + os[1..][..k];
      k + 1
  }

  /** The first crash is the only crash with no crash before it. */
  lemma FirstCrashUnique(os: seq<Outcome>, k: nat)
    requires k < |os| && os[k] == Crashed && Crashed !in os[..k]
    ensures FirstCrash(os) == k
  {
  }

  /** The JSON document for the accepted records. */
  function JsonOf(records: seq<Record>): JsonDoc {
    if |records| == 0 then Null else Array(records)
  }

  /**
   * What processFile does, stated over the outcomes of the reads rather
   * than over the loop.
   */
  function Convert(path: string, env: Env, input: seq<ReadResult>): Run {
    if !IsCsvExtension(path) then Run([], Finished)
    else if !env.openOk then Run([], IoFailed(OpenInput))
    else
      var os := Outcomes(input);
      if !CrashFree(os) then Run([], PanicAt(FirstCrash(os) + 1))
      else WriteOutputs(path, env, AcceptedRecords(os), ErrorTable(os))
  }

  /**
   * The steps after the loop (main.go:262-298): the JSON file, the error
   * report when the table holds more than its title, then the removal.
   */
  function WriteOutputs(path: string, env: Env, records: seq<Record>, errs: seq<ErrRow>): Run {
    if !env.writeJsonOk then Run([], IoFailed(WriteJson))
    else
      var json := [WroteJson(OutputName(path), JsonOf(records))];
      if |errs| > 1 && !env.writeReportOk then Run(json, Terminated)
      else
        var written := if |errs| > 1 then json + [WroteErrorReport(Base(path), errs)] else json;
        if !env.removeOk then Run(written, IoFailed(RemoveInput))
        else Run(written + [RemovedInput(path)], Finished)
  }

  /**
   * processFile: the extension test, the read loop, then the outputs.
   */
  method ProcessFile(path: string, env: Env, input: seq<ReadResult>) returns (effects: seq<Effect>, exit: Exit)
    ensures Run(effects, exit) == Convert(path, env, input)
  {
    effects := [];
    exit := Finished;
    var ext := Ext(path);
    if ToLower(ext) == ".csv" {
      if !env.openOk {
        exit := IoFailed(OpenInput);
        return;
      }
      var records, errs, status := ProcessRows(input);
      if status.Panicked? {
        OutcomesPrefix(input, |input|, status.line - 1);
        OutcomesAt(input, status.line - 1);
        FirstCrashUnique(Outcomes(input), status.line - 1);
        exit := PanicAt(status.line);
        return;
      }
      ConvertAfterLoop(path, env, input);
      effects, exit := WriteOutputFiles(path, env, records, errs);
    }
  }

  /**
   * The steps after the loop (main.go:262-298): the JSON file, the error
   * report when `errs` holds more than its title row, then the removal of
   * the input; each failing call ends the run.
   */
  method WriteOutputFiles(path: string, env: Env, records: seq<Record>, errs: seq<ErrRow>)
    returns (effects: seq<Effect>, exit: Exit)
    ensures Run(effects, exit) == WriteOutputs(path, env, records, errs)
  {
    if !env.writeJsonOk {
      return [], IoFailed(WriteJson);
    }
    effects := [WroteJson(OutputName(path), JsonOf(records))];
    if |errs| > 1 {
      if !env.writeReportOk {
        return effects, Terminated;
      }
      effects := effects + [WroteErrorReport(Base(path), errs)];
    }
    if !env.removeOk {
      return effects, IoFailed(RemoveInput);
    }
    effects := effects + [RemovedInput(path)];
    exit := Finished;
  }

  /** A path without a csv extension, in any case, is left alone. */
  lemma {:induction false} OnlyCsvFilesTouched(path: string, env: Env, input: seq<ReadResult>)
    ensures Convert(path, env, input) != Run([], Finished) ==>
      |path| >= 4 && path[|path| - 4] == '.' && LowerChar(path[|path| - 3]) == 'c'
      && LowerChar(path[|path| - 2]) == 's' && LowerChar(path[|path| - 1]) == 'v'
  {
    CsvExtensionIff(path);
  }

  /** Once the loop has run through without a panic, the outputs are written. */
  lemma {:induction false} ConvertAfterLoop(path: string, env: Env, input: seq<ReadResult>)
    requires IsCsvExtension(path) && env.openOk && CrashFree(Outcomes(input))
    ensures Convert(path, env, input)
      == WriteOutputs(path, env, AcceptedRecords(Outcomes(input)), ErrorTable(Outcomes(input)))
  {
  }

  /** With the JSON write succeeding, the JSON file is the first output. */
  lemma {:induction false} JsonFirst(path: string, env: Env, records: seq<Record>, errs: seq<ErrRow>)
    requires env.writeJsonOk
    ensures var r := WriteOutputs(path, env, records, errs);
      |r.effects| >= 1 && r.effects[0] == WroteJson(OutputName(path), JsonOf(records))
  {
  }

  /**
   * Once the loop has run through, the JSON file is written first, under
   * the base name with ".json" for its extension; it is null exactly when
   * no line was accepted, and otherwise lists the accepted records, each
   * well formed and each from an accepted line.
   */
  lemma {:induction false} JsonWrittenFirst(path: string, env: Env, input: seq<ReadResult>)
    requires IsCsvExtension(path) && env.openOk && env.writeJsonOk
    requires CrashFree(Outcomes(input))
    ensures var r := Convert(path, env, input);
      && |r.effects| >= 1 && r.effects[0].WroteJson?
      && r.effects[0].name == OutputName(path)
      && (r.effects[0].doc.Null? <==> forall i :: 0 <= i < |input| ==> !Outcomes(input)[i].Accepted?)
      && (r.effects[0].doc.Array? ==> forall rec :: rec in r.effects[0].doc.items ==>
            WellFormed(rec) && Accepted(rec) in Outcomes(input))
  {
    var os := Outcomes(input);
    ConvertAfterLoop(path, env, input);
    JsonFirst(path, env, AcceptedRecords(os), ErrorTable(os));
    NoneAccepted(os);
    AcceptedRecordsExact(os);
    AcceptedAreWellFormed(input);
  }

  /** With both writes succeeding, the report is written exactly when the table holds an error. */
  lemma {:induction false} ReportIffErrorRows(path: string, env: Env, records: seq<Record>, errs: seq<ErrRow>)
    requires env.writeJsonOk && env.writeReportOk
    ensures WroteErrorReport(Base(path), errs) in WriteOutputs(path, env, records, errs).effects <==> |errs| > 1
    ensures forall e :: e in WriteOutputs(path, env, records, errs).effects && e.WroteErrorReport? ==>
      e.rows == errs && |errs| > 1
  {
    var json := WroteJson(OutputName(path), JsonOf(records));
    var report := WroteErrorReport(Base(path), errs);
    var effects := WriteOutputs(path, env, records, errs).effects;
    if |errs| > 1 {
      assert effects[1] == report;
    } else {
      assert effects == [json] || effects == [json, RemovedInput(path)];
    }
  }

  /**
   * Once the JSON file is written, the error report follows exactly when
   * some line was rejected, and it lists those lines.
   */
  lemma {:induction false} ReportIffRejected(path: string, env: Env, input: seq<ReadResult>)
    requires IsCsvExtension(path) && env.openOk && env.writeJsonOk && env.writeReportOk
    requires CrashFree(Outcomes(input))
    ensures var r := Convert(path, env, input);
      (WroteErrorReport(Base(path), ErrorTable(Outcomes(input))) in r.effects)
      <==> (exists i :: 0 <= i < |input| && Outcomes(input)[i].Rejected?)
    ensures forall e :: e in Convert(path, env, input).effects && e.WroteErrorReport? ==>
      e.rows == ErrorTable(Outcomes(input)) && |e.rows| > 1
  {
    var os := Outcomes(input);
    ConvertAfterLoop(path, env, input);
    ReportIffErrorRows(path, env, AcceptedRecords(os), ErrorTable(os));
    ErrorTableHasErrors(os);
  }

  /** The removal is the last of the outputs and follows every write. */
  lemma {:induction false} RemovalAfterWrites(path: string, env: Env, records: seq<Record>, errs: seq<ErrRow>)
    requires RemovedInput(path) in WriteOutputs(path, env, records, errs).effects
    ensures var r := WriteOutputs(path, env, records, errs);
      && r.exit == Finished
      && r.effects[|r.effects| - 1] == RemovedInput(path)
      && r.effects[0].WroteJson?
      && |r.effects| == if |errs| > 1 then 3 else 2
  {
    assert env.writeJsonOk && env.removeOk;
  }

  /**
   * The input is removed last, and only after the JSON file and, when some
   * line was rejected, the error report are written.
   */
  lemma {:induction false} RemovalComesLast(path: string, env: Env, input: seq<ReadResult>)
    requires RemovedInput(path) in Convert(path, env, input).effects
    ensures var r := Convert(path, env, input);
      && r.exit == Finished
      && r.effects[|r.effects| - 1] == RemovedInput(path)
      && r.effects[0].WroteJson?
      && |r.effects| == if exists i :: 0 <= i < |input| && Outcomes(input)[i].Rejected? then 3 else 2
  {
    var os := Outcomes(input);
    assert IsCsvExtension(path) && env.openOk && CrashFree(os);
    ConvertAfterLoop(path, env, input);
    RemovalAfterWrites(path, env, AcceptedRecords(os), ErrorTable(os));
    ErrorTableHasErrors(os);
  }

  /**
   * processFile panics only when the header row repeats a name: with
   * distinct names every column the validator looks up is in range.
   */
  lemma {:induction false} PanicNeedsDuplicateHeader(path: string, env: Env, input: seq<ReadResult>)
    requires Convert(path, env, input).exit.PanicAt?
    ensures HeaderIndex(input).Some? && !Distinct(input[HeaderIndex(input).value].fields)
    ensures var line := Convert(path, env, input).exit.line;
      1 <= line <= |input| && input[line - 1].Row?
  {
    var k := FirstCrash(Outcomes(input));
    OutcomesAt(input, k);
    CrashNeedsDuplicateHeader(input, k);

  }
}
