/** The importer's protocol against the search gateway: the backup step of
    `backup_lookup_if_exists`, then the generation and verification queries of
    `generate_lookup`. `Session` states which queries one run issues, in
    which order, and what it reports, as a function of the service's answers;
    the methods run the same steps on a `SearchGateway` and are proved to
    leave exactly that sequence of queries in its log. */
module Importer {
  import opened Wrappers
  import opened CsvTable
  import opened Backup
  import opened Spl
  import opened Gateway

  /** The queries the importer issues. */
  datatype Step =
    | Check(lookup: string)                  // does the lookup hold a row?
    | Copy(lookup: string, backup: string)   // write the lookup to its backup
    | Generate(spl: string)                  // build and write the new lookup
    | CountRows(lookup: string)              // count the rows of the new lookup

  function QueryText(step: Step): string
  {
    match step
    case Check(lookup) => CheckQuery(lookup)
    case Copy(lookup, backup) => CopyQuery(lookup, backup)
    case Generate(spl) => spl
    case CountRows(lookup) => CountQuery(lookup)
  }

  function QueryTexts(steps: seq<Step>): (texts: seq<string>)
    ensures |texts| == |steps|
    ensures forall k :: 0 <= k < |steps| ==> texts[k] == QueryText(steps[k])
  {
    seq(|steps|, k requires 0 <= k < |steps| => QueryText(steps[k]))
  }

  lemma QueryTextsAppend(a: seq<Step>, b: seq<Step>)
    ensures QueryTexts(a + b) == QueryTexts(a) + QueryTexts(b)
  {
  }

  /** How a run ends: with the row count printed (`None` when the count query
      returned no row, and nothing is printed), by `exit(1)` after an
      authentication failure, by an exception of the SDK, or by an exception
      while reading the CSV file. */
  datatype Outcome = Reported(count: Option<string>) | AuthExit | QueryAborted | CsvUnreadable

  /** The CSV file as the reader delivers it, or a file that cannot be read. */
  datatype Source = Parsed(header: seq<string>, rows: seq<Row>) | Unreadable

  predicate WellFormed(source: Source)
  {
    source.Parsed? ==> RowsCover(source.header, source.rows)
  }

  datatype Session = Session(steps: seq<Step>, outcome: Outcome)

  /** The outcome of a query that did not return rows. */
  function Failure(result: SearchResult): Outcome
    requires !result.Rows?
  {
    if result.AuthFailed? then AuthExit else QueryAborted
  }

  /** `result[0].get('count', 0)`, as it is printed. */
  function CountOf(row: ResultRow): string
  {
    if "count" in row then row["count"] else "0"
  }

  /** The gateway's result for `step` issued as query number `at`. */
  function Reply(answer: Oracle, at: nat, step: Step): SearchResult
  {
    Decode(answer(at, QueryText(step)))
  }

  /** `backup_lookup_if_exists`, from query number `start`: the queries it
      issues and, when one of them stopped the program, how. */
  function BackupPhase(answer: Oracle, start: nat, lookup: string, timestamp: string)
    : (phase: (seq<Step>, Option<Outcome>))
  {
    var check := Check(lookup);
    var found := Reply(answer, start, check);
    if !found.Rows? then ([check], Some(Failure(found)))
    else if |found.rows| == 0 then ([check], None)
    else
      var copy := Copy(lookup, BackupName(lookup, timestamp));
      var copied := Reply(answer, start + 1, copy);
      ([check, copy], if copied.Rows? then None else Some(Failure(copied)))
  }

  /** The generation query `generate_lookup` synthesizes from the CSV file;
      `None` when the file cannot be read. */
  function PlannedQuery(lookup: string, source: Source): Option<string>
    requires WellFormed(source)
  {
    if source.Unreadable? then None
    else Some(GenerationQuery(TableOf(source.header, source.rows).Items(), lookup))
  }

  /** `generate_lookup(csv_file_path, lookup_name)`, from query number `start`,
      where `planned` is the generation query synthesized from the CSV file
      (`None` when reading it fails; it is read after the backup step). */
  function ImportSession(answer: Oracle, start: nat, lookup: string, timestamp: string, planned: Option<string>)
    : (s: Session)
  {
    var (backup, stop) := BackupPhase(answer, start, lookup, timestamp);
    if stop.Some? then Session(backup, stop.value)
    else if planned.None? then Session(backup, CsvUnreadable)
    else
      var rest := GenerationPhase(answer, start + |backup|, lookup, planned.value);
      Session(backup + rest.steps, rest.outcome)
  }

  /** The generation query `spl` issued as query number `at`, then, if it
      returned, the count query and the report of its first row. */
  function GenerationPhase(answer: Oracle, at: nat, lookup: string, spl: string): (s: Session)
  {
    var generate := Generate(spl);
    var generated := Reply(answer, at, generate);
    if !generated.Rows? then Session([generate], Failure(generated))
    else
      var count := CountRows(lookup);
      var counted := Reply(answer, at + 1, count);
      if !counted.Rows? then Session([generate, count], Failure(counted))
      else
        Session([generate, count],
                Reported(if |counted.rows| > 0 then Some(CountOf(counted.rows[0])) else None))
  }

  /** The first query of every run is `| inputlookup X | head 1`. */
  lemma CheckComesFirst(answer: Oracle, start: nat, lookup: string, timestamp: string, planned: Option<string>)
    ensures var s := ImportSession(answer, start, lookup, timestamp, planned);
      |s.steps| >= 1 && s.steps[0] == Check(lookup)
      && QueryText(s.steps[0]) == "| inputlookup " + lookup + " | head 1"
  {
  }

  /** The backup copy is written if and only if the check returned at least
      one row; it is then the second query, written under the backup name. */
  lemma CopyIffCheckFoundRows(answer: Oracle, start: nat, lookup: string, timestamp: string, planned: Option<string>)
    ensures var s := ImportSession(answer, start, lookup, timestamp, planned);
      var found := Reply(answer, start, Check(lookup));
      (exists k :: 0 <= k < |s.steps| && s.steps[k].Copy?) <==> (found.Rows? && |found.rows| > 0)
    ensures var s := ImportSession(answer, start, lookup, timestamp, planned);
      forall k :: 0 <= k < |s.steps| && s.steps[k].Copy? ==>
        k == 1 && s.steps[k] == Copy(lookup, BackupName(lookup, timestamp))
  {
    var s := ImportSession(answer, start, lookup, timestamp, planned);
    var found := Reply(answer, start, Check(lookup));
    if found.Rows? && |found.rows| > 0 {
      assert s.steps[1].Copy?;
    }
  }

  /** A completed run issues exactly one generation query and then exactly one
      count query, after the backup step's queries and nothing else; the
      generation query is the one synthesized from the CSV's columns. */
  lemma GenerationBeforeCount(answer: Oracle, start: nat, lookup: string, timestamp: string, planned: Option<string>)
    ensures var s := ImportSession(answer, start, lookup, timestamp, planned);
      s.outcome.Reported? ==>
        && planned.Some?
        && 3 <= |s.steps| <= 4
        && s.steps[|s.steps| - 2] == Generate(planned.value)
        && s.steps[|s.steps| - 1] == CountRows(lookup)
        && forall k :: 0 <= k < |s.steps| - 2 ==> s.steps[k].Check? || s.steps[k].Copy?
  {
  }

  /** In every run, whatever its outcome, the generation query comes before
      the count query: a count query is the last query of the run and comes
      straight after the one generation query, which is the synthesized one;
      a generation query is issued only for a read CSV file, at most once, and
      only the count query can follow it. */
  lemma GenerationPrecedesCount(answer: Oracle, start: nat, lookup: string, timestamp: string, planned: Option<string>)
    ensures var s := ImportSession(answer, start, lookup, timestamp, planned);
      forall k :: 0 <= k < |s.steps| && s.steps[k].CountRows? ==>
        && planned.Some?
        && 1 <= k == |s.steps| - 1
        && s.steps[k - 1] == Generate(planned.value)
        && s.steps[k] == CountRows(lookup)
    ensures var s := ImportSession(answer, start, lookup, timestamp, planned);
      forall k :: 0 <= k < |s.steps| && s.steps[k].Generate? ==>
        && planned.Some?
        && s.steps[k] == Generate(planned.value)
        && |s.steps| - 2 <= k
        && forall j :: 0 <= j < k ==> s.steps[j].Check? || s.steps[j].Copy?
  {
    SessionAfterBackup(answer, start, lookup, timestamp, planned);
  }

  /** The reported count is the `count` field of the first row of the count
      query's result (`"0"` when that row has none), and there is a count
      only when that result is not empty. */
  lemma ReportedCountIsFirstRow(answer: Oracle, start: nat, lookup: string, timestamp: string, planned: Option<string>)
    ensures var s := ImportSession(answer, start, lookup, timestamp, planned);
      s.outcome.Reported? ==>
        var counted := Reply(answer, start + |s.steps| - 1, CountRows(lookup));
        && counted.Rows?
        && (s.outcome.count.Some? <==> |counted.rows| > 0)
        && (|counted.rows| > 0 ==> s.outcome.count == Some(CountOf(counted.rows[0])))
  {
  }

  /** Every query but the last returned rows: a failing query is the last one
      issued. */
  lemma FailingQueryIsLast(answer: Oracle, start: nat, lookup: string, timestamp: string, planned: Option<string>)
    ensures var s := ImportSession(answer, start, lookup, timestamp, planned);
      forall k :: 0 <= k < |s.steps| - 1 ==> Reply(answer, start + k, s.steps[k]).Rows?
  {
    var phase := BackupPhase(answer, start, lookup, timestamp);
    if phase.1.None? && planned.Some? {
      GeneratingRunRows(answer, start, lookup, timestamp, planned.value);
    } else {
      SessionAfterBackup(answer, start, lookup, timestamp, planned);
      BackupPhaseReplies(answer, start, lookup, timestamp);
    }
  }

  /** `FailingQueryIsLast` for a run that reaches the generation query. */
  lemma GeneratingRunRows(answer: Oracle, start: nat, lookup: string, timestamp: string, spl: string)
    requires BackupPhase(answer, start, lookup, timestamp).1.None?
    ensures var s := ImportSession(answer, start, lookup, timestamp, Some(spl));
      forall k :: 0 <= k < |s.steps| - 1 ==> Reply(answer, start + k, s.steps[k]).Rows?
  {
    var phase := BackupPhase(answer, start, lookup, timestamp);
    var at := start + |phase.0|;
    var rest := GenerationPhase(answer, at, lookup, spl);
    SessionGenerates(answer, start, lookup, timestamp, spl, at);
    BackupPhaseReplies(answer, start, lookup, timestamp);
    GenerationPhaseReplies(answer, at, lookup, spl);
    RepliesOfConcat(answer, start, phase.0, rest.steps);
  }

  /** The run ends by `exit(1)` exactly when its last query failed to
      authenticate, and with an SDK exception exactly when it failed
      otherwise. */
  lemma FailureStopsTheRun(answer: Oracle, start: nat, lookup: string, timestamp: string, planned: Option<string>)
    ensures var s := ImportSession(answer, start, lookup, timestamp, planned);
      var last := Reply(answer, start + |s.steps| - 1, s.steps[|s.steps| - 1]);
      && (s.outcome == AuthExit <==> last.AuthFailed?)
      && (s.outcome == QueryAborted <==> last.QueryFailed?)
  {
    var phase := BackupPhase(answer, start, lookup, timestamp);
    if phase.1.None? && planned.Some? {
      GeneratingRunEnds(answer, start, lookup, timestamp, planned.value);
    } else {
      SessionAfterBackup(answer, start, lookup, timestamp, planned);
      BackupPhaseReplies(answer, start, lookup, timestamp);
    }
  }

  /** `FailureStopsTheRun` for a run that reaches the generation query. */
  lemma GeneratingRunEnds(answer: Oracle, start: nat, lookup: string, timestamp: string, spl: string)
    requires BackupPhase(answer, start, lookup, timestamp).1.None?
    ensures var s := ImportSession(answer, start, lookup, timestamp, Some(spl));
      var last := Reply(answer, start + |s.steps| - 1, s.steps[|s.steps| - 1]);
      && (s.outcome == AuthExit <==> last.AuthFailed?)
      && (s.outcome == QueryAborted <==> last.QueryFailed?)
  {
    var phase := BackupPhase(answer, start, lookup, timestamp);
    var at := start + |phase.0|;
    var rest := GenerationPhase(answer, at, lookup, spl);
    SessionGenerates(answer, start, lookup, timestamp, spl, at);
    GenerationPhaseReplies(answer, at, lookup, spl);
    var steps := phase.0 + rest.steps;
    assert steps[|steps| - 1] == rest.steps[|rest.steps| - 1];
    assert start + |steps| - 1 == at + |rest.steps| - 1;
  }

  /** Within the backup phase, every query but the last returned rows, and the
      phase stops the program exactly when its last query failed. */
  lemma BackupPhaseReplies(answer: Oracle, start: nat, lookup: string, timestamp: string)
    ensures var phase := BackupPhase(answer, start, lookup, timestamp);
      var last := Reply(answer, start + |phase.0| - 1, phase.0[|phase.0| - 1]);
      && 1 <= |phase.0| <= 2
      && (forall k :: 0 <= k < |phase.0| - 1 ==> Reply(answer, start + k, phase.0[k]).Rows?)
      && (phase.1.None? <==> last.Rows?)
      && (phase.1.None? ==> forall k :: 0 <= k < |phase.0| ==> Reply(answer, start + k, phase.0[k]).Rows?)
      && (phase.1.Some? ==> phase.1.value == Failure(last))
  {
  }

  /** A stretch of queries that all returned rows, followed by one whose
      queries all returned rows but perhaps the last. */
  lemma RepliesOfConcat(answer: Oracle, start: nat, a: seq<Step>, b: seq<Step>)
    requires forall k :: 0 <= k < |a| ==> Reply(answer, start + k, a[k]).Rows?
    requires forall k :: 0 <= k < |b| - 1 ==> Reply(answer, start + |a| + k, b[k]).Rows?
    ensures forall k :: 0 <= k < |a + b| - 1 ==> Reply(answer, start + k, (a + b)[k]).Rows?
  {
    forall k | 0 <= k < |a + b| - 1
      ensures Reply(answer, start + k, (a + b)[k]).Rows?
    {
      if k >= |a| {
        var j := k - |a|;
        assert (a + b)[k] == b[j] && start + k == start + |a| + j;
        assert Reply(answer, start + |a| + j, b[j]).Rows?;
      } else {
        assert (a + b)[k] == a[k];
      }
    }
  }

  /** Within the generation phase likewise, and a failing query ends it. */
  lemma GenerationPhaseReplies(answer: Oracle, at: nat, lookup: string, spl: string)
    ensures var rest := GenerationPhase(answer, at, lookup, spl);
      var last := Reply(answer, at + |rest.steps| - 1, rest.steps[|rest.steps| - 1]);
      && 1 <= |rest.steps| <= 2
      && (forall k :: 0 <= k < |rest.steps| - 1 ==> Reply(answer, at + k, rest.steps[k]).Rows?)
      && (rest.outcome.Reported? <==> last.Rows?)
      && (!last.Rows? ==> rest.outcome == Failure(last))
  {
  }

  /** A lookup that held data is never overwritten before its backup: when the
      check found rows and a generation query is issued, the copy query was
      issued before it. */
  lemma NoOverwriteWithoutBackup(answer: Oracle, start: nat, lookup: string, timestamp: string, planned: Option<string>)
    ensures var s := ImportSession(answer, start, lookup, timestamp, planned);
      var found := Reply(answer, start, Check(lookup));
      found.Rows? && |found.rows| > 0 ==>
        forall g :: 0 <= g < |s.steps| && s.steps[g].Generate? ==>
          exists c :: 0 <= c < g && s.steps[c] == Copy(lookup, BackupName(lookup, timestamp))
  {
    var s := ImportSession(answer, start, lookup, timestamp, planned);
    var found := Reply(answer, start, Check(lookup));
    if found.Rows? && |found.rows| > 0 {
      forall g | 0 <= g < |s.steps| && s.steps[g].Generate?
        ensures exists c :: 0 <= c < g && s.steps[c] == Copy(lookup, BackupName(lookup, timestamp))
      {
        assert s.steps[1] == Copy(lookup, BackupName(lookup, timestamp));
      }
    }
  }

  /** Two complete runs: on a lookup that holds rows, with every query
      answered, the run is exactly check, copy, generation, count; when the
      first query fails to authenticate, nothing else is issued. */
  lemma RunScenarios(answer: Oracle, start: nat, lookup: string, timestamp: string, spl: string)
    ensures var s := ImportSession(answer, start, lookup, timestamp, Some(spl));
      var found := Reply(answer, start, Check(lookup));
      var copy := Copy(lookup, BackupName(lookup, timestamp));
      && (found.Rows? && |found.rows| > 0
          && Reply(answer, start + 1, copy).Rows?
          && Reply(answer, start + 2, Generate(spl)).Rows?
          && Reply(answer, start + 3, CountRows(lookup)).Rows?
          ==> s.steps == [Check(lookup), copy, Generate(spl), CountRows(lookup)] && s.outcome.Reported?)
      && (found.AuthFailed? ==> s == Session([Check(lookup)], AuthExit))
  {
    SessionAfterBackup(answer, start, lookup, timestamp, Some(spl));
  }

  /** `backup_lookup_if_exists(lookup_name)` on the gateway, with the clock
      reading `timestamp` (`%Y%m%d%H%M%S`). `stop` is how the program ended
      inside it, if it did. */
  method BackupLookupIfExists(g: SearchGateway, lookup: string, timestamp: string)
    returns (stop: Option<Outcome>)
    modifies g
    ensures var phase := BackupPhase(g.answer, |old(g.log)|, lookup, timestamp);
      g.log == old(g.log) + QueryTexts(phase.0) && stop == phase.1
  {
    var results := g.OneshotSearch(CheckQuery(lookup));
    if !results.Rows? {
      stop := Some(Failure(results));
      return;
    }
    if |results.rows| > 0 {
      var backupName := BackupName(lookup, timestamp);
      var copied := g.OneshotSearch(CopyQuery(lookup, backupName));
      stop := if copied.Rows? then None else Some(Failure(copied));
    } else {
      stop := None;
    }
  }

  /** `generate_lookup(csv_file_path, lookup_name)` on the gateway, with the
      CSV file already read (or not readable) and the clock reading
      `timestamp`. */
  method GenerateLookup(g: SearchGateway, lookup: string, timestamp: string, source: Source)
    returns (outcome: Outcome)
    requires WellFormed(source)
    modifies g
    ensures var s := ImportSession(g.answer, |old(g.log)|, lookup, timestamp, PlannedQuery(lookup, source));
      g.log == old(g.log) + QueryTexts(s.steps) && outcome == s.outcome
  {
    ghost var log0 := g.log;
    ghost var planned := PlannedQuery(lookup, source);
    ghost var phase := BackupPhase(g.answer, |log0|, lookup, timestamp);
    var stop := BackupLookupIfExists(g, lookup, timestamp);
    assert g.log == log0 + QueryTexts(phase.0) && stop == phase.1;
    if stop.Some? {
      SessionAfterBackup(g.answer, |log0|, lookup, timestamp, planned);
      return stop.value;
    }
    if source.Unreadable? {
      SessionAfterBackup(g.answer, |log0|, lookup, timestamp, planned);
      return CsvUnreadable;
    }
    var spl := SynthesizeQuery(source, lookup);
    ghost var mid := g.log;
    assert |mid| == |log0| + |phase.0|;
    outcome := SubmitAndVerify(g, lookup, spl);
    ghost var rest := GenerationPhase(g.answer, |mid|, lookup, spl);
    LogAppend(log0, phase.0, mid, rest.steps, g.log);
    SessionGenerates(g.answer, |log0|, lookup, timestamp, spl, |mid|);
  }

  /** The session of a run whose backup phase went through, whose CSV file was
      read, and whose generation query is query number `at`. */
  lemma SessionGenerates(answer: Oracle, start: nat, lookup: string, timestamp: string, spl: string, at: nat)
    requires BackupPhase(answer, start, lookup, timestamp).1.None?
    requires at == start + |BackupPhase(answer, start, lookup, timestamp).0|
    ensures var rest := GenerationPhase(answer, at, lookup, spl);
      ImportSession(answer, start, lookup, timestamp, Some(spl))
      == Session(BackupPhase(answer, start, lookup, timestamp).0 + rest.steps, rest.outcome)
  {
  }

  /** A session is its backup phase followed, when that did not stop the
      program and the CSV file was read, by the generation phase. */
  lemma SessionAfterBackup(answer: Oracle, start: nat, lookup: string, timestamp: string, planned: Option<string>)
    ensures var phase := BackupPhase(answer, start, lookup, timestamp);
      var s := ImportSession(answer, start, lookup, timestamp, planned);
      && (phase.1.Some? ==> s == Session(phase.0, phase.1.value))
      && (phase.1.None? && planned.None? ==> s == Session(phase.0, CsvUnreadable))
      && (phase.1.None? && planned.Some? ==>
            var rest := GenerationPhase(answer, start + |phase.0|, lookup, planned.value);
            s == Session(phase.0 + rest.steps, rest.outcome))
  {
  }

  /** Two stretches of queries logged one after the other. */
  lemma LogAppend(log0: seq<string>, a: seq<Step>, mid: seq<string>, b: seq<Step>, final: seq<string>)
    requires mid == log0 + QueryTexts(a) && final == mid + QueryTexts(b)
    ensures final == log0 + QueryTexts(a + b)
  {
    QueryTextsAppend(a, b);
    Reassociate(log0, QueryTexts(a), QueryTexts(b));
  }

  lemma Reassociate(x: seq<string>, y: seq<string>, z: seq<string>)
    ensures (x + y) + z == x + (y + z)
  {
  }

  /** The middle of `generate_lookup`: read the CSV file into its columns and
      build the generation query from them. */
  method SynthesizeQuery(source: Source, lookup: string) returns (spl: string)
    requires WellFormed(source) && source.Parsed?
    ensures PlannedQuery(lookup, source) == Some(spl)
  {
    var datas := CsvToDict(source.header, source.rows);
    spl := BuildGenerationQuery(datas, lookup);
  }

  /** The end of `generate_lookup`: run the generation query, then the count
      query, and report the count from the first row of its result. */
  method SubmitAndVerify(g: SearchGateway, lookup: string, spl: string) returns (outcome: Outcome)
    modifies g
    ensures var s := GenerationPhase(g.answer, |old(g.log)|, lookup, spl);
      g.log == old(g.log) + QueryTexts(s.steps) && outcome == s.outcome
  {
    var generated := g.OneshotSearch(spl);
    if !generated.Rows? {
      return Failure(generated);
    }
    var verifyQuery := CountQuery(lookup);
    var result := g.OneshotSearch(verifyQuery);
    if !result.Rows? {
      return Failure(result);
    }
    if |result.rows| > 0 {
      outcome := Reported(Some(CountOf(result.rows[0])));
    } else {
      outcome := Reported(None);
    }
  }
}
