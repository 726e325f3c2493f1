/**
 * The script's mutable state and its main loop (sleat-analyze.rb:84-216): an `Analyzer`
 * holds the counters and arrays the loop updates in place, `ProcessEvent` is one iteration
 * of `CSV.foreach`, and `Analyze` runs the loop and builds the two diagrams.
 */
module Analysis {
  import opened Outcomes
  import opened Strings
  import opened IPv4
  import opened Scope
  import opened Filters
  import opened Pipeline
  import opened Dedup
  import opened Diagram

  /** The counters and arrays of lines 84-97. */
  class Analyzer {
    var cdeCount: nat
    var corpCount: nat
    var outCount: nat
    var cdeScopeArr: seq<string>
    var corpScopeArr: seq<string>
    var inCdeArr: seq<string>
    var inCorpArr: seq<string>
    var notInScopeArr: seq<string>

    /** The fields as a value. */
    function State(): Tally
      reads this
    {
      Tally(cdeCount, corpCount, outCount, cdeScopeArr, corpScopeArr, inCdeArr, inCorpArr, notInScopeArr)
    }

    constructor ()
      ensures State() == Initial
    {
      cdeCount, corpCount, outCount := 0, 0, 0;
      cdeScopeArr, corpScopeArr := [], [];
      inCdeArr, inCorpArr, notInScopeArr := [], [], [];
    }

    /**
     * One iteration of the `CSV.foreach` block, lines 100-170. A fault (an exception in the
     * script) is returned; after a fault the fields are not specified, since the run ends.
     */
    method ProcessEvent(cfg: Config, row: LogonRow) returns (fault: Option<Fault>)
      modifies this
      ensures Step(cfg, old(State()), row).Ok? ==> fault.None? && State() == Step(cfg, old(State()), row).value
      ensures Step(cfg, old(State()), row).Err? ==> fault == Some(Step(cfg, old(State()), row).fault)
    {
      var ip := Chomp(row.ip);
      var username := Chomp(row.username);
      var proceed := false;
      if cfg.priv {
        var privileged := IsPrivileged(cfg.privUsers, username);
        if privileged.Err? {
          return Some(privileged.fault);
        }
        proceed := privileged.value;
      } else {
        proceed := true;
      }
      if cfg.filterMachine && IsMachineAccount(username) {
        proceed := false;
      }
      assert Proceed(cfg, username) == Ok(proceed);
      var addr := ParseAddress(ip);
      if addr.Some? && ip != Loopback && proceed {
        assert Accepted(ip, proceed) == addr;
        var corpScope := ScanNetworks(cfg.corpFile, addr.value);
        if corpScope.Err? {
          return Some(corpScope.fault);
        }
        var cdeScope := ScanNetworks(cfg.cdeFile, addr.value);
        if cdeScope.Err? {
          return Some(cdeScope.fault);
        }
        var formatter := SubnetPrefix(ip);
        ghost var category := Classify(cdeScope.value, corpScope.value, cfg.filterCde, cfg.filterCorp, cfg.filterNotInScope);
        assert Decide(cfg, row) == Ok(Scanned(category, formatter));
        Record(cfg, cdeScope.value, corpScope.value, formatter);
      } else {
        assert Accepted(ip, proceed).None?;
        assert Decide(cfg, row) == Ok(Skipped);
      }
      return None;
    }

    /**
     * Lines 130-169 after both scans succeed: push the lines of both scope files, then bump
     * the counter and extend the array of the category the if/elsif/elsif picks.
     */
    method Record(cfg: Config, cdeScope: bool, corpScope: bool, formatter: string)
      modifies this
      ensures State() == Apply(cfg, old(State()), Scanned(Classify(cdeScope, corpScope, cfg.filterCde, cfg.filterCorp, cfg.filterNotInScope), formatter))
    {
      corpScopeArr := corpScopeArr + Texts(cfg.corpFile);
      cdeScopeArr := cdeScopeArr + Texts(cfg.cdeFile);
      if cdeScope && !cfg.filterCde {
        cdeCount := cdeCount + 1;
        inCdeArr := inCdeArr + [formatter];
      } else if corpScope && !cfg.filterCorp {
        corpCount := corpCount + 1;
        inCorpArr := inCorpArr + [formatter];
      } else if !corpScope && !cdeScope && !cfg.filterNotInScope {
        outCount := outCount + 1;
        notInScopeArr := notInScopeArr + [formatter];
      }
    }
  }

  /** What a completed run leaves behind: the printed counts and the two diagrams. */
  datatype Report = Report(cdeCount: nat, corpCount: nat, outCount: nat, inScope: Graph, outOfScope: Graph)

  /** Lines 174-216: the summary counts, then the diagrams built from the de-duplicated arrays. */
  function Summarize(t: Tally): Report {
    Report(t.cdeCount, t.corpCount, t.outCount,
           InScopeGraph(t.inCde, t.cdeScopeLines, t.inCorp, t.corpScopeLines),
           OutOfScopeGraph(t.notInScope))
  }

  /** The whole script after option parsing: the row loop, then the report. */
  method Analyze(cfg: Config, rows: seq<LogonRow>) returns (r: Result<Report>)
    ensures r.Ok? <==> Run(cfg, rows).Ok?
    ensures r.Ok? ==> r.value == Summarize(Run(cfg, rows).value)
    ensures r.Err? ==> r.fault == Run(cfg, rows).fault
  {
    var analyzer := new Analyzer();
    var i := 0;
    while i < |rows|
      invariant 0 <= i <= |rows|
      invariant Run(cfg, rows[..i]) == Ok(analyzer.State())
    {
      ghost var before := analyzer.State();
      var fault := analyzer.ProcessEvent(cfg, rows[i]);
      RunNext(cfg, rows, i);
      if fault.Some? {
        assert Run(cfg, rows[..i + 1]) == Err(fault.value);
        RunStopsAtFault(cfg, rows, i + 1);
        return Err(fault.value);
      }
      assert Step(cfg, before, rows[i]) == Ok(analyzer.State());
      i := i + 1;
    }
    assert rows[..|rows|] == rows;
    r := Ok(Summarize(analyzer.State()));
  }

  /**
   * The report of a completed run: each count is the number of rows filed under its
   * category, and each diagram is a star with one node per distinct subnet prefix.
   */
  lemma ReportOfRun(cfg: Config, rows: seq<LogonRow>)
    requires Run(cfg, rows).Ok?
    ensures var ds, rep := Decisions(cfg, rows), Summarize(Run(cfg, rows).value);
      && rep.cdeCount == |Picked(ds, Cde)|
      && rep.corpCount == |Picked(ds, Corp)|
      && rep.outCount == |Picked(ds, Out)|
      && rep.cdeCount + rep.corpCount + rep.outCount <= |rows|
      && IsStar(rep.inScope) && |rep.inScope.nodes| == 1 + |Uniq(Picked(ds, Cde))| + |Uniq(Picked(ds, Corp))|
      && IsStar(rep.outOfScope) && |rep.outOfScope.nodes| == 1 + |Uniq(Picked(ds, Out))|
  {
    var ds := Decisions(cfg, rows);
    var t := Run(cfg, rows).value;
    FoldTally(cfg, ds);
    AtMostOneCountPerRow(ds);
    InScopeGraphIsStar(t.inCde, t.cdeScopeLines, t.inCorp, t.corpScopeLines);
    OutOfScopeGraphShape(t.notInScope);
  }

  /** However many times a file's lines were pushed, `uniq` gives the file's own `uniq`. */
  lemma {:induction false} UniqOfRepeat(lines: seq<string>, n: nat)
    requires n > 0
    ensures Uniq(Repeat(lines, n)) == Uniq(lines)
  {
    if n == 1 {
      assert Repeat(lines, 0) == [];
      assert Repeat(lines, 1) == [] + lines == lines;
    } else {
      UniqOfRepeat(lines, n - 1);
      forall x | x in lines ensures x in Repeat(lines, n - 1) {
        InRepeat(lines, n - 1, x);
      }
      UniqAbsorbsSeen(Repeat(lines, n - 1), lines);
    }
  }

  /**
   * The in-scope diagram of a run whose scope files were read from `corpLines` and
   * `cdeLines`: each label is drawn from the file's own distinct lines, however many rows
   * reached the scan and pushed the file again.
   */
  lemma InScopeDiagramOfFiles(cfg: Config, rows: seq<LogonRow>, privLines: seq<string>, corpLines: seq<string>, cdeLines: seq<string>)
    requires ReadFrom(cfg, privLines, corpLines, cdeLines)
    requires Run(cfg, rows).Ok?
    ensures var ds := Decisions(cfg, rows);
      Summarize(Run(cfg, rows).value).inScope
        == InScopeStar(Uniq(Picked(ds, Cde)), Uniq(cdeLines), Uniq(Picked(ds, Corp)), Uniq(corpLines))
  {
    var ds := Decisions(cfg, rows);
    var n := ScannedCount(ds);
    FoldTally(cfg, ds);
    TextsOfScopeFile(corpLines);
    TextsOfScopeFile(cdeLines);
    if n > 0 {
      UniqOfRepeat(cdeLines, n);
      UniqOfRepeat(corpLines, n);
    } else {
      AtMostOneCountPerRow(ds);
      assert Picked(ds, Cde) == [] && Picked(ds, Corp) == [];
    }
  }
}
