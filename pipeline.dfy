/**
 * The per-row pipeline of sleat-analyze.rb:99-171 as functions: what one logon row
 * decides (`Decide`), how that decision changes the running totals (`Apply`, `Step`),
 * and the fold over the whole CSV (`Run`).
 */
module Pipeline {
  import opened Outcomes
  import opened Strings
  import opened IPv4
  import opened Scope
  import opened Filters

  /**
   * The switches and files of one run: `-p` with its user list, `-m`, `-d`, `-c`, `-n`,
   * and the Corp and CDE scope files, each as read.
   */
  datatype Config = Config(
    priv: bool,
    privUsers: seq<Option<string>>,
    filterMachine: bool,
    filterCde: bool,
    filterCorp: bool,
    filterNotInScope: bool,
    corpFile: seq<ScopeLine>,
    cdeFile: seq<ScopeLine>)

  /** One CSV row of the logon file: `row[0]`, `row[1]`, `row[2]`. */
  datatype LogonRow = LogonRow(ip: string, domain: string, username: string)

  /**
   * What a row that raises nothing does: either it is skipped by the guard of line 126, or
   * both scope files are scanned and the row is counted under `category` (None: under none)
   * with subnet prefix `prefix`.
   */
  datatype Decision = Skipped | Scanned(category: Option<Category>, prefix: string)

  /**
   * The running state of lines 84-97: the three counters, the scope lines pushed by every
   * scan, and the subnet prefixes pushed under each category.
   */
  datatype Tally = Tally(
    cdeCount: nat,
    corpCount: nat,
    outCount: nat,
    cdeScopeLines: seq<string>,
    corpScopeLines: seq<string>,
    inCde: seq<string>,
    inCorp: seq<string>,
    notInScope: seq<string>)

  const Initial: Tally := Tally(0, 0, 0, [], [], [], [], [])

  /** `proceed` after lines 103-123: the `-p` check, then the `-m` machine-account filter. */
  function Proceed(cfg: Config, username: string): Result<bool> {
    var privileged := if cfg.priv then PrivilegedCheck(cfg.privUsers, username) else Ok(true);
    if privileged.Err? then privileged
    else Ok(privileged.value && !(cfg.filterMachine && IsMachineAccount(username)))
  }

  /** The guard of line 126: a dotted-quad address other than 127.0.0.1, for a row that proceeds. */
  function Accepted(ip: string, proceed: bool): Option<Addr> {
    if proceed && ip != Loopback then ParseAddress(ip) else None
  }

  /** What one row does, lines 100-169. */
  function Decide(cfg: Config, row: LogonRow): Result<Decision> {
    var ip, username := Chomp(row.ip), Chomp(row.username);
    var proceed := Proceed(cfg, username);
    if proceed.Err? then Err(proceed.fault)
    else
      match Accepted(ip, proceed.value)
      case None => Ok(Skipped)
      case Some(a) =>
        var corp := ScopeCheck(cfg.corpFile, a);
        if corp.Err? then Err(corp.fault)
        else
          var cde := ScopeCheck(cfg.cdeFile, a);
          if cde.Err? then Err(cde.fault)
          else
            var category := Classify(cde.value, corp.value, cfg.filterCde, cfg.filterCorp, cfg.filterNotInScope);
            Ok(Scanned(category, SubnetPrefix(ip)))
  }

  /** The raw lines of a scope file, as `corpScopeArr.push network` stores them. */
  function Texts(file: seq<ScopeLine>): seq<string>
  {
    seq(|file|, i requires 0 <= i < |file| => file[i].text)
  }

  /** The effect of a decision on the running state. */
  function Apply(cfg: Config, t: Tally, d: Decision): Tally {
    match d
    case Skipped => t
    case Scanned(category, prefix) =>
      var s := t.(cdeScopeLines := t.cdeScopeLines + Texts(cfg.cdeFile),
                  corpScopeLines := t.corpScopeLines + Texts(cfg.corpFile));
      match category
      case None => s
      case Some(Cde) => s.(cdeCount := s.cdeCount + 1, inCde := s.inCde + [prefix])
      case Some(Corp) => s.(corpCount := s.corpCount + 1, inCorp := s.inCorp + [prefix])
      case Some(Out) => s.(outCount := s.outCount + 1, notInScope := s.notInScope + [prefix])
  }

  /** One iteration of `CSV.foreach`; an exception ends the run. */
  function Step(cfg: Config, t: Tally, row: LogonRow): Result<Tally> {
    var d := Decide(cfg, row);
    if d.Err? then Err(d.fault) else Ok(Apply(cfg, t, d.value))
  }

  /** What every row decides; a row's decision does not depend on the rows before it. */
  function Decisions(cfg: Config, rows: seq<LogonRow>): (ds: seq<Result<Decision>>)
    ensures |ds| == |rows|
  {
    seq(|rows|, i requires 0 <= i < |rows| => Decide(cfg, rows[i]))
  }

  /** Applies decisions in order from the initial state, stopping at the first fault. */
  function Fold(cfg: Config, ds: seq<Result<Decision>>): Result<Tally>
    decreases |ds|
  {
    if ds == [] then Ok(Initial)
    else
      var before := Fold(cfg, ds[..|ds| - 1]);
      var d := ds[|ds| - 1];
      if before.Err? then before
      else if d.Err? then Err(d.fault)
      else Ok(Apply(cfg, before.value, d.value))
  }

  /** The whole `CSV.foreach` loop over the rows, from the initial state. */
  function Run(cfg: Config, rows: seq<LogonRow>): Result<Tally> {
    Fold(cfg, Decisions(cfg, rows))
  }

  /** Processing one more row is one more `Step`. */
  lemma RunSnoc(cfg: Config, rows: seq<LogonRow>, row: LogonRow)
    ensures Run(cfg, rows + [row]) == if Run(cfg, rows).Err? then Run(cfg, rows) else Step(cfg, Run(cfg, rows).value, row)
  {
    var ds := Decisions(cfg, rows + [row]);
    assert ds[..|ds| - 1] == Decisions(cfg, rows);
    assert ds[|ds| - 1] == Decide(cfg, row);
  }

  /** Once a prefix of the decisions has raised, the fold's outcome is that fault. */
  lemma {:induction false} FoldStopsAtFault(cfg: Config, ds: seq<Result<Decision>>, k: nat)
    requires k <= |ds| && Fold(cfg, ds[..k]).Err?
    ensures Fold(cfg, ds) == Fold(cfg, ds[..k])
    decreases |ds|
  {
    if k < |ds| {
      var init := ds[..|ds| - 1];
      assert init[..k] == ds[..k];
      FoldStopsAtFault(cfg, init, k);
    } else {
      assert ds[..k] == ds;
    }
  }

  /** Once a prefix of the rows has raised, the run's outcome is that fault. */
  lemma RunStopsAtFault(cfg: Config, rows: seq<LogonRow>, k: nat)
    requires k <= |rows| && Run(cfg, rows[..k]).Err?
    ensures Run(cfg, rows) == Run(cfg, rows[..k])
  {
    var ds := Decisions(cfg, rows);
    assert ds[..k] == Decisions(cfg, rows[..k]);
    FoldStopsAtFault(cfg, ds, k);
  }

  /** The run over the first `i + 1` rows is one step after the run over the first `i`. */
  lemma RunNext(cfg: Config, rows: seq<LogonRow>, i: nat)
    requires i < |rows|
    ensures Run(cfg, rows[..i + 1]) == if Run(cfg, rows[..i]).Err? then Run(cfg, rows[..i]) else Step(cfg, Run(cfg, rows[..i]).value, rows[i])
  {
    assert rows[..i + 1] == rows[..i] + [rows[i]];
    RunSnoc(cfg, rows[..i], rows[i]);
  }

  // ---------------------------------------------------------------------------------------
  // Reference definitions: what each list of the final state holds, decision by decision.

  /** The prefix a decision files under category `c`, if it files one there. */
  function Pick(d: Result<Decision>, c: Category): seq<string> {
    if d.Ok? && d.value.Scanned? && d.value.category == Some(c) then [d.value.prefix] else []
  }

  /** The subnet prefixes filed under `c`, in row order. */
  function Picked(ds: seq<Result<Decision>>, c: Category): seq<string>
    decreases |ds|
  {
    if ds == [] then []
    else Picked(ds[..|ds| - 1], c) + Pick(ds[|ds| - 1], c)
  }

  /** How many rows reached the scope scan. */
  function ScannedCount(ds: seq<Result<Decision>>): nat
    decreases |ds|
  {
    if ds == [] then 0
    else
      var d := ds[|ds| - 1];
      ScannedCount(ds[..|ds| - 1]) + if d.Ok? && d.value.Scanned? then 1 else 0
  }

  /** `lines` repeated `n` times. */
  function Repeat(lines: seq<string>, n: nat): (r: seq<string>)
    ensures |r| == |lines| * n
  {
    if n == 0 then [] else Repeat(lines, n - 1) + lines
  }

  lemma {:induction false} InRepeat(lines: seq<string>, n: nat, x: string)
    ensures x in Repeat(lines, n) <==> n > 0 && x in lines
  {
    if n > 0 {
      InRepeat(lines, n - 1, x);
    }
  }

  /** `cfg` holds the privileged-user list and the two scope files as read from these lines. */
  predicate ReadFrom(cfg: Config, privLines: seq<string>, corpLines: seq<string>, cdeLines: seq<string>) {
    && cfg.privUsers == ReadPrivilegedUsers(privLines)
    && cfg.corpFile == ReadScopeFile(corpLines)
    && cfg.cdeFile == ReadScopeFile(cdeLines)
  }

  /** The lines pushed for a scope file read from `lines` are those lines. */
  lemma TextsOfScopeFile(lines: seq<string>)
    ensures Texts(ReadScopeFile(lines)) == lines
  {
  }

  // ---------------------------------------------------------------------------------------
  // One row.

  /**
   * A row whose address is not a dotted quad, or is 127.0.0.1, or whose username ends in `$`
   * under `-m`, changes nothing; only a blank line of the `-p` list can make it raise.
   */
  lemma RejectedRowChangesNothing(cfg: Config, t: Tally, row: LogonRow)
    requires var ip := Chomp(row.ip);
      ParseAddress(ip).None? || ip == Loopback || (cfg.filterMachine && IsMachineAccount(Chomp(row.username)))
    ensures Step(cfg, t, row) == Ok(t) || (cfg.priv && Step(cfg, t, row) == Err(EmptyPrivilegedUserLine))
    ensures !cfg.priv ==> Step(cfg, t, row) == Ok(t)
  {
  }

  /** With `-p`, a user not on the list (ignoring case) changes nothing. */
  lemma UnlistedUserChangesNothing(cfg: Config, t: Tally, row: LogonRow)
    requires cfg.priv
    requires forall i :: 0 <= i < |cfg.privUsers| ==> cfg.privUsers[i].Some?
    requires forall i :: 0 <= i < |cfg.privUsers| ==> !CaseEq(Chomp(row.username), cfg.privUsers[i].value)
    ensures Step(cfg, t, row) == Ok(t)
  {
  }

  /**
   * One row bumps at most one counter, never lowers one, and a bumped counter's list gets
   * the row's subnet prefix appended; the other lists stay as they were.
   */
  lemma StepBumpsAtMostOneCounter(cfg: Config, t: Tally, row: LogonRow)
    requires Step(cfg, t, row).Ok?
    ensures var u := Step(cfg, t, row).value;
      && u.cdeCount >= t.cdeCount && u.corpCount >= t.corpCount && u.outCount >= t.outCount
      && u.cdeCount + u.corpCount + u.outCount <= t.cdeCount + t.corpCount + t.outCount + 1
      && (u.cdeCount == t.cdeCount ==> u.inCde == t.inCde)
      && (u.cdeCount != t.cdeCount ==> u.inCde == t.inCde + [SubnetPrefix(Chomp(row.ip))])
      && (u.corpCount == t.corpCount ==> u.inCorp == t.inCorp)
      && (u.corpCount != t.corpCount ==> u.inCorp == t.inCorp + [SubnetPrefix(Chomp(row.ip))])
      && (u.outCount == t.outCount ==> u.notInScope == t.notInScope)
      && (u.outCount != t.outCount ==> u.notInScope == t.notInScope + [SubnetPrefix(Chomp(row.ip))])
  {
    var d := Decide(cfg, row).value;
    ApplyTally(cfg, t, d);
    if d.Scanned? {
      ScannedPrefix(cfg, row);
    }
  }

  /** A scanned row is filed under the subnet prefix of its address text. */
  lemma ScannedPrefix(cfg: Config, row: LogonRow)
    requires Decide(cfg, row).Ok? && Decide(cfg, row).value.Scanned?
    ensures Decide(cfg, row).value.prefix == SubnetPrefix(Chomp(row.ip))
  {
  }

  /** Two runs that agree on the filters' verdict, the scope files and the scope switches decide alike. */
  lemma SameProceedSameDecision(cfg1: Config, cfg2: Config, row: LogonRow)
    requires Proceed(cfg1, Chomp(row.username)) == Proceed(cfg2, Chomp(row.username))
    requires cfg1.corpFile == cfg2.corpFile && cfg1.cdeFile == cfg2.cdeFile
    requires cfg1.filterCde == cfg2.filterCde && cfg1.filterCorp == cfg2.filterCorp
    requires cfg1.filterNotInScope == cfg2.filterNotInScope
    ensures Decide(cfg1, row) == Decide(cfg2, row)
  {
  }

  /** `-m` changes nothing for a username that does not end in `$`. */
  lemma MachineFilterOnlyHitsMachineAccounts(cfg: Config, row: LogonRow)
    requires !IsMachineAccount(Chomp(row.username))
    ensures Decide(cfg.(filterMachine := true), row) == Decide(cfg.(filterMachine := false), row)
  {
    var on, off := cfg.(filterMachine := true), cfg.(filterMachine := false);
    assert Proceed(on, Chomp(row.username)) == Proceed(off, Chomp(row.username));
    SameProceedSameDecision(on, off, row);
  }

  /**
   * A row that passes the guard with address `a`: a malformed Corp line is reported before
   * anything in the CDE file is looked at; with both files well formed, the row is scanned
   * and classified by the ranges that hold `a`, under the prefix of its /24 block.
   */
  lemma AcceptedRowIsScanned(cfg: Config, row: LogonRow, a: Addr)
    requires Proceed(cfg, Chomp(row.username)) == Ok(true)
    requires Chomp(row.ip) != Loopback && ParseAddress(Chomp(row.ip)) == Some(a)
    ensures !AllRanges(cfg.corpFile) ==> Decide(cfg, row) == Err(ScopeCheck(cfg.corpFile, a).fault)
    ensures AllRanges(cfg.corpFile) && !AllRanges(cfg.cdeFile) ==> Decide(cfg, row) == Err(ScopeCheck(cfg.cdeFile, a).fault)
    ensures AllRanges(cfg.corpFile) && AllRanges(cfg.cdeFile) ==>
      Decide(cfg, row) == Ok(Scanned(
        Classify(Covers(cfg.cdeFile, a), Covers(cfg.corpFile, a), cfg.filterCde, cfg.filterCorp, cfg.filterNotInScope),
        SubnetPrefix(FormatAddress(a))))
  {
    FormatParse(Chomp(row.ip), a);
  }

  /**
   * The converse: a scanned row passed the guard with some address `a`, both scope files are
   * well formed, its category is `Classify` of whether their ranges hold `a`, and its prefix
   * is that of `a`'s /24 block.
   */
  lemma ScannedRowWasAccepted(cfg: Config, row: LogonRow, c: Option<Category>, p: string)
    requires Decide(cfg, row) == Ok(Scanned(c, p))
    ensures Proceed(cfg, Chomp(row.username)) == Ok(true) && Chomp(row.ip) != Loopback
    ensures exists a :: ScannedWith(cfg, row, a, c, p)
  {
    var a := ParseAddress(Chomp(row.ip)).value;
    FormatParse(Chomp(row.ip), a);
    assert ScannedWith(cfg, row, a, c, p);
  }

  predicate ScannedWith(cfg: Config, row: LogonRow, a: Addr, c: Option<Category>, p: string) {
    && ParseAddress(Chomp(row.ip)) == Some(a)
    && AllRanges(cfg.corpFile) && AllRanges(cfg.cdeFile)
    && c == Classify(Covers(cfg.cdeFile, a), Covers(cfg.corpFile, a), cfg.filterCde, cfg.filterCorp, cfg.filterNotInScope)
    && p == SubnetPrefix(FormatAddress(a))
  }

  /** Whether a row files under CDE, and under which prefix, does not depend on `-c` or `-n`. */
  lemma CdeVerdictIgnoresCorpAndOutSwitches(cfg: Config, row: LogonRow, fc: bool, fn: bool)
    ensures var d1, d2 := Decide(cfg, row), Decide(cfg.(filterCorp := fc, filterNotInScope := fn), row);
      d1.Ok? == d2.Ok? && Pick(d1, Cde) == Pick(d2, Cde)
  {
    SameScanDifferentSwitches(cfg, cfg.(filterCorp := fc, filterNotInScope := fn), row);
  }

  /** Whether a row is scanned, and whether it files under CDE or Corp, does not depend on `-n`. */
  lemma InScopeVerdictIgnoresOutSwitch(cfg: Config, row: LogonRow, fn: bool)
    ensures var d1, d2 := Decide(cfg, row), Decide(cfg.(filterNotInScope := fn), row);
      && d1.Ok? == d2.Ok?
      && (d1.Ok? && d1.value.Scanned?) == (d2.Ok? && d2.value.Scanned?)
      && Pick(d1, Cde) == Pick(d2, Cde) && Pick(d1, Corp) == Pick(d2, Corp)
  {
    SameScanDifferentSwitches(cfg, cfg.(filterNotInScope := fn), row);
  }

  /** Whether a row files under Out, and under which prefix, does not depend on `-d` or `-c`. */
  lemma OutVerdictIgnoresCdeAndCorpSwitches(cfg: Config, row: LogonRow, fd: bool, fc: bool)
    ensures var d1, d2 := Decide(cfg, row), Decide(cfg.(filterCde := fd, filterCorp := fc), row);
      d1.Ok? == d2.Ok? && Pick(d1, Out) == Pick(d2, Out)
  {
    SameScanDifferentSwitches(cfg, cfg.(filterCde := fd, filterCorp := fc), row);
  }

  /**
   * Two configurations that differ only in `-d`, `-c` and `-n` reach the same stage for
   * every row; a scanned row gets the same prefix, and its category is `Classify` of the
   * same two scope answers.
   */
  lemma SameScanDifferentSwitches(cfg1: Config, cfg2: Config, row: LogonRow)
    requires cfg1.(filterCde := cfg2.filterCde, filterCorp := cfg2.filterCorp, filterNotInScope := cfg2.filterNotInScope) == cfg2
    ensures var d1, d2 := Decide(cfg1, row), Decide(cfg2, row);
      && d1.Ok? == d2.Ok?
      && (d1.Ok? ==> d1.value.Scanned? == d2.value.Scanned?)
      && (d1.Ok? && d1.value.Scanned? ==>
            d1.value.prefix == d2.value.prefix
            && exists cde: bool, corp: bool ::
                 d1.value.category == Classify(cde, corp, cfg1.filterCde, cfg1.filterCorp, cfg1.filterNotInScope)
                 && d2.value.category == Classify(cde, corp, cfg2.filterCde, cfg2.filterCorp, cfg2.filterNotInScope))
  {
    var username := Chomp(row.username);
    var proceed := Proceed(cfg1, username);
    assert proceed == Proceed(cfg2, username);
    if proceed.Ok? && Accepted(Chomp(row.ip), proceed.value).Some? {
      var a := Accepted(Chomp(row.ip), proceed.value).value;
      var corp, cde := ScopeCheck(cfg1.corpFile, a), ScopeCheck(cfg1.cdeFile, a);
      if corp.Ok? && cde.Ok? {
        assert Decide(cfg1, row).value.category == Classify(cde.value, corp.value, cfg1.filterCde, cfg1.filterCorp, cfg1.filterNotInScope);
        assert Decide(cfg2, row).value.category == Classify(cde.value, corp.value, cfg2.filterCde, cfg2.filterCorp, cfg2.filterNotInScope);
      }
    }
  }

  // ---------------------------------------------------------------------------------------
  // The whole run.

  /** The fold completes exactly when no decision is a fault; otherwise it ends with the first fault. */
  lemma {:induction false} FoldFailsAtFirstFault(cfg: Config, ds: seq<Result<Decision>>)
    ensures Fold(cfg, ds).Ok? <==> forall i :: 0 <= i < |ds| ==> ds[i].Ok?
    ensures Fold(cfg, ds).Err? ==>
      exists k :: 0 <= k < |ds| && ds[k].Err? && Fold(cfg, ds).fault == ds[k].fault
                  && forall i :: 0 <= i < k ==> ds[i].Ok?
    decreases |ds|
  {
    if ds != [] {
      var init := ds[..|ds| - 1];
      FoldFailsAtFirstFault(cfg, init);
      assert forall i :: 0 <= i < |init| ==> init[i] == ds[i];
    }
  }

  /** The run completes exactly when no row raises; otherwise it ends with the first row's fault. */
  lemma RunFailsAtFirstFault(cfg: Config, rows: seq<LogonRow>)
    ensures Run(cfg, rows).Ok? <==> forall i :: 0 <= i < |rows| ==> Decide(cfg, rows[i]).Ok?
    ensures Run(cfg, rows).Err? ==>
      exists k :: 0 <= k < |rows| && Decide(cfg, rows[k]).Err? && Run(cfg, rows).fault == Decide(cfg, rows[k]).fault
                  && forall i :: 0 <= i < k ==> Decide(cfg, rows[i]).Ok?
  {
    var ds := Decisions(cfg, rows);
    FoldFailsAtFirstFault(cfg, ds);
    forall i | 0 <= i < |rows| ensures ds[i] == Decide(cfg, rows[i]) {
    }
  }

  /**
   * The final state of a completed run: each category's list holds the prefixes filed under
   * it, in row order, its counter is that list's length, and each scope list holds its
   * file's lines once per scanned row.
   */
  lemma {:induction false} FoldTally(cfg: Config, ds: seq<Result<Decision>>)
    requires Fold(cfg, ds).Ok?
    ensures var t := Fold(cfg, ds).value;
      && t.inCde == Picked(ds, Cde) && t.cdeCount == |t.inCde|
      && t.inCorp == Picked(ds, Corp) && t.corpCount == |t.inCorp|
      && t.notInScope == Picked(ds, Out) && t.outCount == |t.notInScope|
      && t.cdeScopeLines == Repeat(Texts(cfg.cdeFile), ScannedCount(ds))
      && t.corpScopeLines == Repeat(Texts(cfg.corpFile), ScannedCount(ds))
    decreases |ds|
  {
    if ds != [] {
      var init := ds[..|ds| - 1];
      FoldTally(cfg, init);
      ApplyTally(cfg, Fold(cfg, init).value, ds[|ds| - 1].value);
    }
  }

  /** What one decision adds to each list of the state. */
  lemma ApplyTally(cfg: Config, t: Tally, d: Decision)
    ensures var u := Apply(cfg, t, d);
      && u.inCde == t.inCde + Pick(Ok(d), Cde) && u.cdeCount == t.cdeCount + |Pick(Ok(d), Cde)|
      && u.inCorp == t.inCorp + Pick(Ok(d), Corp) && u.corpCount == t.corpCount + |Pick(Ok(d), Corp)|
      && u.notInScope == t.notInScope + Pick(Ok(d), Out) && u.outCount == t.outCount + |Pick(Ok(d), Out)|
      && u.cdeScopeLines == t.cdeScopeLines + (if d.Scanned? then Texts(cfg.cdeFile) else [])
      && u.corpScopeLines == t.corpScopeLines + (if d.Scanned? then Texts(cfg.corpFile) else [])
  {
  }

  /** Each row is counted under at most one category, and only a scanned row is counted. */
  lemma {:induction false} AtMostOneCountPerRow(ds: seq<Result<Decision>>)
    ensures |Picked(ds, Cde)| + |Picked(ds, Corp)| + |Picked(ds, Out)| <= ScannedCount(ds) <= |ds|
    decreases |ds|
  {
    if ds != [] {
      AtMostOneCountPerRow(ds[..|ds| - 1]);
    }
  }

  /** Decisions that file every row alike under `c` give the same list for `c`. */
  lemma {:induction false} PickedAgree(ds1: seq<Result<Decision>>, ds2: seq<Result<Decision>>, c: Category)
    requires |ds1| == |ds2|
    requires forall i :: 0 <= i < |ds1| ==> Pick(ds1[i], c) == Pick(ds2[i], c)
    ensures Picked(ds1, c) == Picked(ds2, c)
    decreases |ds1|
  {
    if ds1 != [] {
      var init1, init2 := ds1[..|ds1| - 1], ds2[..|ds2| - 1];
      assert forall i :: 0 <= i < |init1| ==> init1[i] == ds1[i] && init2[i] == ds2[i];
      PickedAgree(init1, init2, c);
    }
  }

  /** `-c` and `-n` change neither whether the run completes nor its CDE count and CDE groups. */
  lemma CdeResultIgnoresCorpAndOutSwitches(cfg: Config, rows: seq<LogonRow>, fc: bool, fn: bool)
    ensures var r1, r2 := Run(cfg, rows), Run(cfg.(filterCorp := fc, filterNotInScope := fn), rows);
      && r1.Ok? == r2.Ok?
      && (r1.Ok? ==> r1.value.cdeCount == r2.value.cdeCount && r1.value.inCde == r2.value.inCde)
  {
    var cfg2 := cfg.(filterCorp := fc, filterNotInScope := fn);
    var ds1, ds2 := Decisions(cfg, rows), Decisions(cfg2, rows);
    forall i | 0 <= i < |rows|
      ensures ds1[i].Ok? == ds2[i].Ok? && Pick(ds1[i], Cde) == Pick(ds2[i], Cde)
    {
      CdeVerdictIgnoresCorpAndOutSwitches(cfg, rows[i], fc, fn);
    }
    FoldFailsAtFirstFault(cfg, ds1);
    FoldFailsAtFirstFault(cfg2, ds2);
    if Fold(cfg, ds1).Ok? {
      FoldTally(cfg, ds1);
      FoldTally(cfg2, ds2);
      PickedAgree(ds1, ds2, Cde);
    }
  }

  lemma {:induction false} ScannedCountAgree(ds1: seq<Result<Decision>>, ds2: seq<Result<Decision>>)
    requires |ds1| == |ds2|
    requires forall i :: 0 <= i < |ds1| ==> (ds1[i].Ok? && ds1[i].value.Scanned?) == (ds2[i].Ok? && ds2[i].value.Scanned?)
    ensures ScannedCount(ds1) == ScannedCount(ds2)
    decreases |ds1|
  {
    if ds1 != [] {
      var init1, init2 := ds1[..|ds1| - 1], ds2[..|ds2| - 1];
      assert forall i :: 0 <= i < |init1| ==> init1[i] == ds1[i] && init2[i] == ds2[i];
      ScannedCountAgree(init1, init2);
    }
  }

  /**
   * `-n` changes only the out-of-scope result: whether the run completes, the CDE and Corp
   * counts and groups, and the scope lists are the same with and without it.
   */
  lemma OnlyOutDependsOnNotInScopeSwitch(cfg: Config, rows: seq<LogonRow>, fn: bool)
    ensures var r1, r2 := Run(cfg, rows), Run(cfg.(filterNotInScope := fn), rows);
      && r1.Ok? == r2.Ok?
      && (r1.Ok? ==>
            && r1.value.cdeCount == r2.value.cdeCount && r1.value.inCde == r2.value.inCde
            && r1.value.corpCount == r2.value.corpCount && r1.value.inCorp == r2.value.inCorp
            && r1.value.cdeScopeLines == r2.value.cdeScopeLines
            && r1.value.corpScopeLines == r2.value.corpScopeLines)
  {
    var cfg2 := cfg.(filterNotInScope := fn);
    var ds1, ds2 := Decisions(cfg, rows), Decisions(cfg2, rows);
    forall i | 0 <= i < |rows|
      ensures ds1[i].Ok? == ds2[i].Ok?
      ensures (ds1[i].Ok? && ds1[i].value.Scanned?) == (ds2[i].Ok? && ds2[i].value.Scanned?)
      ensures Pick(ds1[i], Cde) == Pick(ds2[i], Cde) && Pick(ds1[i], Corp) == Pick(ds2[i], Corp)
    {
      InScopeVerdictIgnoresOutSwitch(cfg, rows[i], fn);
    }
    FoldFailsAtFirstFault(cfg, ds1);
    FoldFailsAtFirstFault(cfg2, ds2);
    if Fold(cfg, ds1).Ok? {
      FoldTally(cfg, ds1);
      FoldTally(cfg2, ds2);
      PickedAgree(ds1, ds2, Cde);
      PickedAgree(ds1, ds2, Corp);
      ScannedCountAgree(ds1, ds2);
    }
  }

  /** `-d` and `-c` change neither whether the run completes nor its out-of-scope count and groups. */
  lemma OutResultIgnoresCdeAndCorpSwitches(cfg: Config, rows: seq<LogonRow>, fd: bool, fc: bool)
    ensures var r1, r2 := Run(cfg, rows), Run(cfg.(filterCde := fd, filterCorp := fc), rows);
      && r1.Ok? == r2.Ok?
      && (r1.Ok? ==> r1.value.outCount == r2.value.outCount && r1.value.notInScope == r2.value.notInScope)
  {
    var cfg2 := cfg.(filterCde := fd, filterCorp := fc);
    var ds1, ds2 := Decisions(cfg, rows), Decisions(cfg2, rows);
    forall i | 0 <= i < |rows|
      ensures ds1[i].Ok? == ds2[i].Ok? && Pick(ds1[i], Out) == Pick(ds2[i], Out)
    {
      OutVerdictIgnoresCdeAndCorpSwitches(cfg, rows[i], fd, fc);
    }
    FoldFailsAtFirstFault(cfg, ds1);
    FoldFailsAtFirstFault(cfg2, ds2);
    if Fold(cfg, ds1).Ok? {
      FoldTally(cfg, ds1);
      FoldTally(cfg2, ds2);
      PickedAgree(ds1, ds2, Out);
    }
  }

  lemma {:induction false} InPicked(ds: seq<Result<Decision>>, c: Category, p: string)
    requires p in Picked(ds, c)
    ensures exists i :: 0 <= i < |ds| && ds[i] == Ok(Scanned(Some(c), p))
    decreases |ds|
  {
    var init := ds[..|ds| - 1];
    if p in Picked(init, c) {
      InPicked(init, c, p);
      var i :| 0 <= i < |init| && init[i] == Ok(Scanned(Some(c), p));
      assert ds[i] == init[i];
    } else {
      assert ds[|ds| - 1] == Ok(Scanned(Some(c), p));
    }
  }

  /**
   * Every subnet prefix a completed run files under category `c` is the /24 prefix of some
   * row's address, and that address is classified as `c` by the two scope files.
   */
  lemma GroupsAreSound(cfg: Config, rows: seq<LogonRow>, c: Category, p: string)
    requires Run(cfg, rows).Ok?
    requires p in Picked(Decisions(cfg, rows), c)
    ensures exists i, a :: 0 <= i < |rows| && ScannedWith(cfg, rows[i], a, Some(c), p)
  {
    var ds := Decisions(cfg, rows);
    InPicked(ds, c, p);
    var i :| 0 <= i < |ds| && ds[i] == Ok(Scanned(Some(c), p));
    assert Decide(cfg, rows[i]) == Ok(Scanned(Some(c), p));
    ScannedRowWasAccepted(cfg, rows[i], Some(c), p);
  }

  /**
   * After a completed run, a scope list holds exactly the lines of its file when some row
   * reached the scan, and nothing otherwise.
   */
  lemma ScopeListsHoldFileLines(cfg: Config, rows: seq<LogonRow>, x: string)
    requires Run(cfg, rows).Ok?
    ensures var t, n := Run(cfg, rows).value, ScannedCount(Decisions(cfg, rows));
      && (x in t.cdeScopeLines <==> n > 0 && x in Texts(cfg.cdeFile))
      && (x in t.corpScopeLines <==> n > 0 && x in Texts(cfg.corpFile))
  {
    var ds := Decisions(cfg, rows);
    FoldTally(cfg, ds);
    InRepeat(Texts(cfg.cdeFile), ScannedCount(ds), x);
    InRepeat(Texts(cfg.corpFile), ScannedCount(ds), x);
  }
}
