/**
 * A worked run of the analyser: three logons (alice in the Corp range 10.5.1.0/24, bob in
 * the CDE range 172.16.10.0/24, eve outside both), no switches, one range per scope file.
 * Each category is counted once and each diagram has one node per category it draws.
 */
module Scenario {
  import opened Outcomes
  import opened Strings
  import opened Decimal
  import opened IPv4
  import opened Cidr
  import opened Scope
  import opened Pipeline
  import opened Dedup
  import opened Diagram
  import opened Analysis

  const AliceAddr: Addr := FromOctets([10, 5, 1, 7])
  const BobAddr: Addr := FromOctets([172, 16, 10, 9])
  const EveAddr: Addr := FromOctets([8, 8, 8, 8])
  const CorpNet: Range := Range(FromOctets([10, 5, 1, 0]), 24)
  const CdeNet: Range := Range(FromOctets([172, 16, 10, 0]), 24)

  // ---------------------------------------------------------------------------------------
  // Three logons over any two ranges and any three addresses.

  /** A scope file holding one range in prefix notation, newline-terminated. */
  function OneRangeFile(net: Range): seq<ScopeLine> {
    ReadScopeFile([RangeText(net) + "\n"])
  }

  /** No `-p`, `-m`, `-d`, `-c` or `-n`; one range in each scope file. */
  function Setup(corpNet: Range, cdeNet: Range): Config {
    Config(false, [], false, false, false, false, OneRangeFile(corpNet), OneRangeFile(cdeNet))
  }

  /** A logon by `user` of the CORP domain from address `a`. */
  function Logon(a: Addr, user: string): LogonRow {
    LogonRow(FormatAddress(a), "CORP", user)
  }

  /** The scan of a one-range file completes, and finds `a` exactly when the range holds it. */
  lemma OneRangeScan(net: Range, a: Addr)
    ensures ScopeCheck(OneRangeFile(net), a) == Ok(Contains(net, a))
  {
    var file := OneRangeFile(net);
    ParseRangeText(net, "\n");
    assert file[0].range == Some(net);
    assert Covers(file, a) <==> Contains(net, a);
  }

  /** A logon from an address other than 127.0.0.1 is scanned and filed by its ranges. */
  lemma LogonDecision(corpNet: Range, cdeNet: Range, a: Addr, user: string, c: Category)
    requires '\n' !in user && '\r' !in user
    requires FormatAddress(a) != Loopback
    requires Classify(Contains(cdeNet, a), Contains(corpNet, a), false, false, false) == Some(c)
    ensures Decide(Setup(corpNet, cdeNet), Logon(a, user)) == Ok(Scanned(Some(c), SubnetPrefix(FormatAddress(a))))
  {
    FormatAddressAvoids(a, '\n');
    FormatAddressAvoids(a, '\r');
    ChompLine(FormatAddress(a));
    ChompLine(user);
    ParseFormat(a);
    OneRangeScan(corpNet, a);
    OneRangeScan(cdeNet, a);
    AcceptedRowIsScanned(Setup(corpNet, cdeNet), Logon(a, user), a);
  }

  lemma PickedOfThree(d0: Result<Decision>, d1: Result<Decision>, d2: Result<Decision>, c: Category)
    ensures Picked([d0, d1, d2], c) == Pick(d0, c) + Pick(d1, c) + Pick(d2, c)
    ensures ScannedCount([d0, d1, d2]) == ScannedCount([d0]) + ScannedCount([d1]) + ScannedCount([d2])
  {
    assert [d0, d1, d2][..2] == [d0, d1] && [d0, d1][..1] == [d0] && [d0][..0] == [];
    assert Picked([d0], c) == Pick(d0, c);
    assert Picked([d0, d1], c) == Picked([d0], c) + Pick(d1, c);
    assert ScannedCount([d0, d1]) == ScannedCount([d0]) + ScannedCount([d1]);
  }

  lemma UniqSingle(x: string)
    ensures Uniq([x]) == [x]
  {
    assert [x][..0] == [];
  }

  /** The label of a subnet's node in a diagram drawn from one range line whose range lies in that subnet. */
  lemma OneRangeLabel(net: Range, a: Addr)
    requires net.network / 0x100 == a / 0x100
    ensures GroupLabel([RangeText(net) + "\n"], SubnetPrefix(FormatAddress(a))) == RangeText(net)
  {
    var line := RangeText(net) + "\n";
    ParseRangeText(net, "\n");
    LabelListsRangesOfSubnet([line], a, line, net);
    assert Grep([line], SubnetPrefix(FormatAddress(a))) == [line];
  }

  lemma CorpLogon(corpNet: Range, cdeNet: Range, a: Addr)
    requires FormatAddress(a) != Loopback
    requires Contains(corpNet, a) && !Contains(cdeNet, a)
    ensures Decide(Setup(corpNet, cdeNet), Logon(a, "alice")) == Ok(Scanned(Some(Corp), SubnetPrefix(FormatAddress(a))))
  {
    LogonDecision(corpNet, cdeNet, a, "alice", Corp);
  }

  lemma CdeLogon(corpNet: Range, cdeNet: Range, b: Addr)
    requires FormatAddress(b) != Loopback
    requires Contains(cdeNet, b)
    ensures Decide(Setup(corpNet, cdeNet), Logon(b, "bob")) == Ok(Scanned(Some(Cde), SubnetPrefix(FormatAddress(b))))
  {
    LogonDecision(corpNet, cdeNet, b, "bob", Cde);
  }

  lemma OutLogon(corpNet: Range, cdeNet: Range, e: Addr)
    requires FormatAddress(e) != Loopback
    requires !Contains(corpNet, e) && !Contains(cdeNet, e)
    ensures Decide(Setup(corpNet, cdeNet), Logon(e, "eve")) == Ok(Scanned(Some(Out), SubnetPrefix(FormatAddress(e))))
  {
    LogonDecision(corpNet, cdeNet, e, "eve", Out);
  }

  lemma DecisionsOfThree(cfg: Config, rows: seq<LogonRow>, d0: Result<Decision>, d1: Result<Decision>, d2: Result<Decision>)
    requires |rows| == 3
    requires Decide(cfg, rows[0]) == d0 && Decide(cfg, rows[1]) == d1 && Decide(cfg, rows[2]) == d2
    ensures Decisions(cfg, rows) == [d0, d1, d2]
  {
  }

  /**
   * Three logons, with no switches and one range per scope file: `a` in the Corp range only,
   * `b` in the CDE range, `e` in neither. Each is filed under its category, in row order.
   */
  lemma ThreeLogonDecisions(corpNet: Range, cdeNet: Range, a: Addr, b: Addr, e: Addr)
    requires FormatAddress(a) != Loopback && FormatAddress(b) != Loopback && FormatAddress(e) != Loopback
    requires Contains(corpNet, a) && !Contains(cdeNet, a)
    requires Contains(cdeNet, b)
    requires !Contains(corpNet, e) && !Contains(cdeNet, e)
    ensures Decisions(Setup(corpNet, cdeNet), [Logon(a, "alice"), Logon(b, "bob"), Logon(e, "eve")]) == [
      Ok(Scanned(Some(Corp), SubnetPrefix(FormatAddress(a)))),
      Ok(Scanned(Some(Cde), SubnetPrefix(FormatAddress(b)))),
      Ok(Scanned(Some(Out), SubnetPrefix(FormatAddress(e))))]
  {
    CorpLogon(corpNet, cdeNet, a);
    CdeLogon(corpNet, cdeNet, b);
    OutLogon(corpNet, cdeNet, e);
    DecisionsOfThree(Setup(corpNet, cdeNet), [Logon(a, "alice"), Logon(b, "bob"), Logon(e, "eve")],
      Ok(Scanned(Some(Corp), SubnetPrefix(FormatAddress(a)))),
      Ok(Scanned(Some(Cde), SubnetPrefix(FormatAddress(b)))),
      Ok(Scanned(Some(Out), SubnetPrefix(FormatAddress(e)))));
  }

  /** Three scanned rows, one per category, leave one event per category and three copies of each file. */
  lemma TallyOfThree(cfg: Config, pa: string, pb: string, pe: string)
    ensures Fold(cfg, [Ok(Scanned(Some(Corp), pa)), Ok(Scanned(Some(Cde), pb)), Ok(Scanned(Some(Out), pe))])
            == Ok(Tally(1, 1, 1, Repeat(Texts(cfg.cdeFile), 3), Repeat(Texts(cfg.corpFile), 3), [pb], [pa], [pe]))
  {
    var d0, d1, d2 := Ok(Scanned(Some(Corp), pa)), Ok(Scanned(Some(Cde), pb)), Ok(Scanned(Some(Out), pe));
    var ds := [d0, d1, d2];
    FoldFailsAtFirstFault(cfg, ds);
    FoldTally(cfg, ds);
    PickedOfThree(d0, d1, d2, Cde);
    PickedOfThree(d0, d1, d2, Corp);
    PickedOfThree(d0, d1, d2, Out);
    assert [d0][..0] == [] && [d1][..0] == [] && [d2][..0] == [];
    assert ScannedCount(ds) == 3;
    var t := Fold(cfg, ds).value;
    assert t.inCde == [pb] && t.inCorp == [pa] && t.notInScope == [pe];
    assert t.cdeCount == 1 && t.corpCount == 1 && t.outCount == 1;
    assert t.cdeScopeLines == Repeat(Texts(cfg.cdeFile), 3);
    assert t.corpScopeLines == Repeat(Texts(cfg.corpFile), 3);
  }

  /** The in-scope star of one CDE group and one Corp group, each labelled from its own lines. */
  lemma StarOfTwo(pb: string, cdeLines: seq<string>, pa: string, corpLines: seq<string>)
    ensures InScopeStar([pb], cdeLines, [pa], corpLines).nodes
            == [Center, Node("vlanInCde0", GroupLabel(cdeLines, pb)), Node("vlanInCorp0", GroupLabel(corpLines, pa))]
  {
    assert Numeral(0) == "0";
    assert "vlanInCde" + Numeral(0) == "vlanInCde0" && "vlanInCorp" + Numeral(0) == "vlanInCorp0";
    assert GroupNodes("vlanInCde", [pb], cdeLines) == [Node("vlanInCde0", GroupLabel(cdeLines, pb))];
    assert GroupNodes("vlanInCorp", [pa], corpLines) == [Node("vlanInCorp0", GroupLabel(corpLines, pa))];
  }

  /** The in-scope diagram of one CDE and one Corp event, each in the /24 block of its file's one range. */
  lemma InScopeOfTwo(cdeNet: Range, corpNet: Range, b: Addr, a: Addr)
    requires cdeNet.network / 0x100 == b / 0x100 && corpNet.network / 0x100 == a / 0x100
    ensures InScopeGraph([SubnetPrefix(FormatAddress(b))], Repeat([RangeText(cdeNet) + "\n"], 3),
                         [SubnetPrefix(FormatAddress(a))], Repeat([RangeText(corpNet) + "\n"], 3)).nodes
            == [Center, Node("vlanInCde0", RangeText(cdeNet)), Node("vlanInCorp0", RangeText(corpNet))]
  {
    var pa, pb := SubnetPrefix(FormatAddress(a)), SubnetPrefix(FormatAddress(b));
    var cdeLine, corpLine := RangeText(cdeNet) + "\n", RangeText(corpNet) + "\n";
    UniqOfRepeat([cdeLine], 3);
    UniqOfRepeat([corpLine], 3);
    UniqSingle(cdeLine);
    UniqSingle(corpLine);
    UniqSingle(pa);
    UniqSingle(pb);
    OneRangeLabel(cdeNet, b);
    OneRangeLabel(corpNet, a);
    StarOfTwo(pb, [cdeLine], pa, [corpLine]);
  }

  /** The out-of-scope diagram of one event: `DC` and one node labelled with its block. */
  lemma OutOfScopeOfOne(pe: string)
    ensures OutOfScopeGraph([pe]).nodes == [Center, Node("vlanOutOfScope0", pe + ".0")]
  {
    UniqSingle(pe);
    assert Numeral(0) == "0";
    assert "vlanOutOfScope" + Numeral(0) == "vlanOutOfScope0";
    assert OutNodes([pe]) == [Node("vlanOutOfScope0", pe + ".0")];
  }

  /**
   * The report of those three logons: one event per category, one node per category in the
   * diagrams, the in-scope nodes labelled with the range lines of their subnets and the
   * out-of-scope node with the /24 block of `e`.
   */
  lemma ThreeLogonReport(corpNet: Range, cdeNet: Range, a: Addr, b: Addr, e: Addr)
    requires FormatAddress(a) != Loopback && FormatAddress(b) != Loopback && FormatAddress(e) != Loopback
    requires Contains(corpNet, a) && !Contains(cdeNet, a)
    requires Contains(cdeNet, b)
    requires !Contains(corpNet, e) && !Contains(cdeNet, e)
    requires corpNet.network / 0x100 == a / 0x100 && cdeNet.network / 0x100 == b / 0x100
    ensures var run := Run(Setup(corpNet, cdeNet), [Logon(a, "alice"), Logon(b, "bob"), Logon(e, "eve")]);
      && run.Ok?
      && var rep := Summarize(run.value);
      && rep.cdeCount == 1 && rep.corpCount == 1 && rep.outCount == 1
      && rep.inScope.nodes == [Center, Node("vlanInCde0", RangeText(cdeNet)), Node("vlanInCorp0", RangeText(corpNet))]
      && rep.outOfScope.nodes == [Center, Node("vlanOutOfScope0", SubnetPrefix(FormatAddress(e)) + ".0")]
  {
    var cfg, rows := Setup(corpNet, cdeNet), [Logon(a, "alice"), Logon(b, "bob"), Logon(e, "eve")];
    var pa, pb, pe := SubnetPrefix(FormatAddress(a)), SubnetPrefix(FormatAddress(b)), SubnetPrefix(FormatAddress(e));
    ThreeLogonDecisions(corpNet, cdeNet, a, b, e);
    TallyOfThree(cfg, pa, pb, pe);
    assert Texts(cfg.cdeFile) == [RangeText(cdeNet) + "\n"] && Texts(cfg.corpFile) == [RangeText(corpNet) + "\n"];
    InScopeOfTwo(cdeNet, corpNet, b, a);
    OutOfScopeOfOne(pe);
  }

  // ---------------------------------------------------------------------------------------
  // The scenario's own addresses and texts.

  /** The dotted-quad text of an address built from four bytes. */
  lemma DottedQuad(o: seq<nat>)
    requires AreOctets(o)
    ensures FormatAddress(FromOctets(o)) == Numeral(o[0]) + "." + Numeral(o[1]) + "." + Numeral(o[2]) + "." + Numeral(o[3])
  {
    OctetsOfAddress(o);
    var p := [Numeral(o[0]), Numeral(o[1]), Numeral(o[2]), Numeral(o[3])];
    assert p[1..][1..][1..] == [p[3]];
    assert Join(p[1..][1..], ".") == p[2] + "." + p[3];
    assert Join(p[1..], ".") == p[1] + "." + p[2] + "." + p[3];
  }

  lemma AliceText()
    ensures FormatAddress(AliceAddr) == "10.5.1.7"
  {
    assert Numeral(10) == Numeral(1) + [DigitChar(0)] == "10";
    DottedQuad([10, 5, 1, 7]);
  }

  lemma BobText()
    ensures FormatAddress(BobAddr) == "172.16.10.9"
  {
    assert Numeral(17) == Numeral(1) + [DigitChar(7)];
    assert Numeral(172) == Numeral(17) + [DigitChar(2)] == "172";
    assert Numeral(16) == Numeral(1) + [DigitChar(6)] == "16";
    assert Numeral(10) == Numeral(1) + [DigitChar(0)] == "10";
    DottedQuad([172, 16, 10, 9]);
  }

  lemma EveText()
    ensures FormatAddress(EveAddr) == "8.8.8.8"
  {
    DottedQuad([8, 8, 8, 8]);
  }

  lemma CorpNetText()
    ensures FormatAddress(CorpNet.network) == "10.5.1.0"
  {
    assert Numeral(10) == Numeral(1) + [DigitChar(0)] == "10";
    DottedQuad([10, 5, 1, 0]);
  }

  lemma CdeNetText()
    ensures FormatAddress(CdeNet.network) == "172.16.10.0"
  {
    assert Numeral(17) == Numeral(1) + [DigitChar(7)];
    assert Numeral(172) == Numeral(17) + [DigitChar(2)] == "172";
    assert Numeral(16) == Numeral(1) + [DigitChar(6)] == "16";
    assert Numeral(10) == Numeral(1) + [DigitChar(0)] == "10";
    DottedQuad([172, 16, 10, 0]);
  }

  /** Which range holds which address. */
  lemma Membership()
    ensures Contains(CorpNet, AliceAddr) && !Contains(CdeNet, AliceAddr)
    ensures !Contains(CorpNet, BobAddr) && Contains(CdeNet, BobAddr)
    ensures !Contains(CorpNet, EveAddr) && !Contains(CdeNet, EveAddr)
  {
    assert BlockSize(24) == 256;
  }

  /** The scenario's addresses meet the premises of the three-logon report. */
  lemma ScenarioPremises()
    ensures FormatAddress(AliceAddr) != Loopback && FormatAddress(BobAddr) != Loopback && FormatAddress(EveAddr) != Loopback
    ensures Contains(CorpNet, AliceAddr) && !Contains(CdeNet, AliceAddr)
    ensures Contains(CdeNet, BobAddr)
    ensures !Contains(CorpNet, EveAddr) && !Contains(CdeNet, EveAddr)
    ensures CorpNet.network / 0x100 == AliceAddr / 0x100 && CdeNet.network / 0x100 == BobAddr / 0x100
  {
    AliceText();
    BobText();
    EveText();
    Membership();
  }

  lemma CorpRangeText()
    ensures RangeText(CorpNet) == "10.5.1.0/24"
  {
    assert Numeral(24) == Numeral(2) + [DigitChar(4)] == "24";
    CorpNetText();
  }

  lemma CdeRangeText()
    ensures RangeText(CdeNet) == "172.16.10.0/24"
  {
    assert Numeral(24) == Numeral(2) + [DigitChar(4)] == "24";
    CdeNetText();
  }

  lemma EvePrefix()
    ensures SubnetPrefix(FormatAddress(EveAddr)) + ".0" == "8.8.8.0"
  {
    EveText();
    BeforeLastSeparator("8.8.8", '.', "8");
    assert "8.8.8" + ['.'] + "8" == "8.8.8.8";
  }

  /** The scenario's diagram nodes, with the range texts and eve's block written out. */
  lemma ScenarioLabels(rep: Report)
    requires rep.inScope.nodes == [Center, Node("vlanInCde0", RangeText(CdeNet)), Node("vlanInCorp0", RangeText(CorpNet))]
    requires rep.outOfScope.nodes == [Center, Node("vlanOutOfScope0", SubnetPrefix(FormatAddress(EveAddr)) + ".0")]
    ensures rep.inScope.nodes == [Center, Node("vlanInCde0", "172.16.10.0/24"), Node("vlanInCorp0", "10.5.1.0/24")]
    ensures rep.outOfScope.nodes == [Center, Node("vlanOutOfScope0", "8.8.8.0")]
  {
    CorpRangeText();
    CdeRangeText();
    EvePrefix();
  }

  /** The scenario's inputs: the three logon rows and the two one-line scope files. */
  lemma ScenarioInputs()
    ensures [Logon(AliceAddr, "alice"), Logon(BobAddr, "bob"), Logon(EveAddr, "eve")] == [
      LogonRow("10.5.1.7", "CORP", "alice"),
      LogonRow("172.16.10.9", "CORP", "bob"),
      LogonRow("8.8.8.8", "CORP", "eve")]
    ensures RangeText(CorpNet) + "\n" == "10.5.1.0/24\n" && RangeText(CdeNet) + "\n" == "172.16.10.0/24\n"
  {
    AliceText();
    BobText();
    EveText();
    CorpRangeText();
    CdeRangeText();
  }

  /**
   * The scenario's report: one CDE event (bob), one Corp event (alice), one out-of-scope event
   * (eve); the in-scope diagram has one node per scope range, labelled with it, and the
   * out-of-scope diagram one node for 8.8.8.0.
   */
  lemma ScenarioReport()
    ensures var run := Run(Setup(CorpNet, CdeNet), [Logon(AliceAddr, "alice"), Logon(BobAddr, "bob"), Logon(EveAddr, "eve")]);
      && run.Ok?
      && var rep := Summarize(run.value);
      && rep.cdeCount == 1 && rep.corpCount == 1 && rep.outCount == 1
      && rep.inScope.nodes == [Center, Node("vlanInCde0", "172.16.10.0/24"), Node("vlanInCorp0", "10.5.1.0/24")]
      && rep.outOfScope.nodes == [Center, Node("vlanOutOfScope0", "8.8.8.0")]
  {
    ScenarioPremises();
    ThreeLogonReport(CorpNet, CdeNet, AliceAddr, BobAddr, EveAddr);
    ScenarioLabels(Summarize(Run(Setup(CorpNet, CdeNet), [Logon(AliceAddr, "alice"), Logon(BobAddr, "bob"), Logon(EveAddr, "eve")]).value));
  }
}
