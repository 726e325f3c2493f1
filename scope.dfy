/**
 * Scope files and the scope decision (sleat-analyze.rb:128-169): each scope file is
 * scanned line by line for a range holding the event's address, and the three-way
 * if/elsif/elsif picks the category the event is counted under.
 */
module Scope {
  import opened Outcomes
  import opened IPv4
  import opened Cidr

  /** One line of a scope file: its raw text and what IPAddr.new makes of it (None: it raises). */
  datatype ScopeLine = ScopeLine(text: string, range: Option<Range>)

  /** A scope file as read: every line paired with its parse. */
  function ReadScopeFile(lines: seq<string>): seq<ScopeLine>
  {
    seq(|lines|, i requires 0 <= i < |lines| => ScopeLine(lines[i], ParseRange(lines[i])))
  }

  /** Every line of a scope file reads as a range. */
  predicate AllRanges(file: seq<ScopeLine>) {
    forall i :: 0 <= i < |file| ==> file[i].range.Some?
  }

  /** Some line of the file is a range that holds `a`. */
  predicate Covers(file: seq<ScopeLine>, a: Addr)
    requires AllRanges(file)
  {
    exists i :: 0 <= i < |file| && Contains(file[i].range.value, a)
  }

  /**
   * One `File.foreach` pass over a scope file for address `a`: the first line that IPAddr.new
   * rejects aborts the run; otherwise the result says whether some range holds `a`.
   */
  function ScopeCheck(file: seq<ScopeLine>, a: Addr): (r: Result<bool>)
    ensures r.Ok? <==> AllRanges(file)
    ensures r.Ok? ==> (r.value <==> Covers(file, a))
    ensures r.Err? ==> exists k :: 0 <= k < |file| && AllRanges(file[..k]) && file[k].range.None?
                                     && r.fault == MalformedNetworkLine(file[k].text)
  {
    if file == [] then Ok(false)
    else
      match file[0].range
      case None =>
        assert AllRanges(file[..0]);
        Err(MalformedNetworkLine(file[0].text))
      case Some(range) =>
        var rest := ScopeCheck(file[1..], a);
        if rest.Err? then
          var k :| 0 <= k < |file[1..]| && AllRanges(file[1..][..k]) && file[1..][k].range.None?
                   && rest.fault == MalformedNetworkLine(file[1..][k].text);
          assert AllRanges(file[..k + 1]) by {
            forall i | 0 < i < k + 1 ensures file[i].range.Some? {
              assert file[i] == file[1..][..k][i - 1];
            }
          }
          Err(rest.fault)
        else
          assert AllRanges(file) by {
            forall i | 0 < i < |file| ensures file[i].range.Some? {
              assert file[i] == file[1..][i - 1];
            }
          }
          assert Covers(file[1..], a) ==> Covers(file, a) by {
            if Covers(file[1..], a) {
              var j :| 0 <= j < |file[1..]| && Contains(file[1..][j].range.value, a);
              assert file[1..][j] == file[j + 1];
            }
          }
          assert Covers(file, a) ==> Contains(range, a) || Covers(file[1..], a) by {
            if Covers(file, a) && !Contains(range, a) {
              var j :| 0 <= j < |file| && Contains(file[j].range.value, a);
              assert file[j] == file[1..][j - 1];
            }
          }
          Ok(Contains(range, a) || rest.value)
  }

  /** A line of a read scope file has a range exactly when it is a range line. */
  lemma RangeLinesOfFile(lines: seq<string>)
    ensures forall i :: 0 <= i < |lines| ==> (ReadScopeFile(lines)[i].range.Some? <==> IsRangeLine(lines[i]))
  {
    forall i | 0 <= i < |lines| ensures ReadScopeFile(lines)[i].range.Some? <==> IsRangeLine(lines[i]) {
      ParsesIffRangeLine(lines[i]);
    }
  }

  /** The scan of a scope file completes exactly when every one of its lines is a range line. */
  lemma ScopeFileCompletes(lines: seq<string>, a: Addr)
    ensures ScopeCheck(ReadScopeFile(lines), a).Ok? <==> forall i :: 0 <= i < |lines| ==> IsRangeLine(lines[i])
  {
    RangeLinesOfFile(lines);
  }

  /** A scan that does not complete stops at the first line that is not a range line, naming it. */
  lemma ScopeFileStops(lines: seq<string>, a: Addr)
    requires ScopeCheck(ReadScopeFile(lines), a).Err?
    ensures exists k :: 0 <= k < |lines| && !IsRangeLine(lines[k]) && (forall i :: 0 <= i < k ==> IsRangeLine(lines[i]))
                        && ScopeCheck(ReadScopeFile(lines), a).fault == MalformedNetworkLine(lines[k])
  {
    var file := ReadScopeFile(lines);
    var k :| 0 <= k < |file| && AllRanges(file[..k]) && file[k].range.None?
             && ScopeCheck(file, a).fault == MalformedNetworkLine(file[k].text);
    ParsesIffRangeLine(lines[k]);
    forall i | 0 <= i < k ensures IsRangeLine(lines[i]) {
      assert file[..k][i] == file[i];
      ParsesIffRangeLine(lines[i]);
    }
  }

  /** A completed scan finds `a` in scope exactly when the range of some line holds it. */
  lemma ScopeFileCoverage(lines: seq<string>, a: Addr)
    requires ScopeCheck(ReadScopeFile(lines), a).Ok?
    ensures ScopeCheck(ReadScopeFile(lines), a).value <==>
              exists i, r :: 0 <= i < |lines| && ParseRange(lines[i]) == Some(r) && Contains(r, a)
  {
    var file := ReadScopeFile(lines);
    if ScopeCheck(file, a).value {
      var i :| 0 <= i < |file| && Contains(file[i].range.value, a);
      assert ParseRange(lines[i]) == Some(file[i].range.value);
    }
    if exists i, r :: 0 <= i < |lines| && ParseRange(lines[i]) == Some(r) && Contains(r, a) {
      var i, r :| 0 <= i < |lines| && ParseRange(lines[i]) == Some(r) && Contains(r, a);
      assert file[i].range == Some(r);
    }
  }

  /** The first malformed line is the one the scan reports. */
  lemma FirstMalformedReported(file: seq<ScopeLine>, i: nat, a: Addr)
    requires i < |file| && file[i].range.None?
    requires forall j :: 0 <= j < i ==> file[j].range.Some?
    ensures ScopeCheck(file, a) == Err(MalformedNetworkLine(file[i].text))
  {
    var k :| 0 <= k < |file| && AllRanges(file[..k]) && file[k].range.None?
             && ScopeCheck(file, a).fault == MalformedNetworkLine(file[k].text);
    if k > i {
      assert file[..k][i] == file[i];
    }
  }

  /** The loop of lines 130-136 (and 140-146): scans the lines in order and stops at the first malformed one. */
  method ScanNetworks(file: seq<ScopeLine>, a: Addr) returns (r: Result<bool>)
    ensures r == ScopeCheck(file, a)
  {
    var found := false;
    var i := 0;
    while i < |file|
      invariant 0 <= i <= |file|
      invariant forall j :: 0 <= j < i ==> file[j].range.Some?
      invariant found <==> exists j :: 0 <= j < i && Contains(file[j].range.value, a)
    {
      var line := file[i];
      if line.range.None? {
        FirstMalformedReported(file, i, a);
        return Err(MalformedNetworkLine(line.text));
      }
      if Contains(line.range.value, a) {
        found := true;
      }
      i := i + 1;
    }
    r := Ok(found);
  }

  /**
   * The order of the lines of a scope file, and repeated lines, change neither whether the
   * scan completes nor the answer of a completed scan. (Which malformed line an aborting scan
   * reports does depend on the order: it is the first one.)
   */
  lemma ScopeOrderIrrelevant(file1: seq<ScopeLine>, file2: seq<ScopeLine>, a: Addr)
    requires forall x :: x in file1 <==> x in file2
    ensures ScopeCheck(file1, a).Ok? == ScopeCheck(file2, a).Ok?
    ensures ScopeCheck(file1, a).Ok? ==> ScopeCheck(file1, a).value == ScopeCheck(file2, a).value
  {
    SameLinesSameRanges(file1, file2);
    SameLinesSameRanges(file2, file1);
    if AllRanges(file1) {
      SameLinesSameCover(file1, file2, a);
      SameLinesSameCover(file2, file1, a);
    }
  }

  lemma SameLinesSameRanges(file1: seq<ScopeLine>, file2: seq<ScopeLine>)
    requires forall x :: x in file1 ==> x in file2
    ensures AllRanges(file2) ==> AllRanges(file1)
  {
    if AllRanges(file2) {
      forall i | 0 <= i < |file1| ensures file1[i].range.Some? {
        assert file1[i] in file2;
      }
    }
  }

  lemma SameLinesSameCover(file1: seq<ScopeLine>, file2: seq<ScopeLine>, a: Addr)
    requires forall x :: x in file1 ==> x in file2
    requires AllRanges(file1) && AllRanges(file2)
    ensures Covers(file1, a) ==> Covers(file2, a)
  {
    if Covers(file1, a) {
      var i :| 0 <= i < |file1| && Contains(file1[i].range.value, a);
      assert file1[i] in file2;
      var j :| 0 <= j < |file2| && file2[j] == file1[i];
    }
  }

  /** The three categories an accepted event is counted under. */
  datatype Category = Cde | Corp | Out

  /**
   * The if/elsif/elsif of lines 157-169: CDE first, then Corp, then Out, with the
   * `-d`, `-c` and `-n` switches inside the guards. None: the event is not counted.
   */
  function Classify(cdeScope: bool, corpScope: bool, filterCde: bool, filterCorp: bool, filterNotInScope: bool): Option<Category> {
    if cdeScope && !filterCde then Some(Cde)
    else if corpScope && !filterCorp then Some(Corp)
    else if !corpScope && !cdeScope && !filterNotInScope then Some(Out)
    else None
  }

  /** When each category is chosen: CDE takes precedence over Corp, Out needs both scopes to miss. */
  lemma ClassifyCases(cde: bool, corp: bool, fCde: bool, fCorp: bool, fOut: bool)
    ensures Classify(cde, corp, fCde, fCorp, fOut) == Some(Cde) <==> cde && !fCde
    ensures Classify(cde, corp, fCde, fCorp, fOut) == Some(Corp) <==> corp && !fCorp && (!cde || fCde)
    ensures Classify(cde, corp, fCde, fCorp, fOut) == Some(Out) <==> !cde && !corp && !fOut
  {
  }

  /**
   * An address in both a CDE and a Corp range: CDE unless `-d`; with `-d`, Corp unless `-c`;
   * never Out.
   */
  lemma BothScopesPrecedence(fCde: bool, fCorp: bool, fOut: bool)
    ensures Classify(true, true, fCde, fCorp, fOut) == (if !fCde then Some(Cde) else if !fCorp then Some(Corp) else None)
  {
  }
}
