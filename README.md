# sleat-analyze, modelled in Dafny

`sleat-analyze.rb` reads a CSV of Windows logon events (source IP, domain, username)
together with two newline-delimited files of networks in CIDR prefix notation: the
corporate networks and the CDE (cardholder-data environment) networks. For every event
that passes its filters it decides whether the source address lies in CDE scope, in
Corp scope or out of scope. It counts the events of each kind and records the /24-style
subnet prefix of each address. At the end it prints the three counts and writes two
Graphviz diagrams. Each diagram is a star around a domain-controller node `DC`, with one
node per distinct subnet prefix.

This project models that pipeline:

- `outcomes.dfy`: `Option`, and `Result` with the two ways a run can abort: a scope-file
  line that `IPAddr.new` rejects, or a blank line in the privileged-user list.
- `strings.dfy`: `chomp`, `split`/`join`, `rpartition`, `end_with?`, ASCII `casecmp`, and
  the literal-infix test used for `grep`.
- `decimal.dfy`: canonical decimal numerals and their values.
- `ipv4.dfy`: dotted-quad text and 32-bit addresses. It covers the `Resolv::IPv4::Regex`
  test, the address text, and the subnet prefix `ip.rpartition(".")[0]`.
- `cidr.dfy`: ranges as (network, prefix length) and membership by mask arithmetic
  (`IPAddr#===`). It also reads a scope-file line as a range.
- `scope.dfy`: the scan of one scope file for one address (a loop that aborts at the first
  malformed line), and the CDE / Corp / Out decision.
- `filters.dfy`: the `-p` privileged-user check (a loop over the list) and the `-m`
  machine-account test.
- `dedup.dfy`: `Array#uniq`.
- `diagram.dfy`: the label lookup and the two star graphs.
- `pipeline.dfy`: what one row decides, how a decision changes the running state, and the
  fold over all rows, with the properties of the whole run.
- `analysis.dfy`: the script's mutable state as a class, whose `ProcessEvent` method is one
  iteration of the row loop. `Analyze` runs the loop and builds the report.
- `scenario.dfy`: a worked run. Three logons are checked against one Corp range and one
  CDE range: alice from 10.5.1.7, bob from 172.16.10.9 and eve from 8.8.8.8. The scope
  files hold 10.5.1.0/24 and 172.16.10.0/24.

The scope files and the privileged-user list are given as already-read line sequences.
Each scope-file line is paired with the range it parses to (`Scope.ReadScopeFile`). Each
privileged-user line is paired with its user part (`Filters.ReadPrivilegedUsers`). What
that reading means for the raw lines is stated by `Scope.ScopeFileCompletes`,
`Scope.ScopeFileStops`, `Scope.ScopeFileCoverage` and `Filters.PrivilegedListOfLines`.

What the code does with unusual input files:

- The user part of a privileged-user entry is the text after its *first* backslash
  (`split("\\", 2).last`).
- A blank privileged-user line splits into no fields, so `.last` is nil. `casecmp(nil)`
  then gives nil, and calling `.zero?` on it raises, so the run aborts. The line is not
  skipped.
- A blank or malformed scope-file line makes `IPAddr.new` raise, so the run aborts. It is
  not skipped. This happens only once some event reaches the scope scan, because the
  files are read only then.

## Model

| member | source | states |
|---|---|---|
| Strings.Chomp | sleat-analyze.rb:100-102 | The result is the input with at most one trailing "\n", "\r" or "\r\n" removed, and it equals the input exactly when the input does not end in a line break. |
| Strings.BeforeLast | sleat-analyze.rb:154 | `rpartition(".")[0]`: the text before the last separator, or "" when there is none. |
| Strings.SplitJoin | sleat-analyze.rb:126 | Splitting a join of separator-free fields on that separator gives the fields back. |
| Decimal.ValueOfNumeral | sleat-analyze.rb:126 | Reading back the canonical numeral of n gives n. |
| Decimal.NumeralOfValue | sleat-analyze.rb:126 | A canonical digit string is the numeral of its value. |
| IPv4.ParseAddress | sleat-analyze.rb:126 | The `Resolv::IPv4::Regex` test together with the address read from the text. Its contract is given by IPv4.ParseFormat and IPv4.FormatParse: exactly the dotted-quad texts of 32-bit addresses are accepted, each read as its own address. |
| IPv4.ParseFormat | sleat-analyze.rb:126 | The dotted-quad text of every address passes the IPv4 test and reads back as that address. |
| IPv4.FormatParse | sleat-analyze.rb:126 | Text that passes the IPv4 test is exactly the dotted-quad text of the address it reads as, so canonical text is the only accepted form. |
| IPv4.SubnetPrefix | sleat-analyze.rb:154 | `ip.split(" ").last.rpartition(".")[0]` for an accepted address, which holds no space. Its contract is given by IPv4.PrefixOfAddress and IPv4.SamePrefixIffSameBlock. |
| IPv4.PrefixOfAddress | sleat-analyze.rb:154 | The subnet prefix of an address's text is the text of its first three bytes, and the address text is that prefix, a dot and the last byte. |
| IPv4.SamePrefixIffSameBlock | sleat-analyze.rb:154 | Two addresses get the same subnet prefix exactly when they lie in the same /24 block. |
| IPv4.ExampleSubnetPrefix | sleat-analyze.rb:154 | The prefix of "10.5.1.7" is "10.5.1". |
| Cidr.Contains | sleat-analyze.rb:133 | `net===ip`: the address and the network agree once both are masked to the prefix length. Characterised by Cidr.ContainsIsInterval, Cidr.RangeBoundaries and Cidr.HostAndDefaultRanges. |
| Cidr.ContainsIsInterval | sleat-analyze.rb:133 | An address lies in a range exactly when it lies between the range's first and last address, the block of 2^(32-len) addresses holding the network. |
| Cidr.RangeBoundaries | sleat-analyze.rb:133 | The first and last addresses of a range are in it, the addresses just outside are not, and the range fits in the 32-bit space. |
| Cidr.HostAndDefaultRanges | sleat-analyze.rb:133 | A /32 range holds only its own address; a /0 range holds every address. |
| Cidr.ParseRange | sleat-analyze.rb:132 | `IPAddr.new(network.chomp)`. Characterised by Cidr.ParsesIffRangeLine, Cidr.ParseRangeText, Cidr.ParseBareAddress and Cidr.ParsedLineIsRangeText: exactly the lines holding a range in prefix notation or a bare address are read, each as the range it writes. |
| Cidr.ParsesIffRangeLine | sleat-analyze.rb:132 | A line is read as a range exactly when, once chomped, it is a range in prefix notation or a bare address. |
| Cidr.ParseRangeText | sleat-analyze.rb:132 | A line holding a range in prefix notation, followed by no line ending or by "\n", "\r" or "\r\n", reads back as that range and chomps to the range's text. |
| Cidr.ParseBareAddress | sleat-analyze.rb:132 | A line holding a bare address, followed by no line ending or by "\n", "\r" or "\r\n", reads as the /32 range of that address. |
| Cidr.ParsedLineIsRangeText | sleat-analyze.rb:132 | Every line that reads as a range is that range in prefix notation, or a bare address read as a /32. |
| Scope.ScopeCheck | sleat-analyze.rb:129-146 | The scan succeeds exactly when every line is a range; it then answers true exactly when some range holds the address; otherwise it reports a malformed line with only ranges before it. |
| Scope.ScopeFileCompletes | sleat-analyze.rb:129-146 | The scan of a scope file read from raw lines completes exactly when every line is a range in prefix notation or a bare address. |
| Scope.ScopeFileStops | sleat-analyze.rb:130-132 | A scan that does not complete reports the first line that is neither, and every line before it is one. |
| Scope.ScopeFileCoverage | sleat-analyze.rb:130-136 | A completed scan finds the address exactly when some line reads as a range that holds it. |
| Scope.FirstMalformedReported | sleat-analyze.rb:130-132 | The fault reported is the first malformed line of the file. |
| Scope.ScanNetworks | sleat-analyze.rb:130-136 | The loop over the file's lines gives the same outcome as the scan. |
| Scope.ScopeOrderIrrelevant | sleat-analyze.rb:129-146 | For two files with the same set of lines, in any order and with any repetition, either both scans complete or both abort, and completed scans give the same answer. The fault of an aborting scan names the first malformed line, so it does depend on the order. |
| Scope.Classify | sleat-analyze.rb:157-169 | The if/elsif/elsif chain that picks the category. Characterised, case by case and in both directions, by Scope.ClassifyCases and Scope.BothScopesPrecedence. |
| Scope.ClassifyCases | sleat-analyze.rb:157-169 | CDE is chosen exactly when in CDE scope without `-d`; Corp exactly when in Corp scope without `-c` and not already CDE; Out exactly when in neither scope and without `-n`. |
| Scope.BothScopesPrecedence | sleat-analyze.rb:157-165 | An address in both scopes counts as CDE without `-d`; with `-d` it counts as Corp unless `-c`; it never counts as Out. |
| Filters.UserPart | sleat-analyze.rb:110 | The user part is the suffix after the first backslash, or the whole entry when it has none. |
| Filters.UserPartOfQualified | sleat-analyze.rb:108-110 | For `domain\user` with a domain holding no backslash, the user part is `user`. |
| Filters.EntryUser | sleat-analyze.rb:110 | One privileged-user line: nothing for a line that is blank once chomped, which is what makes `.zero?` raise; otherwise the user part of the chomped line. Filters.ExampleEntry shows it on "CORP\alice" with its newline. |
| Filters.PrivilegedListOfLines | sleat-analyze.rb:106-113 | For a list read from raw lines, the check raises exactly when some line is blank once chomped. Otherwise the username proceeds exactly when it equals, ignoring case, the user part of some chomped line. |
| Filters.PrivilegedCheck | sleat-analyze.rb:106-113 | The outcome of the `-p` check. Its loop, Filters.IsPrivileged, is proved to compute it; Filters.PrivilegedIgnoresCase and Filters.PrivilegedExample state its properties. |
| Filters.IsPrivileged | sleat-analyze.rb:106-113 | The loop over the list aborts on a blank line; otherwise it answers whether the username equals some entry's user part, ignoring case. |
| Filters.PrivilegedIgnoresCase | sleat-analyze.rb:110 | Usernames that differ only in letter case get the same answer. |
| Filters.PrivilegedExample | sleat-analyze.rb:106-113 | With the entry "CORP\alice", "alice" and "ALICE" are privileged and "bob" is not. |
| Filters.IsMachineAccount | sleat-analyze.rb:120 | `username.end_with?("$")`. Pipeline.MachineFilterOnlyHitsMachineAccounts states what `-m` does with it. |
| Dedup.Uniq | sleat-analyze.rb:180-184 | The result has no duplicates, holds exactly the input's elements, and is no longer than the input. |
| Dedup.UniqKeepsFirstOccurrenceOrder | sleat-analyze.rb:180-184 | Elements of the result appear in the order of their first occurrence in the input. |
| Dedup.UniqAbsorbsSeen | sleat-analyze.rb:182-184 | Appending elements already present leaves the result of `uniq` unchanged, so re-pushing a scope file's lines changes no diagram. |
| Diagram.GroupLabel | sleat-analyze.rb:187-198 | A group node's label: the grep result joined with ", " and chomped. Diagram.Grep states which lines it holds and their order; Diagram.LabelListsRangesOfSubnet states which scope lines it must hold. |
| Diagram.Grep | sleat-analyze.rb:187-188 | The label lines of a prefix are exactly the scope lines containing prefix + ".", kept in the order of the scope lines, and no more of them than there are scope lines. A repeated matching line is kept each time, as Ruby's `grep` keeps it; scope lines without duplicates give a label list without duplicates. |
| Diagram.LabelListsRangesOfSubnet | sleat-analyze.rb:187-188 | A scope line that reads as a range whose network lies in an address's /24 block appears in the label of that address's prefix. This holds in either notation and with any line ending. |
| Diagram.InScopeGraph | sleat-analyze.rb:191-203 | The nodes and edges of inscope.dot, built from the de-duplicated arrays. Characterised by Diagram.InScopeGraphIsStar and Diagram.InScopeGraphNodes. |
| Diagram.InScopeGraphIsStar | sleat-analyze.rb:196-201 | The in-scope diagram is a star: `DC` and one node per distinct CDE prefix and per distinct Corp prefix, all ids distinct, with one `DC --` edge per node. |
| Diagram.InScopeGraphNodes | sleat-analyze.rb:196-198 | Its nodes are `DC`, then the `vlanInCde<i>` nodes of the distinct CDE prefixes in order, then the `vlanInCorp<i>` nodes of the distinct Corp prefixes in order, each labelled with the scope lines that mention its prefix. |
| Diagram.OutOfScopeGraph | sleat-analyze.rb:205-216 | The nodes and edges of outscope.dot, built from the de-duplicated array. Characterised by Diagram.OutOfScopeGraphShape. |
| Diagram.OutOfScopeGraphShape | sleat-analyze.rb:211-214 | The out-of-scope diagram is a star with one node `vlanOutOfScope<i>` per distinct Out prefix, labelled prefix + ".0", and one `DC --` edge per node. |
| Pipeline.Proceed | sleat-analyze.rb:103-123 | `proceed` after the `-p` and `-m` filters, or the fault of a blank `-p` line. Characterised through Pipeline.RejectedRowChangesNothing, Pipeline.UnlistedUserChangesNothing, Pipeline.MachineFilterOnlyHitsMachineAccounts and Pipeline.ScannedRowWasAccepted. |
| Pipeline.Accepted | sleat-analyze.rb:126 | The guard: the address of a dotted-quad text other than 127.0.0.1, for a row that proceeds. Characterised by Pipeline.AcceptedRowIsScanned and Pipeline.ScannedRowWasAccepted. |
| Pipeline.Decide | sleat-analyze.rb:100-169 | What one row does: raise, be skipped, or be scanned and filed under at most one category with its subnet prefix. Characterised by Pipeline.AcceptedRowIsScanned and Pipeline.ScannedRowWasAccepted. |
| Pipeline.Apply | sleat-analyze.rb:131-169 | How a decision changes the state. Characterised by Pipeline.ApplyTally and Pipeline.StepBumpsAtMostOneCounter. |
| Pipeline.Step | sleat-analyze.rb:99-170 | One iteration of the row loop. Characterised by Pipeline.StepBumpsAtMostOneCounter; Analysis.Analyzer.ProcessEvent is proved to compute it. |
| Pipeline.Run | sleat-analyze.rb:99-171 | The whole row loop. Characterised by Pipeline.RunSnoc, Pipeline.RunFailsAtFirstFault, Pipeline.RunStopsAtFault and Pipeline.FoldTally; Analysis.Analyze is proved to compute it. |
| Pipeline.RejectedRowChangesNothing | sleat-analyze.rb:119-126 | A row whose address is not a dotted quad, is 127.0.0.1, or whose username ends in `$` under `-m` changes no counter and no list. Only a blank `-p` line can make it abort. |
| Pipeline.UnlistedUserChangesNothing | sleat-analyze.rb:106-116 | With `-p`, a username not on the list, ignoring case, changes nothing. |
| Pipeline.MachineFilterOnlyHitsMachineAccounts | sleat-analyze.rb:119-123 | `-m` makes no difference for a username that does not end in `$`. |
| Pipeline.SameProceedSameDecision | sleat-analyze.rb:100-169 | Two runs that give a row the same filter verdict, and have the same scope files and scope switches, decide that row alike. |
| Pipeline.AcceptedRowIsScanned | sleat-analyze.rb:126-169 | For a row that passes the guard, a malformed Corp line aborts before the CDE file is looked at. With both files well formed, the row is classified by the ranges that hold its address, under its /24 prefix. |
| Pipeline.ScannedRowWasAccepted | sleat-analyze.rb:126-169 | Conversely, a scanned row passed the guard, both files are well formed, and its category and prefix are those of its address. |
| Pipeline.StepBumpsAtMostOneCounter | sleat-analyze.rb:154-169 | One row raises at most one counter by one, lowers none, and appends its subnet prefix to exactly the list of the counter it raised. |
| Pipeline.ApplyTally | sleat-analyze.rb:131-169 | A decision appends its prefix to exactly the list of its category, raises that counter by one, and pushes both files' lines only when the row was scanned. |
| Pipeline.RunSnoc | sleat-analyze.rb:99-171 | Processing one more row is one more step of the loop. |
| Pipeline.RunFailsAtFirstFault | sleat-analyze.rb:99-171 | The run completes exactly when no row raises; otherwise its fault is that of the first row that raises. |
| Pipeline.RunStopsAtFault | sleat-analyze.rb:99-171 | Once some prefix of the rows has raised, nothing after it changes the outcome. |
| Pipeline.FoldTally | sleat-analyze.rb:129-169 | After a completed run, each category's list holds the prefixes of the rows counted under it, in row order, and its counter equals that list's length. Each scope list holds its file's lines once per scanned row. |
| Pipeline.AtMostOneCountPerRow | sleat-analyze.rb:157-169 | The three counts add up to at most the number of scanned rows, which is at most the number of rows. |
| Pipeline.GroupsAreSound | sleat-analyze.rb:154-169 | Every prefix filed under a category is the /24 prefix of some row whose address the scope files classify that way. |
| Pipeline.ScopeListsHoldFileLines | sleat-analyze.rb:131-141 | After a completed run, a scope list holds exactly its file's lines when some row was scanned, and nothing otherwise. |
| Pipeline.SameScanDifferentSwitches | sleat-analyze.rb:157-169 | Changing only `-d`, `-c` and `-n` changes neither whether a row raises, nor whether it is scanned, nor its prefix. Both categories come from the same two scope verdicts. |
| Pipeline.InScopeVerdictIgnoresOutSwitch | sleat-analyze.rb:157-169 | For one row, `-n` changes neither whether it raises, nor whether it is scanned, nor whether it is filed as CDE or Corp with which prefix. |
| Pipeline.CdeVerdictIgnoresCorpAndOutSwitches | sleat-analyze.rb:157-160 | For one row, `-c` and `-n` change neither whether it raises nor whether it is filed as CDE with which prefix. |
| Pipeline.OutVerdictIgnoresCdeAndCorpSwitches | sleat-analyze.rb:165-168 | For one row, `-d` and `-c` change neither whether it raises nor whether it is filed as Out with which prefix. |
| Pipeline.CdeResultIgnoresCorpAndOutSwitches | sleat-analyze.rb:157-169 | `-c` and `-n` change neither whether the run completes nor the CDE count and CDE prefixes. |
| Pipeline.OutResultIgnoresCdeAndCorpSwitches | sleat-analyze.rb:157-169 | `-d` and `-c` change neither whether the run completes nor the Out count and Out prefixes. |
| Pipeline.OnlyOutDependsOnNotInScopeSwitch | sleat-analyze.rb:165-169 | `-n` changes only the Out result. Completion, the CDE and Corp counts and prefixes, and the scope lists stay the same. |
| Analysis.Analyzer.constructor | sleat-analyze.rb:84-96 | All counters start at zero and all arrays start empty. |
| Analysis.Analyzer.Record | sleat-analyze.rb:131-169 | Pushes both files' lines, then raises the counter and extends the array of the category the if/elsif/elsif picks. |
| Analysis.Analyzer.ProcessEvent | sleat-analyze.rb:100-170 | One iteration of the row loop leaves the fields equal to one `Step` of the pipeline, or returns that step's fault. |
| Analysis.Analyze | sleat-analyze.rb:99-216 | The whole script aborts exactly when the run does, with the same fault; otherwise it returns the counts and the two diagrams of the run's final state. |
| Analysis.Summarize | sleat-analyze.rb:174-216 | The report: the three printed counts and the two diagrams, from the final state. Characterised by Analysis.ReportOfRun and Analysis.InScopeDiagramOfFiles. |
| Analysis.ReportOfRun | sleat-analyze.rb:174-216 | Each reported count is the number of rows counted under its category, and the three add up to at most the number of rows. Both diagrams are stars with one node per distinct prefix. |
| Scenario.ThreeLogonDecisions | sleat-analyze.rb:100-169 | With no switches and one range per scope file, a logon from the Corp range only, one from the CDE range and one from neither are filed as Corp, CDE and Out, with their /24 prefixes. |
| Scenario.ThreeLogonReport | sleat-analyze.rb:99-216 | The run over those three logons completes with one event per category. The in-scope diagram is `DC`, `vlanInCde0` labelled with the CDE range and `vlanInCorp0` labelled with the Corp range; the out-of-scope diagram is `DC` and `vlanOutOfScope0` labelled with the third address's block. |
| Scenario.ScenarioInputs | sleat-analyze.rb:99-101 | The worked example's rows are ("10.5.1.7", "CORP", "alice"), ("172.16.10.9", "CORP", "bob") and ("8.8.8.8", "CORP", "eve"); its scope files hold "10.5.1.0/24" and "172.16.10.0/24". |
| Scenario.ScenarioReport | sleat-analyze.rb:99-216 | On the worked example: CDE 1 (bob), Corp 1 (alice), Out 1 (eve); in-scope nodes labelled "172.16.10.0/24" and "10.5.1.0/24"; one out-of-scope node labelled "8.8.8.0". |
| Analysis.InScopeDiagramOfFiles | sleat-analyze.rb:131-198 | For a run whose scope files were read from given lines, the in-scope diagram is the star of the distinct CDE and Corp prefixes, labelled from the files' own distinct lines, however many rows were scanned. |

## Left out

- Option parsing, the usage text and the argument-count check (sleat-analyze.rb:13-82):
  the switches are fields of `Pipeline.Config`.
- Reading the CSV and the three text files: rows and lines are parameters. The files are
  taken to be the same on every re-read.
- Console output (the per-event lines, the summary and the closing hint). With it goes
  `-u`, which only shortens the printed event lines. The `domain` field is read but only
  printed, so nothing in the model uses it.
- The bytes of the two `.dot` files and their constant style lines: the model builds the
  node and edge lists.
- Diagram.Grep: `grep(/#{x}\./)` is a regular expression in which each `.` of the prefix
  matches any character. The model uses a literal substring test for `prefix + "."`, so it
  can miss lines the regular expression would also match.
- IPv4.ParseAddress: `Resolv::IPv4::Regex` is modelled as four canonical decimal octets
  from 0 to 255 joined by dots.
- Cidr.ParseRange: `IPAddr.new` is modelled for a dotted-quad address, optionally followed
  by "/" and a canonical prefix length from 0 to 32. A netmask written as a dotted quad,
  IPv6 networks and other library forms are read as malformed, and so abort the run. The
  range keeps the written network address; membership masks both sides, as `IPAddr#===`
  does.
- Analysis.Analyzer.ProcessEvent: the source pushes each scope line before parsing it. The
  model pushes a file's lines after the scans succeed. The two differ only on a run that
  aborts, whose state is never reported.
