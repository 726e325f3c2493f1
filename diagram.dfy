/**
 * The two Graphviz diagrams (sleat-analyze.rb:186-216) as node and edge lists: a star
 * around the domain-controller node, one spoke per distinct subnet prefix.
 */
module Diagram {
  import opened Outcomes
  import opened Strings
  import opened Decimal
  import opened IPv4
  import opened Cidr
  import opened Dedup

  datatype Node = Node(id: string, caption: string)

  /** `DC -- {id}`: an undirected edge. */
  datatype Edge = Edge(from: string, to: string)

  datatype Graph = Graph(nodes: seq<Node>, edges: seq<Edge>)

  /** `DC [label="DC1", ...]`, the centre of both diagrams. */
  const Center: Node := Node("DC", "DC1")

  /** `r` is `s` with some elements left out, the rest in their original order. */
  predicate IsSubsequence(r: seq<string>, s: seq<string>)
    decreases |s|
  {
    r == [] || (s != [] && ((r[0] == s[0] && IsSubsequence(r[1..], s[1..])) || IsSubsequence(r, s[1..])))
  }

  /** `definitions.grep(/#{prefix}\./)`, read as a literal substring test for `prefix + "."`. */
  function Grep(definitions: seq<string>, prefix: string): (r: seq<string>)
    ensures |r| <= |definitions|
    ensures forall x :: x in r <==> x in definitions && HasInfix(x, prefix + ".")
    ensures IsSubsequence(r, definitions)
    ensures NoDuplicates(definitions) ==> NoDuplicates(r)
  {
    if definitions == [] then []
    else
      var rest := Grep(definitions[1..], prefix);
      assert forall x :: x in definitions <==> x == definitions[0] || x in definitions[1..];
      if HasInfix(definitions[0], prefix + ".") then
        assert ([definitions[0]] + rest)[1..] == rest;
        [definitions[0]] + rest
      else rest
  }

  /** `x.join(", ").chomp` for the matching scope lines. */
  function GroupLabel(definitions: seq<string>, prefix: string): string {
    Chomp(Join(Grep(definitions, prefix), ", "))
  }

  /** `vlanInCde#{i}` / `vlanInCorp#{i}` nodes, one per subnet prefix, in order. */
  function GroupNodes(kind: string, groups: seq<string>, definitions: seq<string>): seq<Node>
  {
    seq(|groups|, i requires 0 <= i < |groups| => Node(kind + Numeral(i), GroupLabel(definitions, groups[i])))
  }

  /** `vlanOutOfScope#{i} [label="#{x}.0"]` nodes. */
  function OutNodes(groups: seq<string>): seq<Node>
  {
    seq(|groups|, i requires 0 <= i < |groups| => Node("vlanOutOfScope" + Numeral(i), groups[i] + ".0"))
  }

  /** One `DC -- {id}` edge per node, in the same order. */
  function Spokes(nodes: seq<Node>): seq<Edge>
  {
    seq(|nodes|, i requires 0 <= i < |nodes| => Edge(Center.id, nodes[i].id))
  }

  /** inscope.dot (lines 191-203), from the de-duplicated arrays. */
  function InScopeGraph(inCde: seq<string>, cdeScopeLines: seq<string>, inCorp: seq<string>, corpScopeLines: seq<string>): Graph {
    InScopeStar(Uniq(inCde), Uniq(cdeScopeLines), Uniq(inCorp), Uniq(corpScopeLines))
  }

  /** CDE groups first, then Corp groups, each labelled from its scope lines. */
  function InScopeStar(cdeGroups: seq<string>, cdeLines: seq<string>, corpGroups: seq<string>, corpLines: seq<string>): Graph {
    var cde := GroupNodes("vlanInCde", cdeGroups, cdeLines);
    var corp := GroupNodes("vlanInCorp", corpGroups, corpLines);
    Graph([Center] + cde + corp, Spokes(cde + corp))
  }

  /** outscope.dot (lines 205-216): one group per out-of-scope prefix, labelled `prefix + ".0"`. */
  function OutOfScopeGraph(notInScope: seq<string>): Graph {
    var out := OutNodes(Uniq(notInScope));
    Graph([Center] + out, Spokes(out))
  }

  predicate DistinctIds(nodes: seq<Node>) {
    forall i, j :: 0 <= i < j < |nodes| ==> nodes[i].id != nodes[j].id
  }

  /** A star: the centre first, then one edge from the centre to each other node, no id twice. */
  predicate IsStar(g: Graph) {
    && |g.nodes| >= 1
    && g.nodes[0] == Center
    && |g.edges| == |g.nodes| - 1
    && (forall i :: 0 <= i < |g.edges| ==> g.edges[i] == Edge(Center.id, g.nodes[i + 1].id))
    && DistinctIds(g.nodes)
  }

  /** The ids `kind0`, `kind1`, ... that the diagrams give to the nodes of one kind. */
  predicate NumberedIds(nodes: seq<Node>, kind: string) {
    forall i :: 0 <= i < |nodes| ==> nodes[i].id == kind + Numeral(i)
  }

  /** Node ids of one kind differ when their numbers differ. */
  lemma NumberedIdsDiffer(kind: string, i: nat, j: nat)
    requires i != j
    ensures kind + Numeral(i) != kind + Numeral(j)
  {
    if kind + Numeral(i) == kind + Numeral(j) {
      assert (kind + Numeral(i))[|kind|..] == Numeral(i);
      assert (kind + Numeral(j))[|kind|..] == Numeral(j);
      NumeralInjective(i, j);
    }
  }

  lemma {:induction false} NumberedDistinct(nodes: seq<Node>, kind: string)
    requires NumberedIds(nodes, kind)
    ensures DistinctIds(nodes)
  {
    forall i, j | 0 <= i < j < |nodes| ensures nodes[i].id != nodes[j].id {
      NumberedIdsDiffer(kind, i, j);
    }
  }

  /** Two kinds neither of which is a prefix of the other. */
  predicate PrefixFree(x: string, y: string) {
    !(x <= y) && !(y <= x)
  }

  /** Ids built on prefix-free kinds differ, whatever follows the kind. */
  lemma PrefixFreeIds(x: string, y: string, s: string, t: string)
    requires PrefixFree(x, y)
    ensures x + s != y + t
  {
    var m := if |x| <= |y| then |x| else |y|;
    assert x[..m] != y[..m];
    var k :| 0 <= k < m && x[k] != y[k];
    assert (x + s)[k] != (y + t)[k];
  }

  /** Two numbered groups whose kinds are prefix-free share no id. */
  lemma {:induction false} NumberedGroupsDistinct(a: seq<Node>, kindA: string, b: seq<Node>, kindB: string)
    requires NumberedIds(a, kindA) && NumberedIds(b, kindB)
    requires PrefixFree(kindA, kindB)
    ensures DistinctIds(a + b)
  {
    NumberedDistinct(a, kindA);
    NumberedDistinct(b, kindB);
    var ab := a + b;
    forall i, j | 0 <= i < j < |ab| ensures ab[i].id != ab[j].id {
      if j < |a| {
        assert ab[i] == a[i] && ab[j] == a[j];
      } else if i >= |a| {
        assert ab[i] == b[i - |a|] && ab[j] == b[j - |a|];
      } else {
        assert ab[i].id == kindA + Numeral(i) && ab[j].id == kindB + Numeral(j - |a|);
        PrefixFreeIds(kindA, kindB, Numeral(i), Numeral(j - |a|));
      }
    }
  }

  lemma {:induction false} CenterFirst(nodes: seq<Node>)
    requires DistinctIds(nodes)
    requires forall i :: 0 <= i < |nodes| ==> |nodes[i].id| > 0 && nodes[i].id[0] == 'v'
    ensures DistinctIds([Center] + nodes)
  {
    var all := [Center] + nodes;
    forall i, j | 0 <= i < j < |all| ensures all[i].id != all[j].id {
      assert all[j] == nodes[j - 1];
      if i == 0 {
        assert all[j].id[0] == 'v';
        assert Center.id[0] == 'D';
      } else {
        assert all[i] == nodes[i - 1];
      }
    }
  }

  lemma {:induction false} SpokesFollowNodes(nodes: seq<Node>)
    ensures forall i :: 0 <= i < |nodes| ==> Spokes(nodes)[i] == Edge(Center.id, ([Center] + nodes)[i + 1].id)
  {
    var all := [Center] + nodes;
    forall i | 0 <= i < |nodes| ensures Spokes(nodes)[i] == Edge(Center.id, all[i + 1].id) {
      assert all[i + 1] == nodes[i];
    }
  }

  /** The centre joined to nodes with distinct ids that all start with `v` forms a star. */
  lemma {:induction false} StarAround(nodes: seq<Node>)
    requires DistinctIds(nodes)
    requires forall i :: 0 <= i < |nodes| ==> |nodes[i].id| > 0 && nodes[i].id[0] == 'v'
    ensures IsStar(Graph([Center] + nodes, Spokes(nodes)))
  {
    CenterFirst(nodes);
    SpokesFollowNodes(nodes);
  }

  /** Every node of two numbered groups has an id starting with `v`. */
  lemma {:induction false} GroupIdsStartWithV(a: seq<Node>, kindA: string, b: seq<Node>, kindB: string)
    requires NumberedIds(a, kindA) && NumberedIds(b, kindB)
    requires |kindA| > 0 && |kindB| > 0 && kindA[0] == 'v' && kindB[0] == 'v'
    ensures forall i :: 0 <= i < |a + b| ==> |(a + b)[i].id| > 0 && (a + b)[i].id[0] == 'v'
  {
    forall i | 0 <= i < |a + b| ensures |(a + b)[i].id| > 0 && (a + b)[i].id[0] == 'v' {
      if i < |a| {
        assert (a + b)[i].id == kindA + Numeral(i);
      } else {
        assert (a + b)[i].id == kindB + Numeral(i - |a|);
      }
    }
  }

  /** The star built from two numbered groups: `DC` first, then the first group, then the second. */
  lemma {:induction false} TwoGroupStar(a: seq<Node>, kindA: string, b: seq<Node>, kindB: string)
    requires NumberedIds(a, kindA) && NumberedIds(b, kindB)
    requires |kindA| > 0 && |kindB| > 0 && kindA[0] == 'v' && kindB[0] == 'v' && PrefixFree(kindA, kindB)
    ensures IsStar(Graph([Center] + a + b, Spokes(a + b)))
  {
    NumberedGroupsDistinct(a, kindA, b, kindB);
    GroupIdsStartWithV(a, kindA, b, kindB);
    StarAround(a + b);
    assert [Center] + (a + b) == [Center] + a + b;
  }

  lemma {:induction false} InScopeStarIsStar(cdeGroups: seq<string>, cdeLines: seq<string>, corpGroups: seq<string>, corpLines: seq<string>)
    ensures var g := InScopeStar(cdeGroups, cdeLines, corpGroups, corpLines);
      IsStar(g) && |g.nodes| == 1 + |cdeGroups| + |corpGroups|
  {
    var cde := GroupNodes("vlanInCde", cdeGroups, cdeLines);
    var corp := GroupNodes("vlanInCorp", corpGroups, corpLines);
    assert "vlanInCde"[7] != "vlanInCorp"[7];
    TwoGroupStar(cde, "vlanInCde", corp, "vlanInCorp");
  }

  /**
   * The in-scope diagram is a star around `DC`, with one node per distinct CDE prefix and
   * one per distinct Corp prefix.
   */
  lemma {:induction false} InScopeGraphIsStar(inCde: seq<string>, cdeScopeLines: seq<string>, inCorp: seq<string>, corpScopeLines: seq<string>)
    ensures var g := InScopeGraph(inCde, cdeScopeLines, inCorp, corpScopeLines);
      IsStar(g) && |g.nodes| == 1 + |Uniq(inCde)| + |Uniq(inCorp)|
  {
    var cg, cl, pg, pl := Uniq(inCde), Uniq(cdeScopeLines), Uniq(inCorp), Uniq(corpScopeLines);
    InScopeStarIsStar(cg, cl, pg, pl);
  }

  /**
   * The nodes of the in-scope diagram: `DC`, then the nodes of the distinct CDE prefixes
   * (`vlanInCde<i>`), then those of the distinct Corp prefixes (`vlanInCorp<i>`), each
   * labelled with the scope lines that mention its prefix.
   */
  lemma {:induction false} InScopeGraphNodes(inCde: seq<string>, cdeScopeLines: seq<string>, inCorp: seq<string>, corpScopeLines: seq<string>)
    ensures var g, cg, pg := InScopeGraph(inCde, cdeScopeLines, inCorp, corpScopeLines), Uniq(inCde), Uniq(inCorp);
      && 1 + |cg| <= |g.nodes| && g.nodes[0] == Center
      && g.nodes[1..1 + |cg|] == GroupNodes("vlanInCde", cg, Uniq(cdeScopeLines))
      && g.nodes[1 + |cg|..] == GroupNodes("vlanInCorp", pg, Uniq(corpScopeLines))
  {
    var cg, cl, pg, pl := Uniq(inCde), Uniq(cdeScopeLines), Uniq(inCorp), Uniq(corpScopeLines);
    var cde, corp := GroupNodes("vlanInCde", cg, cl), GroupNodes("vlanInCorp", pg, pl);
    var nodes := [Center] + cde + corp;
    assert InScopeGraph(inCde, cdeScopeLines, inCorp, corpScopeLines).nodes == nodes;
    assert nodes[1..1 + |cde|] == cde;
    assert nodes[1 + |cde|..] == corp;
  }

  /** The star built from one numbered group: `DC` first, then the group in order. */
  lemma {:induction false} OneGroupStar(a: seq<Node>, kind: string)
    requires NumberedIds(a, kind)
    requires |kind| > 0 && kind[0] == 'v'
    ensures IsStar(Graph([Center] + a, Spokes(a)))
    ensures forall i :: 0 <= i < |a| ==> ([Center] + a)[1 + i] == a[i]
  {
    NumberedDistinct(a, kind);
    forall i | 0 <= i < |a| ensures |a[i].id| > 0 && a[i].id[0] == 'v' {
      assert a[i].id == kind + Numeral(i);
    }
    StarAround(a);
  }

  lemma {:induction false} OutOfScopeGraphShape(notInScope: seq<string>)
    ensures var g := OutOfScopeGraph(notInScope);
      && IsStar(g)
      && |g.nodes| == 1 + |Uniq(notInScope)|
      && (forall i :: 0 <= i < |Uniq(notInScope)| ==>
            g.nodes[1 + i] == Node("vlanOutOfScope" + Numeral(i), Uniq(notInScope)[i] + ".0"))
  {
    OneGroupStar(OutNodes(Uniq(notInScope)), "vlanOutOfScope");
  }

  lemma PrefixDotInfix(f: string, p: string, last: string, tail: string)
    requires f == p + "." + last
    ensures HasInfix(f + tail, p + ".")
  {
    assert f + tail == [] + (p + ".") + (last + tail);
    InfixAt([], p + ".", last + tail);
  }

  /** A line that begins with an address's text holds that address's subnet prefix and a dot. */
  lemma AddressLineHoldsPrefixDot(n: Addr, line: string)
    requires FormatAddress(n) <= line
    ensures HasInfix(line, SubnetPrefix(FormatAddress(n)) + ".")
  {
    var f := FormatAddress(n);
    PrefixOfAddress(n);
    assert line == f + line[|f|..];
    PrefixDotInfix(f, SubnetPrefix(f), Numeral(Octets(n)[3]), line[|f|..]);
  }

  /** Every scope line that reads as a range begins with the text of the range's network address. */
  lemma ScopeLineStartsWithNetwork(line: string, r: Range)
    requires ParseRange(line) == Some(r)
    ensures FormatAddress(r.network) <= line
  {
    var f, text := FormatAddress(r.network), Chomp(line);
    ParsedLineIsRangeText(line, r);
    if text == RangeText(r) {
      assert text == f + ("/" + Numeral(r.prefixLen));
    }
    assert f <= text && text <= line;
  }

  /**
   * The label of a subnet's node lists every scope line, in either notation and with any
   * line ending, that holds a range whose network address lies in that subnet's /24 block.
   */
  lemma LabelListsRangesOfSubnet(definitions: seq<string>, a: Addr, line: string, r: Range)
    requires line in definitions
    requires ParseRange(line) == Some(r)
    requires r.network / 0x100 == a / 0x100
    ensures line in Grep(definitions, SubnetPrefix(FormatAddress(a)))
  {
    SamePrefixIffSameBlock(a, r.network);
    ScopeLineStartsWithNetwork(line, r);
    AddressLineHoldsPrefixDot(r.network, line);
  }
}
