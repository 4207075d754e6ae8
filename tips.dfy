/**
  `_ncbi_tree_to_tips`: the names of the tips of a tree that carry the
  `is_actual_tip` flag, and what that list is for a tree the builder made.
 */
module TipList {
  import opened Wrappers
  import opened Report
  import opened TreeNodes
  import opened Builder

  /** The entries of `s` whose node is flagged `is_actual_tip`, in order. */
  function ActualTips(nodes: seq<Node>, s: seq<nat>): (r: seq<nat>)
    requires forall j <- s :: j < |nodes|
    ensures forall j <- r :: j in s && nodes[j].isActualTip
    ensures forall j <- s :: nodes[j].isActualTip ==> j in r
  {
    if s == [] then []
    else
      assert s[0] in s && forall j <- s[1..] :: j in s;
      (if nodes[s[0]].isActualTip then [s[0]] else []) + ActualTips(nodes, s[1..])
  }

  function NamesOf(nodes: seq<Node>, s: seq<nat>): seq<Option<string>>
    requires forall j <- s :: j < |nodes|
  {
    seq(|s|, k requires 0 <= k < |s| => assert s[k] in s; nodes[s[k]].name)
  }

  /** Node `j` is a flagged tip of the tree below `t`. */
  ghost predicate FlaggedTip(nodes: seq<Node>, depth: seq<nat>, t: nat, j: nat)
    requires WellFormed(nodes, depth) && j < |nodes|
  {
    j != t && nodes[j].children == [] && nodes[j].isActualTip && Descends(nodes, depth, j, t)
  }

  /** `[n.name for n in tree.tips() if n.is_actual_tip]`. */
  function NcbiTreeToTips(nodes: seq<Node>, ghost depth: seq<nat>, t: nat): seq<Option<string>>
    requires WellFormed(nodes, depth) && t < |nodes|
  {
    var tips := Tips(nodes, depth, t);
    NamesOf(nodes, ActualTips(nodes, tips))
  }

  /** The list holds the name of every flagged tip and nothing else. */
  lemma NcbiTreeToTipsMembers(nodes: seq<Node>, depth: seq<nat>, t: nat)
    requires WellFormed(nodes, depth) && t < |nodes|
    ensures forall j | 0 <= j < |nodes| && FlaggedTip(nodes, depth, t, j) :: nodes[j].name in NcbiTreeToTips(nodes, depth, t)
    ensures forall x <- NcbiTreeToTips(nodes, depth, t) ::
              exists j | 0 <= j < |nodes| :: FlaggedTip(nodes, depth, t, j) && nodes[j].name == x
  {
    var a := ActualTips(nodes, Tips(nodes, depth, t));
    var r := NcbiTreeToTips(nodes, depth, t);
    forall j | 0 <= j < |nodes| && FlaggedTip(nodes, depth, t, j) ensures nodes[j].name in r {
      var k :| 0 <= k < |a| && a[k] == j;
      assert r[k] == nodes[j].name;
    }
    forall x <- r ensures exists j | 0 <= j < |nodes| :: FlaggedTip(nodes, depth, t, j) && nodes[j].name == x {
      var k :| 0 <= k < |r| && r[k] == x;
      assert a[k] in a;
      assert FlaggedTip(nodes, depth, t, a[k]);
    }
  }

  // ---------------------------------------------------------------------------
  // The tips of a tree built from a report.

  /** Row `k` is a leaf of the classification: it is the last kept row, or the next
      kept row is no deeper. */
  predicate IsLeafRow(ind: seq<nat>, k: nat)
    requires k < |ind|
  {
    k + 1 == |ind| || ind[k + 1] <= ind[k]
  }

  /** A row is a leaf exactly when no later row hangs below it. */
  lemma LeafRowChildless(base: nat, ind: seq<nat>, k: nat)
    requires k < |ind|
    ensures IsLeafRow(ind, k) <==> ChildNodes(base, ind, k, |ind|) == []
  {
    ChildNodesMembers(base, ind, k, |ind|);
    var kids := ChildNodes(base, ind, k, |ind|);
    assert kids != [] ==> kids[0] in kids;
    if !IsLeafRow(ind, k) {
      assert ParentRow(ind, k + 1) == k;
      assert RankIdx(base, k + 1) in kids;
    }
  }

  /** Every node of the built region lies below its root. */
  lemma {:induction false} BuiltBelowRoot(nodes: seq<Node>, depth: seq<nat>, base: nat, rows: seq<Row>, x: nat)
    requires WellFormed(nodes, depth) && Built(nodes, base, rows) && base <= x < |nodes|
    ensures Descends(nodes, depth, x, base)
    decreases x
  {
    var ind := Indents(rows);
    if x > base {
      var k := (x - base - 1) / 2;
      if x == RankIdx(base, k) {
        assert nodes[x] == RankNode(base, rows, ind, |rows|, k);
        BuiltBelowRoot(nodes, depth, base, rows, NodeOf(base, ParentRow(ind, k)));
      } else {
        assert x == IdIdx(base, k);
        assert nodes[x] == IdNode(base, rows, ind, |rows|, k, true);
        BuiltBelowRoot(nodes, depth, base, rows, RankIdx(base, k));
      }
    }
  }

  /** The tips of a built tree are exactly the identifier nodes, provided the nodes before
      it form trees of their own. */
  lemma BuiltTips(nodes: seq<Node>, depth: seq<nat>, base: nat, rows: seq<Row>)
    requires WellFormed(nodes, depth) && Built(nodes, base, rows) && ClosedUpward(nodes, 0, base)
    ensures forall j | 0 <= j < |nodes| ::
              j in Tips(nodes, depth, base) <==> exists k | 0 <= k < |rows| :: j == IdIdx(base, k)
  {
    forall j | 0 <= j < |nodes|
      ensures j in Tips(nodes, depth, base) <==> exists k | 0 <= k < |rows| :: j == IdIdx(base, k)
    {
      BuiltTipAt(nodes, depth, base, rows, j);
    }
  }

  lemma BuiltTipAt(nodes: seq<Node>, depth: seq<nat>, base: nat, rows: seq<Row>, j: nat)
    requires WellFormed(nodes, depth) && Built(nodes, base, rows) && ClosedUpward(nodes, 0, base)
    requires j < |nodes|
    ensures j in Tips(nodes, depth, base) <==> exists k | 0 <= k < |rows| :: j == IdIdx(base, k)
  {
    if j < base {
      ClosedNotBelow(nodes, depth, 0, base, j, base);
    } else if j > base {
      var k := (j - base - 1) / 2;
      if j == RankIdx(base, k) {
        assert k < |rows|;
        BuiltRankNotTip(nodes, depth, base, rows, k);
        RankNotId(base, k);
      } else {
        assert j == IdIdx(base, k);
        BuiltIdTip(nodes, depth, base, rows, k);
      }
    }
  }

  /** Rank nodes and identifier nodes never share an index. */
  lemma RankNotId(base: nat, k: nat)
    ensures forall k': nat :: RankIdx(base, k) != IdIdx(base, k')
  {
    forall k': nat ensures RankIdx(base, k) != IdIdx(base, k') {
      assert (base + 1 + 2 * k) % 2 != (base + 2 + 2 * k') % 2;
    }
  }

  lemma BuiltRankNotTip(nodes: seq<Node>, depth: seq<nat>, base: nat, rows: seq<Row>, k: nat)
    requires WellFormed(nodes, depth) && Built(nodes, base, rows) && k < |rows|
    ensures RankIdx(base, k) !in Tips(nodes, depth, base)
  {
    var j := RankIdx(base, k);
    assert nodes[j] == RankNode(base, rows, Indents(rows), |rows|, k);
    assert IdIdx(base, k) in nodes[j].children;
  }

  lemma BuiltIdTip(nodes: seq<Node>, depth: seq<nat>, base: nat, rows: seq<Row>, k: nat)
    requires WellFormed(nodes, depth) && Built(nodes, base, rows) && IdIdx(base, k) < |nodes|
    ensures k < |rows| && IdIdx(base, k) in Tips(nodes, depth, base)
  {
    assert nodes[IdIdx(base, k)] == IdNode(base, rows, Indents(rows), |rows|, k, true);
    BuiltBelowRoot(nodes, depth, base, rows, IdIdx(base, k));
  }

  /** `_ncbi_tree_to_tips` of a built tree: the taxonomy ids of exactly the leaf rows. */
  lemma BuiltTipNames(nodes: seq<Node>, depth: seq<nat>, base: nat, rows: seq<Row>)
    requires WellFormed(nodes, depth) && Built(nodes, base, rows) && ClosedUpward(nodes, 0, base)
    ensures forall x :: x in NcbiTreeToTips(nodes, depth, base) <==>
              exists k | 0 <= k < |rows| :: IsLeafRow(Indents(rows), k) && x == Some(IdNodeName(rows[k]))
  {
    var ind := Indents(rows);
    var r := NcbiTreeToTips(nodes, depth, base);
    BuiltTips(nodes, depth, base, rows);
    NcbiTreeToTipsMembers(nodes, depth, base);
    forall x ensures x in r <==> exists k | 0 <= k < |rows| :: IsLeafRow(ind, k) && x == Some(IdNodeName(rows[k])) {
      if x in r {
        var j :| 0 <= j < |nodes| && FlaggedTip(nodes, depth, base, j) && nodes[j].name == x;
        assert j in Tips(nodes, depth, base);
        var k :| 0 <= k < |rows| && j == IdIdx(base, k);
        assert nodes[j] == IdNode(base, rows, ind, |rows|, k, true);
        assert IsLeafRow(ind, k);
      }
      if exists k | 0 <= k < |rows| :: IsLeafRow(ind, k) && x == Some(IdNodeName(rows[k])) {
        var k :| 0 <= k < |rows| && IsLeafRow(ind, k) && x == Some(IdNodeName(rows[k]));
        var j := IdIdx(base, k);
        assert nodes[j] == IdNode(base, rows, ind, |rows|, k, true);
        assert j in Tips(nodes, depth, base);
        assert FlaggedTip(nodes, depth, base, j);
      }
    }
  }

  /** `_ncbi_tree_to_tips(_kraken_to_ncbi_tree(df))`: the tree of a report's kept rows,
      built after an existing forest whose nodes are left as they were, lists exactly the
      taxonomy ids of the leaf rows. */
  lemma ReportTipNames(prefix: seq<Node>, pdepth: seq<nat>, nodes: seq<Node>, depth: seq<nat>, rows: seq<Row>)
    requires WellFormed(prefix, pdepth) && WellFormed(nodes, depth)
    requires |prefix| < |nodes| && nodes[..|prefix|] == prefix && Built(nodes, |prefix|, rows)
    ensures forall x :: x in NcbiTreeToTips(nodes, depth, |prefix|) <==>
              exists k | 0 <= k < |rows| :: IsLeafRow(Indents(rows), k) && x == Some(IdNodeName(rows[k]))
  {
    PrefixClosed(prefix, pdepth, nodes);
    BuiltTipNames(nodes, depth, |prefix|, rows);
  }

  /** With no kept rows the root stays childless and the list is empty. */
  lemma NoRowsNoTips(nodes: seq<Node>, depth: seq<nat>, base: nat)
    requires WellFormed(nodes, depth) && Built(nodes, base, []) && ClosedUpward(nodes, 0, base)
    ensures NcbiTreeToTips(nodes, depth, base) == []
  {
    var r := NcbiTreeToTips(nodes, depth, base);
    assert r != [] ==> r[0] in r;
    BuiltTipNames(nodes, depth, base, []);
  }
}
