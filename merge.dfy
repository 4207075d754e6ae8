/**
  `_combine_ncbi_trees`: the later trees are merged into the first one in place,
  keyed by node name. A tip whose name the combined tree already has is skipped;
  otherwise its lineage is walked from the top down, a found name moving the
  insertion point down and the first missing ancestor being moved there together
  with its whole subtree.

  `full_tree.find` and `matching.find` are skbio lookups over the whole tree the
  node belongs to; `matching` always lies in the combined tree, so both are `Find`
  from the combined tree's root.
 */
module Merge {
  import opened Wrappers
  import opened TreeNodes

  /** `trees[0]` of an empty list raises IndexError. */
  datatype MergeError = NoTrees

  /** No node changes its name, and a node has a parent afterwards exactly when it had one before. */
  ghost predicate KeepsShape(n0: seq<Node>, n1: seq<Node>) {
    && |n0| == |n1|
    && forall i | 0 <= i < |n0| :: n1[i].name == n0[i].name && n1[i].parent.None? == n0[i].parent.None?
  }

  /** Every node that lay below `root` still does: nothing is removed from that tree. */
  ghost predicate Grows(n0: seq<Node>, d0: seq<nat>, n1: seq<Node>, d1: seq<nat>, root: nat)
    requires WellFormed(n0, d0) && WellFormed(n1, d1) && |n0| == |n1|
  {
    forall j | 0 <= j < |n0| :: Descends(n0, d0, j, root) ==> Descends(n1, d1, j, root)
  }

  lemma GrowsTrans(n0: seq<Node>, d0: seq<nat>, n1: seq<Node>, d1: seq<nat>, n2: seq<Node>, d2: seq<nat>, root: nat)
    requires WellFormed(n0, d0) && WellFormed(n1, d1) && WellFormed(n2, d2)
    requires KeepsShape(n0, n1) && KeepsShape(n1, n2)
    requires Grows(n0, d0, n1, d1, root) && Grows(n1, d1, n2, d2, root)
    ensures KeepsShape(n0, n2) && Grows(n0, d0, n2, d2, root)
  {
  }

  /** A name the tree under `root` has, it keeps. */
  lemma PresentGrows(n0: seq<Node>, d0: seq<nat>, n1: seq<Node>, d1: seq<nat>, root: nat, name: Option<string>)
    requires WellFormed(n0, d0) && WellFormed(n1, d1) && KeepsShape(n0, n1)
    requires Grows(n0, d0, n1, d1, root) && Present(n0, d0, root, name)
    ensures Present(n1, d1, root, name)
  {
    var j :| 0 <= j < |n0| && Descends(n0, d0, j, root) && n0[j].name == name;
    assert Descends(n1, d1, j, root) && n1[j].name == name;
  }

  /** Appending below a node `m` of the tree under `root` a named node `c` whose name that
      tree lacks: the append closes no cycle, keeps every node of the tree, and brings the
      whole subtree of `c` into it. */
  lemma GraftKeepsTree(nodes: seq<Node>, depth: seq<nat>, root: nat, m: nat, c: nat)
    requires WellFormed(nodes, depth) && root < |nodes| && nodes[root].parent.None?
    requires m < |nodes| && Descends(nodes, depth, m, root)
    requires c < |nodes| && nodes[c].parent.Some? && nodes[c].name.Some?
    requires !Present(nodes, depth, root, nodes[c].name)
    ensures !Descends(nodes, depth, m, c)
    ensures m != c && nodes[c].parent.value < |nodes|
    ensures WellFormed(Adopt(nodes, m, c), Regraft(nodes, depth, m, c))
    ensures KeepsShape(nodes, Adopt(nodes, m, c))
    ensures Grows(nodes, depth, Adopt(nodes, m, c), Regraft(nodes, depth, m, c), root)
    ensures forall j | 0 <= j < |nodes| && Descends(nodes, depth, j, c) ::
              Descends(Adopt(nodes, m, c), Regraft(nodes, depth, m, c), j, root)
  {
    RootIsTop(nodes, depth, root, c);
    assert !Descends(nodes, depth, c, root);
    assert !Descends(nodes, depth, m, c) by {
      if Descends(nodes, depth, m, c) {
        DescendsComparable(nodes, depth, m, root, c);
        assert false;
      }
    }
    AdoptWellFormed(nodes, depth, m, c);
    var n', d' := Adopt(nodes, m, c), Regraft(nodes, depth, m, c);
    forall j | 0 <= j < |nodes| && Descends(nodes, depth, j, root) ensures Descends(n', d', j, root) {
      assert !Descends(nodes, depth, j, c) by {
        if Descends(nodes, depth, j, c) {
          DescendsComparable(nodes, depth, j, root, c);
          assert false;
        }
      }
      AdoptKeepsOthers(nodes, depth, m, c, j, root);
    }
    forall j | 0 <= j < |nodes| && Descends(nodes, depth, j, c) ensures Descends(n', d', j, root) {
      AdoptMovesSubtree(nodes, depth, m, c, j, root);
    }
  }

  /** `list(tip.ancestors())[:-1]`: the ancestors without the (unnamed) root, nearest first.
      The first entry is the tip's parent, every entry has a parent, and the last one's
      parent is the root. */
  function Lineage(nodes: seq<Node>, ghost depth: seq<nat>, tip: nat): (r: seq<nat>)
    requires WellFormed(nodes, depth) && tip < |nodes|
    ensures nodes[tip].parent.None? ==> r == []
    ensures nodes[tip].parent.Some? ==> Ancestors(nodes, depth, tip) == r + [RootOf(nodes, depth, tip)]
    ensures r != [] ==> nodes[tip].parent == Some(r[0])
    ensures forall k | 0 <= k < |r| :: r[k] < |nodes| && nodes[r[k]].parent.Some?
    ensures r != [] ==> nodes[r[|r| - 1]].parent == Some(RootOf(nodes, depth, tip))
  {
    var anc := Ancestors(nodes, depth, tip);
    if anc == [] then []
    else
      AncestorsOrdered(nodes, depth, tip);
      AncestorsDescend(nodes, depth, tip);
      assert anc[|anc| - 1] in anc;
      RootOfUnique(nodes, depth, tip, anc[|anc| - 1]);
      assert anc == anc[..|anc| - 1] + [anc[|anc| - 1]];
      anc[..|anc| - 1]
  }

  /** Two sequences that agree once a last element is added to each are equal. */
  lemma SnocCancel(a: seq<nat>, x: nat, b: seq<nat>, y: nat)
    requires a + [x] == b + [y]
    ensures a == b
  {
    assert |a| == |b|;
    forall i | 0 <= i < |a| ensures a[i] == b[i] {
      assert (a + [x])[i] == (b + [y])[i];
    }
  }

  /** Dropping a prefix of `a + [x]` leaves the rest of `a` followed by `x`. */
  lemma SnocDrop(a: seq<nat>, x: nat, i: nat)
    requires i <= |a|
    ensures (a + [x])[i..] == a[i..] + [x]
  {
  }

  /** The lineage of an entry is the part of the lineage above it. */
  lemma LineageSuffix(nodes: seq<Node>, depth: seq<nat>, tip: nat, k: nat)
    requires WellFormed(nodes, depth) && tip < |nodes| && k < |Lineage(nodes, depth, tip)|
    ensures Lineage(nodes, depth, Lineage(nodes, depth, tip)[k]) == Lineage(nodes, depth, tip)[k + 1..]
  {
    var lineage := Lineage(nodes, depth, tip);
    var c := lineage[k];
    var anc := Ancestors(nodes, depth, tip);
    var root := RootOf(nodes, depth, tip);
    assert anc == lineage + [root];
    assert anc[k] == c;
    AncestorsSuffix(nodes, depth, tip, k);
    SnocDrop(lineage, root, k + 1);
    assert Ancestors(nodes, depth, c) == lineage[k + 1..] + [root];
    assert Ancestors(nodes, depth, c) == Lineage(nodes, depth, c) + [RootOf(nodes, depth, c)];
    SnocCancel(Lineage(nodes, depth, c), RootOf(nodes, depth, c), lineage[k + 1..], root);
  }

  /** The least specific entry among `lineage[p..]` whose name the tree under `full` lacks. */
  ghost function TopMissing(nodes: seq<Node>, depth: seq<nat>, full: nat, lineage: seq<nat>, p: nat): (r: Option<nat>)
    requires WellFormed(nodes, depth) && forall k | 0 <= k < |lineage| :: lineage[k] < |nodes|
    ensures r.Some? ==> p <= r.value < |lineage| && !Present(nodes, depth, full, nodes[lineage[r.value]].name)
    ensures r.Some? ==> forall l | r.value < l < |lineage| :: Present(nodes, depth, full, nodes[lineage[l]].name)
    ensures r.None? <==> forall l | p <= l < |lineage| :: Present(nodes, depth, full, nodes[lineage[l]].name)
    decreases |lineage| - p
  {
    if p >= |lineage| then None
    else match TopMissing(nodes, depth, full, lineage, p + 1)
      case Some(k) => Some(k)
      case None => if Present(nodes, depth, full, nodes[lineage[p]].name) then None else Some(p)
  }

  /** The insertion point once the entries `lineage[p..]` were all found: `full` before
      the first of them, then the node `find` returned for the last one visited. */
  ghost function Point(nodes: seq<Node>, depth: seq<nat>, full: nat, lineage: seq<nat>, p: nat): (r: nat)
    requires WellFormed(nodes, depth) && full < |nodes| && p <= |lineage|
    requires forall k | 0 <= k < |lineage| :: lineage[k] < |nodes|
    ensures r < |nodes| && Descends(nodes, depth, r, full)
  {
    if p == |lineage| then full
    else match Find(nodes, depth, full, nodes[lineage[p]].name)
      case Some(x) => x
      case None => full
  }

  /** The append made by the walk of `tip`'s lineage once it has visited the entries from
      index `p` up: none while every visited name was found; otherwise the least specific
      entry with a missing name, moved below the insertion point reached just before it. */
  ghost function Graft(nodes: seq<Node>, depth: seq<nat>, full: nat, tip: nat, p: nat): (r: Option<(nat, nat)>)
    requires WellFormed(nodes, depth) && NamedBelowRoots(nodes) && full < |nodes| && tip < |nodes|
    ensures r.Some? ==> && r.value.0 < |nodes| && r.value.1 < |nodes| && r.value.0 != r.value.1
                        && nodes[r.value.1].parent.Some? && nodes[r.value.1].parent.value < |nodes|
  {
    var lineage := Lineage(nodes, depth, tip);
    match TopMissing(nodes, depth, full, lineage, p)
    case None => None
    case Some(k) =>
      assert 0 <= k < |lineage|;
      var c := lineage[k];
      assert nodes[c].parent.Some? && LinkedUp(nodes, depth, c);
      assert nodes[c].name.Some?;
      assert !Descends(nodes, depth, c, full);
      Some((Point(nodes, depth, full, lineage, k + 1), c))
  }

  /** Where the walk lands: it appends exactly when some lineage entry lacks its name; the
      node it moves is such an entry, every ancestor of which below the root is found, and
      it goes below the node found for its parent's name, or below `full` when its parent
      is the root. */
  lemma GraftPlacement(nodes: seq<Node>, depth: seq<nat>, full: nat, tip: nat)
    requires WellFormed(nodes, depth) && NamedBelowRoots(nodes) && full < |nodes| && tip < |nodes|
    ensures Graft(nodes, depth, full, tip, 0).None? <==>
              forall a <- Lineage(nodes, depth, tip) :: Present(nodes, depth, full, nodes[a].name)
    ensures Graft(nodes, depth, full, tip, 0).Some? ==>
              var m, c := Graft(nodes, depth, full, tip, 0).value.0, Graft(nodes, depth, full, tip, 0).value.1;
              && c in Lineage(nodes, depth, tip)
              && !Present(nodes, depth, full, nodes[c].name)
              && (forall a <- Lineage(nodes, depth, c) :: Present(nodes, depth, full, nodes[a].name))
              && (Lineage(nodes, depth, c) == [] ==> m == full)
              && (Lineage(nodes, depth, c) != [] ==> Find(nodes, depth, full, nodes[Lineage(nodes, depth, c)[0]].name) == Some(m))
  {
    var lineage := Lineage(nodes, depth, tip);
    var top := TopMissing(nodes, depth, full, lineage, 0);
    if top.None? {
      forall a <- lineage ensures Present(nodes, depth, full, nodes[a].name) {
        var l :| 0 <= l < |lineage| && lineage[l] == a;
      }
    } else {
      var k := top.value;
      var c := lineage[k];
      LineageSuffix(nodes, depth, tip, k);
      var lc := Lineage(nodes, depth, c);
      forall a <- lc ensures Present(nodes, depth, full, nodes[a].name) {
        var l :| 0 <= l < |lc| && lc[l] == a;
        assert a == lineage[k + 1 + l];
      }
      if lc != [] {
        assert lc[0] == lineage[k + 1];
      }
    }
  }

  /** Every node either now lies in the tree under `full`, or keeps its ancestors and,
      if it was childless, is still childless. */
  ghost predicate StaysOrJoins(n0: seq<Node>, d0: seq<nat>, n1: seq<Node>, d1: seq<nat>, full: nat)
    requires WellFormed(n0, d0) && WellFormed(n1, d1) && |n0| == |n1|
  {
    forall j | 0 <= j < |n0| ::
      || Descends(n1, d1, j, full)
      || (Ancestors(n1, d1, j) == Ancestors(n0, d0, j) && (n0[j].children == [] ==> n1[j].children == []))
  }

  lemma StaysOrJoinsTrans(n0: seq<Node>, d0: seq<nat>, n1: seq<Node>, d1: seq<nat>, n2: seq<Node>, d2: seq<nat>, full: nat)
    requires WellFormed(n0, d0) && WellFormed(n1, d1) && WellFormed(n2, d2) && |n0| == |n1| == |n2|
    requires StaysOrJoins(n0, d0, n1, d1, full) && StaysOrJoins(n1, d1, n2, d2, full) && Grows(n1, d1, n2, d2, full)
    ensures StaysOrJoins(n0, d0, n2, d2, full)
  {
  }

  /** After the graft every ancestor of the tip below its root has its name in the tree
      under `full`: those above the moved node were found, and the moved node and those
      below it came along with its subtree. */
  lemma GraftBringsLineage(n0: seq<Node>, d0: seq<nat>, n1: seq<Node>, d1: seq<nat>, full: nat, tip: nat)
    requires WellFormed(n0, d0) && NamedBelowRoots(n0) && full < |n0| && n0[full].parent.None? && tip < |n0|
    requires Graft(n0, d0, full, tip, 0).Some?
    requires WellFormed(n1, d1) && KeepsShape(n0, n1) && Grows(n0, d0, n1, d1, full)
    requires n1 == Adopt(n0, Graft(n0, d0, full, tip, 0).value.0, Graft(n0, d0, full, tip, 0).value.1)
    ensures forall a <- Lineage(n0, d0, tip) :: Present(n1, d1, full, n0[a].name)
  {
    var lineage := Lineage(n0, d0, tip);
    var m, c := Graft(n0, d0, full, tip, 0).value.0, Graft(n0, d0, full, tip, 0).value.1;
    GraftPoint(n0, d0, full, tip);
    var k :| 0 <= k < |lineage| && lineage[k] == c;
    LineageChain(n0, d0, tip);
    LineageSuffix(n0, d0, tip, k);
    forall a <- lineage ensures Present(n1, d1, full, n0[a].name) {
      var l :| 0 <= l < |lineage| && lineage[l] == a;
      if l > k {
        assert a == Lineage(n0, d0, c)[l - k - 1];
      }
      AdoptBringsEntry(n0, d0, n1, d1, full, m, c, a);
    }
  }

  /** A named node that the tree under `root` had, or that lies in the subtree of `c`,
      is in that tree after `c` is appended below its node `m`. */
  lemma AdoptBringsEntry(n0: seq<Node>, d0: seq<nat>, n1: seq<Node>, d1: seq<nat>, root: nat, m: nat, c: nat, a: nat)
    requires WellFormed(n0, d0) && NamedBelowRoots(n0) && root < |n0| && n0[root].parent.None?
    requires m < |n0| && Descends(n0, d0, m, root)
    requires c < |n0| && n0[c].parent.Some? && !Present(n0, d0, root, n0[c].name)
    requires WellFormed(n1, d1) && KeepsShape(n0, n1) && Grows(n0, d0, n1, d1, root)
    requires m != c && n0[c].parent.value < |n0| && n1 == Adopt(n0, m, c)
    requires a < |n0| && n0[a].parent.Some? && (Descends(n0, d0, a, c) || Present(n0, d0, root, n0[a].name))
    ensures Present(n1, d1, root, n0[a].name)
  {
    if Descends(n0, d0, a, c) {
      GraftKeepsTree(n0, d0, root, m, c);
      DescendsDepthFree(n1, Regraft(n0, d0, m, c), d1, a, root);
      assert n1[a].name == n0[a].name;
    } else {
      PresentGrows(n0, d0, n1, d1, root, n0[a].name);
    }
  }

  /** The graft moves the subtree of one node into the tree under `full` and leaves
      every other node where it was. */
  lemma GraftStaysOrJoins(n0: seq<Node>, d0: seq<nat>, n1: seq<Node>, d1: seq<nat>, full: nat, tip: nat)
    requires WellFormed(n0, d0) && NamedBelowRoots(n0) && full < |n0| && n0[full].parent.None? && tip < |n0|
    requires Graft(n0, d0, full, tip, 0).Some?
    requires WellFormed(n1, d1)
    requires n1 == Adopt(n0, Graft(n0, d0, full, tip, 0).value.0, Graft(n0, d0, full, tip, 0).value.1)
    ensures StaysOrJoins(n0, d0, n1, d1, full)
  {
    var m, c := Graft(n0, d0, full, tip, 0).value.0, Graft(n0, d0, full, tip, 0).value.1;
    GraftPoint(n0, d0, full, tip);
    AdoptStaysOrJoins(n0, d0, n1, d1, full, m, c);
  }

  /** The graft moves a named lineage entry whose name the tree under `full` lacks below a
      node of that tree. */
  lemma GraftPoint(n0: seq<Node>, d0: seq<nat>, full: nat, tip: nat)
    requires WellFormed(n0, d0) && NamedBelowRoots(n0) && full < |n0| && tip < |n0|
    requires Graft(n0, d0, full, tip, 0).Some?
    ensures var m, c := Graft(n0, d0, full, tip, 0).value.0, Graft(n0, d0, full, tip, 0).value.1;
            && Descends(n0, d0, m, full) && c in Lineage(n0, d0, tip)
            && n0[c].name.Some? && !Present(n0, d0, full, n0[c].name)
  {
    GraftPlacement(n0, d0, full, tip);
  }

  /** Appending below a node `m` of the tree under `root` a named node `c` whose name
      that tree lacks: every node joins that tree or stays where it was. */
  lemma AdoptStaysOrJoins(n0: seq<Node>, d0: seq<nat>, n1: seq<Node>, d1: seq<nat>, root: nat, m: nat, c: nat)
    requires WellFormed(n0, d0) && root < |n0| && n0[root].parent.None?
    requires m < |n0| && Descends(n0, d0, m, root)
    requires c < |n0| && n0[c].parent.Some? && n0[c].name.Some?
    requires !Present(n0, d0, root, n0[c].name)
    requires WellFormed(n1, d1) && m != c && n0[c].parent.value < |n0| && n1 == Adopt(n0, m, c)
    ensures StaysOrJoins(n0, d0, n1, d1, root)
  {
    GraftKeepsTree(n0, d0, root, m, c);
    var d' := Regraft(n0, d0, m, c);
    forall j | 0 <= j < |n0|
      ensures || Descends(n1, d1, j, root)
              || (Ancestors(n1, d1, j) == Ancestors(n0, d0, j) && (n0[j].children == [] ==> n1[j].children == []))
    {
      DescendsDepthFree(n1, d', d1, j, root);
      if !Descends(n0, d0, j, c) {
        AdoptKeepsOthers(n0, d0, m, c, j, root);
        AncestorsDepthFree(n1, d', d1, j);
      }
    }
  }

  /** The state of the `while parents` loop with `p` lineage entries still to visit: the
      visited ones either all had names the tree under `full` already had, nothing has
      changed and `matching` is the insertion point they lead to, or the arena is the one
      `Graft` predicts and the tip and the entries still to visit are in the tree. */
  ghost predicate Walking(n0: seq<Node>, d0: seq<nat>, nodes: seq<Node>, depth: seq<nat>, full: nat, tip: nat,
                          lineage: seq<nat>, p: nat, matching: nat, grafted: bool)
  {
    && WellFormed(n0, d0) && NamedBelowRoots(n0) && WellFormed(nodes, depth) && NamedBelowRoots(nodes)
    && full < |n0| && n0[full].parent.None? && tip < |n0|
    && lineage == Lineage(n0, d0, tip) && p <= |lineage|
    && KeepsShape(n0, nodes) && Grows(n0, d0, nodes, depth, full)
    && matching < |nodes| && Descends(nodes, depth, matching, full)
    && (!grafted ==>
          && nodes == n0 && depth == d0
          && (forall k | p <= k < |lineage| :: Present(n0, d0, full, n0[lineage[k]].name))
          && matching == Point(n0, d0, full, lineage, p))
    && (grafted ==>
          && Descends(nodes, depth, tip, full)
          && (forall k | 0 <= k < p :: Descends(nodes, depth, lineage[k], full))
          && Graft(n0, d0, full, tip, p).Some?
          && nodes == Adopt(n0, Graft(n0, d0, full, tip, p).value.0, Graft(n0, d0, full, tip, p).value.1))
  }

  /** Every lineage entry has a parent, lies below the later entries, and the tip lies below them all. */
  lemma LineageChain(nodes: seq<Node>, depth: seq<nat>, tip: nat)
    requires WellFormed(nodes, depth) && tip < |nodes|
    ensures forall k | 0 <= k < |Lineage(nodes, depth, tip)| ::
              && Lineage(nodes, depth, tip)[k] < |nodes|
              && nodes[Lineage(nodes, depth, tip)[k]].parent.Some?
              && Descends(nodes, depth, tip, Lineage(nodes, depth, tip)[k])
    ensures forall k, l | 0 <= k <= l < |Lineage(nodes, depth, tip)| ::
              Descends(nodes, depth, Lineage(nodes, depth, tip)[k], Lineage(nodes, depth, tip)[l])
  {
    var anc := Ancestors(nodes, depth, tip);
    AncestorsOrdered(nodes, depth, tip);
    AncestorsDescend(nodes, depth, tip);
    var lin := Lineage(nodes, depth, tip);
    forall k | 0 <= k < |lin| ensures lin[k] < |nodes| && nodes[lin[k]].parent.Some? && Descends(nodes, depth, tip, lin[k]) {
      assert lin[k] == anc[k] && anc[k] in anc;
    }
  }

  /** One pass of the loop keeps the walk's state. */
  lemma WalkStep(n0: seq<Node>, d0: seq<nat>, n1: seq<Node>, d1: seq<nat>, n2: seq<Node>, d2: seq<nat>,
                 full: nat, tip: nat, lineage: seq<nat>, p: nat, matching: nat, m: nat, grafted: bool, appended: bool)
    requires Walking(n0, d0, n1, d1, full, tip, lineage, p, matching, grafted) && 0 < p
    requires WellFormed(n2, d2) && NamedBelowRoots(n2)
    requires KeepsShape(n1, n2) && Grows(n1, d1, n2, d2, full)
    requires m < |n2| && Descends(n2, d2, m, full)
    requires appended <==> !Present(n1, d1, full, n1[lineage[p - 1]].name)
    requires !appended ==> n2 == n1 && d2 == d1 && Find(n1, d1, full, n1[lineage[p - 1]].name) == Some(m)
    requires appended ==> && m == matching && matching != lineage[p - 1]
                          && n1[lineage[p - 1]].parent.Some? && n1[lineage[p - 1]].parent.value < |n1|
                          && n2 == Adopt(n1, matching, lineage[p - 1])
    requires appended ==> forall j | 0 <= j < |n2| && Descends(n1, d1, j, lineage[p - 1]) :: Descends(n2, d2, j, full)
    ensures Walking(n0, d0, n2, d2, full, tip, lineage, p - 1, m, grafted || appended)
  {
    LineageChain(n0, d0, tip);
    GrowsTrans(n0, d0, n1, d1, n2, d2, full);
    var node := lineage[p - 1];
    if grafted {
      assert Descends(n1, d1, node, full);
      assert n1[node].parent.Some? == n0[node].parent.Some?;
      assert Present(n1, d1, full, n1[node].name);
      GraftSteady(n0, d0, full, tip, p);
    } else if !appended {
      PointStep(n0, d0, full, lineage, p, m);
    } else {
      GraftStarts(n0, d0, full, tip, p);
      assert Descends(n1, d1, tip, node);
      forall k | 0 <= k < p - 1 ensures Descends(n2, d2, lineage[k], full) {
        assert Descends(n1, d1, lineage[k], node);
      }
    }
  }

  /** Once a visited entry was appended, visiting a further entry appends nothing more. */
  lemma GraftSteady(nodes: seq<Node>, depth: seq<nat>, full: nat, tip: nat, p: nat)
    requires WellFormed(nodes, depth) && NamedBelowRoots(nodes) && full < |nodes| && tip < |nodes|
    requires 0 < p && Graft(nodes, depth, full, tip, p).Some?
    ensures Graft(nodes, depth, full, tip, p - 1) == Graft(nodes, depth, full, tip, p)
  {
    var lineage := Lineage(nodes, depth, tip);
    assert TopMissing(nodes, depth, full, lineage, p - 1) == TopMissing(nodes, depth, full, lineage, p);
  }

  /** The first visited entry with a missing name is appended at the insertion point. */
  lemma GraftStarts(nodes: seq<Node>, depth: seq<nat>, full: nat, tip: nat, p: nat)
    requires WellFormed(nodes, depth) && NamedBelowRoots(nodes) && full < |nodes| && tip < |nodes|
    requires 0 < p <= |Lineage(nodes, depth, tip)|
    requires forall k | p <= k < |Lineage(nodes, depth, tip)| ::
               Present(nodes, depth, full, nodes[Lineage(nodes, depth, tip)[k]].name)
    requires !Present(nodes, depth, full, nodes[Lineage(nodes, depth, tip)[p - 1]].name)
    ensures Graft(nodes, depth, full, tip, p - 1) ==
              Some((Point(nodes, depth, full, Lineage(nodes, depth, tip), p), Lineage(nodes, depth, tip)[p - 1]))
  {
    var lineage := Lineage(nodes, depth, tip);
    assert TopMissing(nodes, depth, full, lineage, p).None?;
    assert TopMissing(nodes, depth, full, lineage, p - 1) == Some(p - 1);
  }

  /** A found name moves the insertion point to the node found. */
  lemma PointStep(nodes: seq<Node>, depth: seq<nat>, full: nat, lineage: seq<nat>, p: nat, m: nat)
    requires WellFormed(nodes, depth) && full < |nodes| && 0 < p <= |lineage|
    requires forall k | 0 <= k < |lineage| :: lineage[k] < |nodes|
    requires Find(nodes, depth, full, nodes[lineage[p - 1]].name) == Some(m)
    ensures Point(nodes, depth, full, lineage, p - 1) == m
  {
  }

  /** Merging one tip into the tree under `full` (the body of the loop over `tree.tips()`):
      a tip whose name is found is skipped. `grafted` records whether an ancestor was moved. */
  method MergeTip(f: Forest, full: nat, tip: nat) returns (ghost grafted: bool)
    requires f.Valid() && NamedBelowRoots(f.nodes)
    requires full < |f.nodes| && f.nodes[full].parent.None? && tip < |f.nodes|
    modifies f
    ensures f.Valid() && NamedBelowRoots(f.nodes)
    ensures KeepsShape(old(f.nodes), f.nodes) && Grows(old(f.nodes), old(f.depth), f.nodes, f.depth, full)
    ensures !grafted ==> f.nodes == old(f.nodes) && f.depth == old(f.depth)
    ensures grafted ==> Descends(f.nodes, f.depth, tip, full)
    ensures grafted <==>
              && !old(Present(f.nodes, f.depth, full, f.nodes[tip].name))
              && exists a <- old(Lineage(f.nodes, f.depth, tip)) :: !old(Present(f.nodes, f.depth, full, f.nodes[a].name))
    ensures grafted <==> !old(Present(f.nodes, f.depth, full, f.nodes[tip].name)) && old(Graft(f.nodes, f.depth, full, tip, 0)).Some?
    ensures grafted ==> f.nodes == Adopt(old(f.nodes), old(Graft(f.nodes, f.depth, full, tip, 0)).value.0,
                                         old(Graft(f.nodes, f.depth, full, tip, 0)).value.1)
    ensures Merged(old(f.nodes), old(f.depth), f.nodes, f.depth, full, tip)
    ensures StaysOrJoins(old(f.nodes), old(f.depth), f.nodes, f.depth, full)
  {
    if Find(f.nodes, f.depth, full, f.nodes[tip].name).Some? {
      return false;
    }
    grafted := GraftLineage(f, full, tip);
  }

  /** The `except MissingNodeError` branch: walk the tip's lineage from the top down,
      descending into found names and appending the first missing ancestor. */
  method GraftLineage(f: Forest, full: nat, tip: nat) returns (ghost grafted: bool)
    requires f.Valid() && NamedBelowRoots(f.nodes)
    requires full < |f.nodes| && f.nodes[full].parent.None? && tip < |f.nodes|
    modifies f
    ensures f.Valid() && NamedBelowRoots(f.nodes)
    ensures KeepsShape(old(f.nodes), f.nodes) && Grows(old(f.nodes), old(f.depth), f.nodes, f.depth, full)
    ensures !grafted ==> f.nodes == old(f.nodes) && f.depth == old(f.depth)
    ensures grafted ==> Descends(f.nodes, f.depth, tip, full)
    ensures grafted <==> exists a <- old(Lineage(f.nodes, f.depth, tip)) :: !old(Present(f.nodes, f.depth, full, f.nodes[a].name))
    ensures grafted <==> old(Graft(f.nodes, f.depth, full, tip, 0)).Some?
    ensures grafted ==> f.nodes == Adopt(old(f.nodes), old(Graft(f.nodes, f.depth, full, tip, 0)).value.0,
                                         old(Graft(f.nodes, f.depth, full, tip, 0)).value.1)
    ensures forall a <- old(Lineage(f.nodes, f.depth, tip)) :: Present(f.nodes, f.depth, full, old(f.nodes[a].name))
    ensures StaysOrJoins(old(f.nodes), old(f.depth), f.nodes, f.depth, full)
  {
    grafted := false;
    ghost var n0, d0 := f.nodes, f.depth;
    var parents := Lineage(f.nodes, f.depth, tip);
    ghost var lineage := parents;
    LineageChain(n0, d0, tip);
    var matching: nat := full;
    while parents != []
      invariant f.Valid() && |parents| <= |lineage| && parents == lineage[..|parents|]
      invariant Walking(n0, d0, f.nodes, f.depth, full, tip, lineage, |parents|, matching, grafted)
    {
      parents, matching, grafted := GraftStep(f, full, tip, n0, d0, lineage, parents, matching, grafted);
    }
    WalkDone(n0, d0, f.nodes, f.depth, full, tip, lineage, matching, grafted);
    if grafted {
      GraftBringsLineage(n0, d0, f.nodes, f.depth, full, tip);
      GraftStaysOrJoins(n0, d0, f.nodes, f.depth, full, tip);
    }
  }

  /** One turn of the loop at lines 101-106: the least specific ancestor left is looked up
      below `matching`, and appended there when its name is new. */
  method GraftStep(f: Forest, full: nat, tip: nat, ghost n0: seq<Node>, ghost d0: seq<nat>, ghost lineage: seq<nat>,
                   parents: seq<nat>, matching: nat, ghost grafted: bool)
    returns (parents': seq<nat>, matching': nat, ghost grafted': bool)
    requires f.Valid() && parents != [] && |parents| <= |lineage| && parents == lineage[..|parents|]
    requires Walking(n0, d0, f.nodes, f.depth, full, tip, lineage, |parents|, matching, grafted)
    modifies f
    ensures f.Valid() && parents' == parents[..|parents| - 1] && parents' == lineage[..|parents'|]
    ensures Walking(n0, d0, f.nodes, f.depth, full, tip, lineage, |parents'|, matching', grafted')
  {
    ghost var p := |parents|;
    var node := parents[|parents| - 1];
    parents' := parents[..|parents| - 1];
    assert node == lineage[p - 1];
    WalkingEntry(n0, d0, f.nodes, f.depth, full, tip, lineage, p, matching, grafted);
    ghost var prev, prevDepth := f.nodes, f.depth;
    assert Walking(n0, d0, prev, prevDepth, full, tip, lineage, p, matching, grafted);
    ghost var appended;
    matching', appended := Descend(f, full, matching, node);
    WalkStep(n0, d0, prev, prevDepth, f.nodes, f.depth, full, tip, lineage, p, matching, matching', grafted, appended);
    grafted' := grafted || appended;
  }

  /** The next entry to visit is a node of the arena with a parent. */
  lemma WalkingEntry(n0: seq<Node>, d0: seq<nat>, nodes: seq<Node>, depth: seq<nat>, full: nat, tip: nat,
                     lineage: seq<nat>, p: nat, matching: nat, grafted: bool)
    requires Walking(n0, d0, nodes, depth, full, tip, lineage, p, matching, grafted) && 0 < p
    ensures lineage[p - 1] < |nodes| && nodes[lineage[p - 1]].parent.Some?
  {
    assert n0[lineage[p - 1]].parent.Some?;
  }

  /** At the end of the walk the tip was grafted exactly when some lineage entry lacked its name. */
  lemma WalkDone(n0: seq<Node>, d0: seq<nat>, nodes: seq<Node>, depth: seq<nat>, full: nat, tip: nat,
                 lineage: seq<nat>, matching: nat, grafted: bool)
    requires Walking(n0, d0, nodes, depth, full, tip, lineage, 0, matching, grafted)
    ensures grafted <==> exists a <- lineage :: !Present(n0, d0, full, n0[a].name)
    ensures grafted <==> Graft(n0, d0, full, tip, 0).Some?
    ensures grafted ==> nodes == Adopt(n0, Graft(n0, d0, full, tip, 0).value.0, Graft(n0, d0, full, tip, 0).value.1)
  {
    LineageChain(n0, d0, tip);
    if grafted {
      var k := TopMissing(n0, d0, full, lineage, 0).value;
      assert lineage[k] in lineage;
    } else {
      forall a <- lineage ensures Present(n0, d0, full, n0[a].name) {
        var k :| 0 <= k < |lineage| && lineage[k] == a;
      }
      assert TopMissing(n0, d0, full, lineage, 0).None?;
    }
  }

  /** One pass of the `while parents` loop: `matching.find(node.name)` becomes the new
      insertion point, or, where it is missing, `node` is appended below `matching`. */
  method Descend(f: Forest, full: nat, matching: nat, node: nat) returns (m: nat, ghost appended: bool)
    requires f.Valid() && NamedBelowRoots(f.nodes)
    requires full < |f.nodes| && f.nodes[full].parent.None?
    requires matching < |f.nodes| && Descends(f.nodes, f.depth, matching, full)
    requires node < |f.nodes| && f.nodes[node].parent.Some?
    modifies f
    ensures f.Valid() && NamedBelowRoots(f.nodes)
    ensures KeepsShape(old(f.nodes), f.nodes) && Grows(old(f.nodes), old(f.depth), f.nodes, f.depth, full)
    ensures m < |f.nodes| && Descends(f.nodes, f.depth, m, full)
    ensures appended <==> !old(Present(f.nodes, f.depth, full, f.nodes[node].name))
    ensures !appended ==> Find(old(f.nodes), old(f.depth), full, old(f.nodes)[node].name) == Some(m)
    ensures !appended ==> f.nodes == old(f.nodes) && f.depth == old(f.depth)
    ensures appended ==> m == matching && matching != node && old(f.nodes)[node].parent.value < |old(f.nodes)|
    ensures appended ==> f.nodes == Adopt(old(f.nodes), matching, node)
    ensures appended ==> forall j | 0 <= j < |f.nodes| && old(Descends(f.nodes, f.depth, j, node)) :: Descends(f.nodes, f.depth, j, full)
  {
    var found := Find(f.nodes, f.depth, full, f.nodes[node].name);
    if found.Some? {
      m, appended := found.value, false;
    } else {
      GraftKeepsTree(f.nodes, f.depth, full, matching, node);
      AdoptKeepsNames(f.nodes, matching, node);
      f.Append(matching, node);
      m, appended := matching, true;
    }
  }

  /** Every tip of the tree under `tree` has a name the tree under `full` already has. */
  ghost predicate Known(nodes: seq<Node>, depth: seq<nat>, full: nat, tree: nat)
    requires WellFormed(nodes, depth) && tree < |nodes|
  {
    forall j <- Tips(nodes, depth, tree) :: Present(nodes, depth, full, nodes[j].name)
  }

  /** A tree knows all its own tips. */
  lemma KnownSelf(nodes: seq<Node>, depth: seq<nat>, t: nat)
    requires WellFormed(nodes, depth) && NamedBelowRoots(nodes) && t < |nodes|
    ensures Known(nodes, depth, t, t)
  {
    forall j <- Tips(nodes, depth, t) ensures Present(nodes, depth, t, nodes[j].name) {
      assert nodes[j].parent.Some?;
    }
  }

  /** What merging the tip `t` achieves: the tree under `full` has the tip's name, or it
      has the name of every ancestor `t` had below its root (the walk then found them all
      and appended nothing). Names and lineage are those of the arena `n0` before the merge. */
  ghost predicate Merged(n0: seq<Node>, d0: seq<nat>, n1: seq<Node>, d1: seq<nat>, full: nat, t: nat)
    requires WellFormed(n0, d0) && WellFormed(n1, d1) && t < |n0|
  {
    || Present(n1, d1, full, n0[t].name)
    || forall a <- Lineage(n0, d0, t) :: Present(n1, d1, full, n0[a].name)
  }

  /** Every tip `tree` had in `n0` is merged. */
  ghost predicate TreeMerged(n0: seq<Node>, d0: seq<nat>, n1: seq<Node>, d1: seq<nat>, full: nat, tree: nat)
    requires WellFormed(n0, d0) && WellFormed(n1, d1) && tree < |n0|
  {
    forall t <- Tips(n0, d0, tree) :: Merged(n0, d0, n1, d1, full, t)
  }

  /** Later merges keep what an earlier one achieved. */
  lemma MergedGrows(n0: seq<Node>, d0: seq<nat>, n1: seq<Node>, d1: seq<nat>, n2: seq<Node>, d2: seq<nat>, full: nat, t: nat)
    requires WellFormed(n0, d0) && WellFormed(n1, d1) && WellFormed(n2, d2) && t < |n0|
    requires KeepsShape(n1, n2) && Grows(n1, d1, n2, d2, full) && Merged(n0, d0, n1, d1, full, t)
    ensures Merged(n0, d0, n2, d2, full, t)
  {
    if Present(n1, d1, full, n0[t].name) {
      PresentGrows(n1, d1, n2, d2, full, n0[t].name);
    } else {
      forall a <- Lineage(n0, d0, t) ensures Present(n2, d2, full, n0[a].name) {
        PresentGrows(n1, d1, n2, d2, full, n0[a].name);
      }
    }
  }

  lemma TreeMergedGrows(n0: seq<Node>, d0: seq<nat>, n1: seq<Node>, d1: seq<nat>, n2: seq<Node>, d2: seq<nat>, full: nat, tree: nat)
    requires WellFormed(n0, d0) && WellFormed(n1, d1) && WellFormed(n2, d2) && tree < |n0|
    requires KeepsShape(n1, n2) && Grows(n1, d1, n2, d2, full) && TreeMerged(n0, d0, n1, d1, full, tree)
    ensures TreeMerged(n0, d0, n2, d2, full, tree)
  {
    forall t <- Tips(n0, d0, tree) ensures Merged(n0, d0, n2, d2, full, t) {
      MergedGrows(n0, d0, n1, d1, n2, d2, full, t);
    }
  }

  /** A tip of `tree` in `n0`, merged in a later arena `n1`: either an earlier merge had
      already brought it into the tree under `full`, or its lineage is still the one of
      `n0`, so merging it there is merging it as of `n0`. */
  lemma TipStep(n0: seq<Node>, d0: seq<nat>, n1: seq<Node>, d1: seq<nat>, n2: seq<Node>, d2: seq<nat>,
                full: nat, tree: nat, t: nat)
    requires WellFormed(n0, d0) && NamedBelowRoots(n0) && WellFormed(n1, d1) && WellFormed(n2, d2)
    requires KeepsShape(n0, n1) && KeepsShape(n1, n2) && Grows(n1, d1, n2, d2, full)
    requires StaysOrJoins(n0, d0, n1, d1, full)
    requires tree < |n0| && t in Tips(n0, d0, tree)
    requires !Descends(n1, d1, t, full) ==> Merged(n1, d1, n2, d2, full, t)
    ensures Merged(n0, d0, n2, d2, full, t)
  {
    assert LinkedUp(n0, d0, t);
    assert n0[t].parent.Some?;
    if Descends(n1, d1, t, full) {
      assert Present(n1, d1, full, n0[t].name) by {
        assert n1[t].name == n0[t].name;
      }
      PresentGrows(n1, d1, n2, d2, full, n0[t].name);
    } else {
      assert Lineage(n1, d1, t) == Lineage(n0, d0, t);
      assert n1[t].name == n0[t].name;
      if !Present(n2, d2, full, n0[t].name) {
        forall a <- Lineage(n0, d0, t) ensures Present(n2, d2, full, n0[a].name) {
          assert n1[a].name == n0[a].name;
        }
      }
    }
  }

  /** A tree of `n0`, merged in a later arena `n1`: every tip it had in `n0` is merged. */
  lemma TreeStep(n0: seq<Node>, d0: seq<nat>, n1: seq<Node>, d1: seq<nat>, n2: seq<Node>, d2: seq<nat>,
                 full: nat, tree: nat)
    requires WellFormed(n0, d0) && NamedBelowRoots(n0) && WellFormed(n1, d1) && WellFormed(n2, d2)
    requires KeepsShape(n0, n1) && KeepsShape(n1, n2) && Grows(n1, d1, n2, d2, full)
    requires StaysOrJoins(n0, d0, n1, d1, full)
    requires tree < |n0| && TreeMerged(n1, d1, n2, d2, full, tree)
    ensures TreeMerged(n0, d0, n2, d2, full, tree)
  {
    forall t <- Tips(n0, d0, tree) ensures Merged(n0, d0, n2, d2, full, t) {
      if !Descends(n1, d1, t, full) {
        DescendsInAncestors(n0, d0, t, tree);
        AncestorsDescend(n1, d1, t);
        assert t in Tips(n1, d1, tree);
      }
      TipStep(n0, d0, n1, d1, n2, d2, full, tree, t);
    }
  }

  /** The loop over `tips` after `k` of them: each of those is merged, and every node
      either joined the tree under `full` or kept its place. */
  ghost predicate TipsMerged(n0: seq<Node>, d0: seq<nat>, nodes: seq<Node>, depth: seq<nat>, full: nat,
                             tips: seq<nat>, k: nat)
    requires WellFormed(n0, d0) && WellFormed(nodes, depth) && |n0| == |nodes|
  {
    && k <= |tips|
    && (forall i | 0 <= i < |tips| :: tips[i] < |n0|)
    && StaysOrJoins(n0, d0, nodes, depth, full)
    && forall i | 0 <= i < k :: Merged(n0, d0, nodes, depth, full, tips[i])
  }

  /** Merging the next tip keeps the loop's state. */
  lemma TipsMergedStep(n0: seq<Node>, d0: seq<nat>, n1: seq<Node>, d1: seq<nat>, n2: seq<Node>, d2: seq<nat>,
                       full: nat, tree: nat, tips: seq<nat>, k: nat)
    requires WellFormed(n0, d0) && NamedBelowRoots(n0) && WellFormed(n1, d1) && WellFormed(n2, d2)
    requires KeepsShape(n0, n1) && KeepsShape(n1, n2) && Grows(n1, d1, n2, d2, full)
    requires tree < |n0| && tips == Tips(n0, d0, tree) && k < |tips|
    requires TipsMerged(n0, d0, n1, d1, full, tips, k)
    requires StaysOrJoins(n1, d1, n2, d2, full) && Merged(n1, d1, n2, d2, full, tips[k])
    ensures TipsMerged(n0, d0, n2, d2, full, tips, k + 1)
  {
    assert tips[k] in tips;
    StaysOrJoinsTrans(n0, d0, n1, d1, n2, d2, full);
    TipStep(n0, d0, n1, d1, n2, d2, full, tree, tips[k]);
    TipsMergedGrows(n0, d0, n1, d1, n2, d2, full, tips, k);
    forall i | 0 <= i < k + 1 ensures Merged(n0, d0, n2, d2, full, tips[i]) {
      if i == k {
        assert tips[i] == tips[k];
      }
    }
  }

  lemma TipsMergedGrows(n0: seq<Node>, d0: seq<nat>, n1: seq<Node>, d1: seq<nat>, n2: seq<Node>, d2: seq<nat>,
                        full: nat, tips: seq<nat>, k: nat)
    requires WellFormed(n0, d0) && WellFormed(n1, d1) && WellFormed(n2, d2)
    requires KeepsShape(n1, n2) && Grows(n1, d1, n2, d2, full)
    requires k <= |tips| && forall i | 0 <= i < |tips| :: tips[i] < |n0|
    requires forall i | 0 <= i < k :: Merged(n0, d0, n1, d1, full, tips[i])
    ensures forall i | 0 <= i < k :: Merged(n0, d0, n2, d2, full, tips[i])
  {
    forall i | 0 <= i < k ensures Merged(n0, d0, n2, d2, full, tips[i]) {
      MergedGrows(n0, d0, n1, d1, n2, d2, full, tips[i]);
    }
  }

  /** At the end of the loop the whole tree is merged. */
  lemma TipsMergedDone(n0: seq<Node>, d0: seq<nat>, nodes: seq<Node>, depth: seq<nat>, full: nat, tree: nat, tips: seq<nat>)
    requires WellFormed(n0, d0) && WellFormed(nodes, depth) && |n0| == |nodes|
    requires tree < |n0| && tips == Tips(n0, d0, tree) && TipsMerged(n0, d0, nodes, depth, full, tips, |tips|)
    ensures TreeMerged(n0, d0, nodes, depth, full, tree) && StaysOrJoins(n0, d0, nodes, depth, full)
  {
    forall t <- tips ensures Merged(n0, d0, nodes, depth, full, t) {
      var i :| 0 <= i < |tips| && tips[i] == t;
    }
  }

  /** Merging every tip of the tree under `tree`, listed before the first one is merged. */
  method MergeTree(f: Forest, full: nat, tree: nat)
    requires f.Valid() && NamedBelowRoots(f.nodes)
    requires full < |f.nodes| && f.nodes[full].parent.None? && tree < |f.nodes|
    modifies f
    ensures f.Valid() && NamedBelowRoots(f.nodes)
    ensures KeepsShape(old(f.nodes), f.nodes) && Grows(old(f.nodes), old(f.depth), f.nodes, f.depth, full)
    ensures old(Known(f.nodes, f.depth, full, tree)) ==> f.nodes == old(f.nodes) && f.depth == old(f.depth)
    ensures TreeMerged(old(f.nodes), old(f.depth), f.nodes, f.depth, full, tree)
    ensures StaysOrJoins(old(f.nodes), old(f.depth), f.nodes, f.depth, full)
  {
    ghost var n0, d0 := f.nodes, f.depth;
    var tips := Tips(f.nodes, f.depth, tree);
    assert forall i | 0 <= i < |tips| :: tips[i] in tips;
    assert StaysOrJoins(n0, d0, n0, d0, full);
    var k := 0;
    while k < |tips|
      invariant k <= |tips|
      invariant f.Valid() && NamedBelowRoots(f.nodes)
      invariant KeepsShape(n0, f.nodes) && Grows(n0, d0, f.nodes, f.depth, full)
      invariant Known(n0, d0, full, tree) ==> f.nodes == n0 && f.depth == d0
      invariant TipsMerged(n0, d0, f.nodes, f.depth, full, tips, k)
    {
      assert tips[k] in tips;
      ghost var prev, prevDepth := f.nodes, f.depth;
      ghost var grafted := MergeTip(f, full, tips[k]);
      GrowsTrans(n0, d0, prev, prevDepth, f.nodes, f.depth, full);
      TipsMergedStep(n0, d0, prev, prevDepth, f.nodes, f.depth, full, tree, tips, k);
      k := k + 1;
    }
    TipsMergedDone(n0, d0, f.nodes, f.depth, full, tree, tips);
  }

  /** The loop over `trees[1..]` up to index `k`: each of those trees is merged, and every
      node either joined the tree under `full` or kept its place. */
  ghost predicate TreesMerged(n0: seq<Node>, d0: seq<nat>, nodes: seq<Node>, depth: seq<nat>, full: nat,
                              trees: seq<nat>, k: nat)
    requires WellFormed(n0, d0) && WellFormed(nodes, depth) && |n0| == |nodes|
  {
    && k <= |trees|
    && (forall l | 0 <= l < |trees| :: trees[l] < |n0|)
    && StaysOrJoins(n0, d0, nodes, depth, full)
    && forall l | 1 <= l < k :: TreeMerged(n0, d0, nodes, depth, full, trees[l])
  }

  /** Merging the next tree keeps the loop's state. */
  lemma TreesMergedStep(n0: seq<Node>, d0: seq<nat>, n1: seq<Node>, d1: seq<nat>, n2: seq<Node>, d2: seq<nat>,
                        full: nat, trees: seq<nat>, k: nat)
    requires WellFormed(n0, d0) && NamedBelowRoots(n0) && WellFormed(n1, d1) && WellFormed(n2, d2)
    requires KeepsShape(n0, n1) && KeepsShape(n1, n2) && Grows(n1, d1, n2, d2, full)
    requires 1 <= k < |trees| && TreesMerged(n0, d0, n1, d1, full, trees, k)
    requires StaysOrJoins(n1, d1, n2, d2, full) && TreeMerged(n1, d1, n2, d2, full, trees[k])
    ensures TreesMerged(n0, d0, n2, d2, full, trees, k + 1)
  {
    StaysOrJoinsTrans(n0, d0, n1, d1, n2, d2, full);
    TreesMergedGrows(n0, d0, n1, d1, n2, d2, full, trees, k);
    TreeStep(n0, d0, n1, d1, n2, d2, full, trees[k]);
    forall l | 1 <= l < k + 1 ensures TreeMerged(n0, d0, n2, d2, full, trees[l]) {
      if l == k {
        assert trees[l] == trees[k];
      }
    }
  }

  lemma TreesMergedGrows(n0: seq<Node>, d0: seq<nat>, n1: seq<Node>, d1: seq<nat>, n2: seq<Node>, d2: seq<nat>,
                         full: nat, trees: seq<nat>, k: nat)
    requires WellFormed(n0, d0) && WellFormed(n1, d1) && WellFormed(n2, d2) && |n0| == |n1|
    requires KeepsShape(n1, n2) && Grows(n1, d1, n2, d2, full)
    requires k <= |trees| && forall l | 0 <= l < |trees| :: trees[l] < |n0|
    requires forall l | 1 <= l < k :: TreeMerged(n0, d0, n1, d1, full, trees[l])
    ensures forall l | 1 <= l < k :: TreeMerged(n0, d0, n2, d2, full, trees[l])
  {
    forall l | 1 <= l < k ensures TreeMerged(n0, d0, n2, d2, full, trees[l]) {
      TreeMergedGrows(n0, d0, n1, d1, n2, d2, full, trees[l]);
    }
  }

  /** `_combine_ncbi_trees(trees)`: the first tree, with every later tree merged into it. */
  method CombineNcbiTrees(f: Forest, trees: seq<nat>) returns (r: Result<nat, MergeError>)
    requires f.Valid() && NamedBelowRoots(f.nodes)
    requires forall k | 0 <= k < |trees| :: trees[k] < |f.nodes|
    requires trees != [] ==> f.nodes[trees[0]].parent.None?
    modifies f
    ensures f.Valid() && NamedBelowRoots(f.nodes)
    ensures r.Failure? <==> trees == []
    ensures r.Success? ==> r.value == trees[0]
    ensures KeepsShape(old(f.nodes), f.nodes)
    ensures r.Success? ==> Grows(old(f.nodes), old(f.depth), f.nodes, f.depth, r.value)
    ensures |trees| <= 1 ==> f.nodes == old(f.nodes) && f.depth == old(f.depth)
    ensures trees != [] && (forall k | 1 <= k < |trees| :: old(Known(f.nodes, f.depth, trees[0], trees[k]))) ==>
              f.nodes == old(f.nodes) && f.depth == old(f.depth)
    ensures r.Success? ==> forall k | 1 <= k < |trees| :: TreeMerged(old(f.nodes), old(f.depth), f.nodes, f.depth, r.value, trees[k])
  {
    if trees == [] {
      return Failure(NoTrees);
    }
    var full := trees[0];
    ghost var n0, d0 := f.nodes, f.depth;
    var k := 1;
    while k < |trees|
      invariant 1 <= k <= |trees|
      invariant f.Valid() && NamedBelowRoots(f.nodes)
      invariant KeepsShape(n0, f.nodes) && Grows(n0, d0, f.nodes, f.depth, full)
      invariant (forall l | 1 <= l < |trees| :: Known(n0, d0, full, trees[l])) ==> f.nodes == n0 && f.depth == d0
      invariant TreesMerged(n0, d0, f.nodes, f.depth, full, trees, k)
    {
      ghost var prev, prevDepth := f.nodes, f.depth;
      MergeTree(f, full, trees[k]);
      GrowsTrans(n0, d0, prev, prevDepth, f.nodes, f.depth, full);
      TreesMergedStep(n0, d0, prev, prevDepth, f.nodes, f.depth, full, trees, k);
      k := k + 1;
    }
    return Success(full);
  }
}
