/**
  `_kraken_to_ncbi_tree`: one report becomes one tree. The rows come in pre-order;
  each kept row makes a rank node (length 1) whose first child is an identifier
  node (length 0) named by the taxonomy id. A row hangs below the nearest earlier
  kept row of smaller indentation, or below the unnamed root. An identifier node is
  flagged `is_actual_tip` when its row turns out to be a leaf of the classification.

  Kept row `j` is stored at `RankIdx(base, j)` with its identifier node at
  `IdIdx(base, j)`, where `base` is the root; row `-1` stands for the root.
 */
module Builder {
  import opened Wrappers
  import opened Report
  import opened TreeNodes

  /** Where the source raises IndexError: `children[0]` of the still childless root
      (line 73), or `stack[-1]` after the root sentinel has been popped (line 77). */
  datatype BuildError = NoIdentifierChild | EmptyStack

  function Indents(rows: seq<Row>): (ind: seq<nat>)
    ensures |ind| == |rows|
  {
    seq(|rows|, j requires 0 <= j < |rows| => Indent(rows[j]))
  }

  /** The level of row `j`, the root counting as level 0. */
  function IndAt(ind: seq<nat>, j: int): nat
    requires -1 <= j < |ind|
  {
    if j < 0 then 0 else ind[j]
  }

  function RankIdx(base: nat, j: nat): nat {
    base + 1 + 2 * j
  }

  function IdIdx(base: nat, j: nat): nat {
    base + 2 + 2 * j
  }

  function NodeOf(base: nat, j: int): nat
    requires j >= -1
  {
    if j < 0 then base else RankIdx(base, j)
  }

  function NearestSmaller(ind: seq<nat>, i: nat, k: int): (p: int)
    requires i < |ind| && -1 <= k < i
    ensures -1 <= p <= k
    ensures p >= 0 ==> ind[p] < ind[i]
    ensures forall l :: p < l <= k ==> ind[l] >= ind[i]
    decreases k + 1
  {
    if k < 0 then -1 else if ind[k] < ind[i] then k else NearestSmaller(ind, i, k - 1)
  }

  /** The row kept row `i` hangs below: the nearest earlier row whose level is
      smaller, or -1 (the root) when there is none. */
  function ParentRow(ind: seq<nat>, i: nat): (p: int)
    requires i < |ind|
    ensures -1 <= p < i
    ensures p >= 0 ==> ind[p] < ind[i]
    ensures forall l :: p < l < i ==> ind[l] >= ind[i]
  {
    NearestSmaller(ind, i, i - 1)
  }

  /** The three properties of ParentRow pin it down. */
  lemma ParentRowUnique(ind: seq<nat>, i: nat, q: int)
    requires i < |ind| && -1 <= q < i
    requires q >= 0 ==> ind[q] < ind[i]
    requires forall l :: q < l < i ==> ind[l] >= ind[i]
    ensures ParentRow(ind, i) == q
  {
  }

  /** The open rows after row `j`: the root, then each row the next one hangs below, up to `j`.
      The builder's stack holds exactly these. */
  function Chain(ind: seq<nat>, j: int): (c: seq<int>)
    requires -1 <= j < |ind|
    ensures |c| > 0 && c[0] == -1 && c[|c| - 1] == j
    ensures forall k :: 0 <= k < |c| ==> -1 <= c[k] <= j
    ensures forall a, b :: 0 <= a < b < |c| ==> c[a] < c[b]
    decreases j + 1
  {
    if j < 0 then [-1] else Chain(ind, ParentRow(ind, j)) + [j]
  }

  /** With every kept row indented, the levels on the stack strictly increase from the root up. */
  lemma {:induction false} ChainIncreasing(ind: seq<nat>, j: int)
    requires -1 <= j < |ind| && forall l :: 0 <= l <= j ==> ind[l] > 0
    ensures forall a, b :: 0 <= a < b < |Chain(ind, j)| ==>
              IndAt(ind, Chain(ind, j)[a]) < IndAt(ind, Chain(ind, j)[b])
    decreases j + 1
  {
    if j >= 0 {
      var p := ParentRow(ind, j);
      ChainIncreasing(ind, p);
      var c, cp := Chain(ind, j), Chain(ind, p);
      assert c == cp + [j];
      forall a, b | 0 <= a < b < |c| ensures IndAt(ind, c[a]) < IndAt(ind, c[b]) {
        if b == |c| - 1 {
          assert IndAt(ind, p) < ind[j];
          if a < |cp| - 1 {
            assert IndAt(ind, cp[a]) < IndAt(ind, cp[|cp| - 1]);
          }
        } else {
          assert c[a] == cp[a] && c[b] == cp[b];
        }
      }
    }
  }

  /** A row every later row up to `j` is deeper than stays open through row `j`. */
  lemma {:induction false} ChainThrough(ind: seq<nat>, p: int, j: int)
    requires -1 <= p <= j < |ind|
    requires forall l :: p < l <= j ==> ind[l] > IndAt(ind, p)
    ensures Chain(ind, p) <= Chain(ind, j)
    decreases j + 1
  {
    if p < j {
      var q := ParentRow(ind, j);
      ChainThrough(ind, p, q);
      assert Chain(ind, j) == Chain(ind, q) + [j];
    }
  }

  /** The kept rows that hang directly below row `p`, among the first `m`, as rank nodes in order. */
  function ChildNodes(base: nat, ind: seq<nat>, p: int, m: nat): seq<nat>
    requires m <= |ind|
    decreases m
  {
    if m == 0 then []
    else ChildNodes(base, ind, p, m - 1) + (if ParentRow(ind, m - 1) == p then [RankIdx(base, m - 1)] else [])
  }

  /** No row hangs below a row that comes after it. */
  lemma {:induction false} ChildNodesNone(base: nat, ind: seq<nat>, p: int, m: nat)
    requires m <= |ind| && m <= p + 1
    ensures ChildNodes(base, ind, p, m) == []
  {
    if m > 0 {
      ChildNodesNone(base, ind, p, m - 1);
    }
  }

  /** The children listed for row `p` are exactly the later rows whose parent row is `p`. */
  lemma {:induction false} ChildNodesMembers(base: nat, ind: seq<nat>, p: int, m: nat)
    requires m <= |ind|
    ensures forall k | 0 <= k < m :: RankIdx(base, k) in ChildNodes(base, ind, p, m) <==> ParentRow(ind, k) == p
    ensures forall x <- ChildNodes(base, ind, p, m) :: exists k | 0 <= k < m :: x == RankIdx(base, k)
  {
    if m > 0 {
      ChildNodesMembers(base, ind, p, m - 1);
    }
  }

  /** The `is_actual_tip` flag of row `j`'s identifier node once `m` rows are in:
      set when the next row is no deeper, and, for the last row, when `final`. */
  function TipFlag(ind: seq<nat>, m: nat, j: nat, final: bool): bool
    requires j < m <= |ind|
  {
    if j + 1 < m then ind[j + 1] <= ind[j] else final
  }

  /** The rank node of kept row `j` once the first `m` rows (levels `ind`) are in. */
  function RankNode(base: nat, rows: seq<Row>, ind: seq<nat>, m: nat, j: nat): Node
    requires j < m <= |rows| == |ind|
  {
    Node(Some(RankNodeName(rows[j])), Some(1), [IdIdx(base, j)] + ChildNodes(base, ind, j, m),
         Some(NodeOf(base, ParentRow(ind, j))), false)
  }

  /** The identifier node of kept row `j` once the first `m` rows are in. */
  function IdNode(base: nat, rows: seq<Row>, ind: seq<nat>, m: nat, j: nat, final: bool): Node
    requires j < m <= |rows| == |ind|
  {
    Node(Some(IdNodeName(rows[j])), Some(0), [], Some(RankIdx(base, j)), TipFlag(ind, m, j, final))
  }

  function RootNode(base: nat, ind: seq<nat>, m: nat): Node
    requires m <= |ind|
  {
    Node(None, None, ChildNodes(base, ind, -1, m), None, false)
  }

  /** The arena from `base` on holds the tree of the first `m` kept rows `rows`, whose levels are `ind`. */
  ghost predicate Partial(nodes: seq<Node>, base: nat, rows: seq<Row>, ind: seq<nat>, m: nat, final: bool)
    requires m <= |rows| == |ind|
  {
    && |nodes| == base + 1 + 2 * m
    && nodes[base] == RootNode(base, ind, m)
    && (forall j {:trigger RankNode(base, rows, ind, m, j)} | 0 <= j < m ::
          nodes[RankIdx(base, j)] == RankNode(base, rows, ind, m, j))
    && (forall j {:trigger IdNode(base, rows, ind, m, j, final)} | 0 <= j < m ::
          nodes[IdIdx(base, j)] == IdNode(base, rows, ind, m, j, final))
  }

  /** The arena from `base` on holds the finished tree of the kept rows `rows`. */
  ghost predicate Built(nodes: seq<Node>, base: nat, rows: seq<Row>) {
    Partial(nodes, base, rows, Indents(rows), |rows|, true)
  }

  /** The arena after adding kept row `m`: the two new nodes, the flag of row `m - 1`
      and the new child of the parent row. */
  ghost predicate Stepped(n0: seq<Node>, n1: seq<Node>, base: nat, rows: seq<Row>, ind: seq<nat>, m: nat)
    requires m < |rows| == |ind| && |n0| == base + 1 + 2 * m
  {
    var P := NodeOf(base, ParentRow(ind, m));
    && |n1| == |n0| + 2
    && n1[RankIdx(base, m)] == Node(Some(RankNodeName(rows[m])), Some(1), [IdIdx(base, m)], Some(P), false)
    && n1[IdIdx(base, m)] == Node(Some(IdNodeName(rows[m])), Some(0), [], Some(RankIdx(base, m)), false)
    && n1[P] == n0[P].(children := n0[P].children + [RankIdx(base, m)])
    && (m > 0 ==> n1[IdIdx(base, m - 1)] == n0[IdIdx(base, m - 1)].(isActualTip := ind[m] <= ind[m - 1]))
    && (forall x | base <= x < |n0| :: x != P && (m == 0 || x != IdIdx(base, m - 1)) ==> n1[x] == n0[x])
  }

  lemma StepRoot(n0: seq<Node>, n1: seq<Node>, base: nat, rows: seq<Row>, ind: seq<nat>, m: nat)
    requires m < |rows| == |ind| && Partial(n0, base, rows, ind, m, false) && Stepped(n0, n1, base, rows, ind, m)
    ensures n1[base] == RootNode(base, ind, m + 1)
  {
    if ParentRow(ind, m) != -1 {
      assert base != NodeOf(base, ParentRow(ind, m));
    }
  }

  lemma StepRank(n0: seq<Node>, n1: seq<Node>, base: nat, rows: seq<Row>, ind: seq<nat>, m: nat, j: nat)
    requires m < |rows| == |ind| && Partial(n0, base, rows, ind, m, false) && Stepped(n0, n1, base, rows, ind, m)
    requires j <= m
    ensures n1[RankIdx(base, j)] == RankNode(base, rows, ind, m + 1, j)
  {
    if j == m {
      ChildNodesNone(base, ind, m, m + 1);
    } else if ParentRow(ind, m) == j {
      StepRankParent(n0, n1, base, rows, ind, m, j);
    } else {
      StepRankOther(n0, n1, base, rows, ind, m, j);
    }
  }

  lemma StepRankParent(n0: seq<Node>, n1: seq<Node>, base: nat, rows: seq<Row>, ind: seq<nat>, m: nat, j: nat)
    requires m < |rows| == |ind| && Partial(n0, base, rows, ind, m, false) && Stepped(n0, n1, base, rows, ind, m)
    requires j < m && ParentRow(ind, m) == j
    ensures n1[RankIdx(base, j)] == RankNode(base, rows, ind, m + 1, j)
  {
    var x := RankIdx(base, j);
    var old0 := n0[x];
    assert old0 == RankNode(base, rows, ind, m, j);
    var kids := ChildNodes(base, ind, j, m);
    assert ChildNodes(base, ind, j, m + 1) == kids + [RankIdx(base, m)];
    assert [IdIdx(base, j)] + (kids + [RankIdx(base, m)]) == ([IdIdx(base, j)] + kids) + [RankIdx(base, m)];
    assert n1[x] == old0.(children := old0.children + [RankIdx(base, m)]);
  }

  lemma StepRankOther(n0: seq<Node>, n1: seq<Node>, base: nat, rows: seq<Row>, ind: seq<nat>, m: nat, j: nat)
    requires m < |rows| == |ind| && Partial(n0, base, rows, ind, m, false) && Stepped(n0, n1, base, rows, ind, m)
    requires j < m && ParentRow(ind, m) != j
    ensures n1[RankIdx(base, j)] == RankNode(base, rows, ind, m + 1, j)
  {
    var x := RankIdx(base, j);
    var old0 := n0[x];
    assert old0 == RankNode(base, rows, ind, m, j);
    var kids := ChildNodes(base, ind, j, m);
    assert ChildNodes(base, ind, j, m + 1) == kids + [] == kids;
    assert x != NodeOf(base, ParentRow(ind, m));
    assert m == 0 || x != IdIdx(base, m - 1);
    assert n1[x] == old0;
  }

  lemma StepId(n0: seq<Node>, n1: seq<Node>, base: nat, rows: seq<Row>, ind: seq<nat>, m: nat, j: nat)
    requires m < |rows| == |ind| && Partial(n0, base, rows, ind, m, false) && Stepped(n0, n1, base, rows, ind, m)
    requires j <= m
    ensures n1[IdIdx(base, j)] == IdNode(base, rows, ind, m + 1, j, false)
  {
    var x := IdIdx(base, j);
    if j < m {
      var old0 := n0[x];
      assert old0 == IdNode(base, rows, ind, m, j, false);
      assert x != NodeOf(base, ParentRow(ind, m));
      if j == m - 1 {
        assert TipFlag(ind, m + 1, j, false) == (ind[m] <= ind[m - 1]);
        assert n1[x] == old0.(isActualTip := ind[m] <= ind[m - 1]);
      } else {
        assert n1[x] == old0;
      }
    }
  }

  /** One kept row added: the arena holds the tree of the first `m + 1` rows. */
  lemma StepPartial(n0: seq<Node>, n1: seq<Node>, base: nat, rows: seq<Row>, ind: seq<nat>, m: nat)
    requires m < |rows| == |ind| && Partial(n0, base, rows, ind, m, false) && Stepped(n0, n1, base, rows, ind, m)
    ensures Partial(n1, base, rows, ind, m + 1, false)
  {
    StepRoot(n0, n1, base, rows, ind, m);
    forall j | 0 <= j < m + 1 ensures n1[RankIdx(base, j)] == RankNode(base, rows, ind, m + 1, j) {
      StepRank(n0, n1, base, rows, ind, m, j);
    }
    forall j | 0 <= j < m + 1 ensures n1[IdIdx(base, j)] == IdNode(base, rows, ind, m + 1, j, false) {
      StepId(n0, n1, base, rows, ind, m, j);
    }
  }

  /** After the last row: the last row's identifier node is flagged, which finishes the tree. */
  lemma FinishPartial(n0: seq<Node>, n1: seq<Node>, base: nat, rows: seq<Row>, ind: seq<nat>)
    requires |rows| == |ind| && Partial(n0, base, rows, ind, |rows|, false)
    requires |rows| > 0 ==> n1 == n0[IdIdx(base, |rows| - 1) := n0[IdIdx(base, |rows| - 1)].(isActualTip := true)]
    requires |rows| == 0 ==> n1 == n0
    ensures Partial(n1, base, rows, ind, |rows|, true)
  {
    var m := |rows|;
    if m > 0 {
      forall j | 0 <= j < m ensures n1[RankIdx(base, j)] == RankNode(base, rows, ind, m, j) {
        assert n0[RankIdx(base, j)] == RankNode(base, rows, ind, m, j);
      }
      forall j | 0 <= j < m ensures n1[IdIdx(base, j)] == IdNode(base, rows, ind, m, j, true) {
        assert n0[IdIdx(base, j)] == IdNode(base, rows, ind, m, j, false);
      }
    }
  }

  /** The stack entries `(indent, node)` for a chain of open rows. */
  function StackOf(base: nat, ind: seq<nat>, chain: seq<int>): (s: seq<(nat, nat)>)
    requires forall k :: 0 <= k < |chain| ==> -1 <= chain[k] < |ind|
  {
    seq(|chain|, k requires 0 <= k < |chain| => (IndAt(ind, chain[k]), NodeOf(base, chain[k])))
  }

  /** `StackOf` of a prefix of a chain is the prefix of its `StackOf`. */
  lemma StackOfPrefix(base: nat, ind: seq<nat>, chain: seq<int>, k: nat)
    requires forall x :: 0 <= x < |chain| ==> -1 <= chain[x] < |ind|
    requires k <= |chain|
    ensures StackOf(base, ind, chain[..k]) == StackOf(base, ind, chain)[..k]
  {
  }

  /** Lines 64-69: the rank node of `row` with its identifier node as only child. */
  method NewRankNode(f: Forest, row: Row) returns (node: nat, idNode: nat)
    requires f.Valid() && NamedBelowRoots(f.nodes)
    modifies f
    ensures f.Valid() && NamedBelowRoots(f.nodes)
    ensures node == |old(f.nodes)| && idNode == node + 1
    ensures f.nodes == old(f.nodes) + [Node(Some(RankNodeName(row)), Some(1), [idNode], None, false),
                                       Node(Some(IdNodeName(row)), Some(0), [], Some(node), false)]
  {
    node := f.NewNode(Some(RankNodeName(row)), Some(1));
    idNode := f.NewNode(Some(IdNodeName(row)), Some(0));
    ghost var n1 := f.nodes;
    f.SetActualTip(idNode, false);
    assert f.nodes == n1;
    f.Append(node, idNode);
    AdoptKeepsNames(n1, node, idNode);
    assert Detach(n1, idNode) == n1;
    ghost var a := Node(Some(RankNodeName(row)), Some(1), [idNode], None, false);
    ghost var b := Node(Some(IdNodeName(row)), Some(0), [], Some(node), false);
    assert f.nodes[node] == a;
    assert f.nodes[idNode] == b;
    assert |f.nodes| == |old(f.nodes)| + 2;
    assert forall x | 0 <= x < |old(f.nodes)| :: f.nodes[x] == old(f.nodes)[x];
  }

  /** Where popping stops for row `m`: the open rows of its parent row are a prefix of
      those after row `m - 1`, the rows past that prefix are at least as deep as row `m`,
      and the parent row itself is shallower. */
  lemma PopBoundary(ind: seq<nat>, m: nat)
    requires m < |ind| && ind[m] > 0
    ensures Chain(ind, ParentRow(ind, m)) <= Chain(ind, m - 1)
    ensures var whole, cp := Chain(ind, m - 1), Chain(ind, ParentRow(ind, m));
            && IndAt(ind, whole[|cp| - 1]) < ind[m]
            && forall k | |cp| <= k < |whole| :: IndAt(ind, whole[k]) >= ind[m]
  {
    var p := ParentRow(ind, m);
    var whole, cp := Chain(ind, m - 1), Chain(ind, p);
    ChainThrough(ind, p, m - 1);
    assert whole[|cp| - 1] == cp[|cp| - 1] == p;
    forall k | |cp| <= k < |whole| ensures IndAt(ind, whole[k]) >= ind[m] {
      assert whole[|cp| - 1] < whole[k];
    }
  }

  lemma PoppedStack(base: nat, ind: seq<nat>, m: nat)
    requires m < |ind| && ind[m] > 0
    ensures var whole, cp := Chain(ind, m - 1), Chain(ind, ParentRow(ind, m));
            |cp| <= |whole| && StackOf(base, ind, whole)[..|cp|] == StackOf(base, ind, cp)
  {
    var whole, cp := Chain(ind, m - 1), Chain(ind, ParentRow(ind, m));
    PopBoundary(ind, m);
    StackOfPrefix(base, ind, whole, |cp|);
    assert whole[..|cp|] == cp;
  }

  /** Lines 75-77: pops the stack down to the parent of row `m`, whose level is `indent`.
      The stack holds the open rows after row `m - 1`; what is left holds those of the
      parent row. Popping the root sentinel fails, which happens exactly when `indent` is 0. */
  method PopOpen(stack: seq<(nat, nat)>, indent: nat, ghost base: nat, ghost ind: seq<nat>, ghost m: nat)
    returns (r: Result<seq<(nat, nat)>, BuildError>)
    requires m < |ind| && indent == ind[m]
    requires stack == StackOf(base, ind, Chain(ind, m - 1))
    ensures r.Failure? <==> indent == 0
    ensures r.Success? ==> r.value == StackOf(base, ind, Chain(ind, ParentRow(ind, m)))
  {
    ghost var whole := Chain(ind, m - 1);
    ghost var cp := Chain(ind, ParentRow(ind, m));
    if indent > 0 {
      PopBoundary(ind, m);
    }
    var s := stack;
    var parentIndent := s[|s| - 1].0;
    while parentIndent >= indent
      invariant 0 < |s| <= |stack| && s == stack[..|s|]
      invariant parentIndent == stack[|s| - 1].0
      invariant indent > 0 ==> |cp| <= |s|
      decreases |s|
    {
      s := s[..|s| - 1];
      if s == [] {
        return Failure(EmptyStack);
      }
      parentIndent := s[|s| - 1].0;
    }
    assert |s| == |cp|;
    PoppedStack(base, ind, m);
    return Success(s);
  }

  /** The top of the stack for the open rows after row `j` is row `j` itself. */
  lemma StackTop(base: nat, ind: seq<nat>, j: int)
    requires -1 <= j < |ind|
    ensures var s := StackOf(base, ind, Chain(ind, j)); |s| > 0 && s[|s| - 1] == (IndAt(ind, j), NodeOf(base, j))
  {
  }

  /** Pushing row `m` onto the stack of its parent row gives the stack after row `m`. */
  lemma StackPush(base: nat, ind: seq<nat>, m: nat)
    requires m < |ind|
    ensures StackOf(base, ind, Chain(ind, m)) == StackOf(base, ind, Chain(ind, ParentRow(ind, m))) + [(ind[m], RankIdx(base, m))]
  {
    var cp := Chain(ind, ParentRow(ind, m));
    assert Chain(ind, m) == cp + [m];
    StackOfSnoc(base, ind, cp, m);
  }

  lemma StackOfSnoc(base: nat, ind: seq<nat>, chain: seq<int>, j: nat)
    requires forall k :: 0 <= k < |chain| ==> -1 <= chain[k] < |ind|
    requires j < |ind|
    ensures StackOf(base, ind, chain + [j]) == StackOf(base, ind, chain) + [(ind[j], RankIdx(base, j))]
  {
    var l := StackOf(base, ind, chain + [j]);
    var r := StackOf(base, ind, chain) + [(ind[j], RankIdx(base, j))];
    assert |l| == |r|;
    forall k | 0 <= k < |l| ensures l[k] == r[k] {
      if k < |chain| {
        assert (chain + [j])[k] == chain[k];
      }
    }
  }

  /** The arena after kept row `m` is added, from the arena `n0` holding the first `m` rows:
      `n3` is `n0` with the two new nodes and the flag of row `m - 1` updated, and `n4` is
      `n3` after the rank node is appended to its parent row's node. */
  ghost predicate Prepared(n0: seq<Node>, n3: seq<Node>, base: nat, rows: seq<Row>, ind: seq<nat>, m: nat)
    requires m < |rows| == |ind|
  {
    var n1 := n0 + [Node(Some(RankNodeName(rows[m])), Some(1), [IdIdx(base, m)], None, false),
                    Node(Some(IdNodeName(rows[m])), Some(0), [], Some(RankIdx(base, m)), false)];
    n3 == if m > 0 && ind[m] <= ind[m - 1] && IdIdx(base, m - 1) < |n1| then
            n1[IdIdx(base, m - 1) := n1[IdIdx(base, m - 1)].(isActualTip := true)]
          else n1
  }

  ghost predicate Added(n0: seq<Node>, n3: seq<Node>, n4: seq<Node>, base: nat, rows: seq<Row>, ind: seq<nat>, m: nat)
    requires m < |rows| == |ind| && |n0| == base + 1 + 2 * m
  {
    && Prepared(n0, n3, base, rows, ind, m)
    && n4 == Adopt(n3, NodeOf(base, ParentRow(ind, m)), RankIdx(base, m))
  }

  /** Adding the two nodes and the flag keeps the old range closed upward. */
  lemma PreparedClosed(n0: seq<Node>, n3: seq<Node>, base: nat, rows: seq<Row>, ind: seq<nat>, m: nat)
    requires m < |rows| == |ind| && ClosedUpward(n0, base, |n0|)
    requires Prepared(n0, n3, base, rows, ind, m)
    ensures ClosedUpward(n3, base, |n0|)
  {
  }

  lemma AddedStepped(n0: seq<Node>, n3: seq<Node>, n4: seq<Node>, base: nat, rows: seq<Row>, ind: seq<nat>, m: nat)
    requires m < |rows| == |ind| && Partial(n0, base, rows, ind, m, false)
    requires Added(n0, n3, n4, base, rows, ind, m)
    ensures Stepped(n0, n4, base, rows, ind, m)
  {
    var P := NodeOf(base, ParentRow(ind, m));
    var c := RankIdx(base, m);
    assert n3[c].parent.None?;
    assert Detach(n3, c) == n3;
    assert n4 == n3[c := n3[c].(parent := Some(P))][P := n3[P].(children := n3[P].children + [c])];
    if m > 0 {
      assert n0[IdIdx(base, m - 1)] == IdNode(base, rows, ind, m, m - 1, false);
    }
  }

  lemma AddedClosed(n0: seq<Node>, n3: seq<Node>, n4: seq<Node>, base: nat, rows: seq<Row>, ind: seq<nat>, m: nat)
    requires m < |rows| == |ind| && |n0| == base + 1 + 2 * m && ClosedUpward(n0, base, |n0|)
    requires Added(n0, n3, n4, base, rows, ind, m)
    ensures ClosedUpward(n4, base, |n4|)
    ensures n4[..base] == n0[..base]
  {
    PreparedClosed(n0, n3, base, rows, ind, m);
    PreparedFresh(n0, n3, base, rows, ind, m);
    AttachFreshClosed(n3, base, NodeOf(base, ParentRow(ind, m)), |n0|);
    assert n4[..base] == n0[..base] by {
      forall x | 0 <= x < base ensures n4[x] == n0[x] {
        assert n4[x] == n3[x];
      }
    }
  }

  /** The two nodes added for row `m` and what stays as it was below the root. */
  lemma PreparedFresh(n0: seq<Node>, n3: seq<Node>, base: nat, rows: seq<Row>, ind: seq<nat>, m: nat)
    requires m < |rows| == |ind| && |n0| == base + 1 + 2 * m
    requires Prepared(n0, n3, base, rows, ind, m)
    ensures |n3| == |n0| + 2 && n3[|n0|].parent.None? && n3[|n0| + 1].parent == Some(|n0|)
    ensures forall x | 0 <= x < base :: n3[x] == n0[x]
  {
    var n1 := n0 + [Node(Some(RankNodeName(rows[m])), Some(1), [IdIdx(base, m)], None, false),
                    Node(Some(IdNodeName(rows[m])), Some(0), [], Some(RankIdx(base, m)), false)];
    assert n1[|n0|].parent.None? && n1[|n0| + 1].parent == Some(|n0|);
    assert forall x | 0 <= x < base :: n1[x] == n0[x];
  }

  /** Appending a new parentless node, whose only node below is the one after it, to a
      node of an upward-closed range extends the range to both new nodes. */
  lemma AttachFreshClosed(n3: seq<Node>, lo: nat, p: nat, c: nat)
    requires lo <= p < c && c + 2 == |n3| && ClosedUpward(n3, lo, c)
    requires n3[c].parent.None? && n3[c + 1].parent == Some(c)
    ensures ClosedUpward(Adopt(n3, p, c), lo, |n3|)
    ensures forall x | 0 <= x < |n3| && x != p && x != c :: Adopt(n3, p, c)[x] == n3[x]
  {
    var n4 := Adopt(n3, p, c);
    assert Detach(n3, c) == n3;
    forall x | lo <= x < |n4| ensures n4[x].parent.None? || lo <= n4[x].parent.value < |n4| {
      if x != c {
        assert n4[x].parent == n3[x].parent;
      }
    }
  }

  lemma AddRowState(n0: seq<Node>, n3: seq<Node>, n4: seq<Node>, base: nat, rows: seq<Row>, ind: seq<nat>, m: nat)
    requires m < |rows| == |ind| && Partial(n0, base, rows, ind, m, false) && ClosedUpward(n0, base, |n0|)
    requires Added(n0, n3, n4, base, rows, ind, m)
    ensures Partial(n4, base, rows, ind, m + 1, false)
    ensures ClosedUpward(n4, base, |n4|)
    ensures n4[..base] == n0[..base]
  {
    AddedStepped(n0, n3, n4, base, rows, ind, m);
    StepPartial(n0, n4, base, rows, ind, m);
    AddedClosed(n0, n3, n4, base, rows, ind, m);
  }

  /** Line 80: `parent.append(node)` for a node of the upward-closed range `[lo, hi)`
      whose parent is not in it, which can never close a cycle. */
  method Attach(f: Forest, parent: nat, node: nat, ghost lo: nat, ghost hi: nat)
    requires f.Valid() && NamedBelowRoots(f.nodes) && ClosedUpward(f.nodes, lo, hi)
    requires lo <= parent < hi && hi <= node < |f.nodes| && f.nodes[node].name.Some?
    modifies f
    ensures f.Valid() && NamedBelowRoots(f.nodes)
    ensures parent != node && (old(f.nodes)[node].parent.Some? ==> old(f.nodes)[node].parent.value < |old(f.nodes)|)
    ensures f.nodes == Adopt(old(f.nodes), parent, node)
  {
    ClosedNotBelow(f.nodes, f.depth, lo, hi, parent, node);
    ghost var n := f.nodes;
    f.Append(parent, node);
    AdoptKeepsNames(n, parent, node);
  }

  /** The node on top of the stack before row `m` is the root, still childless when
      `m` is 0, or the rank node of row `m - 1`, whose first child is its identifier node. */
  lemma TopFirstChild(nodes: seq<Node>, base: nat, rows: seq<Row>, ind: seq<nat>, m: nat)
    requires m <= |rows| == |ind| && Partial(nodes, base, rows, ind, m, false)
    ensures var t := NodeOf(base, m - 1);
            && t < |nodes|
            && (nodes[t].children == [] <==> m == 0)
            && (m > 0 ==> nodes[t].children[0] == IdIdx(base, m - 1))
  {
    if m > 0 {
      assert nodes[RankIdx(base, m - 1)] == RankNode(base, rows, ind, m, m - 1);
    }
  }

  /** Line 73: `node.children[0].is_actual_tip = True`; false, changing nothing, where
      the node has no children and Python raises IndexError. */
  method FlagFirstChild(f: Forest, p: nat) returns (ok: bool)
    requires f.Valid() && NamedBelowRoots(f.nodes) && p < |f.nodes|
    modifies f
    ensures f.Valid() && NamedBelowRoots(f.nodes)
    ensures ok <==> old(f.nodes)[p].children != []
    ensures ok ==> var c := old(f.nodes)[p].children[0];
                   c < |old(f.nodes)| && f.nodes == old(f.nodes)[c := old(f.nodes)[c].(isActualTip := true)]
    ensures !ok ==> f.nodes == old(f.nodes)
  {
    if f.nodes[p].children == [] {
      return false;
    }
    assert LinkedDown(f.nodes, p) && f.nodes[p].children[0] in f.nodes[p].children;
    f.SetActualTip(f.nodes[p].children[0], true);
    return true;
  }

  /** Lines 64-74 for kept row `m`: its two nodes are added and, when the row is no deeper
      than the top of the stack, the first child of the top is flagged. That child is
      missing exactly when the top is the childless root, i.e. for a first row at level 0. */
  method OpenRow(f: Forest, root: nat, stack: seq<(nat, nat)>, row: Row, ghost rows: seq<Row>, ghost ind: seq<nat>, ghost m: nat)
    returns (ok: bool, node: nat)
    requires m < |rows| == |ind| && rows[m] == row && ind[m] == Indent(row)
    requires f.Valid() && NamedBelowRoots(f.nodes) && |f.nodes| == root + 1 + 2 * m
    requires |stack| > 0 && stack[|stack| - 1] == (IndAt(ind, m - 1), NodeOf(root, m - 1))
    requires var t := NodeOf(root, m - 1);
             && t < |f.nodes|
             && (f.nodes[t].children == [] <==> m == 0)
             && (m > 0 ==> f.nodes[t].children[0] == IdIdx(root, m - 1))
    modifies f
    ensures f.Valid() && NamedBelowRoots(f.nodes)
    ensures ok <==> !(m == 0 && ind[m] == 0)
    ensures ok ==> node == |old(f.nodes)| && Prepared(old(f.nodes), f.nodes, root, rows, ind, m)
  {
    var indent := Indent(row);
    ghost var n0 := f.nodes;
    var idNode;
    node, idNode := NewRankNode(f, row);
    ghost var n1 := f.nodes;
    assert node == RankIdx(root, m) && idNode == IdIdx(root, m);
    assert n1 == n0 + [Node(Some(RankNodeName(rows[m])), Some(1), [IdIdx(root, m)], None, false),
                       Node(Some(IdNodeName(rows[m])), Some(0), [], Some(RankIdx(root, m)), false)];
    var parentIndent := stack[|stack| - 1].0;
    var parentNode := stack[|stack| - 1].1;
    assert n1[parentNode] == n0[parentNode];
    ok := true;
    if parentIndent >= indent {
      ok := FlagFirstChild(f, parentNode);
      if ok {
        assert f.nodes == n1[IdIdx(root, m - 1) := n1[IdIdx(root, m - 1)].(isActualTip := true)];
      }
    } else {
      assert f.nodes == n1;
    }
  }

  /** The state of the builder after the first `m` kept rows: the arena past `prefix`
      holds their tree, nothing before it changed, and `stack` holds their open rows. */
  ghost predicate Building(nodes: seq<Node>, prefix: seq<Node>, root: nat, rows: seq<Row>, ind: seq<nat>,
                          m: nat, stack: seq<(nat, nat)>)
  {
    && m <= |rows| == |ind|
    && (forall j | 0 <= j < m :: ind[j] > 0)
    && root == |prefix|
    && Partial(nodes, root, rows, ind, m, false)
    && nodes[..root] == prefix
    && ClosedUpward(nodes, root, |nodes|)
    && stack == StackOf(root, ind, Chain(ind, m - 1))
  }

  /** Adding kept row `m` to a builder state gives the builder state of `m + 1` rows. */
  lemma AddedBuilding(n0: seq<Node>, n3: seq<Node>, n4: seq<Node>, prefix: seq<Node>, root: nat,
                      rows: seq<Row>, ind: seq<nat>, m: nat, stack: seq<(nat, nat)>, rest: seq<(nat, nat)>)
    requires m < |rows| == |ind| && ind[m] > 0 && Building(n0, prefix, root, rows, ind, m, stack)
    requires Added(n0, n3, n4, root, rows, ind, m)
    requires rest == StackOf(root, ind, Chain(ind, ParentRow(ind, m)))
    ensures Building(n4, prefix, root, rows, ind, m + 1, rest + [(ind[m], RankIdx(root, m))])
  {
    AddRowState(n0, n3, n4, root, rows, ind, m);
    StackPush(root, ind, m);
  }

  /** Lines 64-80 for kept row `m`: the row is opened, the stack is popped down to the
      parent row, the rank node is appended there and pushed. */
  method AddRow(f: Forest, root: nat, stack: seq<(nat, nat)>, row: Row,
                ghost prefix: seq<Node>, ghost rows: seq<Row>, ghost ind: seq<nat>, ghost m: nat)
    returns (r: Result<seq<(nat, nat)>, BuildError>)
    requires m < |rows| == |ind| && rows[m] == row && ind[m] == Indent(row)
    requires f.Valid() && NamedBelowRoots(f.nodes)
    requires Building(f.nodes, prefix, root, rows, ind, m, stack)
    modifies f
    ensures f.Valid() && NamedBelowRoots(f.nodes)
    ensures r.Failure? <==> Indent(row) == 0
    ensures r.Success? ==> Building(f.nodes, prefix, root, rows, ind, m + 1, r.value)
  {
    var indent := Indent(row);
    ghost var n0 := f.nodes;
    StackTop(root, ind, m - 1);
    TopFirstChild(n0, root, rows, ind, m);
    var ok, node := OpenRow(f, root, stack, row, rows, ind, m);
    if !ok {
      r := Failure(NoIdentifierChild);
    } else {
      ghost var n3 := f.nodes;
      var popped := PopOpen(stack, indent, root, ind, m);
      if popped.Failure? {
        r := Failure(popped.error);
      } else {
        var rest := popped.value;
        StackTop(root, ind, ParentRow(ind, m));
        var parentNode := rest[|rest| - 1].1;
        assert parentNode == NodeOf(root, ParentRow(ind, m)) && root <= parentNode < |n0| == node;
        PreparedClosed(n0, n3, root, rows, ind, m);
        Attach(f, parentNode, node, root, |n0|);
        assert node == RankIdx(root, m) && indent == ind[m];
        AddedBuilding(n0, n3, f.nodes, prefix, root, rows, ind, m, stack, rest);
        r := Success(rest + [(indent, node)]);
      }
    }
  }

  /** Lines 58-80 for row `i` of the report: a kept row is added, any other is skipped. */
  method FeedRow(f: Forest, root: nat, stack: seq<(nat, nat)>, rows: seq<Row>, i: nat,
                 ghost prefix: seq<Node>, ghost kept: seq<Row>, ghost ind: seq<nat>, ghost m: nat)
    returns (r: Result<seq<(nat, nat)>, BuildError>, ghost m': nat)
    requires i < |rows| && kept == Kept(rows) && ind == Indents(kept)
    requires f.Valid() && NamedBelowRoots(f.nodes)
    requires Building(f.nodes, prefix, root, kept, ind, m, stack) && Kept(rows[..i]) == kept[..m]
    modifies f
    ensures f.Valid() && NamedBelowRoots(f.nodes)
    ensures r.Failure? ==> m < |kept| && Indent(kept[m]) == 0
    ensures r.Success? ==> Building(f.nodes, prefix, root, kept, ind, m', r.value) && Kept(rows[..i + 1]) == kept[..m']
  {
    var row := rows[i];
    KeptAdvance(rows, i, m);
    if IsKept(row.rank) {
      r := AddRow(f, root, stack, row, prefix, kept, ind, m);
      m' := m + 1;
    } else {
      r, m' := Success(stack), m;
    }
  }

  /** Lines 82-85: once every row is in, the identifier node of the row on top of the
      stack (the last row) is flagged; with no kept rows the top is the childless root. */
  method CloseLast(f: Forest, root: nat, stack: seq<(nat, nat)>, ghost rows: seq<Row>, ghost ind: seq<nat>)
    requires |rows| == |ind| && f.Valid() && NamedBelowRoots(f.nodes)
    requires Partial(f.nodes, root, rows, ind, |rows|, false)
    requires stack == StackOf(root, ind, Chain(ind, |rows| - 1))
    modifies f
    ensures f.Valid() && NamedBelowRoots(f.nodes)
    ensures Partial(f.nodes, root, rows, ind, |rows|, true)
    ensures f.nodes[..root] == old(f.nodes[..root])
  {
    ghost var n0 := f.nodes;
    StackTop(root, ind, |rows| - 1);
    TopFirstChild(n0, root, rows, ind, |rows|);
    var ok := FlagFirstChild(f, stack[|stack| - 1].1);
    FinishPartial(n0, f.nodes, root, rows, ind);
  }

  /** `_kraken_to_ncbi_tree(df)`: builds the tree of `rows` into the arena and returns its root. */
  method KrakenToNcbiTree(f: Forest, rows: seq<Row>) returns (r: Result<nat, BuildError>)
    requires f.Valid() && NamedBelowRoots(f.nodes)
    modifies f
    ensures f.Valid() && NamedBelowRoots(f.nodes)
    ensures r.Failure? <==> exists j :: 0 <= j < |Kept(rows)| && Indent(Kept(rows)[j]) == 0
    ensures r.Success? ==> r.value == |old(f.nodes)| && Built(f.nodes, r.value, Kept(rows))
    ensures r.Success? ==> f.nodes[..r.value] == old(f.nodes)
  {
    ghost var kept := Kept(rows);
    ghost var ind := Indents(kept);
    var root := f.NewNode(None, None);
    var fed := FeedRows(f, root, rows, old(f.nodes), kept, ind);
    if fed.Failure? {
      return Failure(fed.error);
    }
    assert forall j :: 0 <= j < |kept| ==> Indent(kept[j]) == ind[j] > 0;
    CloseLast(f, root, fed.value, kept, ind);
    return Success(root);
  }

  /** Lines 58-80: the rows in report order, from the state with only the root. */
  method FeedRows(f: Forest, root: nat, rows: seq<Row>, ghost prefix: seq<Node>, ghost kept: seq<Row>, ghost ind: seq<nat>)
    returns (r: Result<seq<(nat, nat)>, BuildError>)
    requires kept == Kept(rows) && ind == Indents(kept)
    requires f.Valid() && NamedBelowRoots(f.nodes)
    requires Building(f.nodes, prefix, root, kept, ind, 0, [(0, root)])
    modifies f
    ensures f.Valid() && NamedBelowRoots(f.nodes)
    ensures r.Failure? ==> exists j :: 0 <= j < |kept| && Indent(kept[j]) == 0
    ensures r.Success? ==> Building(f.nodes, prefix, root, kept, ind, |kept|, r.value)
  {
    var stack: seq<(nat, nat)> := [(0, root)];
    ghost var m: nat := 0;
    for i := 0 to |rows|
      invariant f.Valid() && NamedBelowRoots(f.nodes)
      invariant Building(f.nodes, prefix, root, kept, ind, m, stack) && Kept(rows[..i]) == kept[..m]
    {
      var step;
      step, m := FeedRow(f, root, stack, rows, i, prefix, kept, ind, m);
      if step.Failure? {
        return Failure(step.error);
      }
      stack := step.value;
    }
    assert rows[..|rows|] == rows;
    return Success(stack);
  }
}
