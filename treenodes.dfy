/**
  The part of scikit-bio's `TreeNode` that the classification code uses, as an
  arena: every TreeNode object is one entry of `nodes`, referred to by its index.
  Each entry keeps its name, branch length, ordered children, parent and the
  `is_actual_tip` flag the builder attaches to identifier nodes.

  A ghost `depth` labelling (a parentless node has depth 0, a child is one deeper
  than its parent) witnesses that parent links never form a cycle, which is what
  lets the traversals below terminate.
 */
module TreeNodes {
  import opened Wrappers

  datatype Node = Node(
    name: Option<string>,
    length: Option<nat>,
    children: seq<nat>,
    parent: Option<nat>,
    isActualTip: bool)

  ghost predicate Distinct(s: seq<nat>) {
    forall a, b | 0 <= a < b < |s| :: s[a] != s[b]
  }

  /** Node `i` is listed among its parent's children, one level deeper. */
  ghost predicate LinkedUp(nodes: seq<Node>, depth: seq<nat>, i: nat)
    requires |depth| == |nodes| && i < |nodes|
  {
    match nodes[i].parent
    case None => depth[i] == 0
    case Some(p) => p < |nodes| && i in nodes[p].children && depth[i] == depth[p] + 1
  }

  /** The children of `p` are distinct nodes whose parent is `p`. */
  ghost predicate LinkedDown(nodes: seq<Node>, p: nat)
    requires p < |nodes|
  {
    && Distinct(nodes[p].children)
    && forall c <- nodes[p].children :: c < |nodes| && nodes[c].parent == Some(p)
  }

  /** The arena is a forest: parent and child links agree and `depth` witnesses acyclicity. */
  ghost predicate WellFormed(nodes: seq<Node>, depth: seq<nat>) {
    && |depth| == |nodes|
    && forall i | 0 <= i < |nodes| :: LinkedUp(nodes, depth, i) && LinkedDown(nodes, i)
  }

  /** `j` is `a` or lies below `a`. */
  ghost predicate Descends(nodes: seq<Node>, depth: seq<nat>, j: nat, a: nat)
    requires WellFormed(nodes, depth) && j < |nodes|
    decreases depth[j]
  {
    assert LinkedUp(nodes, depth, j);
    j == a || (nodes[j].parent.Some? && Descends(nodes, depth, nodes[j].parent.value, a))
  }

  /** `node.root()`. */
  function RootOf(nodes: seq<Node>, ghost depth: seq<nat>, i: nat): (r: nat)
    requires WellFormed(nodes, depth) && i < |nodes|
    ensures r < |nodes| && nodes[r].parent.None? && Descends(nodes, depth, i, r)
    decreases depth[i]
  {
    assert LinkedUp(nodes, depth, i);
    match nodes[i].parent
    case None => i
    case Some(p) => RootOf(nodes, depth, p)
  }

  /** `list(node.ancestors())`: the parent, its parent, and so on up to the root. */
  function Ancestors(nodes: seq<Node>, ghost depth: seq<nat>, i: nat): (r: seq<nat>)
    requires WellFormed(nodes, depth) && i < |nodes|
    ensures |r| == depth[i]
    ensures forall k :: 0 <= k < |r| ==> r[k] < |nodes| && depth[r[k]] == depth[i] - 1 - k
    ensures r == [] <==> nodes[i].parent.None?
    ensures r != [] ==> r[0] == nodes[i].parent.value && nodes[r[|r| - 1]].parent.None?
    decreases depth[i]
  {
    assert LinkedUp(nodes, depth, i);
    match nodes[i].parent
    case None => []
    case Some(p) => [p] + Ancestors(nodes, depth, p)
  }

  lemma {:induction false} AncestorsDescend(nodes: seq<Node>, depth: seq<nat>, i: nat)
    requires WellFormed(nodes, depth) && i < |nodes|
    ensures forall a <- Ancestors(nodes, depth, i) :: Descends(nodes, depth, i, a) && a != i
    decreases depth[i]
  {
    assert LinkedUp(nodes, depth, i);
    match nodes[i].parent
    case None =>
    case Some(p) =>
      AncestorsDescend(nodes, depth, p);
      forall a <- Ancestors(nodes, depth, i) ensures Descends(nodes, depth, i, a) {
        if a != p {
          assert a in Ancestors(nodes, depth, p);
        }
      }
  }

  /** The ancestors form a chain: each is the parent of the one before, and each lies
      below all later ones. */
  lemma {:induction false} AncestorsOrdered(nodes: seq<Node>, depth: seq<nat>, i: nat)
    requires WellFormed(nodes, depth) && i < |nodes|
    ensures forall k | 0 <= k < |Ancestors(nodes, depth, i)| - 1 ::
              nodes[Ancestors(nodes, depth, i)[k]].parent == Some(Ancestors(nodes, depth, i)[k + 1])
    ensures forall k, l | 0 <= k <= l < |Ancestors(nodes, depth, i)| ::
              Descends(nodes, depth, Ancestors(nodes, depth, i)[k], Ancestors(nodes, depth, i)[l])
    decreases depth[i]
  {
    assert LinkedUp(nodes, depth, i);
    match nodes[i].parent
    case None =>
    case Some(p) =>
      var anc, up := Ancestors(nodes, depth, i), Ancestors(nodes, depth, p);
      assert anc == [p] + up;
      AncestorsOrdered(nodes, depth, p);
      AncestorsDescend(nodes, depth, p);
      forall k, l | 0 <= k <= l < |anc| ensures Descends(nodes, depth, anc[k], anc[l]) {
        if k == 0 && l > 0 {
          assert anc[l] == up[l - 1] && up[l - 1] in up;
        } else if k > 0 {
          assert anc[k] == up[k - 1] && anc[l] == up[l - 1];
        }
      }
  }

  /** A sequence of distinct numbers below `n` has at most `n` entries. */
  lemma {:induction false} DistinctBound(s: seq<nat>, n: nat)
    requires forall k :: 0 <= k < |s| ==> s[k] < n
    requires forall a, b :: 0 <= a < b < |s| ==> s[a] != s[b]
    ensures |s| <= n
    decreases |s|
  {
    if |s| > 0 {
      var x := s[|s| - 1];
      var t := seq(|s| - 1, k requires 0 <= k < |s| - 1 => if s[k] > x then s[k] - 1 else s[k]);
      forall k | 0 <= k < |t| ensures t[k] < n - 1 {
        assert s[k] != x;
      }
      forall a, b | 0 <= a < b < |t| ensures t[a] != t[b] {
        assert s[a] != s[b] && s[a] != x && s[b] != x;
      }
      DistinctBound(t, n - 1);
    }
  }

  /** No chain of parents is longer than the arena. */
  lemma DepthBound(nodes: seq<Node>, depth: seq<nat>, i: nat)
    requires WellFormed(nodes, depth) && i < |nodes|
    ensures depth[i] < |nodes|
  {
    var s := [i] + Ancestors(nodes, depth, i);
    forall a, b | 0 <= a < b < |s| ensures s[a] != s[b] {
      assert depth[s[a]] == depth[i] - a && depth[s[b]] == depth[i] - b;
    }
    DistinctBound(s, |nodes|);
  }

  lemma {:induction false} DescendsDepth(nodes: seq<Node>, depth: seq<nat>, j: nat, a: nat)
    requires WellFormed(nodes, depth) && j < |nodes| && Descends(nodes, depth, j, a)
    ensures a < |nodes| && depth[a] <= depth[j] && (j != a ==> depth[a] < depth[j])
    decreases depth[j]
  {
    assert LinkedUp(nodes, depth, j);
    if j != a {
      DescendsDepth(nodes, depth, nodes[j].parent.value, a);
    }
  }

  /** Being below is transitive. */
  lemma {:induction false} DescendsTrans(nodes: seq<Node>, depth: seq<nat>, j: nat, b: nat, a: nat)
    requires WellFormed(nodes, depth) && j < |nodes| && b < |nodes|
    requires Descends(nodes, depth, j, b) && Descends(nodes, depth, b, a)
    ensures Descends(nodes, depth, j, a)
    decreases depth[j]
  {
    assert LinkedUp(nodes, depth, j);
    if j != b {
      DescendsTrans(nodes, depth, nodes[j].parent.value, b, a);
    }
  }

  /** Two nodes above the same node lie on one line: one is below the other. */
  lemma {:induction false} DescendsComparable(nodes: seq<Node>, depth: seq<nat>, j: nat, a: nat, b: nat)
    requires WellFormed(nodes, depth) && j < |nodes|
    requires Descends(nodes, depth, j, a) && Descends(nodes, depth, j, b)
    ensures a < |nodes| && b < |nodes|
    ensures Descends(nodes, depth, a, b) || Descends(nodes, depth, b, a)
    decreases depth[j]
  {
    DescendsDepth(nodes, depth, j, a);
    DescendsDepth(nodes, depth, j, b);
    assert LinkedUp(nodes, depth, j);
    if j != a && j != b {
      DescendsComparable(nodes, depth, nodes[j].parent.value, a, b);
    }
  }

  /** A parentless node lies below nothing but itself. */
  lemma RootIsTop(nodes: seq<Node>, depth: seq<nat>, r: nat, x: nat)
    requires WellFormed(nodes, depth) && r < |nodes| && nodes[r].parent.None?
    ensures Descends(nodes, depth, r, x) <==> r == x
  {
  }

  /** The ancestors of the `k`-th ancestor are the entries after it. */
  lemma {:induction false} AncestorsSuffix(nodes: seq<Node>, depth: seq<nat>, i: nat, k: nat)
    requires WellFormed(nodes, depth) && i < |nodes| && k < |Ancestors(nodes, depth, i)|
    ensures Ancestors(nodes, depth, Ancestors(nodes, depth, i)[k]) == Ancestors(nodes, depth, i)[k + 1..]
    decreases depth[i]
  {
    assert LinkedUp(nodes, depth, i);
    var p := nodes[i].parent.value;
    var above := Ancestors(nodes, depth, p);
    assert Ancestors(nodes, depth, i) == [p] + above;
    if k > 0 {
      AncestorsSuffix(nodes, depth, p, k - 1);
      ConsDrop(p, above, k);
    }
  }

  /** Dropping `k + 1` entries of `[x] + a` drops `k` entries of `a`. */
  lemma ConsDrop(x: nat, a: seq<nat>, k: nat)
    requires k <= |a|
    ensures ([x] + a)[k + 1..] == a[k..]
  {
  }

  /** Every node below a parentless node has that node as its root. */
  lemma {:induction false} RootOfUnique(nodes: seq<Node>, depth: seq<nat>, j: nat, r: nat)
    requires WellFormed(nodes, depth) && j < |nodes| && r < |nodes| && nodes[r].parent.None?
    requires Descends(nodes, depth, j, r)
    ensures RootOf(nodes, depth, j) == r
    decreases depth[j]
  {
    assert LinkedUp(nodes, depth, j);
    if j != r {
      RootOfUnique(nodes, depth, nodes[j].parent.value, r);
    }
  }

  /** A node that lies strictly below `a` has `a` among its ancestors. */
  lemma {:induction false} DescendsInAncestors(nodes: seq<Node>, depth: seq<nat>, j: nat, a: nat)
    requires WellFormed(nodes, depth) && j < |nodes| && Descends(nodes, depth, j, a) && j != a
    ensures a in Ancestors(nodes, depth, j)
    decreases depth[j]
  {
    assert LinkedUp(nodes, depth, j);
    var p := nodes[j].parent.value;
    assert Ancestors(nodes, depth, j) == [p] + Ancestors(nodes, depth, p);
    if p != a {
      DescendsInAncestors(nodes, depth, p, a);
    }
  }

  /** Which nodes lie below which does not depend on the depth labelling chosen. */
  lemma {:induction false} DescendsDepthFree(nodes: seq<Node>, d1: seq<nat>, d2: seq<nat>, j: nat, a: nat)
    requires WellFormed(nodes, d1) && WellFormed(nodes, d2) && j < |nodes|
    ensures Descends(nodes, d1, j, a) == Descends(nodes, d2, j, a)
    decreases d1[j]
  {
    assert LinkedUp(nodes, d1, j) && LinkedUp(nodes, d2, j);
    if j != a && nodes[j].parent.Some? {
      DescendsDepthFree(nodes, d1, d2, nodes[j].parent.value, a);
    }
  }

  /** Nor do the ancestors. */
  lemma {:induction false} AncestorsDepthFree(nodes: seq<Node>, d1: seq<nat>, d2: seq<nat>, j: nat)
    requires WellFormed(nodes, d1) && WellFormed(nodes, d2) && j < |nodes|
    ensures Ancestors(nodes, d1, j) == Ancestors(nodes, d2, j)
    decreases d1[j]
  {
    assert LinkedUp(nodes, d1, j) && LinkedUp(nodes, d2, j);
    if nodes[j].parent.Some? {
      AncestorsDepthFree(nodes, d1, d2, nodes[j].parent.value);
    }
  }

  // ---------------------------------------------------------------------------
  // Traversal: skbio's postorder, and the operations built on it.

  /** `node.postorder()`: every node of the subtree, children before their parent. */
  function Postorder(nodes: seq<Node>, ghost depth: seq<nat>, i: nat): (r: seq<nat>)
    requires WellFormed(nodes, depth) && i < |nodes|
    ensures forall k :: 0 <= k < |r| ==> r[k] < |nodes|
    ensures |r| > 0 && r[|r| - 1] == i
    decreases |nodes| - depth[i], 1
  {
    DepthBound(nodes, depth, i);
    assert LinkedDown(nodes, i);
    PostorderAll(nodes, depth, i, nodes[i].children) + [i]
  }

  /** The postorders of the subtrees rooted at `cs`, children of `p`, one after another. */
  function PostorderAll(nodes: seq<Node>, ghost depth: seq<nat>, p: nat, cs: seq<nat>): (r: seq<nat>)
    requires WellFormed(nodes, depth) && p < |nodes|
    requires forall c <- cs :: c < |nodes| && nodes[c].parent == Some(p)
    ensures forall k :: 0 <= k < |r| ==> r[k] < |nodes|
    decreases |nodes| - depth[p], 0, |cs|
  {
    if cs == [] then []
    else
      assert cs[0] in cs && forall c <- cs[1..] :: c in cs;
      assert LinkedUp(nodes, depth, cs[0]);
      DepthBound(nodes, depth, cs[0]);
      Postorder(nodes, depth, cs[0]) + PostorderAll(nodes, depth, p, cs[1..])
  }

  lemma {:induction false} ParentStep(nodes: seq<Node>, depth: seq<nat>, j: nat, c: nat, p: nat)
    requires WellFormed(nodes, depth) && j < |nodes| && c < |nodes|
    requires Descends(nodes, depth, j, c) && nodes[c].parent == Some(p)
    ensures Descends(nodes, depth, j, p)
  {
    assert LinkedUp(nodes, depth, c);
    assert Descends(nodes, depth, c, p);
    DescendsTrans(nodes, depth, j, c, p);
  }

  lemma {:induction false} PostorderBelow(nodes: seq<Node>, depth: seq<nat>, a: nat)
    requires WellFormed(nodes, depth) && a < |nodes|
    ensures forall j <- Postorder(nodes, depth, a) :: Descends(nodes, depth, j, a)
    decreases |nodes| - depth[a], 1
  {
    DepthBound(nodes, depth, a);
    assert LinkedDown(nodes, a);
    PostorderAllBelow(nodes, depth, a, nodes[a].children);
  }

  lemma {:induction false} PostorderAllBelow(nodes: seq<Node>, depth: seq<nat>, p: nat, cs: seq<nat>)
    requires WellFormed(nodes, depth) && p < |nodes|
    requires forall c <- cs :: c < |nodes| && nodes[c].parent == Some(p)
    ensures forall j <- PostorderAll(nodes, depth, p, cs) :: Descends(nodes, depth, j, p)
    decreases |nodes| - depth[p], 0, |cs|
  {
    if cs != [] {
      var c := cs[0];
      assert c in cs;
      assert LinkedUp(nodes, depth, c);
      DepthBound(nodes, depth, c);
      PostorderBelow(nodes, depth, c);
      assert forall x <- cs[1..] :: x in cs;
      PostorderAllBelow(nodes, depth, p, cs[1..]);
      forall j <- PostorderAll(nodes, depth, p, cs) ensures Descends(nodes, depth, j, p) {
        if j in Postorder(nodes, depth, c) {
          ParentStep(nodes, depth, j, c, p);
        }
      }
    }
  }

  lemma {:induction false} MemberInAll(nodes: seq<Node>, depth: seq<nat>, p: nat, cs: seq<nat>, c: nat)
    requires WellFormed(nodes, depth) && p < |nodes|
    requires forall x <- cs :: x < |nodes| && nodes[x].parent == Some(p)
    requires c in cs
    ensures c in PostorderAll(nodes, depth, p, cs)
    decreases |cs|
  {
    assert cs[0] in cs && forall x <- cs[1..] :: x in cs;
    assert LinkedUp(nodes, depth, cs[0]);
    DepthBound(nodes, depth, cs[0]);
    assert PostorderAll(nodes, depth, p, cs) == Postorder(nodes, depth, cs[0]) + PostorderAll(nodes, depth, p, cs[1..]);
    if cs[0] != c {
      assert c in cs[1..];
      MemberInAll(nodes, depth, p, cs[1..], c);
    } else {
      var post := Postorder(nodes, depth, c);
      assert post[|post| - 1] == c;
    }
  }

  lemma {:induction false} ChildInPostorder(nodes: seq<Node>, depth: seq<nat>, a: nat, q: nat, j: nat)
    requires WellFormed(nodes, depth) && a < |nodes|
    requires q in Postorder(nodes, depth, a) && j in nodes[q].children
    ensures j in Postorder(nodes, depth, a)
    decreases |nodes| - depth[a], 1
  {
    DepthBound(nodes, depth, a);
    assert LinkedDown(nodes, a);
    if q == a {
      MemberInAll(nodes, depth, a, nodes[a].children, j);
    } else {
      ChildInPostorderAll(nodes, depth, a, nodes[a].children, q, j);
    }
  }

  lemma {:induction false} ChildInPostorderAll(nodes: seq<Node>, depth: seq<nat>, p: nat, cs: seq<nat>, q: nat, j: nat)
    requires WellFormed(nodes, depth) && p < |nodes|
    requires forall c <- cs :: c < |nodes| && nodes[c].parent == Some(p)
    requires q in PostorderAll(nodes, depth, p, cs) && j in nodes[q].children
    ensures j in PostorderAll(nodes, depth, p, cs)
    decreases |nodes| - depth[p], 0, |cs|
  {
    var c := cs[0];
    assert c in cs;
    assert LinkedUp(nodes, depth, c);
    DepthBound(nodes, depth, c);
    if q in Postorder(nodes, depth, c) {
      ChildInPostorder(nodes, depth, c, q, j);
    } else {
      assert forall x <- cs[1..] :: x in cs;
      ChildInPostorderAll(nodes, depth, p, cs[1..], q, j);
    }
  }

  lemma {:induction false} BelowInPostorder(nodes: seq<Node>, depth: seq<nat>, j: nat, a: nat)
    requires WellFormed(nodes, depth) && j < |nodes| && a < |nodes|
    requires Descends(nodes, depth, j, a)
    ensures j in Postorder(nodes, depth, a)
    decreases depth[j]
  {
    assert LinkedUp(nodes, depth, j);
    if j != a {
      var q := nodes[j].parent.value;
      BelowInPostorder(nodes, depth, q, a);
      ChildInPostorder(nodes, depth, a, q, j);
    }
  }

  /** The postorder of `a` holds exactly the nodes below `a`. */
  lemma PostorderIsSubtree(nodes: seq<Node>, depth: seq<nat>, a: nat)
    requires WellFormed(nodes, depth) && a < |nodes|
    ensures forall j | 0 <= j < |nodes| :: j in Postorder(nodes, depth, a) <==> Descends(nodes, depth, j, a)
  {
    PostorderBelow(nodes, depth, a);
    forall j | 0 <= j < |nodes| && Descends(nodes, depth, j, a) ensures j in Postorder(nodes, depth, a) {
      BelowInPostorder(nodes, depth, j, a);
    }
  }

  /** The first entry of `s` whose name is `name` and which is childless exactly when `tip`. */
  function FirstNamed(nodes: seq<Node>, s: seq<nat>, name: string, tip: bool): (r: Option<nat>)
    requires forall k :: 0 <= k < |s| ==> s[k] < |nodes|
    ensures r.Some? ==> r.value in s && nodes[r.value].name == Some(name)
    ensures r.None? ==> forall j <- s :: !(nodes[j].name == Some(name) && (nodes[j].children == []) == tip)
  {
    if s == [] then None
    else if nodes[s[0]].name == Some(name) && (nodes[s[0]].children == []) == tip then Some(s[0])
    else FirstNamed(nodes, s[1..], name, tip)
  }

  /** Some node of the tree below `root` carries the name `name`. */
  ghost predicate Present(nodes: seq<Node>, depth: seq<nat>, root: nat, name: Option<string>)
    requires WellFormed(nodes, depth)
  {
    name.Some? && exists j | 0 <= j < |nodes| :: Descends(nodes, depth, j, root) && nodes[j].name == name
  }

  /** `node.find(name)`, resolved over the tree below `root`: a childless match is
      preferred, then an internal one, each the first in postorder; None where skbio
      raises MissingNodeError. */
  function Find(nodes: seq<Node>, ghost depth: seq<nat>, root: nat, name: Option<string>): (r: Option<nat>)
    requires WellFormed(nodes, depth) && root < |nodes|
    ensures r.Some? ==> r.value < |nodes| && Descends(nodes, depth, r.value, root) && nodes[r.value].name == name
    ensures r.None? <==> !Present(nodes, depth, root, name)
  {
    if name.None? then None
    else
      var post := Postorder(nodes, depth, root);
      PostorderIsSubtree(nodes, depth, root);
      match FirstNamed(nodes, post, name.value, true)
      case Some(j) => Some(j)
      case None => FirstNamed(nodes, post, name.value, false)
  }

  /** The entries of `s` other than `t` that have no children, in order. */
  function Childless(nodes: seq<Node>, s: seq<nat>, t: nat): (r: seq<nat>)
    requires forall k :: 0 <= k < |s| ==> s[k] < |nodes|
    ensures forall j <- r :: j in s && j != t && nodes[j].children == []
    ensures forall j <- s :: j != t && nodes[j].children == [] ==> j in r
  {
    if s == [] then []
    else (if s[0] != t && nodes[s[0]].children == [] then [s[0]] else []) + Childless(nodes, s[1..], t)
  }

  /** `list(node.tips())`: the childless nodes strictly below `t`, in postorder. */
  function Tips(nodes: seq<Node>, ghost depth: seq<nat>, t: nat): (r: seq<nat>)
    requires WellFormed(nodes, depth) && t < |nodes|
    ensures forall j <- r :: j < |nodes| && j != t && nodes[j].children == [] && Descends(nodes, depth, j, t)
    ensures forall j | 0 <= j < |nodes| :: j != t && nodes[j].children == [] && Descends(nodes, depth, j, t) ==> j in r
  {
    PostorderIsSubtree(nodes, depth, t);
    Childless(nodes, Postorder(nodes, depth, t), t)
  }

  // ---------------------------------------------------------------------------
  // Moving a node: skbio's `append`, which first detaches the node from its old parent.

  /** `children.remove(x)`: drops the first occurrence of `x`. */
  function RemoveFirst(s: seq<nat>, x: nat): (r: seq<nat>)
    ensures forall y <- r :: y in s
    ensures forall y <- s :: y != x ==> y in r
  {
    if s == [] then [] else if s[0] == x then s[1..] else [s[0]] + RemoveFirst(s[1..], x)
  }

  lemma {:induction false} RemoveFirstDistinct(s: seq<nat>, x: nat)
    requires Distinct(s)
    ensures Distinct(RemoveFirst(s, x)) && x !in RemoveFirst(s, x)
  {
    if s != [] && s[0] != x {
      RemoveFirstDistinct(s[1..], x);
      var r := RemoveFirst(s, x);
      forall a, b | 0 <= a < b < |r| ensures r[a] != r[b] {
        if a == 0 {
          assert r[b] in s[1..];
        }
      }
    }
  }

  /** The arena after `c` has been removed from its parent's children (if it has a parent). */
  function Detach(nodes: seq<Node>, c: nat): (r: seq<Node>)
    requires c < |nodes|
    requires nodes[c].parent.Some? ==> nodes[c].parent.value < |nodes|
    ensures |r| == |nodes|
  {
    match nodes[c].parent
    case None => nodes
    case Some(q) => nodes[q := nodes[q].(children := RemoveFirst(nodes[q].children, c))]
  }

  /** The arena after `p.append(c)`: `c` leaves its old parent and becomes the last child of `p`. */
  function Adopt(nodes: seq<Node>, p: nat, c: nat): (r: seq<Node>)
    requires p < |nodes| && c < |nodes| && p != c
    requires nodes[c].parent.Some? ==> nodes[c].parent.value < |nodes|
    ensures |r| == |nodes|
  {
    var d := Detach(nodes, c);
    d[c := d[c].(parent := Some(p))][p := d[p].(children := d[p].children + [c])]
  }

  ghost function Shifted(nodes: seq<Node>, depth: seq<nat>, j: nat, c: nat, p: nat): nat
    requires WellFormed(nodes, depth) && j < |nodes| && p < |nodes| && Descends(nodes, depth, j, c)
  {
    DescendsDepth(nodes, depth, j, c);
    depth[j] - depth[c] + depth[p] + 1
  }

  /** The depth labelling after `p.append(c)`: the subtree of `c` now hangs one below `p`. */
  ghost function Regraft(nodes: seq<Node>, depth: seq<nat>, p: nat, c: nat): (d: seq<nat>)
    requires WellFormed(nodes, depth) && p < |nodes| && c < |nodes|
    ensures |d| == |nodes|
  {
    seq(|nodes|, j requires 0 <= j < |nodes| =>
      if Descends(nodes, depth, j, c) then Shifted(nodes, depth, j, c, p) else depth[j])
  }

  lemma AdoptLinkedUp(nodes: seq<Node>, depth: seq<nat>, p: nat, c: nat, i: nat)
    requires WellFormed(nodes, depth) && p < |nodes| && c < |nodes| && !Descends(nodes, depth, p, c)
    requires i < |nodes|
    ensures p != c && (nodes[c].parent.Some? ==> nodes[c].parent.value < |nodes|)
    ensures LinkedUp(Adopt(nodes, p, c), Regraft(nodes, depth, p, c), i)
  {
    assert LinkedUp(nodes, depth, c);
    var n', d' := Adopt(nodes, p, c), Regraft(nodes, depth, p, c);
    assert LinkedUp(nodes, depth, i);
    if i == c {
      assert Descends(nodes, depth, c, c);
      assert d'[c] == depth[p] + 1;
    } else {
      assert n'[i].parent == nodes[i].parent;
      match nodes[i].parent
      case None =>
        assert !Descends(nodes, depth, i, c);
      case Some(q') =>
        assert Descends(nodes, depth, i, c) <==> Descends(nodes, depth, q', c);
        assert i in n'[q'].children;
    }
  }

  lemma AdoptLinkedDown(nodes: seq<Node>, depth: seq<nat>, p: nat, c: nat, x: nat)
    requires WellFormed(nodes, depth) && p < |nodes| && c < |nodes| && !Descends(nodes, depth, p, c)
    requires x < |nodes|
    ensures p != c && (nodes[c].parent.Some? ==> nodes[c].parent.value < |nodes|)
    ensures LinkedDown(Adopt(nodes, p, c), x)
  {
    assert LinkedUp(nodes, depth, c);
    var n' := Adopt(nodes, p, c);
    assert LinkedDown(nodes, x);
    var oldKids := nodes[x].children;
    var isOldParent := nodes[c].parent == Some(x);
    if isOldParent {
      RemoveFirstDistinct(oldKids, c);
    } else {
      assert c !in oldKids;
    }
    var kept := if isOldParent then RemoveFirst(oldKids, c) else oldKids;
    assert Distinct(kept) && c !in kept;
    forall y <- kept ensures y < |nodes| && n'[y].parent == Some(x) {
      assert y in oldKids;
    }
    if x == p {
      assert n'[x].children == kept + [c];
    } else {
      assert n'[x].children == kept;
    }
  }

  /** Appending a node that is not above `p` keeps the arena a forest. */
  lemma AdoptWellFormed(nodes: seq<Node>, depth: seq<nat>, p: nat, c: nat)
    requires WellFormed(nodes, depth) && p < |nodes| && c < |nodes| && !Descends(nodes, depth, p, c)
    ensures p != c && (nodes[c].parent.Some? ==> nodes[c].parent.value < |nodes|)
    ensures WellFormed(Adopt(nodes, p, c), Regraft(nodes, depth, p, c))
  {
    assert LinkedUp(nodes, depth, c);
    var n', d' := Adopt(nodes, p, c), Regraft(nodes, depth, p, c);
    forall i | 0 <= i < |n'| ensures LinkedUp(n', d', i) && LinkedDown(n', i) {
      AdoptLinkedUp(nodes, depth, p, c, i);
      AdoptLinkedDown(nodes, depth, p, c, i);
    }
  }

  /** A node outside the moved subtree keeps its ancestors and what it lies below. */
  lemma {:induction false} AdoptKeepsOthers(nodes: seq<Node>, depth: seq<nat>, p: nat, c: nat, j: nat, a: nat)
    requires WellFormed(nodes, depth) && p < |nodes| && c < |nodes| && !Descends(nodes, depth, p, c)
    requires j < |nodes| && !Descends(nodes, depth, j, c)
    ensures p != c && (nodes[c].parent.Some? ==> nodes[c].parent.value < |nodes|)
    ensures WellFormed(Adopt(nodes, p, c), Regraft(nodes, depth, p, c))
    ensures Descends(Adopt(nodes, p, c), Regraft(nodes, depth, p, c), j, a) == Descends(nodes, depth, j, a)
    ensures Ancestors(Adopt(nodes, p, c), Regraft(nodes, depth, p, c), j) == Ancestors(nodes, depth, j)
    decreases depth[j]
  {
    AdoptWellFormed(nodes, depth, p, c);
    var n', d' := Adopt(nodes, p, c), Regraft(nodes, depth, p, c);
    assert LinkedUp(nodes, depth, j);
    assert n'[j].parent == nodes[j].parent;
    assert d'[j] == depth[j];
    match nodes[j].parent
    case None =>
    case Some(q) =>
      assert !Descends(nodes, depth, q, c);
      AdoptKeepsOthers(nodes, depth, p, c, q, a);
  }

  /** Every node of the moved subtree now lies below whatever `p` lies below. */
  lemma {:induction false} AdoptMovesSubtree(nodes: seq<Node>, depth: seq<nat>, p: nat, c: nat, j: nat, a: nat)
    requires WellFormed(nodes, depth) && p < |nodes| && c < |nodes| && !Descends(nodes, depth, p, c)
    requires j < |nodes| && Descends(nodes, depth, j, c) && Descends(nodes, depth, p, a)
    ensures p != c && (nodes[c].parent.Some? ==> nodes[c].parent.value < |nodes|)
    ensures WellFormed(Adopt(nodes, p, c), Regraft(nodes, depth, p, c))
    ensures Descends(Adopt(nodes, p, c), Regraft(nodes, depth, p, c), j, a)
    decreases depth[j]
  {
    AdoptWellFormed(nodes, depth, p, c);
    var n', d' := Adopt(nodes, p, c), Regraft(nodes, depth, p, c);
    assert LinkedUp(nodes, depth, j);
    if j == c {
      AdoptKeepsOthers(nodes, depth, p, c, p, a);
      assert n'[c].parent == Some(p);
    } else {
      var q := nodes[j].parent.value;
      assert n'[j].parent == Some(q);
      assert Descends(nodes, depth, q, c);
      AdoptMovesSubtree(nodes, depth, p, c, q, a);
    }
  }

  /** Every node that hangs below another carries a name (only tree roots are unnamed). */
  ghost predicate NamedBelowRoots(nodes: seq<Node>) {
    forall i | 0 <= i < |nodes| :: nodes[i].parent.Some? ==> nodes[i].name.Some?
  }

  lemma AdoptKeepsNames(nodes: seq<Node>, p: nat, c: nat)
    requires p < |nodes| && c < |nodes| && p != c
    requires nodes[c].parent.Some? ==> nodes[c].parent.value < |nodes|
    requires NamedBelowRoots(nodes) && nodes[c].name.Some?
    ensures NamedBelowRoots(Adopt(nodes, p, c))
    ensures forall i | 0 <= i < |nodes| :: Adopt(nodes, p, c)[i].name == nodes[i].name
  {
  }

  /** The nodes in `[lo, hi)` have their parents in `[lo, hi)` (or none). */
  ghost predicate ClosedUpward(nodes: seq<Node>, lo: nat, hi: nat) {
    && lo <= hi <= |nodes|
    && forall x | lo <= x < hi :: nodes[x].parent.None? || lo <= nodes[x].parent.value < hi
  }

  /** A node of an upward-closed range lies below no node outside it. */
  lemma {:induction false} ClosedNotBelow(nodes: seq<Node>, depth: seq<nat>, lo: nat, hi: nat, x: nat, y: nat)
    requires WellFormed(nodes, depth) && ClosedUpward(nodes, lo, hi)
    requires lo <= x < hi && !(lo <= y < hi)
    ensures !Descends(nodes, depth, x, y)
    decreases depth[x]
  {
    assert LinkedUp(nodes, depth, x);
    if nodes[x].parent.Some? {
      ClosedNotBelow(nodes, depth, lo, hi, nodes[x].parent.value, y);
    }
  }

  /** An arena that extends a forest leaves the old nodes' parents inside the old range. */
  lemma PrefixClosed(prefix: seq<Node>, depth: seq<nat>, nodes: seq<Node>)
    requires WellFormed(prefix, depth) && |prefix| <= |nodes| && nodes[..|prefix|] == prefix
    ensures ClosedUpward(nodes, 0, |prefix|)
  {
    forall x | 0 <= x < |prefix| ensures nodes[x].parent.None? || nodes[x].parent.value < |prefix| {
      assert LinkedUp(prefix, depth, x);
      assert nodes[x] == prefix[x];
    }
  }

  /** The model of the Python heap of TreeNode objects. */
  class Forest {
    var nodes: seq<Node>
    ghost var depth: seq<nat>

    ghost predicate Valid()
      reads this
    {
      WellFormed(nodes, depth)
    }

    constructor ()
      ensures Valid() && nodes == []
    {
      nodes := [];
      depth := [];
    }

    /** `skbio.TreeNode(name=name, length=length)`: a new node without parent or children. */
    method NewNode(name: Option<string>, length: Option<nat>) returns (i: nat)
      requires Valid()
      modifies this
      ensures Valid()
      ensures i == |old(nodes)| && nodes == old(nodes) + [Node(name, length, [], None, false)]
      ensures depth == old(depth) + [0]
    {
      i := |nodes|;
      var n' := nodes + [Node(name, length, [], None, false)];
      var d' := depth + [0];
      forall j | 0 <= j < |n'| ensures LinkedUp(n', d', j) && LinkedDown(n', j) {
        if j < i {
          assert LinkedUp(nodes, depth, j) && LinkedDown(nodes, j);
        }
      }
      nodes, depth := n', d';
    }

    /** `p.append(c)`: `c` leaves its old parent and becomes the last child of `p`.
        Appending a node above `p` would close a cycle; callers never do. */
    method Append(p: nat, c: nat)
      requires Valid() && p < |nodes| && c < |nodes| && !Descends(nodes, depth, p, c)
      modifies this
      ensures Valid()
      ensures old(p != c && (nodes[c].parent.Some? ==> nodes[c].parent.value < |nodes|))
      ensures nodes == Adopt(old(nodes), p, c) && depth == Regraft(old(nodes), old(depth), p, c)
    {
      AdoptWellFormed(nodes, depth, p, c);
      nodes, depth := Adopt(nodes, p, c), Regraft(nodes, depth, p, c);
    }

    /** `nodes[i].is_actual_tip = flag`. */
    method SetActualTip(i: nat, flag: bool)
      requires Valid() && i < |nodes|
      modifies this
      ensures Valid() && depth == old(depth)
      ensures nodes == old(nodes)[i := old(nodes)[i].(isActualTip := flag)]
    {
      var n' := nodes[i := nodes[i].(isActualTip := flag)];
      forall j | 0 <= j < |n'| ensures LinkedUp(n', depth, j) && LinkedDown(n', j) {
        assert LinkedUp(nodes, depth, j) && LinkedDown(nodes, j);
      }
      nodes := n';
    }
  }
}
