/**
 * Nodes of a phylogenetic tree (class PhyloNode) and the per-node link
 * updates that thread the tree for linear-time traversals: leaf counts,
 * extreme leaves, and the preorder and postorder successor links.
 *
 * The tree is an arena: node n is the index n, its children are listed in
 * order in children[n], and every per-node field of the source is a sequence
 * indexed by node. A reference to a node is Some(index); null is None.
 * Children always have larger indices than their parent, so visiting the
 * indices from the largest down is a leaf-to-root order.
 */
module Phylo {
  import opened Util

  /**
   * Every child has a larger index than its parent, and a node is the child
   * of at most one node, at one position.
   */
  ghost predicate WellFormed(ch: seq<seq<nat>>)
  {
    && (forall n, i :: 0 <= n < |ch| && 0 <= i < |ch[n]| ==> n < ch[n][i] < |ch|)
    && (forall n, i, m, j ::
          (0 <= n < |ch| && 0 <= i < |ch[n]| && 0 <= m < |ch| && 0 <= j < |ch[m]| && ch[n][i] == ch[m][j]) ==>
          n == m && i == j)
  }

  /** Every reference in s names a node of an arena of size size. */
  ghost predicate Refs(s: seq<Option<nat>>, size: nat)
  {
    forall i :: 0 <= i < |s| && s[i].Some? ==> s[i].value < size
  }

  /** The leaves under n, left to right (n itself when n is a leaf). */
  function Leaves(ch: seq<seq<nat>>, n: nat): (r: seq<nat>)
    requires WellFormed(ch) && n < |ch|
    ensures |r| >= 1
    decreases |ch| - n, 1
  {
    if ch[n] == [] then [n] else ChildLeaves(ch, n, |ch[n]|)
  }

  /** The leaves under the first i children of n, left to right. */
  function ChildLeaves(ch: seq<seq<nat>>, n: nat, i: nat): (r: seq<nat>)
    requires WellFormed(ch) && n < |ch| && i <= |ch[n]|
    ensures i > 0 ==> |r| >= 1
    decreases |ch| - n, 0, i
  {
    if i == 0 then [] else ChildLeaves(ch, n, i - 1) + Leaves(ch, ch[n][i - 1])
  }

  /** x lies in the subtree rooted at n. */
  ghost predicate InSubtree(ch: seq<seq<nat>>, n: nat, x: nat)
    requires WellFormed(ch) && n < |ch|
    decreases |ch| - n
  {
    x == n || exists i :: 0 <= i < |ch[n]| && InSubtree(ch, ch[n][i], x)
  }

  /** Leaves(ch, n) holds exactly the leaves of n's subtree. */
  lemma {:induction false} LeavesAreSubtreeLeaves(ch: seq<seq<nat>>, n: nat)
    requires WellFormed(ch) && n < |ch|
    ensures forall x: nat :: x in Leaves(ch, n) <==> x < |ch| && ch[x] == [] && InSubtree(ch, n, x)
    decreases |ch| - n, 1
  {
    if ch[n] != [] {
      ChildLeavesAreSubtreeLeaves(ch, n, |ch[n]|);
      forall x: nat | x < |ch| && ch[x] == [] && InSubtree(ch, n, x) ensures x in Leaves(ch, n) {
        assert x != n;
      }
    }
  }

  /** ChildLeaves(ch, n, i) holds exactly the leaves under the first i children of n. */
  lemma {:induction false} ChildLeavesAreSubtreeLeaves(ch: seq<seq<nat>>, n: nat, i: nat)
    requires WellFormed(ch) && n < |ch| && i <= |ch[n]|
    ensures forall x: nat :: x in ChildLeaves(ch, n, i) <==>
      x < |ch| && ch[x] == [] && exists j :: 0 <= j < i && InSubtree(ch, ch[n][j], x)
    decreases |ch| - n, 0, i
  {
    if i > 0 {
      ChildLeavesAreSubtreeLeaves(ch, n, i - 1);
      LeavesAreSubtreeLeaves(ch, ch[n][i - 1]);
      forall x: nat | x < |ch| && ch[x] == [] && (exists j :: 0 <= j < i && InSubtree(ch, ch[n][j], x))
        ensures x in ChildLeaves(ch, n, i)
      {
        var j :| 0 <= j < i && InSubtree(ch, ch[n][j], x);
        if j == i - 1 {
          assert x in Leaves(ch, ch[n][i - 1]);
        }
      }
    }
  }

  /** A subtree holds only its root and nodes of larger index. */
  lemma {:induction false} SubtreeAbove(ch: seq<seq<nat>>, a: nat, x: nat)
    requires WellFormed(ch) && a < |ch| && InSubtree(ch, a, x)
    ensures a <= x < |ch|
    decreases |ch| - a
  {
    if x != a {
      var i :| 0 <= i < |ch[a]| && InSubtree(ch, ch[a][i], x);
      SubtreeAbove(ch, ch[a][i], x);
    }
  }

  /** A proper descendant's parent is in the subtree too. */
  lemma {:induction false} ParentInSubtree(ch: seq<seq<nat>>, b: nat, a: nat, k: nat)
    requires WellFormed(ch) && b < |ch| && a < |ch| && k < |ch[a]|
    requires InSubtree(ch, b, ch[a][k]) && ch[a][k] != b
    ensures InSubtree(ch, b, a)
    decreases |ch| - b
  {
    var i :| 0 <= i < |ch[b]| && InSubtree(ch, ch[b][i], ch[a][k]);
    if ch[b][i] != ch[a][k] {
      ParentInSubtree(ch, ch[b][i], a, k);
    }
  }

  /** Two subtrees that share a node are nested: the one with the smaller root holds the other root. */
  lemma {:induction false} SharedNodeNests(ch: seq<seq<nat>>, a: nat, b: nat, x: nat)
    requires WellFormed(ch) && a <= b < |ch|
    requires InSubtree(ch, a, x) && InSubtree(ch, b, x)
    ensures InSubtree(ch, a, b)
    decreases |ch| - a
  {
    if a != b {
      SubtreeAbove(ch, b, x);
      var i :| 0 <= i < |ch[a]| && InSubtree(ch, ch[a][i], x);
      var c := ch[a][i];
      if c <= b {
        SharedNodeNests(ch, c, b, x);
      } else {
        SharedNodeNests(ch, b, c, x);
        ParentInSubtree(ch, b, a, i);
        SubtreeAbove(ch, b, a);
        assert false;
      }
    }
  }

  /** Sibling subtrees have no leaf in common, and none of their leaves is the parent. */
  lemma SiblingLeavesDisjoint(ch: seq<seq<nat>>, n: nat, i: nat, j: nat)
    requires WellFormed(ch) && n < |ch| && i < |ch[n]| && j < |ch[n]| && i != j
    ensures forall x :: x in Leaves(ch, ch[n][i]) ==> x !in Leaves(ch, ch[n][j]) && x != n
  {
    var a, b := ch[n][i], ch[n][j];
    LeavesAreSubtreeLeaves(ch, a);
    LeavesAreSubtreeLeaves(ch, b);
    forall x | x in Leaves(ch, a) ensures x !in Leaves(ch, b) && x != n {
      SubtreeAbove(ch, a, x);
      if x in Leaves(ch, b) {
        if a < b {
          SharedNodeNests(ch, a, b, x);
          ParentInSubtree(ch, a, n, j);
          SubtreeAbove(ch, a, n);
        } else {
          SharedNodeNests(ch, b, a, x);
          ParentInSubtree(ch, b, n, i);
          SubtreeAbove(ch, b, n);
        }
        assert false;
      }
    }
  }

  /** The sum of the given nodes' values, in list order. */
  function SumOf(vals: seq<int>, nodes: seq<nat>): int
    requires forall k :: 0 <= k < |nodes| ==> nodes[k] < |vals|
  {
    if nodes == [] then 0 else SumOf(vals, nodes[..|nodes| - 1]) + vals[nodes[|nodes| - 1]]
  }

  /** When every listed child already holds its leaf count, their sum is the leaf count of the first i children. */
  lemma {:induction false} SumOfLeafCounts(ch: seq<seq<nat>>, vals: seq<int>, n: nat, i: nat)
    requires WellFormed(ch) && n < |ch| && i <= |ch[n]| && |vals| == |ch|
    requires forall j :: 0 <= j < i ==> vals[ch[n][j]] == |Leaves(ch, ch[n][j])|
    ensures SumOf(vals, ch[n][..i]) == |ChildLeaves(ch, n, i)|
  {
    if i > 0 {
      assert ch[n][..i][..i - 1] == ch[n][..i - 1];
      SumOfLeafCounts(ch, vals, n, i - 1);
    }
  }

  /**
   * The preorder successors after the loop of linkNodesInPreorder has run its
   * first i rounds: round j points the rightmost leaf of child j at child j + 1.
   */
  function PreorderLinks(next: seq<Option<nat>>, rightmost: seq<Option<nat>>, kids: seq<nat>, i: nat): (r: seq<Option<nat>>)
    requires i < |kids|
    requires forall j :: 0 <= j < i ==> kids[j] < |rightmost| && rightmost[kids[j]].Some? && rightmost[kids[j]].value < |next|
    ensures |r| == |next|
  {
    if i == 0 then next
    else PreorderLinks(next, rightmost, kids, i - 1)[rightmost[kids[i - 1]].value := Some(kids[i])]
  }

  /**
   * When the rightmost leaves of the children are pairwise distinct (as they
   * are in a tree), round j's write survives: the rightmost leaf of child j
   * points at child j + 1, and every other node keeps its successor.
   */
  lemma {:induction false} PreorderLinksEffect(next: seq<Option<nat>>, rightmost: seq<Option<nat>>, kids: seq<nat>, i: nat)
    requires i < |kids|
    requires forall j :: 0 <= j < i ==> kids[j] < |rightmost| && rightmost[kids[j]].Some? && rightmost[kids[j]].value < |next|
    requires forall j, l :: 0 <= j < l < i ==> rightmost[kids[j]] != rightmost[kids[l]]
    ensures forall j :: 0 <= j < i ==> PreorderLinks(next, rightmost, kids, i)[rightmost[kids[j]].value] == Some(kids[j + 1])
    ensures forall x :: 0 <= x < |next| && (forall j :: 0 <= j < i ==> rightmost[kids[j]] != Some(x)) ==>
      PreorderLinks(next, rightmost, kids, i)[x] == next[x]
  {
    if i > 0 {
      PreorderLinksEffect(next, rightmost, kids, i - 1);
    }
  }

  /** The nodes of one tree, with the link fields of each node. */
  class PhyloArena {
    /** children[n]: the children of node n, in order. */
    const children: seq<seq<nat>>
    /** The program's own node id. */
    var id: seq<int>
    /** The id the node had in the external program; -1 when unknown. */
    var externalId: seq<int>
    var labels: seq<Option<string>>
    /** The number of leaves under the node (1 for a leaf), once computed. */
    var numberLeaves: seq<int>
    var leftmostLeaf: seq<Option<nat>>
    var rightmostLeaf: seq<Option<nat>>
    var preorderNext: seq<Option<nat>>
    var posorderNext: seq<Option<nat>>

    ghost predicate Valid()
      reads this
    {
      && WellFormed(children)
      && |id| == |children| && |externalId| == |children| && |labels| == |children|
      && |numberLeaves| == |children|
      && |leftmostLeaf| == |children| && |rightmostLeaf| == |children|
      && |preorderNext| == |children| && |posorderNext| == |children|
      && Refs(leftmostLeaf, |children|) && Refs(rightmostLeaf, |children|)
      && Refs(preorderNext, |children|) && Refs(posorderNext, |children|)
    }

    /** Node n's extreme leaves are the first and last leaves of its subtree. */
    ghost predicate ExtremesSet(n: nat)
      requires Valid() && n < |children|
      reads this
    {
      && leftmostLeaf[n] == Some(Leaves(children, n)[0])
      && rightmostLeaf[n] == Some(Leaves(children, n)[|Leaves(children, n)| - 1])
    }

    /**
     * One PhyloNode(id, label, branchLength) per node: external id -1, no
     * leaf count yet, and every link null.
     */
    constructor (children: seq<seq<nat>>, ids: seq<int>, labels: seq<Option<string>>)
      requires WellFormed(children) && |ids| == |children| && |labels| == |children|
      ensures Valid()
      ensures this.children == children && id == ids && this.labels == labels
      ensures forall n :: 0 <= n < |children| ==> externalId[n] == -1 && numberLeaves[n] == 0
      ensures forall n :: 0 <= n < |children| ==>
        leftmostLeaf[n].None? && rightmostLeaf[n].None? && preorderNext[n].None? && posorderNext[n].None?
    {
      this.children := children;
      id := ids;
      this.labels := labels;
      externalId := seq(|children|, _ => -1);
      numberLeaves := seq(|children|, _ => 0);
      leftmostLeaf := seq(|children|, _ => None);
      rightmostLeaf := seq(|children|, _ => None);
      preorderNext := seq(|children|, _ => None);
      posorderNext := seq(|children|, _ => None);
    }

    function GetId(n: nat): int
      requires Valid() && n < |children|
      reads this
    {
      id[n]
    }

    function GetExternalId(n: nat): int
      requires Valid() && n < |children|
      reads this
    {
      externalId[n]
    }

    function GetLabel(n: nat): Option<string>
      requires Valid() && n < |children|
      reads this
    {
      labels[n]
    }

    function GetNumberLeaves(n: nat): int
      requires Valid() && n < |children|
      reads this
    {
      numberLeaves[n]
    }

    /** setExternalId: the getter answers the new value; no other node changes. */
    method SetExternalId(n: nat, v: int)
      requires Valid() && n < |children|
      modifies this`externalId
      ensures Valid() && GetExternalId(n) == v
      ensures forall m :: 0 <= m < |children| && m != n ==> externalId[m] == old(externalId[m])
    {
      externalId := externalId[n := v];
    }

    /** setLabel: the getter answers the new label; no other node changes. */
    method SetLabel(n: nat, l: Option<string>)
      requires Valid() && n < |children|
      modifies this`labels
      ensures Valid() && GetLabel(n) == l
      ensures forall m :: 0 <= m < |children| && m != n ==> labels[m] == old(labels[m])
    {
      labels := labels[n := l];
    }

    /** setNumberLeaves(int): the getter answers the new count; no other node changes. */
    method SetNumberLeavesTo(n: nat, v: int)
      requires Valid() && n < |children|
      modifies this`numberLeaves
      ensures Valid() && GetNumberLeaves(n) == v
      ensures forall m :: 0 <= m < |children| && m != n ==> numberLeaves[m] == old(numberLeaves[m])
    {
      numberLeaves := numberLeaves[n := v];
    }

    /**
     * setExtremeLeaves: a leaf is its own leftmost and rightmost leaf; an
     * internal node copies its first child's leftmost leaf and its last
     * child's rightmost leaf (null when those are not set yet). When the
     * children's extremes are already right, so are the node's.
     */
    method SetExtremeLeaves(n: nat)
      requires Valid() && n < |children|
      modifies this`leftmostLeaf, this`rightmostLeaf
      ensures Valid()
      ensures leftmostLeaf == old(leftmostLeaf)[n :=
        if children[n] == [] then Some(n) else old(leftmostLeaf)[children[n][0]]]
      ensures rightmostLeaf == old(rightmostLeaf)[n :=
        if children[n] == [] then Some(n) else old(rightmostLeaf)[children[n][|children[n]| - 1]]]
      ensures (forall i :: 0 <= i < |children[n]| ==> ExtremesSet(children[n][i])) ==> ExtremesSet(n)
    {
      if children[n] == [] {
        leftmostLeaf := leftmostLeaf[n := Some(n)];
        rightmostLeaf := rightmostLeaf[n := Some(n)];
        return;
      }
      var first := children[n][0];
      var last := children[n][|children[n]| - 1];
      leftmostLeaf := leftmostLeaf[n := leftmostLeaf[first]];
      rightmostLeaf := rightmostLeaf[n := rightmostLeaf[last]];
      ExtremesOfInternalNode(n);
    }

    /** An internal node's first and last leaves are those of its first and last children. */
    lemma ExtremesOfInternalNode(n: nat)
      requires Valid() && n < |children| && children[n] != []
      ensures Leaves(children, n)[0] == Leaves(children, children[n][0])[0]
      ensures Leaves(children, n)[|Leaves(children, n)| - 1] ==
        Leaves(children, children[n][|children[n]| - 1])[|Leaves(children, children[n][|children[n]| - 1])| - 1]
    {
      var k := |children[n]|;
      LeavesAreSubtreeLeaves(children, children[n][0]);
      LeavesAreSubtreeLeaves(children, children[n][k - 1]);
      FirstChildLeavesLead(n, k);
    }

    /** The leaves under the first i children start with the first child's leaves. */
    lemma {:induction false} FirstChildLeavesLead(n: nat, i: nat)
      requires Valid() && n < |children| && 1 <= i <= |children[n]|
      ensures |ChildLeaves(children, n, i)| >= 1
      ensures ChildLeaves(children, n, i)[0] == Leaves(children, children[n][0])[0]
    {
      LeavesAreSubtreeLeaves(children, children[n][0]);
      if i > 1 {
        FirstChildLeavesLead(n, i - 1);
      }
    }

    /**
     * setExtremeLeaves applied to every node in leaf-to-root order: afterwards
     * each node's extremes are the first and last leaves of its own subtree.
     */
    method SetAllExtremeLeaves()
      requires Valid()
      modifies this`leftmostLeaf, this`rightmostLeaf
      ensures Valid()
      ensures forall n :: 0 <= n < |children| ==> ExtremesSet(n)
      ensures forall n :: 0 <= n < |children| ==>
        leftmostLeaf[n].Some? && leftmostLeaf[n].value < |children| && children[leftmostLeaf[n].value] == [] &&
        InSubtree(children, n, leftmostLeaf[n].value)
      ensures forall n :: 0 <= n < |children| ==>
        rightmostLeaf[n].Some? && rightmostLeaf[n].value < |children| && children[rightmostLeaf[n].value] == [] &&
        InSubtree(children, n, rightmostLeaf[n].value)
    {
      var m := |children|;
      while m > 0
        invariant 0 <= m <= |children| && Valid()
        invariant forall j :: m <= j < |children| ==> ExtremesSet(j)
      {
        m := m - 1;
        ghost var left, right := leftmostLeaf, rightmostLeaf;
        forall j | m < j < |children|
          ensures left[j] == Some(Leaves(children, j)[0]) && right[j] == Some(Leaves(children, j)[|Leaves(children, j)| - 1])
        {
          assert ExtremesSet(j);
        }
        SetExtremeLeaves(m);
        forall j | m < j < |children| ensures ExtremesSet(j) {
          assert leftmostLeaf[j] == left[j] && rightmostLeaf[j] == right[j];
        }
      }
      forall n | 0 <= n < |children|
        ensures leftmostLeaf[n].Some? && leftmostLeaf[n].value < |children| && children[leftmostLeaf[n].value] == [] &&
          InSubtree(children, n, leftmostLeaf[n].value)
        ensures rightmostLeaf[n].Some? && rightmostLeaf[n].value < |children| && children[rightmostLeaf[n].value] == [] &&
          InSubtree(children, n, rightmostLeaf[n].value)
      {
        assert ExtremesSet(n);
        ExtremesAreSubtreeLeaves(n);
      }
    }

    /** Extremes that are set name leaves of the node's own subtree. */
    lemma ExtremesAreSubtreeLeaves(n: nat)
      requires Valid() && n < |children| && ExtremesSet(n)
      ensures leftmostLeaf[n].Some? && leftmostLeaf[n].value < |children| && children[leftmostLeaf[n].value] == [] &&
        InSubtree(children, n, leftmostLeaf[n].value)
      ensures rightmostLeaf[n].Some? && rightmostLeaf[n].value < |children| && children[rightmostLeaf[n].value] == [] &&
        InSubtree(children, n, rightmostLeaf[n].value)
    {
      LeavesAreSubtreeLeaves(children, n);
      assert Leaves(children, n)[0] in Leaves(children, n);
      assert Leaves(children, n)[|Leaves(children, n)| - 1] in Leaves(children, n);
    }

    /**
     * setNumberLeaves(): 1 for a leaf, otherwise the sum of the children's
     * current counts, stored and returned. When every child already holds its
     * leaf count, so does the node.
     */
    method SetNumberLeaves(n: nat) returns (r: int)
      requires Valid() && n < |children|
      modifies this`numberLeaves
      ensures Valid() && r == numberLeaves[n]
      ensures numberLeaves == old(numberLeaves)[n :=
        if children[n] == [] then 1 else SumOf(old(numberLeaves), children[n])]
      ensures (forall i :: 0 <= i < |children[n]| ==> numberLeaves[children[n][i]] == |Leaves(children, children[n][i])|) ==>
        r == |Leaves(children, n)|
    {
      var kids := children[n];
      numberLeaves := numberLeaves[n := 0];
      if kids == [] {
        numberLeaves := numberLeaves[n := 1];
      } else {
        for i := 0 to |kids|
          invariant |numberLeaves| == |children|
          invariant numberLeaves == old(numberLeaves)[n := SumOf(old(numberLeaves), kids[..i])]
        {
          assert kids[..i + 1][..i] == kids[..i];
          numberLeaves := numberLeaves[n := numberLeaves[n] + numberLeaves[kids[i]]];
        }
        assert kids[..|kids|] == kids;
      }
      r := numberLeaves[n];
      if kids != [] && forall i :: 0 <= i < |kids| ==> numberLeaves[kids[i]] == |Leaves(children, kids[i])| {
        SumOfLeafCounts(children, old(numberLeaves), n, |kids|);
      }
    }

    /** setNumberLeaves() applied to every node in leaf-to-root order: each node then holds its leaf count. */
    method SetAllNumberLeaves()
      requires Valid()
      modifies this`numberLeaves
      ensures Valid()
      ensures forall n :: 0 <= n < |children| ==> numberLeaves[n] == |Leaves(children, n)| && numberLeaves[n] >= 1
    {
      var m := |children|;
      while m > 0
        invariant 0 <= m <= |children| && Valid()
        invariant forall j :: m <= j < |children| ==> numberLeaves[j] == |Leaves(children, j)|
      {
        m := m - 1;
        var _ := SetNumberLeaves(m);
      }
      forall n | 0 <= n < |children| ensures numberLeaves[n] >= 1 {
        LeavesAreSubtreeLeaves(children, n);
      }
    }

    /**
     * linkNodesInPreorder: nothing for a leaf; otherwise the node's successor
     * is its first child, then, in order, the rightmost leaf of each child but
     * the last is pointed at the next child. The rightmost leaves it writes
     * through must be set.
     */
    method LinkNodesInPreorder(n: nat)
      requires Valid() && n < |children|
      requires forall i :: 0 <= i < |children[n]| - 1 ==> rightmostLeaf[children[n][i]].Some?
      modifies this`preorderNext
      ensures Valid()
      ensures children[n] == [] ==> preorderNext == old(preorderNext)
      ensures children[n] != [] ==>
        preorderNext == PreorderLinks(old(preorderNext)[n := Some(children[n][0])], rightmostLeaf, children[n], |children[n]| - 1)
      ensures children[n] != [] && (forall i :: 0 <= i < |children[n]| ==> ExtremesSet(children[n][i])) ==>
        && preorderNext[n] == Some(children[n][0])
        && (forall i :: 0 <= i < |children[n]| - 1 ==>
              preorderNext[rightmostLeaf[children[n][i]].value] == Some(children[n][i + 1]))
        && (forall x ::
              (0 <= x < |children| && x != n &&
               forall i :: 0 <= i < |children[n]| - 1 ==> rightmostLeaf[children[n][i]] != Some(x)) ==>
              preorderNext[x] == old(preorderNext[x]))
    {
      var kids := children[n];
      if kids == [] {
        return;
      }
      preorderNext := preorderNext[n := Some(kids[0])];
      ghost var start := preorderNext;
      for i := 0 to |kids| - 1
        invariant |preorderNext| == |children| && Refs(preorderNext, |children|)
        invariant preorderNext == PreorderLinks(start, rightmostLeaf, kids, i)
      {
        preorderNext := preorderNext[rightmostLeaf[kids[i]].value := Some(kids[i + 1])];
      }
      if forall i :: 0 <= i < |kids| ==> ExtremesSet(kids[i]) {
        PreorderLinksInTree(n, old(preorderNext));
      }
    }

    /** Once the children's extremes are set, their rightmost leaves are pairwise distinct and differ from n. */
    lemma RightmostLeavesApart(n: nat)
      requires Valid() && n < |children|
      requires forall i :: 0 <= i < |children[n]| ==> ExtremesSet(children[n][i])
      ensures forall i, j :: 0 <= i < j < |children[n]| ==> rightmostLeaf[children[n][i]] != rightmostLeaf[children[n][j]]
      ensures forall i :: 0 <= i < |children[n]| ==> rightmostLeaf[children[n][i]] != Some(n)
    {
      forall i, j | 0 <= i < |children[n]| && 0 <= j < |children[n]| && i != j
        ensures rightmostLeaf[children[n][i]] != rightmostLeaf[children[n][j]]
      {
        var a, b := children[n][i], children[n][j];
        assert ExtremesSet(a) && ExtremesSet(b);
        assert Leaves(children, a)[|Leaves(children, a)| - 1] in Leaves(children, a);
        assert Leaves(children, b)[|Leaves(children, b)| - 1] in Leaves(children, b);
        SiblingLeavesDisjoint(children, n, i, j);
      }
      forall i | 0 <= i < |children[n]| ensures rightmostLeaf[children[n][i]] != Some(n) {
        assert ExtremesSet(children[n][i]);
        LeavesAreSubtreeLeaves(children, children[n][i]);
        SubtreeAbove(children, children[n][i], rightmostLeaf[children[n][i]].value);
      }
    }

    /** In a tree whose children's extremes are set, every write of linkNodesInPreorder survives. */
    lemma PreorderLinksInTree(n: nat, next: seq<Option<nat>>)
      requires Valid() && n < |children| && children[n] != [] && |next| == |children|
      requires forall i :: 0 <= i < |children[n]| - 1 ==> rightmostLeaf[children[n][i]].Some?
      requires forall i :: 0 <= i < |children[n]| ==> ExtremesSet(children[n][i])
      ensures PreorderLinks(next[n := Some(children[n][0])], rightmostLeaf, children[n], |children[n]| - 1)[n] == Some(children[n][0])
      ensures forall i :: 0 <= i < |children[n]| - 1 ==>
        PreorderLinks(next[n := Some(children[n][0])], rightmostLeaf, children[n], |children[n]| - 1)[rightmostLeaf[children[n][i]].value]
        == Some(children[n][i + 1])
      ensures forall x ::
        (0 <= x < |children| && x != n &&
         forall i :: 0 <= i < |children[n]| - 1 ==> rightmostLeaf[children[n][i]] != Some(x)) ==>
        PreorderLinks(next[n := Some(children[n][0])], rightmostLeaf, children[n], |children[n]| - 1)[x] == next[x]
    {
      RightmostLeavesApart(n);
      PreorderLinksEffect(next[n := Some(children[n][0])], rightmostLeaf, children[n], |children[n]| - 1);
    }

    /**
     * linkNodesInPostorder: nothing for a leaf; otherwise each child but the
     * last is followed by the next child's leftmost leaf (null when not set),
     * and the last child by the node itself. No other node changes.
     */
    method LinkNodesInPostorder(n: nat)
      requires Valid() && n < |children|
      modifies this`posorderNext
      ensures Valid()
      ensures forall x :: 0 <= x < |children| && x !in children[n] ==> posorderNext[x] == old(posorderNext[x])
      ensures forall i :: 0 <= i < |children[n]| - 1 ==> posorderNext[children[n][i]] == leftmostLeaf[children[n][i + 1]]
      ensures children[n] != [] ==> posorderNext[children[n][|children[n]| - 1]] == Some(n)
    {
      var kids := children[n];
      if kids == [] {
        return;
      }
      LinkSiblingsInPostorder(n);
      posorderNext := posorderNext[kids[|kids| - 1] := Some(n)];
    }

    /** The loop of linkNodesInPostorder: each child but the last is followed by the next child's leftmost leaf. */
    method LinkSiblingsInPostorder(n: nat)
      requires Valid() && n < |children| && children[n] != []
      modifies this`posorderNext
      ensures Valid()
      ensures forall x :: 0 <= x < |children| && x !in children[n][..|children[n]| - 1] ==> posorderNext[x] == old(posorderNext[x])
      ensures forall i :: 0 <= i < |children[n]| - 1 ==> posorderNext[children[n][i]] == leftmostLeaf[children[n][i + 1]]
    {
      var kids := children[n];
      for i := 0 to |kids| - 1
        invariant |posorderNext| == |children| && Refs(posorderNext, |children|)
        invariant forall x :: 0 <= x < |children| && x !in kids[..i] ==> posorderNext[x] == old(posorderNext[x])
        invariant forall j :: 0 <= j < i ==> posorderNext[kids[j]] == leftmostLeaf[kids[j + 1]]
      {
        posorderNext := posorderNext[kids[i] := leftmostLeaf[kids[i + 1]]];
      }
    }
  }
}
