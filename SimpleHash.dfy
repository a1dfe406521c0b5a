/**
 * The k-mer index (class SimpleHash_v2): a map from words to posting stores.
 * A store (CustomNode) collects (node id, PP*) pairs per reference position;
 * its internals are not part of this model. A store is therefore represented
 * by the history of the operations the index applied to it, and everything
 * the index asks a store is answered by a StoreView, a record of functions
 * that the caller fixes. Every property proved here holds for any StoreView.
 */
module Hash {
  import opened Util
  import opened DnaStates

  /** A word: the packed codes of a k-mer, compared by value. */
  datatype Word = Word(codes: seq<Byte>)

  /** A (nodeId, PP*) pair. The score is never computed with, so it is a real. */
  datatype Pair = Pair(nodeId: int, ppStar: real)

  /** The operations the index applies to a store. */
  datatype StoreOp =
    | RegisterTuple(nodeId: int, refPos: int, ppStar: real)
    | Sort
    | ClearPairsOfWorsePositions
    | LimitToXPairsPerPosition(x: int)

  /** A store, known by the operations applied to it since it was created empty. */
  datatype Store = Store(history: seq<StoreOp>)

  /** What the index asks a store; the answers are the store's own business. */
  datatype StoreView = StoreView(
    bestPair: Store -> Pair,
    bestPosition: Store -> int,
    positions: Store -> seq<int>,
    pairList: (Store, int) -> seq<Pair>,
    /** limitToXPairsPerPosition's answer: true when the store is left empty. */
    emptiedByLimit: (Store, int) -> bool)

  /** The store after one more operation. */
  function Applied(s: Store, op: StoreOp): (r: Store)
    ensures |r.history| == |s.history| + 1 && r.history[|s.history|] == op
    ensures r.history[..|s.history|] == s.history
  {
    Store(s.history + [op])
  }

  /** The pair lists at the given positions, one after another. */
  function PairsAt(view: StoreView, s: Store, ps: seq<int>): seq<Pair>
  {
    if ps == [] then [] else PairsAt(view, s, ps[..|ps| - 1]) + view.pairList(s, ps[|ps| - 1])
  }

  /** A pair is in the concatenation exactly when some listed position holds it. */
  lemma {:induction false} PairsAtMembership(view: StoreView, s: Store, ps: seq<int>, x: Pair)
    ensures x in PairsAt(view, s, ps) <==> exists i :: 0 <= i < |ps| && x in view.pairList(s, ps[i])
  {
    if ps != [] {
      var init := ps[..|ps| - 1];
      PairsAtMembership(view, s, init, x);
      if x in PairsAt(view, s, ps) && x !in PairsAt(view, s, init) {
        assert x in view.pairList(s, ps[|ps| - 1]);
      }
      if exists i :: 0 <= i < |ps| && x in view.pairList(s, ps[i]) {
        var i :| 0 <= i < |ps| && x in view.pairList(s, ps[i]);
        if i < |ps| - 1 {
          assert init[i] == ps[i];
        }
      }
    }
  }

  /** One bucket tree node of CustomHashMap: only its shape matters here. */
  datatype TreeNode = TreeNode(left: Option<TreeNode>, right: Option<TreeNode>)

  function Size(t: TreeNode): (r: nat)
    ensures r >= 1
  {
    1 + (if t.left.Some? then Size(t.left.value) else 0) + (if t.right.Some? then Size(t.right.value) else 0)
  }

  class SimpleHashV2 {
    /** The word to store map. */
    var hash: map<Word, Store>
    /** Nodes visited by bucketDFS so far. */
    var dfsCount: int
    /** How the stores answer. */
    const view: StoreView

    /** An empty index (both source constructors; the initial capacity is not modelled). */
    constructor (view: StoreView)
      ensures hash == map[] && dfsCount == 0 && this.view == view
    {
      hash := map[];
      dfsCount := 0;
      this.view := view;
    }

    /** addTuple: creates w's store if missing, then registers the tuple in it. */
    method AddTuple(w: Word, ppStar: real, nodeId: int, refPos: int)
      modifies this`hash
      ensures hash.Keys == old(hash).Keys + {w}
      ensures w in old(hash) ==> hash[w] == Applied(old(hash)[w], RegisterTuple(nodeId, refPos, ppStar))
      ensures w !in old(hash) ==> hash[w] == Store([RegisterTuple(nodeId, refPos, ppStar)])
      ensures forall v :: v in old(hash) && v != w ==> hash[v] == old(hash)[v]
    {
      if w !in hash {
        hash := hash[w := Store([])];
      }
      hash := hash[w := Applied(hash[w], RegisterTuple(nodeId, refPos, ppStar))];
    }

    /** getTopPair: the store's best pair, or null for an absent word. */
    function GetTopPair(w: Word): (r: Option<Pair>)
      reads this
      ensures r.None? <==> w !in hash
      ensures r.Some? ==> r.value == view.bestPair(hash[w])
    {
      if w in hash then Some(view.bestPair(hash[w])) else None
    }

    /** getPairsOfTopPosition: the pair list at the store's best position, or null. */
    function GetPairsOfTopPosition(w: Word): (r: Option<seq<Pair>>)
      reads this
      ensures r.None? <==> w !in hash
      ensures r.Some? ==> r.value == view.pairList(hash[w], view.bestPosition(hash[w]))
    {
      if w in hash then Some(view.pairList(hash[w], view.bestPosition(hash[w]))) else None
    }

    /** getPositions: the store's reference positions, or null. */
    function GetPositions(w: Word): (r: Option<seq<int>>)
      reads this
      ensures r.None? <==> w !in hash
      ensures r.Some? ==> r.value == view.positions(hash[w])
    {
      if w in hash then Some(view.positions(hash[w])) else None
    }

    /** getTopPosition: the store's best position, or -1 for an absent word. */
    function GetTopPosition(w: Word): (r: int)
      reads this
      ensures w !in hash ==> r == -1
      ensures w in hash ==> r == view.bestPosition(hash[w])
    {
      if w in hash then view.bestPosition(hash[w]) else -1
    }

    /** sortData: every store is sorted; the words stay the same. */
    method SortData()
      modifies this`hash
      ensures hash.Keys == old(hash).Keys
      ensures forall w :: w in hash ==> hash[w] == Applied(old(hash)[w], Sort)
    {
      hash := map w | w in hash :: Applied(hash[w], Sort);
    }

    /** getPairs(w): the pair lists of all of w's positions, in the store's order; w must be present. */
    method GetPairs(w: Word) returns (l: seq<Pair>)
      requires w in hash
      ensures l == PairsAt(view, hash[w], view.positions(hash[w]))
      ensures forall x :: x in l <==> exists i :: 0 <= i < |view.positions(hash[w])| && x in view.pairList(hash[w], view.positions(hash[w])[i])
    {
      var ps := view.positions(hash[w]);
      l := [];
      for i := 0 to |ps|
        invariant l == PairsAt(view, hash[w], ps[..i])
      {
        assert ps[..i + 1][..i] == ps[..i];
        l := l + view.pairList(hash[w], ps[i]);
      }
      assert ps[..|ps|] == ps;
      forall x ensures x in l <==> exists i :: 0 <= i < |ps| && x in view.pairList(hash[w], ps[i]) {
        PairsAtMembership(view, hash[w], ps, x);
      }
    }

    /** getPairs(w, position): the pair list at one position, or null for an absent word. */
    function GetPairsAt(w: Word, position: int): (r: Option<seq<Pair>>)
      reads this
      ensures r.None? <==> w !in hash
      ensures r.Some? ==> r.value == view.pairList(hash[w], position)
    {
      if w in hash then Some(view.pairList(hash[w], position)) else None
    }

    /** reduceToMediumHash: every store drops the positions other than its best; the words stay the same. */
    method ReduceToMediumHash()
      modifies this`hash
      ensures hash.Keys == old(hash).Keys
      ensures forall w :: w in hash ==> hash[w] == Applied(old(hash)[w], ClearPairsOfWorsePositions)
    {
      hash := map w | w in hash :: Applied(hash[w], ClearPairsOfWorsePositions);
    }

    /**
     * reducetoSmallHash: every store is limited to X pairs per position, and
     * exactly the words whose store reported itself emptied are removed.
     */
    method ReducetoSmallHash(x: int)
      modifies this`hash
      ensures hash.Keys == set w | w in old(hash) && !view.emptiedByLimit(old(hash)[w], x)
      ensures forall w :: w in hash ==> hash[w] == Applied(old(hash)[w], LimitToXPairsPerPosition(x))
    {
      var collect := LimitStores(x);
      RemoveWords(collect);
    }

    /** The filter pass of reducetoSmallHash: each store is limited once and reports whether it is now empty. */
    method LimitStores(x: int) returns (collect: set<Word>)
      modifies this`hash
      ensures hash.Keys == old(hash).Keys
      ensures forall w :: w in hash ==> hash[w] == Applied(old(hash)[w], LimitToXPairsPerPosition(x))
      ensures collect == set w | w in old(hash) && view.emptiedByLimit(old(hash)[w], x)
    {
      ghost var start := hash;
      var pending := hash.Keys;
      collect := {};
      while pending != {}
        invariant pending <= hash.Keys && hash.Keys == start.Keys
        invariant forall w :: w in hash ==>
          hash[w] == if w in pending then start[w] else Applied(start[w], LimitToXPairsPerPosition(x))
        invariant forall w :: w in collect <==> w in start && w !in pending && view.emptiedByLimit(start[w], x)
        decreases |pending|
      {
        var w :| w in pending;
        var emptied := view.emptiedByLimit(hash[w], x);
        hash := hash[w := Applied(hash[w], LimitToXPairsPerPosition(x))];
        if emptied {
          collect := collect + {w};
        }
        pending := pending - {w};
      }
    }

    /** The removal pass of reducetoSmallHash: the collected words leave the map, the others keep their stores. */
    method RemoveWords(collect: set<Word>)
      modifies this`hash
      ensures hash == map w | w in old(hash) && w !in collect :: old(hash)[w]
    {
      ghost var start := hash;
      var toRemove := collect;
      while toRemove != {}
        invariant toRemove <= collect
        invariant hash == map w | w in start && w !in (collect - toRemove) :: start[w]
        decreases |toRemove|
      {
        var w :| w in toRemove;
        hash := hash - {w};
        toRemove := toRemove - {w};
      }
    }

    /** bucketDFS: visits every node of the bucket tree once and answers the count before the root's own visit. */
    method BucketDfs(root: TreeNode) returns (r: int)
      modifies this`dfsCount
      ensures dfsCount == old(dfsCount) + Size(root)
      ensures r == dfsCount - 1
      decreases root
    {
      if root.left.Some? {
        var _ := BucketDfs(root.left.value);
      }
      if root.right.Some? {
        var _ := BucketDfs(root.right.value);
      }
      r := dfsCount;
      dfsCount := dfsCount + 1;
    }
  }
}
