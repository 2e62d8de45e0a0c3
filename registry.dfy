/** The viewer's process-wide list of tree roots (`treeArray`) and the way
    `getGalaxy` grows it: pad with placeholder trees while the requested
    index is beyond the end, then append the fetched tree at the end. */
module Registry {
  import opened Quadtree

  /** The boundary of a padding entry: center (0,0), width 10. */
  const PlaceholderBox: BoundingBox := BoundingBox(Vec2(0.0, 0.0), 10.0)

  /** The placeholder tree that fills a gap in the registry. */
  function Placeholder(): (n: Node)
    ensures n.boundary == PlaceholderBox && !IsZero(n.boundary)
    ensures n.stars == [] && forall k :: 0 <= k < |n.subtrees| ==> n.subtrees[k] == None
  {
    NewNode(PlaceholderBox)
  }

  function Max(a: int, b: int): int
  {
    if a < b then b else a
  }

  /** The entries the padding loop appends when the requested index is `n`
      beyond the current end: one placeholder per iteration. */
  function Padding(n: int): seq<Node>
  {
    if n <= 0 then [] else Padding(n - 1) + [Placeholder()]
  }

  /** The padding is `n` placeholders, none when `n` is not positive. */
  lemma {:induction false} PaddingIsPlaceholders(n: int)
    ensures |Padding(n)| == Max(n, 0)
    ensures forall k :: 0 <= k < |Padding(n)| ==> Padding(n)[k] == Placeholder()
  {
    if n > 0 {
      PaddingIsPlaceholders(n - 1);
    }
  }

  /** The registry after `getGalaxy(index)` fetched `tree`, from registry `s`. */
  function Grown(s: seq<Node>, index: int, tree: Node): seq<Node>
  {
    s + Padding(index - |s|) + [tree]
  }

  /** The registry ends up one longer than the larger of its old length and
      the requested index. */
  lemma GrownLength(s: seq<Node>, index: int, tree: Node)
    ensures |Grown(s, index, tree)| == Max(|s|, index) + 1
  {
    PaddingIsPlaceholders(index - |s|);
  }

  /** Entries present before the call are untouched. */
  lemma GrownKeepsOld(s: seq<Node>, index: int, tree: Node)
    ensures s <= Grown(s, index, tree)
  {
    PaddingIsPlaceholders(index - |s|);
    assert Grown(s, index, tree)[..|s|] == s;
  }

  /** Every entry between the old end and the fetched tree is a placeholder. */
  lemma GrownPadsWithPlaceholders(s: seq<Node>, index: int, tree: Node)
    ensures forall k :: |s| <= k < |Grown(s, index, tree)| - 1 ==> Grown(s, index, tree)[k] == Placeholder()
  {
    var r := Grown(s, index, tree);
    var p := Padding(index - |s|);
    PaddingIsPlaceholders(index - |s|);
    forall k | |s| <= k < |r| - 1
      ensures r[k] == Placeholder()
    {
      assert r[k] == p[k - |s|];
    }
  }

  /** The fetched tree is the last entry, and it sits at the requested index
      exactly when the old registry did not already reach that index;
      otherwise the entry at the index is the old one. */
  lemma GrownTreePosition(s: seq<Node>, index: int, tree: Node)
    ensures Grown(s, index, tree)[|Grown(s, index, tree)| - 1] == tree
    ensures |Grown(s, index, tree)| - 1 == index <==> |s| <= index
    ensures |s| <= index ==> Grown(s, index, tree)[index] == tree
    ensures 0 <= index < |s| ==> Grown(s, index, tree)[index] == s[index]
  {
    GrownLength(s, index, tree);
  }

  /** After the call a non-negative index is always in bounds. */
  lemma GrownIndexInBounds(s: seq<Node>, index: int, tree: Node)
    requires 0 <= index
    ensures index < |Grown(s, index, tree)|
  {
    GrownLength(s, index, tree);
  }

  /** Requesting tree 1 and then tree 0 on an empty registry leaves the
      placeholder, not tree 0, at position 0. */
  lemma LaterLowerIndexIsMisplaced(t1: Node, t0: Node)
    ensures Grown(Grown([], 1, t1), 0, t0) == [Placeholder(), t1, t0]
  {
    assert Padding(1) == [Placeholder()];
    assert Padding(-2) == [];
  }

  /** The registry, `treeArray`, as an object whose list of roots `getGalaxy` grows. */
  class TreeRegistry {
    var trees: seq<Node>

    constructor ()
      ensures trees == []
    {
      trees := [];
    }

    /** getGalaxy: `fetch(index)` is the tree the remote source returns for
        the index, `None` when the request, the read or the decoding fails
        (where the source panics before touching the registry). */
    method GetGalaxy(index: int, fetch: int -> Option<Node>) returns (fetched: bool)
      modifies this
      ensures fetched == fetch(index).Some?
      ensures fetched ==> trees == Grown(old(trees), index, fetch(index).value)
      ensures !fetched ==> trees == old(trees)
    {
      var response := fetch(index);
      if response.None? {
        return false;
      }
      var tree := response.value;
      while index > |trees|
        invariant |old(trees)| <= |trees| <= Max(|old(trees)|, index)
        invariant trees == old(trees) + Padding(|trees| - |old(trees)|)
        decreases index - |trees|
      {
        var emptyNode := NewNode(PlaceholderBox);
        trees := trees + [emptyNode];
      }
      trees := trees + [tree];
      return true;
    }
  }
}
