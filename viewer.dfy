/** The `/drawtree/{treeindex}` handler: parse the index, open the canvas,
    grow the registry with the fetched tree, then run the star pass and the
    box pass over the registry entry at the index and close the canvas. */
module Viewer {
  import opened Quadtree
  import opened Render
  import opened Registry
  import opened IndexParam

  /** Canvas side, 1920 * 8 pixels. */
  const Width: int := 1920 * 8
  const Height: int := 1920 * 8

  /** What the handler writes before it touches the registry: the canvas,
      its background rectangle and the move of the origin to the canvas centre. */
  function Preamble(): (r: seq<Prim>)
    ensures r == [Start(15360, 15360), Rect(0, 0, 15360, 15360), Translate(7680, 7680)]
  {
    [Start(Width, Height), Rect(0, 0, Width, Height), Translate(Width / 2, Height / 2)]
  }

  /** What closes the canvas once both passes are done. */
  function Closing(): seq<Prim>
  {
    [GroupEnd, End]
  }

  /** drawBoxes: the box pass over the registry entry at `index`. Its only
      caller has just read the same entry, so the index is in bounds. */
  method DrawBoxes(reg: TreeRegistry, index: int) returns (out: seq<Prim>)
    requires 0 <= index < |reg.trees|
    ensures out == BoxPass(reg.trees[index])
  {
    out := DrawBox(reg.trees[index]);
    WalkIsBoxPass(reg.trees[index]);
  }

  /** drawTree. `segment` is the `{treeindex}` path segment, `fetch` the
      remote tree source (`None` when fetching or decoding fails) and
      `getAllStars` the star collection of the external node type.
      `completed` is false where the handler panics: a failed fetch, or a
      negative index, which Go's slice indexing rejects. */
  method DrawTree(reg: TreeRegistry, segment: string, fetch: int -> Option<Node>,
                  getAllStars: Node -> seq<Star>)
    returns (out: seq<Prim>, completed: bool)
    modifies reg
    ensures var i := ParseIndex(segment);
      && (fetch(i).Some? ==> reg.trees == Grown(old(reg.trees), i, fetch(i).value))
      && (fetch(i).None? ==> reg.trees == old(reg.trees))
      && (completed <==> fetch(i).Some? && 0 <= i)
      && (!completed ==> out == Preamble())
      && (completed ==>
            0 <= i < |reg.trees|
            && reg.trees[i] == (if |old(reg.trees)| <= i then fetch(i).value else old(reg.trees)[i])
            && out == Preamble() + StarMarks(getAllStars(reg.trees[i])) + BoxPass(reg.trees[i]) + Closing())
  {
    var treeindex := ParseIndex(segment);
    out := Preamble();
    var fetched := reg.GetGalaxy(treeindex, fetch);
    if !fetched {
      return out, false;
    }
    GrownTreePosition(old(reg.trees), treeindex, fetch(treeindex).value);
    if treeindex < 0 {
      return out, false;
    }
    GrownIndexInBounds(old(reg.trees), treeindex, fetch(treeindex).value);
    var listOfStars := getAllStars(reg.trees[treeindex]);
    var stars := DrawStars(listOfStars);
    assert stars == StarMarks(listOfStars);
    var boxes := DrawBoxes(reg, treeindex);
    out := out + stars + boxes + Closing();
    completed := true;
  }
}
