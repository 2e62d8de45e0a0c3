/** The two drawing passes of the viewer: one marker per star and one square
    outline per quadtree cell. The SVG sink is modelled as the sequence of
    drawing primitives it receives, in order. */
module Render {
  import opened Quadtree

  /** The drawing calls the viewer makes on its SVG canvas. */
  datatype Prim =
    | Start(w: int, h: int)                      // svg Start(width, height)
    | Rect(x: int, y: int, w: int, h: int)       // the black background
    | Translate(dx: int, dy: int)                // Gtransform translate(dx,dy)
    | Circle(x: int, y: int, r: int)             // a white star marker
    | CenterRect(x: int, y: int, w: int, h: int) // an unfilled cell outline
    | GroupEnd                                   // Gend
    | End                                        // End

  /** Simulation units per image pixel. */
  const ScaleFactor: real := 2000.0

  /** `int(v / 2000)` in Go: the quotient truncated toward zero. */
  function Scale(v: real): (r: int)
    ensures 0.0 <= v ==> 0 <= r && (r as real) * ScaleFactor <= v < (r as real + 1.0) * ScaleFactor
    ensures v < 0.0 ==> r <= 0 && (r as real - 1.0) * ScaleFactor < v <= (r as real) * ScaleFactor
  {
    if 0.0 <= v then (v / ScaleFactor).Floor else -((-v) / ScaleFactor).Floor
  }

  /** Truncation is symmetric around zero, unlike Dafny's own rounding
      toward negative infinity. */
  lemma ScaleIsOdd(v: real)
    ensures Scale(-v) == -Scale(v)
  {
  }

  // ----- star pass -----

  /** The marker drawn for one star: a radius-1 circle at its scaled position. */
  function Mark(s: Star): Prim
  {
    Circle(Scale(s.c.x), Scale(s.c.y), 1)
  }

  /** The primitives the star pass sends to the sink. */
  function StarMarks(stars: seq<Star>): (r: seq<Prim>)
    ensures |r| == |stars|
    ensures forall k :: 0 <= k < |stars| ==> r[k] == Mark(stars[k])
  {
    if stars == [] then [] else StarMarks(stars[..|stars| - 1]) + [Mark(stars[|stars| - 1])]
  }

  /** drawStars: one radius-1 circle per star, in list order. */
  method DrawStars(stars: seq<Star>) returns (out: seq<Prim>)
    ensures |out| == |stars|
    ensures forall k :: 0 <= k < |stars| ==> out[k] == Mark(stars[k])
  {
    out := [];
    for i := 0 to |stars|
      invariant |out| == i
      invariant forall k :: 0 <= k < i ==> out[k] == Mark(stars[k])
    {
      var x := Scale(stars[i].c.x);
      var y := Scale(stars[i].c.y);
      out := out + [Circle(x, y, 1)];
    }
  }

  // ----- box pass: the reference definition -----

  /** Every node reachable from `n`, in pre-order: `n` first, then the
      subtrees of its present children in slot order. */
  function PreOrder(n: Node): seq<Node>
    decreases n, 1
  {
    [n] + SlotsPreOrder(n, |n.subtrees|)
  }

  /** The pre-order walks of the present children among the first `i` slots of `n`. */
  function SlotsPreOrder(n: Node, i: nat): seq<Node>
    requires i <= |n.subtrees|
    decreases n, 0, i
  {
    if i == 0 then []
    else
      SlotsPreOrder(n, i - 1) +
      match n.subtrees[i - 1]
      case None => []
      case Some(c) => PreOrder(c)
  }

  /** The nodes of `ns` whose boundary is not the zero box, in order. */
  function Drawn(ns: seq<Node>): seq<Node>
  {
    if ns == [] then []
    else (if IsZero(ns[0].boundary) then [] else [ns[0]]) + Drawn(ns[1..])
  }

  /** The outline drawn for a boundary: a square centred on its scaled center. */
  function RectOf(b: BoundingBox): Prim
  {
    CenterRect(Scale(b.center.x), Scale(b.center.y), Scale(b.width), Scale(b.width))
  }

  function MapRects(ns: seq<Node>): seq<Prim>
  {
    seq(|ns|, k requires 0 <= k < |ns| => RectOf(ns[k].boundary))
  }

  /** What the box pass is meant to draw for the tree `n`: the outline of each
      node with a non-zero boundary, in pre-order. */
  function BoxPass(n: Node): seq<Prim>
  {
    MapRects(Drawn(PreOrder(n)))
  }

  // ----- box pass: the walk -----

  /** The outline `n` contributes itself. */
  function OwnRect(n: Node): seq<Prim>
  {
    if IsZero(n.boundary) then [] else [RectOf(n.boundary)]
  }

  /** The box pass as drawBox walks it: the node's own outline, then the
      walks of its present children in slot order. */
  function Walk(n: Node): seq<Prim>
    decreases n, 1
  {
    OwnRect(n) + ChildWalks(n, |n.subtrees|)
  }

  /** The walks of the present children among the first `i` slots of `n`,
      concatenated in slot order; an absent slot adds nothing. */
  function ChildWalks(n: Node, i: nat): seq<Prim>
    requires i <= |n.subtrees|
    decreases n, 0, i
  {
    if i == 0 then []
    else
      ChildWalks(n, i - 1) +
      match n.subtrees[i - 1]
      case None => []
      case Some(c) => Walk(c)
  }

  /** drawBox: emits the node's outline unless its boundary is the zero box,
      then walks every non-nil child slot in order. */
  method DrawBox(node: Node) returns (out: seq<Prim>)
    ensures out == Walk(node)
    decreases node
  {
    out := [];
    if !IsZero(node.boundary) {
      out := out + [RectOf(node.boundary)];
    }
    assert out == OwnRect(node) + ChildWalks(node, 0);
    var i := 0;
    while i < |node.subtrees|
      invariant 0 <= i <= |node.subtrees|
      invariant out == OwnRect(node) + ChildWalks(node, i)
    {
      var slot := node.subtrees[i];
      ChildWalksStep(node, i);
      if slot.Some? {
        assert slot in node.subtrees;
        var sub := DrawBox(slot.value);
        SeqAssoc(OwnRect(node), ChildWalks(node, i), sub);
        out := out + sub;
      }
      i := i + 1;
    }
  }

  lemma ChildWalksStep(n: Node, i: nat)
    requires i < |n.subtrees|
    ensures n.subtrees[i].None? ==> ChildWalks(n, i + 1) == ChildWalks(n, i)
    ensures n.subtrees[i].Some? ==> ChildWalks(n, i + 1) == ChildWalks(n, i) + Walk(n.subtrees[i].value)
  {
  }

  lemma SeqAssoc(a: seq<Prim>, b: seq<Prim>, c: seq<Prim>)
    ensures a + b + c == a + (b + c)
  {
  }

  // ----- box pass: properties -----

  lemma {:induction false} DrawnAppend(a: seq<Node>, b: seq<Node>)
    ensures Drawn(a + b) == Drawn(a) + Drawn(b)
  {
    if a == [] {
      assert a + b == b;
    } else {
      assert (a + b)[0] == a[0];
      assert (a + b)[1..] == a[1..] + b;
      DrawnAppend(a[1..], b);
    }
  }

  /** Drawn keeps exactly the nodes with a non-zero boundary, and all of the
      nodes when none has the zero boundary. */
  lemma {:induction false} DrawnMembers(ns: seq<Node>)
    ensures |Drawn(ns)| <= |ns|
    ensures forall m :: m in Drawn(ns) <==> m in ns && !IsZero(m.boundary)
    ensures (forall k :: 0 <= k < |ns| ==> !IsZero(ns[k].boundary)) ==> Drawn(ns) == ns
  {
    if ns != [] {
      DrawnMembers(ns[1..]);
      assert ns == [ns[0]] + ns[1..];
    }
  }

  lemma MapRectsAppend(a: seq<Node>, b: seq<Node>)
    ensures MapRects(a + b) == MapRects(a) + MapRects(b)
  {
    assert forall k :: 0 <= k < |a + b| ==> MapRects(a + b)[k] == (MapRects(a) + MapRects(b))[k];
  }

  lemma RectsOfAppend(a: seq<Node>, b: seq<Node>)
    ensures MapRects(Drawn(a + b)) == MapRects(Drawn(a)) + MapRects(Drawn(b))
  {
    DrawnAppend(a, b);
    MapRectsAppend(Drawn(a), Drawn(b));
  }

  /** The walk drawBox performs draws exactly the reference box pass: the
      node first (unless its boundary is the zero box), then its present
      children's box passes in slot order. */
  lemma {:induction false} WalkIsBoxPass(n: Node)
    ensures Walk(n) == BoxPass(n)
    decreases n, 1
  {
    var rest := SlotsPreOrder(n, |n.subtrees|);
    assert PreOrder(n) == [n] + rest;
    RectsOfAppend([n], rest);
    assert [n][1..] == [];
    assert MapRects(Drawn([n])) == OwnRect(n);
    ChildWalksArePasses(n, |n.subtrees|);
  }

  lemma {:induction false} ChildWalksArePasses(n: Node, i: nat)
    requires i <= |n.subtrees|
    ensures ChildWalks(n, i) == MapRects(Drawn(SlotsPreOrder(n, i)))
    decreases n, 0, i, 1
  {
    if i > 0 {
      ChildWalksArePasses(n, i - 1);
      if n.subtrees[i - 1].Some? {
        PresentSlotStep(n, i);
      } else {
        ChildWalksStep(n, i - 1);
        assert SlotsPreOrder(n, i) == SlotsPreOrder(n, i - 1) + [];
        assert SlotsPreOrder(n, i) == SlotsPreOrder(n, i - 1);
      }
    }
  }

  lemma {:induction false} PresentSlotStep(n: Node, i: nat)
    requires 0 < i <= |n.subtrees| && n.subtrees[i - 1].Some?
    requires ChildWalks(n, i - 1) == MapRects(Drawn(SlotsPreOrder(n, i - 1)))
    ensures ChildWalks(n, i) == MapRects(Drawn(SlotsPreOrder(n, i)))
    decreases n, 0, i, 0
  {
    var slot := n.subtrees[i - 1];
    assert slot in n.subtrees;
    var c := slot.value;
    var before := SlotsPreOrder(n, i - 1);
    ChildWalksStep(n, i - 1);
    WalkIsBoxPass(c);
    calc {
      ChildWalks(n, i);
      ChildWalks(n, i - 1) + Walk(c);
      MapRects(Drawn(before)) + MapRects(Drawn(PreOrder(c)));
      { RectsOfAppend(before, PreOrder(c)); }
      MapRects(Drawn(before + PreOrder(c)));
      { assert SlotsPreOrder(n, i) == before + PreOrder(c); }
      MapRects(Drawn(SlotsPreOrder(n, i)));
    }
  }

  /** A node with the zero boundary draws no outline of its own, yet its
      children are still drawn. */
  lemma ZeroNodeDrawsOnlyChildren(n: Node)
    requires IsZero(n.boundary)
    ensures BoxPass(n) == ChildWalks(n, |n.subtrees|)
  {
    WalkIsBoxPass(n);
  }

  /** A node whose child slots are all absent draws exactly its own outline,
      or nothing when its boundary is the zero box. */
  lemma {:induction false} LeafDrawsOwnRect(n: Node)
    requires forall k :: 0 <= k < |n.subtrees| ==> n.subtrees[k].None?
    ensures BoxPass(n) == OwnRect(n)
  {
    WalkIsBoxPass(n);
    NoChildrenNoWalks(n, |n.subtrees|);
  }

  lemma {:induction false} NoChildrenNoWalks(n: Node, i: nat)
    requires i <= |n.subtrees|
    requires forall k :: 0 <= k < i ==> n.subtrees[k].None?
    ensures ChildWalks(n, i) == []
    decreases i
  {
    if i > 0 {
      NoChildrenNoWalks(n, i - 1);
    }
  }

  /** Every node of a present child's subtree is visited by the walk of its
      parent, whatever the parent's boundary. */
  lemma {:induction false} ChildSubtreeVisited(n: Node, j: nat, i: nat)
    requires j < i <= |n.subtrees|
    requires n.subtrees[j].Some?
    ensures forall m :: m in PreOrder(n.subtrees[j].value) ==> m in SlotsPreOrder(n, i)
    decreases i
  {
    if j < i - 1 {
      ChildSubtreeVisited(n, j, i - 1);
    }
  }

  /** The box pass draws exactly one outline per reached node whose boundary
      is not the zero box, in pre-order, and each outline is a square. */
  lemma BoxPassExact(n: Node)
    ensures |BoxPass(n)| == |Drawn(PreOrder(n))| <= |PreOrder(n)|
    ensures forall k :: 0 <= k < |BoxPass(n)| ==>
      !IsZero(Drawn(PreOrder(n))[k].boundary) && BoxPass(n)[k] == RectOf(Drawn(PreOrder(n))[k].boundary)
    ensures forall k :: 0 <= k < |BoxPass(n)| ==> BoxPass(n)[k].CenterRect? && BoxPass(n)[k].w == BoxPass(n)[k].h
  {
    var d := Drawn(PreOrder(n));
    DrawnMembers(PreOrder(n));
    forall k | 0 <= k < |d|
      ensures !IsZero(d[k].boundary)
    {
      assert d[k] in d;
    }
  }

  /** A descendant with a non-zero boundary has its outline drawn, even when
      the boundaries of the nodes above it are the zero box. */
  lemma DescendantDrawn(n: Node, j: nat, m: Node)
    requires j < |n.subtrees| && n.subtrees[j].Some?
    requires m in PreOrder(n.subtrees[j].value) && !IsZero(m.boundary)
    ensures RectOf(m.boundary) in BoxPass(n)
  {
    ChildSubtreeVisited(n, j, |n.subtrees|);
    var nodes := PreOrder(n);
    assert nodes == [n] + SlotsPreOrder(n, |n.subtrees|);
    assert m in nodes;
    var d := Drawn(nodes);
    DrawnMembers(nodes);
    assert m in d;
    var k :| 0 <= k < |d| && d[k] == m;
    assert MapRects(d)[k] == RectOf(m.boundary);
  }

  /** A single cell with one star and four empty slots: one marker and one
      outline, both at scaled coordinates truncated toward zero. */
  lemma SingleCellScenario()
    ensures var n := Node(BoundingBox(Vec2(4000.0, -5000.0), 100000.0), [None, None, None, None], [Star(Vec2(50.0, 50.0))]);
      BoxPass(n) == [CenterRect(2, -2, 50, 50)] && StarMarks(n.stars) == [Circle(0, 0, 1)]
  {
    var n := Node(BoundingBox(Vec2(4000.0, -5000.0), 100000.0), [None, None, None, None], [Star(Vec2(50.0, 50.0))]);
    LeafDrawsOwnRect(n);
    assert Scale(-5000.0) == -2;
    assert Scale(100000.0) == 50;
  }
}
