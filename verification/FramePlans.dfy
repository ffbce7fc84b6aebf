/** Trees of frames as values: what may be changed about a tree, and what that means for its frames. */
module FramePlans {
  import opened Sharing
  import opened Frames

  /** How frames and windows are nested. */
  datatype Plan =
    | PaneOf(frame: Frame, window: Window)
    | SplitOf(frame: Frame, vertical: bool, parts: seq<Plan>)

  ghost function Nodes(p: Plan): (s: set<Frame>)
    ensures p.frame in s
  {
    match p
    case PaneOf(f, _) => {f}
    case SplitOf(f, _, ps) => {f} + set i, g | 0 <= i < |ps| && g in Nodes(ps[i]) :: g
  }

  ghost function Panes(p: Plan): set<Window> {
    match p
    case PaneOf(_, w) => {w}
    case SplitOf(_, _, ps) => set i, w | 0 <= i < |ps| && w in Panes(ps[i]) :: w
  }

  ghost function ShapeOf(p: Plan): Shape {
    match p
    case PaneOf(_, _) => Pane
    case SplitOf(_, v, ps) => Split(v, seq(|ps|, i requires 0 <= i < |ps| => ShapeOf(ps[i])))
  }

  /** No frame and no window is in two places. */
  ghost predicate Distinct(p: Plan) {
    p.SplitOf? ==>
      && p.parts != []
      && (forall i :: 0 <= i < |p.parts| ==> Distinct(p.parts[i]) && p.frame !in Nodes(p.parts[i]))
      && (forall i, j :: 0 <= i < j < |p.parts| ==> Nodes(p.parts[i]) !! Nodes(p.parts[j]))
      && (forall i, j :: 0 <= i < j < |p.parts| ==> Panes(p.parts[i]) !! Panes(p.parts[j]))
  }

  /** The frames point to each other as the plan says. */
  ghost predicate Built(p: Plan, parent: Frame?)
    reads Nodes(p)`parent, Nodes(p)`frames, Nodes(p)`window, Nodes(p)`vertical
  {
    && p.frame.parent == parent
    && match p
       case PaneOf(f, w) => f.window == w && f.frames == []
       case SplitOf(f, v, ps) =>
         && f.window == null && f.vertical == v && |f.frames| == |ps|
         && forall i :: 0 <= i < |ps| ==> f.frames[i] == ps[i].frame && Built(ps[i], f)
  }

  /** Whether part `i` of a frame is at the right edge. */
  ghost predicate PartRight(p: Plan, right: bool, i: int)
    requires p.SplitOf?
  {
    right && (p.vertical || i == |p.parts| - 1)
  }

  /** The frames know about their subtrees and places what the plan says. */
  ghost predicate Annotated(p: Plan, right: bool, depth: nat)
    reads Nodes(p)`shape, Nodes(p)`below, Nodes(p)`panes, Nodes(p)`right, Nodes(p)`depth
  {
    && p.frame.shape == ShapeOf(p) && p.frame.below == Nodes(p) && p.frame.panes == Panes(p)
    && p.frame.right == right && p.frame.depth == depth
    && (p.SplitOf? ==> forall i :: 0 <= i < |p.parts| ==>
          Annotated(p.parts[i], PartRight(p, right, i), depth + 1))
  }

  /** The parts of a part stay built when the part moves. */
  lemma KeepsParts(part: Plan)
    requires Distinct(part)
    ensures part.SplitOf? ==> forall i :: 0 <= i < |part.parts| ==>
      part.frame !in Nodes(part.parts[i]) && Nodes(part.parts[i]) <= Nodes(part)
  {
  }

  ghost method Annotate(p: Plan, right: bool, depth: nat)
    requires Distinct(p)
    modifies Nodes(p)`shape, Nodes(p)`below, Nodes(p)`panes, Nodes(p)`right, Nodes(p)`depth
    ensures Annotated(p, right, depth)
    decreases p
  {
    hide ShapeOf, Panes, Nodes, Distinct;
    KeepsParts(p);
    var f := p.frame;
    if p.SplitOf? {
      for i := 0 to |p.parts|
        invariant forall j :: 0 <= j < i ==> Annotated(p.parts[j], PartRight(p, right, j), depth + 1)
      {
        PartNodes(p, i);
        Annotate(p.parts[i], PartRight(p, right, i), depth + 1);
      }
    }
    f.shape, f.below, f.panes, f.right, f.depth := ShapeOf(p), Nodes(p), Panes(p), right, depth;
  }

  lemma PartNodes(p: Plan, i: nat)
    requires Distinct(p) && p.SplitOf? && i < |p.parts|
    ensures Nodes(p.parts[i]) <= Nodes(p) && Panes(p.parts[i]) <= Panes(p)
    ensures p.parts[i].frame in Nodes(p.parts[i]) && p.frame !in Nodes(p.parts[i]) && Distinct(p.parts[i])
    ensures forall j :: 0 <= j < |p.parts| && j != i ==> Nodes(p.parts[i]) !! Nodes(p.parts[j])
  {
  }

  lemma {:induction false} ShapeIsProper(p: Plan)
    requires Distinct(p)
    ensures ShapeOf(p).Proper()
  {
    if p.SplitOf? {
      forall i | 0 <= i < |p.parts| ensures ShapeOf(p.parts[i]).Proper() {
        ShapeIsProper(p.parts[i]);
      }
    }
  }

  /** All that Tree says, for a part of a tree. */
  ghost predicate Grown(top: Frame, nodes: set<Frame>)
    reads nodes`parent, nodes`frames, nodes`window, nodes`vertical
    reads nodes`shape, nodes`below, nodes`panes, nodes`right, nodes`depth
  {
    && (forall f <- nodes :: f.below <= nodes && forall i :: 0 <= i < |f.frames| ==> f.frames[i] in nodes)
    && (forall f <- nodes :: f.Holds() && f.Divides())
    && (forall f <- nodes :: forall g <- f.below :: g.below <= f.below && g.panes <= f.panes)
    && (forall f <- nodes :: f == top || (f.parent in nodes && f in f.parent.frames))
  }

  lemma TopHolds(p: Plan, parent: Frame?, right: bool, depth: nat)
    requires Distinct(p) && Built(p, parent) && Annotated(p, right, depth)
    ensures p.frame.Holds()
  {
    hide Nodes, Panes;
    ShapeIsProper(p);
    if p.SplitOf? {
      forall i | 0 <= i < |p.parts|
        ensures Built(p.parts[i], p.frame) && Annotated(p.parts[i], PartRight(p, right, i), depth + 1)
      {
      }
    }
  }

  lemma TopDivides(p: Plan, parent: Frame?, right: bool, depth: nat)
    requires Distinct(p) && Built(p, parent) && Annotated(p, right, depth)
    ensures p.frame.Divides()
  {
    hide ShapeOf;
    if p.SplitOf? {
      forall i | 0 <= i < |p.parts|
        ensures p.frame.frames[i].below == Nodes(p.parts[i]) && p.frame.frames[i].panes == Panes(p.parts[i])
      {
      }
      forall g | g in p.frame.below && g != p.frame ensures exists f <- p.frame.frames :: g in f.below {
        var i :| 0 <= i < |p.parts| && g in Nodes(p.parts[i]);
        assert p.frame.frames[i] in p.frame.frames;
      }
    }
  }

  lemma {:induction false} IsGrown(p: Plan, parent: Frame?, right: bool, depth: nat)
    requires Distinct(p) && Built(p, parent) && Annotated(p, right, depth)
    ensures Grown(p.frame, Nodes(p))
    decreases p
  {
    TopHolds(p, parent, right, depth);
    TopDivides(p, parent, right, depth);
    if p.SplitOf? {
      hide ShapeOf;
      forall i | 0 <= i < |p.parts|
        ensures Grown(p.parts[i].frame, Nodes(p.parts[i])) && Nodes(p.parts[i]) <= Nodes(p)
      {
        PartNodes(p, i);
        IsGrown(p.parts[i], p.frame, PartRight(p, right, i), depth + 1);
      }
    }
  }

  /** What is built and annotated as a plan says is a tree. */
  lemma IsTree(p: Plan)
    requires Distinct(p) && Built(p, null) && Annotated(p, true, 0)
    ensures Tree(Nodes(p))
  {
    IsGrown(p, null, true, 0);
  }

  // Replacing a part of a tree

  ghost function Index(p: Plan, f: Frame): (i: nat)
    requires Distinct(p) && f in Nodes(p) && f != p.frame
    ensures p.SplitOf? && i < |p.parts| && f in Nodes(p.parts[i])
  {
    var i :| 0 <= i < |p.parts| && f in Nodes(p.parts[i]);
    i
  }

  /** The part that begins at a frame. */
  ghost function At(p: Plan, f: Frame): (q: Plan)
    requires Distinct(p) && f in Nodes(p)
    ensures q.frame == f && Distinct(q) && Nodes(q) <= Nodes(p) && Panes(q) <= Panes(p)
    decreases p
  {
    if p.frame == f then p
    else
      PartNodes(p, Index(p, f));
      At(p.parts[Index(p, f)], f)
  }

  /** The tree with another part at the place of a frame. */
  ghost function Update(p: Plan, f: Frame, q: Plan): (r: Plan)
    requires Distinct(p) && f in Nodes(p) && q.frame == f
    ensures r.frame == p.frame
    decreases p
  {
    if p.frame == f then q
    else
      var k := Index(p, f);
      SplitOf(p.frame, p.vertical, p.parts[k := Update(p.parts[k], f, q)])
  }

  /** The new part has nothing that is elsewhere in the tree. */
  ghost predicate Replaces(p: Plan, f: Frame, q: Plan)
    requires Distinct(p) && f in Nodes(p)
  {
    && q.frame == f && Distinct(q)
    && (Nodes(q) - Nodes(At(p, f))) !! Nodes(p)
    && (Panes(q) - Panes(At(p, f))) !! Panes(p)
  }

  /** A frame with one part replaced. */
  ghost function WithPart(p: Plan, k: nat, r: Plan): Plan
    requires p.SplitOf? && k < |p.parts|
  {
    SplitOf(p.frame, p.vertical, p.parts[k := r])
  }

  lemma PartNodesChange(p: Plan, k: nat, r: Plan)
    requires Distinct(p) && p.SplitOf? && k < |p.parts|
    ensures Nodes(WithPart(p, k, r)) == Nodes(p) - Nodes(p.parts[k]) + Nodes(r)
    ensures Panes(WithPart(p, k, r)) == Panes(p) - Panes(p.parts[k]) + Panes(r)
  {
    var ps, us := p.parts, p.parts[k := r];
    assert forall i :: 0 <= i < |ps| && i != k ==> us[i] == ps[i];
    assert us[k] == r;
    forall g | g in Nodes(p) - Nodes(ps[k]) + Nodes(r) ensures g in Nodes(WithPart(p, k, r)) {
      if g !in Nodes(r) && g != p.frame {
        var i :| 0 <= i < |ps| && g in Nodes(ps[i]);
        assert g in Nodes(us[i]);
      }
    }
    forall w | w in Panes(p) - Panes(ps[k]) + Panes(r) ensures w in Panes(WithPart(p, k, r)) {
      if w !in Panes(r) {
        var i :| 0 <= i < |ps| && w in Panes(ps[i]);
        assert w in Panes(us[i]);
      }
    }
  }

  lemma PartStaysDistinct(p: Plan, k: nat, r: Plan)
    requires Distinct(p) && p.SplitOf? && k < |p.parts| && Distinct(r)
    requires (Nodes(r) - Nodes(p.parts[k])) !! Nodes(p) && (Panes(r) - Panes(p.parts[k])) !! Panes(p)
    ensures Distinct(WithPart(p, k, r))
  {
    var ps, us := p.parts, p.parts[k := r];
    forall i | 0 <= i < |us| ensures Distinct(us[i]) && p.frame !in Nodes(us[i]) {
      PartNodes(p, i);
      PartNodes(p, k);
    }
    forall i | 0 <= i < |ps| && i != k ensures Nodes(ps[i]) !! Nodes(r) && Panes(ps[i]) !! Panes(r) {
      PartNodes(p, i);
      PartNodes(p, k);
      assert Nodes(ps[i]) !! Nodes(ps[k]) && Panes(ps[i]) !! Panes(ps[k]);
    }
  }

  /** Taking something out of a part and putting something new in, seen from the part and from the whole. */
  lemma Exchanged<T>(whole: set<T>, part: set<T>, gone: set<T>, come: set<T>)
    requires gone <= part <= whole && (come - gone) !! whole
    ensures (come - gone) !! part
    ensures ((part - gone + come) - part) !! whole
    ensures whole - part + (part - gone + come) == whole - gone + come
  {
  }

  lemma {:induction false} UpdateNodes(p: Plan, f: Frame, q: Plan)
    requires Distinct(p) && f in Nodes(p) && Replaces(p, f, q)
    ensures Distinct(Update(p, f, q))
    ensures Nodes(Update(p, f, q)) == Nodes(p) - Nodes(At(p, f)) + Nodes(q)
    ensures Panes(Update(p, f, q)) == Panes(p) - Panes(At(p, f)) + Panes(q)
    decreases p
  {
    if p.frame != f {
      hide Nodes, Panes, Distinct;
      var k := Index(p, f);
      var part := p.parts[k];
      PartNodes(p, k);
      Exchanged(Nodes(p), Nodes(part), Nodes(At(p, f)), Nodes(q));
      Exchanged(Panes(p), Panes(part), Panes(At(p, f)), Panes(q));
      UpdateNodes(part, f, q);
      PartNodesChange(p, k, Update(part, f, q));
      PartStaysDistinct(p, k, Update(part, f, q));
    }
  }

  lemma {:induction false} AtIsBuilt(p: Plan, parent: Frame?, f: Frame)
    requires Distinct(p) && f in Nodes(p) && Built(p, parent)
    ensures Built(At(p, f), f.parent)
    decreases p
  {
    if p.frame != f {
      AtIsBuilt(p.parts[Index(p, f)], p.frame, f);
    }
  }

  lemma {:induction false} AtIsAnnotated(p: Plan, right: bool, depth: nat, f: Frame)
    requires Distinct(p) && f in Nodes(p) && Annotated(p, right, depth)
    ensures Annotated(At(p, f), f.right, f.depth)
    decreases p
  {
    if p.frame != f {
      var k := Index(p, f);
      AtIsAnnotated(p.parts[k], PartRight(p, right, k), depth + 1, f);
    }
  }

  /** A part that is nowhere else is found again in what it is part of. */
  lemma {:induction false} AtPart(p: Plan, k: nat, f: Frame)
    requires Distinct(p) && p.SplitOf? && k < |p.parts| && f in Nodes(p.parts[k])
    ensures f in Nodes(p) && f != p.frame && Index(p, f) == k && At(p, f) == At(p.parts[k], f)
  {
    PartNodes(p, k);
  }

  /** A part of a part is a part of the whole. */
  lemma {:induction false} AtAt(p: Plan, f: Frame, g: Frame)
    requires Distinct(p) && f in Nodes(p) && g in Nodes(At(p, f))
    ensures At(p, g) == At(At(p, f), g)
    decreases p
  {
    if p.frame != f {
      var k := Index(p, f);
      AtPart(p, k, f);
      AtPart(p, k, g);
      AtAt(p.parts[k], f, g);
    }
  }

  /** The parent of a frame, and which of its parts the frame is. */
  lemma {:induction false} ParentOf(p: Plan, parent: Frame?, f: Frame) returns (k: nat)
    requires Distinct(p) && f in Nodes(p) && f != p.frame && Built(p, parent)
    ensures f.parent in Nodes(p) && f.parent !in Nodes(At(p, f))
    ensures var u := At(p, f.parent);
      u.SplitOf? && k < |u.parts| && u.parts[k] == At(p, f) && u.vertical == f.parent.vertical
    ensures |f.parent.frames| == |At(p, f.parent).parts| && f.parent.frames[k] == f
    decreases p
  {
    var i := Index(p, f);
    PartNodes(p, i);
    AtPart(p, i, f);
    if p.parts[i].frame == f {
      k := i;
    } else {
      k := ParentOf(p.parts[i], p.frame, f);
      AtPart(p, i, f.parent);
    }
  }

  /** The frames outside of a part. */
  ghost function Around(p: Plan, f: Frame): set<Frame>
    requires Distinct(p) && f in Nodes(p)
  {
    Nodes(p) - Nodes(At(p, f))
  }

  /** Built as the plan says, save for what is below one frame. */
  ghost predicate BuiltBut(p: Plan, parent: Frame?, f: Frame)
    requires Distinct(p) && f in Nodes(p)
    reads Around(p, f)`parent, Around(p, f)`frames, Around(p, f)`window, Around(p, f)`vertical, f`parent
    decreases p
  {
    if p.frame == f then f.parent == parent
    else
      var k, ps := Index(p, f), p.parts;
      AroundParts(p, f);
      && p.frame.parent == parent && p.frame.window == null && p.frame.vertical == p.vertical
      && |p.frame.frames| == |ps|
      && (forall i :: 0 <= i < |ps| ==> p.frame.frames[i] == ps[i].frame)
      && BuiltBut(ps[k], p.frame, f)
      && forall i :: 0 <= i < |ps| && i != k ==> Built(ps[i], p.frame)
  }

  lemma AroundParts(p: Plan, f: Frame)
    requires Distinct(p) && f in Nodes(p) && f != p.frame
    ensures var k := Index(p, f);
      && p.frame in Around(p, f) && Around(p.parts[k], f) <= Around(p, f)
      && forall i :: 0 <= i < |p.parts| && i != k ==> Nodes(p.parts[i]) <= Around(p, f)
  {
    var k := Index(p, f);
    PartNodes(p, k);
    AtPart(p, k, f);
    forall i | 0 <= i < |p.parts| && i != k ensures Nodes(p.parts[i]) <= Around(p, f) {
      PartNodes(p, i);
    }
  }

  lemma {:induction false} BuiltIsBuiltBut(p: Plan, parent: Frame?, f: Frame)
    requires Distinct(p) && f in Nodes(p) && Built(p, parent)
    ensures BuiltBut(p, parent, f)
    decreases p
  {
    if p.frame != f {
      BuiltIsBuiltBut(p.parts[Index(p, f)], p.frame, f);
    }
  }

  /** Once the other part is in its place, all is built again. */
  lemma {:induction false} UpdateBuilt(p: Plan, parent: Frame?, f: Frame, q: Plan)
    requires Distinct(p) && f in Nodes(p) && q.frame == f && BuiltBut(p, parent, f) && Built(q, f.parent)
    ensures Built(Update(p, f, q), parent)
    decreases p
  {
    if p.frame != f {
      UpdateBuilt(p.parts[Index(p, f)], p.frame, f, q);
    }
  }

  /** Whether a frame is at the right edge, by the plan. */
  ghost predicate RightIn(p: Plan, right: bool, g: Frame)
    requires Distinct(p) && g in Nodes(p)
    decreases p
  {
    if g == p.frame then right else RightIn(p.parts[Index(p, g)], PartRight(p, right, Index(p, g)), g)
  }

  lemma {:induction false} RightIsRightIn(p: Plan, right: bool, depth: nat, g: Frame)
    requires Distinct(p) && g in Nodes(p) && Annotated(p, right, depth)
    ensures g.right == RightIn(p, right, g)
    decreases p
  {
    if g != p.frame {
      var k := Index(p, g);
      RightIsRightIn(p.parts[k], PartRight(p, right, k), depth + 1, g);
    }
  }

  /** Replacing a part does not matter for what is around it. */
  lemma {:induction false} UpdateRight(p: Plan, right: bool, f: Frame, q: Plan, g: Frame)
    requires Distinct(p) && f in Nodes(p) && Replaces(p, f, q) && (g in Around(p, f) || g == f)
    ensures Distinct(Update(p, f, q)) && g in Nodes(Update(p, f, q))
    ensures RightIn(Update(p, f, q), right, g) == RightIn(p, right, g)
    decreases p
  {
    StaysAround(p, f, q, g);
    if g != p.frame {
      var k, i := Index(p, f), Index(p, g);
      var u := Update(p, f, q);
      PlaceStays(p, f, q, g);
      hide Nodes, Panes, Distinct, Replaces, Around;
      if i == k {
        UpdateRight(p.parts[k], PartRight(p, right, k), f, q, g);
      }
    }
  }

  lemma StaysAround(p: Plan, f: Frame, q: Plan, g: Frame)
    requires Distinct(p) && f in Nodes(p) && Replaces(p, f, q) && (g in Around(p, f) || g == f)
    ensures Distinct(Update(p, f, q)) && g in Nodes(p) && g in Nodes(Update(p, f, q))
    ensures g != p.frame ==> f != p.frame
  {
    UpdateNodes(p, f, q);
  }

  /** What is around a replaced part is in the same part as before. */
  lemma PlaceStays(p: Plan, f: Frame, q: Plan, g: Frame)
    requires Distinct(p) && f in Nodes(p) && Replaces(p, f, q) && (g in Around(p, f) || g == f)
    requires f != p.frame && g != p.frame
    ensures var u, k := Update(p, f, q), Index(p, f);
      && Distinct(u) && g in Nodes(u) && g in Nodes(p) && Index(u, g) == Index(p, g)
      && (Index(p, g) == k ==>
            && Distinct(p.parts[k]) && f in Nodes(p.parts[k]) && Replaces(p.parts[k], f, q)
            && (g in Around(p.parts[k], f) || g == f))
  {
    var u, k := Update(p, f, q), Index(p, f);
    UpdateNodes(p, f, q);
    AroundParts(p, f);
    var i := Index(p, g);
    ReplacesInPart(p, k, f, q);
    UpdateNodes(p.parts[k], f, q);
    AtPart(u, i, g);
  }

  /** A frame with one more part. */
  ghost function WithPartAt(p: Plan, k: nat, r: Plan): Plan
    requires p.SplitOf? && k <= |p.parts|
  {
    SplitOf(p.frame, p.vertical, p.parts[..k] + [r] + p.parts[k..])
  }

  /** Parts that are all among other parts, each once. */
  ghost predicate Among(us: seq<Plan>, ps: seq<Plan>) {
    && (forall u <- us :: u in ps)
    && (forall i, j :: 0 <= i < j < |us| ==> us[i] != us[j])
  }

  lemma PartsDiffer(p: Plan)
    requires Distinct(p) && p.SplitOf?
    ensures forall i, j :: 0 <= i < j < |p.parts| ==> p.parts[i] != p.parts[j]
  {
    forall i, j | 0 <= i < j < |p.parts| ensures p.parts[i] != p.parts[j] {
      PartNodes(p, i);
    }
  }

  lemma InPart(p: Plan, u: Plan)
    requires Distinct(p) && p.SplitOf? && u in p.parts
    ensures Distinct(u) && p.frame !in Nodes(u) && Nodes(u) <= Nodes(p) && Panes(u) <= Panes(p)
  {
    var i :| 0 <= i < |p.parts| && p.parts[i] == u;
    PartNodes(p, i);
  }

  lemma PartsApart(p: Plan, u: Plan, v: Plan)
    requires Distinct(p) && p.SplitOf? && u in p.parts && v in p.parts && u != v
    ensures Nodes(u) !! Nodes(v) && Panes(u) !! Panes(v)
  {
    var i :| 0 <= i < |p.parts| && p.parts[i] == u;
    var j :| 0 <= j < |p.parts| && p.parts[j] == v;
  }

  /** Some of the parts, in any order, and perhaps a new one. */
  lemma SomeParts(p: Plan, us: seq<Plan>, ps: seq<Plan>, r: Plan)
    requires Distinct(p) && p.SplitOf? && ps == p.parts + [r] && us != [] && Among(us, ps)
    requires r in us ==> Distinct(r) && Nodes(r) !! Nodes(p) && Panes(r) !! Panes(p)
    ensures Distinct(SplitOf(p.frame, p.vertical, us))
  {
    hide Among;
    assert Among(us, ps);
    forall i | 0 <= i < |us| ensures Distinct(us[i]) && p.frame !in Nodes(us[i]) {
      AmongParts(p, us, r, i);
    }
    forall i, j | 0 <= i < j < |us|
      ensures Nodes(us[i]) !! Nodes(us[j]) && Panes(us[i]) !! Panes(us[j])
    {
      AmongParts(p, us, r, i);
      AmongParts(p, us, r, j);
      AmongApart(p, us, r, i, j);
    }
  }

  lemma AmongParts(p: Plan, us: seq<Plan>, r: Plan, i: nat)
    requires Distinct(p) && p.SplitOf? && Among(us, p.parts + [r]) && i < |us|
    requires r in us ==> Distinct(r) && Nodes(r) !! Nodes(p) && Panes(r) !! Panes(p)
    ensures Distinct(us[i]) && p.frame !in Nodes(us[i])
  {
    hide Distinct, Nodes, Panes;
    assert us[i] in us;
    if us[i] != r {
      InPart(p, us[i]);
    }
  }

  lemma AmongApart(p: Plan, us: seq<Plan>, r: Plan, i: nat, j: nat)
    requires Distinct(p) && p.SplitOf? && Among(us, p.parts + [r]) && i < j < |us|
    requires r in us ==> Distinct(r) && Nodes(r) !! Nodes(p) && Panes(r) !! Panes(p)
    ensures Nodes(us[i]) !! Nodes(us[j]) && Panes(us[i]) !! Panes(us[j])
  {
    hide Distinct, Nodes, Panes;
    assert us[i] in us && us[j] in us;
    if us[i] == r {
      InPart(p, us[j]);
    } else if us[j] == r {
      InPart(p, us[i]);
    } else {
      PartsApart(p, us[i], us[j]);
    }
  }

  lemma NodeOfParts(p: Plan, g: Frame)
    requires p.SplitOf?
    ensures g in Nodes(p) <==> g == p.frame || exists u <- p.parts :: g in Nodes(u)
  {
    if g in Nodes(p) && g != p.frame {
      var i :| 0 <= i < |p.parts| && g in Nodes(p.parts[i]);
      assert p.parts[i] in p.parts;
    }
  }

  lemma PaneOfParts(p: Plan, w: Window)
    requires p.SplitOf?
    ensures w in Panes(p) <==> exists u <- p.parts :: w in Panes(u)
  {
    if w in Panes(p) {
      var i :| 0 <= i < |p.parts| && w in Panes(p.parts[i]);
      assert p.parts[i] in p.parts;
    }
  }

  /** The same frame with other parts, all of which are parts of the first or a part of its own. */
  lemma SameParts(p: Plan, q: Plan, r: Plan)
    requires p.SplitOf? && q.SplitOf? && p.frame == q.frame && forall u :: u in q.parts <==> u in p.parts || u == r
    ensures Nodes(q) == Nodes(p) + Nodes(r) && Panes(q) == Panes(p) + Panes(r)
  {
    hide Nodes, Panes;
    assert r in q.parts;
    forall g | g in Nodes(q) ensures g in Nodes(p) + Nodes(r) {
      NodeOfParts(p, g);
      NodeOfParts(q, g);
    }
    forall g | g in Nodes(p) + Nodes(r) ensures g in Nodes(q) {
      NodeOfParts(p, g);
      NodeOfParts(q, g);
    }
    forall w | w in Panes(q) ensures w in Panes(p) + Panes(r) {
      PaneOfParts(p, w);
      PaneOfParts(q, w);
    }
    forall w | w in Panes(p) + Panes(r) ensures w in Panes(q) {
      PaneOfParts(p, w);
      PaneOfParts(q, w);
    }
  }

  lemma PaneSets(f: Frame, w: Window)
    ensures Nodes(PaneOf(f, w)) == {f} && Panes(PaneOf(f, w)) == {w}
  {
  }

  lemma OnePart(q: Plan, u: Plan)
    requires q.SplitOf? && q.parts == [u]
    ensures Nodes(q) == {q.frame} + Nodes(u) && Panes(q) == Panes(u)
    ensures q.frame !in Nodes(u) && Distinct(u) ==> Distinct(q)
  {
    assert q.parts[0] == u;
    forall g | g in Nodes(u) ensures g in Nodes(q) {
      assert g in Nodes(q.parts[0]);
    }
    forall w | w in Panes(u) ensures w in Panes(q) {
      assert w in Panes(q.parts[0]);
    }
  }

  lemma InsertedPart(p: Plan, k: nat, r: Plan)
    requires Distinct(p) && p.SplitOf? && k <= |p.parts| && Distinct(r)
    requires Nodes(r) !! Nodes(p) && Panes(r) !! Panes(p)
    ensures Distinct(WithPartAt(p, k, r))
    ensures Nodes(WithPartAt(p, k, r)) == Nodes(p) + Nodes(r) && Panes(WithPartAt(p, k, r)) == Panes(p) + Panes(r)
  {
    var q := WithPartAt(p, k, r);
    InsertedAmong(p, k, r);
    SomeParts(p, q.parts, p.parts + [r], r);
    SameParts(p, q, r);
  }

  lemma InsertedAmong(p: Plan, k: nat, r: Plan)
    requires Distinct(p) && p.SplitOf? && k <= |p.parts| && Nodes(r) !! Nodes(p)
    ensures Among(WithPartAt(p, k, r).parts, p.parts + [r])
    ensures forall u :: u in WithPartAt(p, k, r).parts <==> u in p.parts || u == r
  {
    PartsDiffer(p);
    forall i | 0 <= i < |p.parts| ensures p.parts[i] != r {
      PartNodes(p, i);
    }
    hide Distinct, Nodes;
    var a, b := p.parts[..k], p.parts[k..];
    assert p.parts == a + b;
    forall i, j | 0 <= i < j < |p.parts| + 1 ensures (a + [r] + b)[i] != (a + [r] + b)[j] {
      assert p.parts[if i < k then i else if i == k then 0 else i - 1] in p.parts;
    }
  }

  /** A frame with one part less. */
  ghost function WithoutPart(p: Plan, k: nat): Plan
    requires p.SplitOf? && k < |p.parts|
  {
    SplitOf(p.frame, p.vertical, p.parts[..k] + p.parts[k + 1..])
  }

  lemma RemovedPart(p: Plan, k: nat)
    requires Distinct(p) && p.SplitOf? && k < |p.parts| && |p.parts| > 1
    ensures Distinct(WithoutPart(p, k))
    ensures Nodes(WithoutPart(p, k)) == Nodes(p) - Nodes(p.parts[k])
    ensures Panes(WithoutPart(p, k)) == Panes(p) - Panes(p.parts[k])
  {
    var q, gone := WithoutPart(p, k), p.parts[k];
    RemovedAmong(p, k);
    SomeParts(p, q.parts, p.parts + [gone], gone);
    SameParts(q, p, gone);
    ApartFrom(p, q, gone);
  }

  lemma ApartFrom(p: Plan, q: Plan, gone: Plan)
    requires Distinct(p) && p.SplitOf? && gone in p.parts
    requires q.SplitOf? && q.frame == p.frame && forall u <- q.parts :: u in p.parts && u != gone
    ensures Nodes(q) !! Nodes(gone) && Panes(q) !! Panes(gone)
  {
    hide Distinct, Nodes, Panes;
    InPart(p, gone);
    forall g | g in Nodes(q) ensures g !in Nodes(gone) {
      NodeOfParts(q, g);
      if g != p.frame {
        var u :| u in q.parts && g in Nodes(u);
        PartsApart(p, u, gone);
      }
    }
    forall w | w in Panes(q) ensures w !in Panes(gone) {
      PaneOfParts(q, w);
      var u :| u in q.parts && w in Panes(u);
      PartsApart(p, u, gone);
    }
  }

  lemma RemovedAmong(p: Plan, k: nat)
    requires Distinct(p) && p.SplitOf? && k < |p.parts|
    ensures var us := WithoutPart(p, k).parts;
      Among(us, p.parts + [p.parts[k]]) && p.parts[k] !in us && forall u :: u in p.parts <==> u in us || u == p.parts[k]
  {
    PartsDiffer(p);
    assert p.parts == p.parts[..k] + [p.parts[k]] + p.parts[k + 1..];
  }

  lemma {:induction false} AtUpdated(p: Plan, f: Frame, q: Plan)
    requires Distinct(p) && f in Nodes(p) && Replaces(p, f, q)
    ensures Distinct(Update(p, f, q)) && f in Nodes(Update(p, f, q)) && At(Update(p, f, q), f) == q
    decreases p
  {
    UpdateNodes(p, f, q);
    if p.frame != f {
      var k := Index(p, f);
      assert Replaces(p.parts[k], f, q);
      AtUpdated(p.parts[k], f, q);
      AtPart(Update(p, f, q), k, f);
    }
  }

  /** A window around a part is not in it. */
  lemma {:induction false} WindowAround(p: Plan, f: Frame, g: Frame)
    requires Distinct(p) && f in Nodes(p) && g in Around(p, f)
    ensures At(p, g).PaneOf? ==> At(p, g).window !in Panes(At(p, f))
    decreases p
  {
    if g != p.frame {
      var k, i := Index(p, f), Index(p, g);
      AtPart(p, k, f);
      AtPart(p, i, g);
      if i == k {
        WindowAround(p.parts[k], f, g);
      } else {
        PartsApart(p, p.parts[i], p.parts[k]);
        WindowIn(p.parts[i], g);
      }
    }
  }

  lemma WindowIn(p: Plan, g: Frame)
    requires Distinct(p) && g in Nodes(p)
    ensures At(p, g).PaneOf? ==> At(p, g).window in Panes(p)
  {
  }

  /** What a frame around a part has to do with the part. */
  lemma OuterFrame(p: Plan, f: Frame, g: Frame)
    requires Distinct(p) && Built(p, null) && Annotated(p, true, 0) && f in Nodes(p) && g in Around(p, f)
    ensures f.below == Nodes(At(p, f)) && f.panes == Panes(At(p, f)) && g !in f.below
    ensures g.window != null ==> g.window !in f.panes
    ensures forall c <- g.frames :: c in f.below ==> c == f && g == f.parent
  {
    AtIsBuilt(p, null, f);
    AtIsAnnotated(p, true, 0, f);
    IsGrown(At(p, f), f.parent, f.right, f.depth);
    AtIsBuilt(p, null, g);
    WindowAround(p, f, g);
    IsTree(p);
    assert g.Holds();
  }

  // Every frame with frames in it has at least two.

  ghost predicate Bushy(p: Plan) {
    p.SplitOf? ==> |p.parts| >= 2 && forall i :: 0 <= i < |p.parts| ==> Bushy(p.parts[i])
  }

  lemma {:induction false} BushyAt(p: Plan, f: Frame)
    requires Distinct(p) && f in Nodes(p) && Bushy(p)
    ensures Bushy(At(p, f))
    decreases p
  {
    if p.frame != f {
      BushyAt(p.parts[Index(p, f)], f);
    }
  }

  lemma {:induction false} BushyUpdate(p: Plan, f: Frame, q: Plan)
    requires Distinct(p) && f in Nodes(p) && q.frame == f && Bushy(p) && Bushy(q)
    ensures Bushy(Update(p, f, q))
    decreases p
  {
    if p.frame != f {
      BushyUpdate(p.parts[Index(p, f)], f, q);
    }
  }

  lemma ReplacesInPart(p: Plan, k: nat, f: Frame, q: Plan)
    requires Distinct(p) && p.SplitOf? && k < |p.parts| && f in Nodes(p.parts[k])
    requires f in Nodes(p) && Replaces(p, f, q)
    ensures Distinct(p.parts[k]) && Replaces(p.parts[k], f, q)
  {
    hide Nodes, Panes, Distinct;
    PartNodes(p, k);
    AtPart(p, k, f);
  }

  lemma ReplacesInAt(p: Plan, g: Frame, f: Frame, q: Plan)
    requires Distinct(p) && g in Nodes(p) && f in Nodes(At(p, g)) && f in Nodes(p) && Replaces(p, f, q)
    ensures Replaces(At(p, g), f, q)
  {
    AtAt(p, g, f);
  }

  lemma {:induction false} UpdateSame(p: Plan, f: Frame)
    requires Distinct(p) && f in Nodes(p)
    ensures Replaces(p, f, At(p, f)) && Update(p, f, At(p, f)) == p
    decreases p
  {
    if p.frame != f {
      UpdateSame(p.parts[Index(p, f)], f);
    }
  }

  /** What is replaced within a part does not matter once the part is. */
  lemma {:induction false} UpdateOver(p: Plan, f: Frame, q: Plan, g: Frame, r: Plan)
    requires Distinct(p) && f in Nodes(p) && Replaces(p, f, q)
    requires g in Nodes(p) && f in Nodes(At(p, g)) && r.frame == g
    ensures Distinct(Update(p, f, q)) && g in Nodes(Update(p, f, q))
    ensures Update(Update(p, f, q), g, r) == Update(p, g, r)
    ensures g != f ==> At(Update(p, f, q), g) == Update(At(p, g), f, q)
    decreases p
  {
    hide Nodes, Panes, Distinct;
    UpdateNodes(p, f, q);
    if p.frame != g {
      var k := Index(p, g);
      PartNodes(p, k);
      AtPart(p, k, g);
      AtPart(p, k, f);
      ReplacesInPart(p, k, f, q);
      UpdateOver(p.parts[k], f, q, g, r);
      AtPart(Update(p, f, q), k, g);
    } else if f == g {
      assert Update(p, f, q) == q;
    }
  }

  lemma BushyWithPart(p: Plan, k: nat, r: Plan)
    requires p.SplitOf? && k < |p.parts| && Bushy(p) && Bushy(r)
    ensures Bushy(WithPart(p, k, r))
  {
  }

  lemma BushyWithPartAt(p: Plan, k: nat, r: Plan)
    requires p.SplitOf? && 0 < |p.parts| && k <= |p.parts| && Bushy(r)
    requires forall i :: 0 <= i < |p.parts| ==> Bushy(p.parts[i])
    ensures Bushy(WithPartAt(p, k, r))
  {
    var us := WithPartAt(p, k, r).parts;
    assert forall i :: 0 <= i < |us| ==> us[i] == if i < k then p.parts[i] else if i == k then r else p.parts[i - 1];
  }

  lemma BushyWithoutPart(p: Plan, k: nat)
    requires p.SplitOf? && k < |p.parts| && Bushy(p)
    ensures |p.parts| > 2 ==> Bushy(WithoutPart(p, k))
    ensures |p.parts| == 2 ==> Bushy(WithoutPart(p, k).parts[0])
  {
    var us := WithoutPart(p, k).parts;
    assert forall i :: 0 <= i < |us| ==> us[i] == p.parts[if i < k then i else i + 1];
  }

  /** Whether a frame is at the right edge depends on where it is in a part and on where the part is. */
  lemma {:induction false} RightInPart(p: Plan, right: bool, f: Frame, g: Frame)
    requires Distinct(p) && f in Nodes(p) && g in Nodes(At(p, f))
    ensures RightIn(p, right, g) == RightIn(At(p, f), RightIn(p, right, f), g)
    decreases p
  {
    if p.frame != f {
      var k := Index(p, f);
      AtPart(p, k, f);
      AtPart(p, k, g);
      RightInPart(p.parts[k], PartRight(p, right, k), f, g);
    }
  }

  /** A part with another part of it in its place does not matter for the parts beside it. */
  lemma WithPartRight(p: Plan, right: bool, u: Frame, k: nat, c: Plan, g: Frame)
    requires Distinct(p) && u in Nodes(p) && At(p, u).SplitOf? && k < |At(p, u).parts|
    requires var q := WithPart(At(p, u), k, c); Replaces(p, u, q)
    requires g in Nodes(p) && g !in Nodes(At(p, u).parts[k])
    ensures var r := Update(p, u, WithPart(At(p, u), k, c));
      Distinct(r) && g in Nodes(r) && RightIn(r, right, g) == RightIn(p, right, g)
  {
    var q := WithPart(At(p, u), k, c);
    UpdateNodes(p, u, q);
    if g in Around(p, u) || g == u {
      UpdateRight(p, right, u, q, g);
    } else {
      hide Nodes, Panes, Distinct, Replaces, RightIn;
      var a, r := At(p, u), Update(p, u, q);
      UpdateRight(p, right, u, q, u);
      AtUpdated(p, u, q);
      BesideIsRight(a, RightIn(p, right, u), k, c, g);
      RightInPart(p, right, u, g);
      RightInPart(r, right, u, g);
    }
  }

  lemma BesideIsRight(a: Plan, right: bool, k: nat, c: Plan, g: Frame)
    requires Distinct(a) && a.SplitOf? && k < |a.parts| && Distinct(WithPart(a, k, c))
    requires g in Nodes(a) && g != a.frame && g !in Nodes(a.parts[k])
    ensures var q := WithPart(a, k, c); g in Nodes(q) && RightIn(q, right, g) == RightIn(a, right, g)
  {
    var i := Index(a, g);
    hide Nodes, Panes, Distinct;
    AtPart(WithPart(a, k, c), i, g);
  }

  lemma MinsWithout(s: seq<Shape>, k: nat, height: bool)
    requires k < |s|
    ensures Mins(s[..k] + s[k + 1..], height) == Mins(s, height)[..k] + Mins(s, height)[k + 1..]
  {
    hide Min;
  }

  lemma ShapeWithout(p: Plan, k: nat)
    requires p.SplitOf? && k < |p.parts|
    ensures ShapeOf(WithoutPart(p, k)) == Split(p.vertical, ShapeOf(p).parts[..k] + ShapeOf(p).parts[k + 1..])
  {
    var s, t, us := ShapeOf(p).parts, ShapeOf(WithoutPart(p, k)).parts, WithoutPart(p, k).parts;
    forall i | 0 <= i < |t| ensures t[i] == (s[..k] + s[k + 1..])[i] {
      assert t[i] == ShapeOf(us[i]) && us[i] == p.parts[if i < k then i else i + 1];
    }
  }

  /** A frame with one part less needs no more room, and neither does a part on its own. */
  lemma LessNeedsLess(p: Plan, k: nat, height: bool)
    requires Distinct(p) && p.SplitOf? && k < |p.parts| && |p.parts| > 1
    ensures Min(ShapeOf(WithoutPart(p, k)), height) <= Min(ShapeOf(p), height)
  {
    ShapeIsProper(p);
    ShapeWithout(p, k);
    hide ShapeOf, Min;
    var s, t := ShapeOf(p), ShapeOf(WithoutPart(p, k));
    MinOfSplit(s, height);
    MinOfSplit(t, height);
    MinsWithout(s.parts, k, height);
    var a := Mins(s.parts, height);
    SumSplit(a, k);
    MinPositive(s.parts[k], height);
    MaxWithout(a, k);
  }

  lemma MaxWithout(a: seq<int>, k: nat)
    requires k < |a|
    ensures Max(a[..k] + a[k + 1..]) <= Max(a)
  {
    var b := a[..k] + a[k + 1..];
    if Max(b) > 0 {
      var i :| 0 <= i < |b| && b[i] == Max(b);
      assert b[i] == a[if i < k then i else i + 1];
    }
  }

  lemma PartNeedsLess(p: Plan, k: nat, height: bool)
    requires Distinct(p) && p.SplitOf? && k < |p.parts|
    ensures Min(ShapeOf(p.parts[k]), height) <= Min(ShapeOf(p), height)
  {
    ShapeIsProper(p);
    var s := ShapeOf(p);
    MinOfSplit(s, height);
    var a := Mins(s.parts, height);
    SumSplit(a, k);
    forall i | 0 <= i < |a| ensures a[i] > 0 {
      MinPositive(s.parts[i], height);
    }
    SumPositive(a[..k] + a[k + 1..]);
  }

  lemma {:induction false} SumSplit(a: seq<int>, k: nat)
    requires k < |a|
    ensures Sum(a) == Sum(a[..k] + a[k + 1..]) + a[k]
  {
    var n := |a| - 1;
    if k == n {
      assert a[..k] + a[k + 1..] == a[..n];
    } else {
      SumSplit(a[..n], k);
      var b := a[..k] + a[k + 1..];
      assert b[..|b| - 1] == a[..n][..k] + a[..n][k + 1..];
    }
  }

  lemma ShapeWith(p: Plan, k: nat, leaf: Plan)
    requires p.SplitOf? && k <= |p.parts| && leaf.PaneOf?
    ensures var s := ShapeOf(p).parts; ShapeOf(WithPartAt(p, k, leaf)) == Split(p.vertical, s[..k] + [Pane] + s[k..])
  {
    var s, t, us := ShapeOf(p).parts, ShapeOf(WithPartAt(p, k, leaf)).parts, WithPartAt(p, k, leaf).parts;
    forall i | 0 <= i < |t| ensures t[i] == (s[..k] + [Pane] + s[k..])[i] {
      assert t[i] == ShapeOf(us[i]) && us[i] == if i < k then p.parts[i] else if i == k then leaf else p.parts[i - 1];
    }
  }

  lemma MinsWith(s: seq<Shape>, k: nat, height: bool)
    requires k <= |s|
    ensures Mins(s[..k] + [Pane] + s[k..], height) == Mins(s, height)[..k] + [Min(Pane, height)] + Mins(s, height)[k..]
  {
    hide Min;
  }

  /** One more window beside another needs room along the frame, and none across it. */
  lemma OneMoreNeeds(p: Plan, i: nat, k: nat, leaf: Plan, height: bool)
    requires p.SplitOf? && i < |p.parts| && k <= |p.parts| && p.parts[i].PaneOf? && leaf.PaneOf?
    ensures Min(ShapeOf(WithPartAt(p, k, leaf)), height) ==
      Min(ShapeOf(p), height)
        + if p.vertical != height then 0 else if height then WINDOW_MIN_HEIGHT else WINDOW_MIN_WIDTH + 1
  {
    ShapeWith(p, k, leaf);
    assert ShapeOf(p.parts[i]) == Pane && ShapeOf(p).parts[i] == Pane;
    hide ShapeOf, Min, Max, Sum, Mins;
    var s, t := ShapeOf(p), ShapeOf(WithPartAt(p, k, leaf));
    MinOfPane();
    MinOfSplit(s, height);
    MinOfSplit(t, height);
    MinsWith(s.parts, k, height);
    var a := Mins(s.parts, height);
    SumWith(a, k, Min(Pane, height));
    MaxWith(a, k, i);
  }

  lemma SumWith(a: seq<int>, k: nat, x: int)
    requires k <= |a|
    ensures Sum(a[..k] + [x] + a[k..]) == Sum(a) + x
  {
    hide Sum;
    var b := a[..k] + [x] + a[k..];
    SumSplit(b, k);
    assert b[k] == x && b[..k] == a[..k] && b[k + 1..] == a[k..];
    assert a[..k] + a[k..] == a;
  }

  lemma MaxWith(a: seq<int>, k: nat, i: nat)
    requires k <= |a| && i < |a|
    ensures Max(a[..k] + [a[i]] + a[k..]) == Max(a)
  {
    hide Max;
    var b, c := a[..k] + [a[i]] + a[k..], a[..k] + a[k..];
    assert c == a && a[i] in c;
    MaxOfSame(c, b);
  }

  lemma MaxOfSame(a: seq<int>, b: seq<int>)
    requires forall x :: x in a <==> x in b
    ensures Max(a) == Max(b)
  {
    hide Max;
    assert Max(a) > 0 ==> Max(a) in b;
    assert Max(b) > 0 ==> Max(b) in a;
  }
}
