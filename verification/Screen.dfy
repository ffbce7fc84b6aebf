/** The windows on the screen: splitting them, removing them and giving them room. */
module Screens {
  import opened Sharing
  import opened Frames
  import opened FramePlans
  import opened FrameNeeds

  /** Where a frame is among others. */
  function IndexOf(frames: seq<Frame>, f: Frame): (i: nat)
    requires f in frames
    ensures i < |frames| && frames[i] == f
  {
    if frames[0] == f then 0 else 1 + IndexOf(frames[1..], f)
  }

  function Others(frames: seq<Frame>, k: nat): (fs: seq<Frame>)
    requires k < |frames|
    ensures fs == frames[..k] + frames[k + 1..] && forall f <- fs :: f in frames
  {
    frames[..k] + frames[k + 1..]
  }

  class Screen {
    var root: Frame
    ghost var plan: Plan

    ghost predicate Valid()
      reads `root, `plan, Nodes(plan)`parent, Nodes(plan)`frames, Nodes(plan)`window, Nodes(plan)`vertical
      reads Nodes(plan)`shape, Nodes(plan)`below, Nodes(plan)`panes, Nodes(plan)`right, Nodes(plan)`depth
    {
      plan.frame == root && Distinct(plan) && Built(plan, null) && Annotated(plan, true, 0)
    }

    constructor (window: Window)
      ensures Valid() && Bushy(plan) && fresh(Nodes(plan)) && plan == PaneOf(root, window) && root.window == window
      ensures root.shape == Pane
    {
      var f := new Frame.Root(window);
      root, plan := f, PaneOf(f, window);
      new;
      Annotate(plan, true, 0);
    }

    lemma WholePlan()
      requires Valid()
      ensures Distinct(plan) && plan.frame == root && root in Nodes(plan) && At(plan, root) == plan
    {
    }

    lemma TreeOfScreen()
      requires Valid()
      ensures Tree(Nodes(plan))
    {
      IsTree(plan);
    }

    /** What a frame has in it is on the screen, and the root has everything in it. */
    lemma OnScreen(f: Frame)
      requires Valid() && f in Nodes(plan)
      ensures Tree(Nodes(plan)) && root in Nodes(plan)
      ensures f in f.below && f.below <= Nodes(plan) && f.panes <= Panes(plan)
      ensures f !in f.frames && forall c <- f.frames :: c in Nodes(plan)
      ensures f.below == Nodes(At(plan, f)) && f.panes == Panes(At(plan, f)) && Around(plan, f) == Nodes(plan) - f.below
      ensures root.below == Nodes(plan) && root.panes == Panes(plan)
      ensures f.parent == null <==> f == root
      ensures f.parent != null ==> f.parent in Nodes(plan) && f.parent !in f.below && f in f.parent.frames
    {
      TreeOfScreen();
      AtIsAnnotated(plan, true, 0, f);
      if f != root {
        var k := ParentOf(plan, null, f);
      }
    }

    /** Another part comes into the place of one. */
    ghost method Adopt(p: Plan, f: Frame, q: Plan)
      requires p.frame == root && Distinct(p) && f in Nodes(p) && Replaces(p, f, q)
      requires BuiltBut(p, null, f) && Built(q, f.parent)
      modifies `plan, Nodes(p)`shape, Nodes(p)`below, Nodes(p)`panes, Nodes(p)`right, Nodes(p)`depth
      modifies Nodes(q)`shape, Nodes(q)`below, Nodes(q)`panes, Nodes(q)`right, Nodes(q)`depth
      ensures plan == Update(p, f, q) && Valid() && f in Nodes(plan) && At(plan, f) == q
      ensures Nodes(plan) == Around(p, f) + Nodes(q) && Around(plan, f) == Around(p, f)
      ensures forall g <- Around(p, f) + {f} :: g.right == RightIn(p, true, g)
    {
      hide Nodes, Panes, Distinct, Built, Annotated, BuiltBut, Update, At;
      UpdateNodes(p, f, q);
      UpdateBuilt(p, null, f, q);
      AtUpdated(p, f, q);
      plan := Update(p, f, q);
      Annotate(plan, true, 0);
      forall g | g in Around(p, f) + {f} ensures g.right == RightIn(p, true, g) {
        UpdateRight(p, true, f, q, g);
        RightIsRightIn(plan, true, 0, g);
      }
    }

    /** Lays out one frame in the room it has, or more if it needs more. */
    method Fill(f: Frame)
      requires Valid() && f in Nodes(plan)
      modifies Nodes(plan)`w, Nodes(plan)`h, Panes(plan)`w, Panes(plan)`h
      ensures Valid() && Tree(Nodes(plan)) && LaidOutEvenly(f, Nodes(plan))
      ensures f.w == AtLeast(old(f.w), Min(f.shape, false)) && f.h == AtLeast(old(f.h), Min(f.shape, true))
      ensures f.FixedFrom(old(Along(f.frames, f.vertical)))
      ensures forall g <- Around(plan, f) :: g.w == old(g.w) && g.h == old(g.h)
      ensures forall g <- Around(plan, f) :: g != f.parent ==> g.Tiles() == old(g.Tiles())
      ensures f.parent != null && old(f.parent.Tiles()) ==>
        (f.parent.Tiles() <==> f.w == old(f.w) && f.h == old(f.h))
    {
      hide Tree, Built, Annotated, Distinct, Nodes, Panes, At, Tiled, LaidOutEvenly, Min, Sum, Along, Frame.Tiles;
      OnScreen(f);
      AllOuter(f);
      ghost var k, a := 0, [];
      ghost var filled := f.parent != null && f.parent.Tiles();
      if filled {
        k := ParentOf(plan, null, f);
        a := Along(f.parent.frames, f.parent.vertical);
        FilledParent(f, k);
      }
      FrameSetSize(f, f.w, f.h, Nodes(plan));
      forall g | g in Around(plan, f) && g != f.parent ensures g.Tiles() == old(g.Tiles()) {
        assert Outer(f, g);
      }
      if filled {
        ParentTiles(f, k, a);
      }
    }

    /** Lays out one frame, and then places everything. */
    method Settle(f: Frame)
      requires Valid() && f in Nodes(plan)
      modifies Nodes(plan)`w, Nodes(plan)`h, Nodes(plan)`x, Nodes(plan)`y, Panes(plan)
      ensures Valid() && Tree(Nodes(plan)) && LaidOutEvenly(f, Nodes(plan)) && PlacedBelow(root, Nodes(plan))
      ensures f.w == AtLeast(old(f.w), Min(f.shape, false)) && f.h == AtLeast(old(f.h), Min(f.shape, true))
      ensures f.FixedFrom(old(Along(f.frames, f.vertical)))
      ensures forall g <- Around(plan, f) :: g.w == old(g.w) && g.h == old(g.h)
      ensures forall g <- Around(plan, f) :: g != f.parent ==> g.Tiles() == old(g.Tiles())
      ensures unchanged(Nodes(plan)`window, Nodes(plan)`frames, Nodes(plan)`equalSize)
      ensures f.parent != null && old(f.parent.Tiles()) ==>
        (f.parent.Tiles() <==> f.w == old(f.w) && f.h == old(f.h))
    {
      hide Tree, Built, Annotated, Distinct, Nodes, Panes, At, Tiled, LaidOutEvenly, PlacedBelow;
      hide Min, Sum, Along, Frame.Tiles, Frame.FixedFrom;
      OnScreen(f);
      Fill(f);
      UpdateFrameCoordinates(root, 0, 0, Nodes(plan));
    }

    ghost predicate Outer(f: Frame, g: Frame)
      reads f`below, f`panes, f`parent, g`frames, g`window
    {
      && g !in f.below && (g.window != null ==> g.window !in f.panes)
      && forall c <- g.frames :: c in f.below ==> c == f && g == f.parent
    }

    lemma AllOuter(f: Frame)
      requires Valid() && f in Nodes(plan)
      ensures forall g <- Around(plan, f) :: Outer(f, g)
    {
      hide Built, Annotated, Distinct, Nodes, Panes, At;
      forall g | g in Around(plan, f) ensures Outer(f, g) {
        OuterFrame(plan, f, g);
      }
    }

    lemma FilledParent(f: Frame, k: nat)
      requires Valid() && f in Nodes(plan) && f.parent != null && f.parent.Tiles()
      requires k < |f.parent.frames| && f.parent.frames[k] == f
      ensures var u := f.parent;
        && u.window == null && u.w > 0 && u.h > 0 && Sum(Along(u.frames, u.vertical)) == Room(u)
        && (forall i :: 0 <= i < |u.frames| ==> GetSize(u.frames[i], !u.vertical) == GetSize(u, !u.vertical))
        && (forall i :: 0 <= i < |u.frames| && i != k ==> u.frames[i] !in f.below)
    {
      OnScreen(f);
      PartOf(f.parent, k, Nodes(plan));
    }

    /** A frame that was filled still is exactly if the one frame in it that may have changed has its old size. */
    lemma ParentTiles(f: Frame, k: nat, a: seq<int>)
      requires f.parent != null && f.parent.window == null && f.parent.w > 0 && f.parent.h > 0
      requires var u := f.parent;
        && k < |u.frames| == |a| && u.frames[k] == f && Sum(a) == Room(u)
        && forall i :: 0 <= i < |a| && i != k ==>
             GetSize(u.frames[i], u.vertical) == a[i] && GetSize(u.frames[i], !u.vertical) == GetSize(u, !u.vertical)
      ensures var v := f.parent.vertical;
        f.parent.Tiles() <==> GetSize(f, v) == a[k] && GetSize(f, !v) == GetSize(f.parent, !v)
    {
      hide Sum;
      var u := f.parent;
      assert Along(u.frames, u.vertical) == a[k := GetSize(f, u.vertical)];
      SumUpdate(a, k, GetSize(f, u.vertical));
    }

    /** Every frame on the screen is filled by what is in it. */
    ghost predicate Tidy()
      requires Valid()
      reads this, Nodes(plan), Panes(plan)
    {
      OnScreen(root);
      Tiled(root, Nodes(plan))
    }

    lemma TidyWhen(f: Frame)
      requires Valid() && f in Nodes(plan) && Tree(Nodes(plan)) && LaidOutEvenly(f, Nodes(plan))
      requires forall g <- Around(plan, f) :: g != f.parent ==> g.Tiles()
      ensures Tidy() <==> f.parent == null || f.parent.Tiles()
    {
      hide Frame.Tiles;
      OnScreen(f);
      OnScreen(root);
    }

    lemma TidyAll() returns (nodes: set<Frame>)
      requires Valid()
      ensures nodes == Nodes(plan)
      ensures Tidy() <==> forall g <- nodes :: g.Tiles()
    {
      hide Frame.Tiles;
      OnScreen(root);
      nodes := Nodes(plan);
    }

    lemma TidyAcross(f: Frame)
      requires Valid() && f in Nodes(plan) && Tidy() && f.parent != null && f.parent.vertical
      ensures f.w == f.parent.w
    {
      OnScreen(f);
      var nodes := TidyAll();
      Contains(f.parent, f);
      assert f.parent.Tiles();
    }

    /** What is known about a frame before it is changed. */
    lemma StartChange(f: Frame) returns (nodes: set<Frame>)
      requires Valid() && f in Nodes(plan)
      ensures nodes == Nodes(plan)
      ensures BuiltBut(plan, null, f) && Built(At(plan, f), f.parent)
      ensures f.window != null ==> At(plan, f) == PaneOf(f, f.window)
      ensures f.window == null ==> At(plan, f).SplitOf? && |At(plan, f).parts| == |f.frames|
      ensures forall g <- Around(plan, f) + {f} :: g.right == RightIn(plan, true, g)
    {
      BuiltIsBuiltBut(plan, null, f);
      AtIsBuilt(plan, null, f);
      forall g | g in Around(plan, f) + {f} ensures g.right == RightIn(plan, true, g) {
        RightIsRightIn(plan, true, 0, g);
      }
      nodes := Nodes(plan);
    }

    /** The window of a frame moves into a frame in it. */
    method Reparent(f: Frame, vertical: bool) returns (holder: Frame)
      requires Valid() && f in Nodes(plan) && f.window != null
      modifies `plan, f`vertical, f`frames, f`window
      modifies Nodes(plan)`shape, Nodes(plan)`below, Nodes(plan)`panes, Nodes(plan)`right, Nodes(plan)`depth
      ensures Valid() && f in Nodes(plan) && fresh(holder) && Nodes(plan) == old(Nodes(plan)) + {holder}
      ensures Panes(plan) == old(Panes(plan))
      ensures f.frames == [holder] && f.vertical == vertical && holder.window == old(f.window)
      ensures f.right == old(f.right)
      ensures At(plan, f) == SplitOf(f, vertical, [PaneOf(holder, old(f.window))])
      ensures Replaces(old(plan), f, At(plan, f)) && plan == Update(old(plan), f, At(plan, f))
      ensures Around(plan, f) == old(Around(plan, f))
      ensures forall g <- Around(plan, f) :: g.Tiles() == old(g.Tiles())
    {
      hide Tree, Update, Frame.Tiles, Nodes, Panes, Distinct, At, BuiltBut, Annotated, RightIn, Replaces;
      ghost var p := plan;
      ghost var nodes := StartChange(f);
      var window := f.window;
      holder := new Frame.Child(f, window);
      f.vertical, f.frames, f.window := vertical, [holder], null;
      ghost var q := SplitOf(f, vertical, [PaneOf(holder, window)]);
      HolderReplaces(p, f, q, window, holder);
      assert Built(PaneOf(holder, window), f);
      assert f !in Around(p, f) && BuiltBut(p, null, f);
      Adopt(p, f, q);
    }

    method LinkChild(u: Frame, window: Window, k: nat) returns (added: Frame)
      requires k <= |u.frames|
      modifies u`frames
      ensures fresh(added) && added.parent == u && added.window == window && added.frames == []
      ensures u.frames == old(u.frames)[..k] + [added] + old(u.frames)[k..]
      ensures |u.frames| == |old(u.frames)| + 1 && u.frames[k] == added
      ensures forall j :: 0 <= j < |old(u.frames)| ==> u.frames[if j < k then j else j + 1] == old(u.frames)[j]
    {
      added := new Frame.Child(u, window);
      u.frames := u.frames[..k] + [added] + u.frames[k..];
    }

    /** A frame for a new window comes into a frame. */
    method AddFrame(u: Frame, window: Window, k: nat, ghost part: Plan) returns (added: Frame)
      requires Valid() && u in Nodes(plan) && window !in Panes(plan)
      requires part == At(plan, u) && part.SplitOf? && k <= |u.frames| == |part.parts|
      modifies `plan, u`frames
      modifies Nodes(plan)`shape, Nodes(plan)`below, Nodes(plan)`panes, Nodes(plan)`right, Nodes(plan)`depth
      ensures Valid() && u in Nodes(plan) && fresh(added) && Nodes(plan) == old(Nodes(plan)) + {added}
      ensures added.parent == u && added.window == window && u.right == old(u.right)
      ensures u.frames == old(u.frames)[..k] + [added] + old(u.frames)[k..]
      ensures Panes(plan) == old(Panes(plan)) + {window}
      ensures At(plan, u) == WithPartAt(part, k, PaneOf(added, window)) && plan == Update(old(plan), u, At(plan, u))
      ensures Around(plan, u) == old(Around(plan, u))
      ensures forall g <- Around(plan, u) :: g.Tiles() == old(g.Tiles())
    {
      hide Tree, Update, Frame.Tiles, Nodes, Panes, Distinct, At, BuiltBut, Annotated, RightIn, Replaces;
      ghost var p := plan;
      ghost var nodes := StartChange(u);
      added := LinkChild(u, window, k);
      ghost var q := WithPartAt(part, k, PaneOf(added, window));
      AddedReplaces(p, u, k, added, window);
      forall j | 0 <= j < |part.parts| ensures Built(part.parts[j], u) {
        PartNodes(part, j);
      }
      assert Built(PaneOf(added, window), u);
      WithPartBuilt(u, part, k, PaneOf(added, window));
      assert u !in Around(p, u) && BuiltBut(p, null, u);
      Adopt(p, u, q);
    }

    /** A frame is split in its parent only if that lies the same way. */
    ghost predicate NeedsHolder(frame: Frame, vertical: bool)
      reads frame, frame.parent
    {
      frame.parent == null || frame.parent.vertical != vertical
    }

    /** The frame that a split of a frame takes place in: its parent, or itself with its window moved into it. */
    method SplitParent(frame: Frame, vertical: bool) returns (parent: Frame, child: Frame, ghost part: Plan)
      requires Valid() && frame in Nodes(plan) && frame.window != null
      modifies `plan, frame`vertical, frame`frames, frame`window
      modifies Nodes(plan)`shape, Nodes(plan)`below, Nodes(plan)`panes, Nodes(plan)`right, Nodes(plan)`depth
      ensures Valid() && parent in old(Nodes(plan)) && parent in Nodes(plan) && parent.vertical == vertical
      ensures parent.right == old(parent.right)
      ensures old(Nodes(plan)) <= Nodes(plan) && fresh(Nodes(plan) - old(Nodes(plan)))
      ensures Panes(plan) == old(Panes(plan)) && root == old(root)
      ensures part == At(plan, parent) && part.SplitOf? && |part.parts| == |parent.frames| && child in parent.frames
      ensures Replaces(old(plan), parent, part) && plan == Update(old(plan), parent, part)
      ensures Bushy(old(plan)) ==> forall i :: 0 <= i < |part.parts| ==> Bushy(part.parts[i])
      ensures part.vertical == vertical && HoldsPane(part, child) && child.window == old(frame.window)
      ensures parent == if old(NeedsHolder(frame, vertical)) then frame else frame.parent
      ensures old(NeedsHolder(frame, vertical)) ==>
        parent.frames == [child] && ShapeOf(part) == Shape.Split(vertical, [Pane])
      ensures !old(NeedsHolder(frame, vertical)) ==>
        child == frame && parent.frames == old(frame.parent.frames) && ShapeOf(part) == old(frame.parent.shape)
      ensures Around(plan, parent) == old(Around(plan, parent))
      ensures forall g <- Around(plan, parent) :: g.Tiles() == old(g.Tiles())
    {
      hide Tree, Update, Frame.Tiles, Nodes, Panes, Distinct, Annotated;
      OnScreen(frame);
      if frame.parent == null || frame.parent.vertical != vertical {
        child := Reparent(frame, vertical);
        parent := frame;
        part := At(plan, frame);
        assert part.parts[0].PaneOf?;
      } else {
        parent, child := frame.parent, frame;
        part := At(plan, parent);
        ParentHolds(parent, child);
      }
    }

    /** A frame that is split in its parent. */
    lemma ParentHolds(parent: Frame, child: Frame)
      requires Valid() && parent in Nodes(plan) && child in parent.frames && child.window != null
      ensures var part := At(plan, parent);
        && part.SplitOf? && |part.parts| == |parent.frames| && part.vertical == parent.vertical
        && Replaces(plan, parent, part) && plan == Update(plan, parent, part)
        && (Bushy(plan) ==> forall i :: 0 <= i < |part.parts| ==> Bushy(part.parts[i]))
        && HoldsPane(part, child) && ShapeOf(part) == parent.shape
    {
      hide Tree, Update, Nodes, Panes, Distinct, Annotated;
      var nodes := StartChange(parent);
      Contains(parent, child);
      ShapeAt(parent);
      PaneAt(parent, child);
      UpdateSame(plan, parent);
      if Bushy(plan) {
        BushyAt(plan, parent);
      }
    }

    lemma PaneAt(parent: Frame, child: Frame)
      requires Valid() && parent in Nodes(plan) && child in parent.frames && child.window != null
      ensures HoldsPane(At(plan, parent), child)
    {
      hide Tree, Nodes, Panes, Distinct, Annotated, Built;
      var i := IndexOf(parent.frames, child);
      StartPlace(parent, i, child);
      var nodes := StartChange(child);
    }

    lemma Contains(f: Frame, c: Frame)
      requires Valid() && f in Nodes(plan) && c in f.frames
      ensures f.window == null && c in Nodes(plan) && c.parent == f
    {
      OnScreen(f);
      assert f.Holds();
    }

    /** Lays out a frame into which something has come, and tells whether everything else is still filled. */
    method SettleIn(f: Frame)
      requires Valid() && f in Nodes(plan)
      modifies Nodes(plan)`w, Nodes(plan)`h, Nodes(plan)`x, Nodes(plan)`y, Panes(plan)
      ensures Valid() && Tree(Nodes(plan)) && LaidOutEvenly(f, Nodes(plan)) && PlacedBelow(root, Nodes(plan))
      ensures f.w == AtLeast(old(f.w), Min(f.shape, false)) && f.h == AtLeast(old(f.h), Min(f.shape, true))
      ensures f.FixedFrom(old(Along(f.frames, f.vertical)))
      ensures forall g <- Around(plan, f) :: g.w == old(g.w) && g.h == old(g.h)
      ensures unchanged(Nodes(plan)`window, Nodes(plan)`frames, Nodes(plan)`equalSize)
      ensures old(forall g <- Around(plan, f) :: g.Tiles()) ==>
        (Tidy() <==> f == root || (f.w == old(f.w) && f.h == old(f.h)))
    {
      hide Tree, Frame.Tiles, Nodes, Panes, Distinct, Annotated, Built, At, Tiled;
      hide LaidOutEvenly, PlacedBelow, Tidy, Min;
      ghost var filled := forall g <- Around(plan, f) :: g.Tiles();
      OnScreen(f);
      Settle(f);
      OnScreen(f);
      if filled {
        TidyWhen(f);
      }
    }

    /** A new window comes into a frame, which is then divided equally. */
    method Enter(parent: Frame, window: Window, k: nat, ghost part: Plan) returns (added: Frame)
      requires Valid() && parent in Nodes(plan) && window !in Panes(plan)
      requires part == At(plan, parent) && part.SplitOf? && k <= |parent.frames| == |part.parts|
      modifies this, Nodes(plan), Panes(plan), window
      ensures Valid() && Tree(Nodes(plan)) && root == old(root) && parent in Nodes(plan)
      ensures fresh(added) && Nodes(plan) == old(Nodes(plan)) + {added} && Panes(plan) == old(Panes(plan)) + {window}
      ensures added.parent == parent && added.window == window
      ensures parent.vertical == old(parent.vertical) && parent.right == old(parent.right) && parent.equalSize
      ensures forall g <- old(Nodes(plan)) :: g != parent ==> g.equalSize == old(g.equalSize)
      ensures parent.frames == old(parent.frames)[..k] + [added] + old(parent.frames)[k..]
      ensures forall g <- old(Nodes(plan)) :: g.window == old(g.window)
      ensures Around(plan, parent) == old(Around(plan, parent))
      ensures forall g <- Around(plan, parent) :: g.w == old(g.w) && g.h == old(g.h)
      ensures plan == Update(old(plan), parent, WithPartAt(part, k, PaneOf(added, window)))
      ensures LaidOutEvenly(parent, Nodes(plan)) && PlacedBelow(root, Nodes(plan))
      ensures parent.shape == ShapeOf(WithPartAt(part, k, PaneOf(added, window)))
      ensures parent.w == AtLeast(old(parent.w), Min(parent.shape, false))
      ensures parent.h == AtLeast(old(parent.h), Min(parent.shape, true))
      ensures old(forall g <- Around(plan, parent) :: g.Tiles()) ==>
        (Tidy() <==> parent == root || (parent.w == old(parent.w) && parent.h == old(parent.h)))
    {
      hide Tree, Update, Frame.Tiles, Nodes, Panes, Distinct, Annotated, Built, At;
      hide Tiled, LaidOutEvenly, PlacedBelow, Tidy;
      hide Min, ShapeOf, WithPartAt, AtLeast, Bushy;
      added := Insert(parent, window, k, part);
      SettleIn(parent);
    }

    /** A frame for a new window comes into a frame, which is to be divided equally. */
    method Insert(parent: Frame, window: Window, k: nat, ghost part: Plan) returns (added: Frame)
      requires Valid() && parent in Nodes(plan) && window !in Panes(plan)
      requires part == At(plan, parent) && part.SplitOf? && k <= |parent.frames| == |part.parts|
      modifies `plan, Nodes(plan)`frames, parent`equalSize
      modifies Nodes(plan)`shape, Nodes(plan)`below, Nodes(plan)`panes, Nodes(plan)`right, Nodes(plan)`depth
      ensures Valid() && parent in Nodes(plan) && fresh(added) && parent.equalSize
      ensures Nodes(plan) == old(Nodes(plan)) + {added} && Panes(plan) == old(Panes(plan)) + {window}
      ensures added.parent == parent && added.window == window && parent.right == old(parent.right)
      ensures parent.frames == old(parent.frames)[..k] + [added] + old(parent.frames)[k..]
      ensures forall g <- old(Nodes(plan)) :: g.window == old(g.window) && g.w == old(g.w) && g.h == old(g.h)
      ensures forall g <- old(Nodes(plan)) :: g != parent ==> g.equalSize == old(g.equalSize)
      ensures Around(plan, parent) == old(Around(plan, parent)) <= old(Nodes(plan)) && parent in old(Nodes(plan))
      ensures forall g <- Around(plan, parent) :: g.Tiles() == old(g.Tiles())
      ensures plan == Update(old(plan), parent, WithPartAt(part, k, PaneOf(added, window)))
      ensures parent.shape == ShapeOf(WithPartAt(part, k, PaneOf(added, window)))
    {
      hide Tree, Update, Frame.Tiles, Nodes, Panes, Distinct, Annotated, Built, At, Tiled;
      hide Min, ShapeOf, WithPartAt, AtLeast, Bushy;
      ghost var nodes := StartChange(parent);
      OnScreen(parent);
      added := AddFrame(parent, window, k, part);
      ShapeAt(parent);
      parent.equalSize := true;
    }

    /** A frame has two frames in it: the new one and one with the old window. */
    ghost predicate PairedWith(parent: Frame, added: Frame, before: bool, window: Window?)
      reads parent, parent.frames
    {
      var k := if before then 0 else 1;
      |parent.frames| == 2 && parent.frames[k] == added && parent.frames[1 - k].window == window
    }

    /** The new frame is just before or just behind the one that is split. */
    ghost predicate Beside(fs: seq<Frame>, gs: seq<Frame>, frame: Frame, added: Frame, before: bool) {
      exists i :: 0 <= i < |fs| && fs[i] == frame &&
        var k := if before then i else i + 1;
        gs == fs[..k] + [added] + fs[k..]
    }

    lemma BesideAt(fs: seq<Frame>, frame: Frame, added: Frame, before: bool)
      ensures frame in fs ==>
        var k := IndexOf(fs, frame) + if before then 0 else 1;
        Beside(fs, fs[..k] + [added] + fs[k..], frame, added, before)
    {
    }

    /** The room that the frame a split takes place in needs afterwards. */
    ghost function MinAfter(frame: Frame, vertical: bool, height: bool): int
      reads frame, frame.parent
    {
      (if NeedsHolder(frame, vertical) then Min(Pane, height) else Min(frame.parent.shape, height))
        + if vertical != height then 0 else if height then WINDOW_MIN_HEIGHT else WINDOW_MIN_WIDTH + 1
    }

    /** Only the root can grow; any other frame that is split must have the room for one more window. */
    ghost predicate HasRoom(frame: Frame, vertical: bool)
      reads `root, frame, frame.parent
    {
      var parent := if NeedsHolder(frame, vertical) then frame else frame.parent;
      parent == root || (parent.w >= MinAfter(frame, vertical, false) && parent.h >= MinAfter(frame, vertical, true))
    }

    /** Splits a frame with a window, which gets a new one beside it. */
    method Split(frame: Frame, vertical: bool, before: bool, window: Window) returns (added: Frame, parent: Frame)
      requires Valid() && Bushy(plan) && frame in Nodes(plan) && frame.window != null && window !in Panes(plan)
      modifies this, Nodes(plan), Panes(plan), window
      ensures Valid() && Bushy(plan) && Tree(Nodes(plan)) && root == old(root)
      ensures parent in old(Nodes(plan)) && parent in Nodes(plan)
      ensures fresh(added) && added in Nodes(plan) && Panes(plan) == old(Panes(plan)) + {window}
      ensures old(Nodes(plan)) <= Nodes(plan) && fresh(Nodes(plan) - old(Nodes(plan)))
      ensures added.parent == parent && added.window == window && parent.vertical == vertical
      ensures parent.right == old(parent.right) && parent.equalSize
      ensures forall g <- old(Nodes(plan)) :: g != parent ==> g.equalSize == old(g.equalSize)
      ensures parent == old(if NeedsHolder(frame, vertical) then frame else frame.parent)
      ensures old(NeedsHolder(frame, vertical)) ==> PairedWith(parent, added, before, old(frame.window))
      ensures !old(NeedsHolder(frame, vertical)) ==>
        Beside(old(frame.parent.frames), parent.frames, frame, added, before) && frame.window == old(frame.window)
      ensures forall g <- old(Nodes(plan)) :: g != frame ==> g.window == old(g.window)
      ensures Around(plan, parent) == old(Around(plan, parent))
      ensures forall g <- Around(plan, parent) :: g.w == old(g.w) && g.h == old(g.h)
      ensures LaidOutEvenly(parent, Nodes(plan)) && PlacedBelow(root, Nodes(plan))
      ensures Min(parent.shape, false) == old(MinAfter(frame, vertical, false))
      ensures Min(parent.shape, true) == old(MinAfter(frame, vertical, true))
      ensures parent.w == AtLeast(old(parent.w), Min(parent.shape, false))
      ensures parent.h == AtLeast(old(parent.h), Min(parent.shape, true))
      ensures old(Tidy()) ==> (Tidy() <==> old(HasRoom(frame, vertical)))
    {
      hide Tree, Update, Frame.Tiles, Nodes, Panes, Distinct, Annotated, Built, At, Tiled, LaidOutEvenly, PlacedBelow;
      hide Tidy, IndexOf, Min, ShapeOf, Bushy, HoldsPane, Beside, WithPartAt, Replaces;
      ghost var part;
      var child;
      ghost var nodes := TidyAll();
      parent, child, part := SplitParent(frame, vertical);
      assert parent in nodes;
      ghost var k;
      added, k := EnterBeside(parent, child, before, window, part);
      BushySplit(old(plan), parent, part, k, PaneOf(added, window));
      MinOfPanes(vertical);
    }

    /** A new window comes into a frame, just before or behind one that is there. */
    method EnterBeside(parent: Frame, child: Frame, before: bool, window: Window, ghost part: Plan)
      returns (added: Frame, ghost place: nat)
      requires Valid() && parent in Nodes(plan) && window !in Panes(plan) && child in parent.frames
      requires part == At(plan, parent) && part.SplitOf? && |part.parts| == |parent.frames| && HoldsPane(part, child)
      modifies this, Nodes(plan), Panes(plan), window
      ensures Valid() && Tree(Nodes(plan)) && root == old(root) && parent in Nodes(plan)
      ensures fresh(added) && Nodes(plan) == old(Nodes(plan)) + {added} && Panes(plan) == old(Panes(plan)) + {window}
      ensures added.parent == parent && added.window == window
      ensures parent.vertical == old(parent.vertical) && parent.right == old(parent.right) && parent.equalSize
      ensures forall g <- old(Nodes(plan)) :: g != parent ==> g.equalSize == old(g.equalSize)
      ensures Beside(old(parent.frames), parent.frames, child, added, before)
      ensures old(|parent.frames|) == 1 ==> PairedWith(parent, added, before, old(child.window))
      ensures forall g <- old(Nodes(plan)) :: g.window == old(g.window)
      ensures Around(plan, parent) == old(Around(plan, parent))
      ensures forall g <- Around(plan, parent) :: g.w == old(g.w) && g.h == old(g.h)
      ensures place <= |part.parts| && plan == Update(old(plan), parent, WithPartAt(part, place, PaneOf(added, window)))
      ensures LaidOutEvenly(parent, Nodes(plan)) && PlacedBelow(root, Nodes(plan))
      ensures var s := ShapeOf(part);
        && Min(parent.shape, false) == Min(s, false) + (if part.vertical then 0 else WINDOW_MIN_WIDTH + 1)
        && Min(parent.shape, true) == Min(s, true) + (if part.vertical then WINDOW_MIN_HEIGHT else 0)
      ensures parent.w == AtLeast(old(parent.w), Min(parent.shape, false))
      ensures parent.h == AtLeast(old(parent.h), Min(parent.shape, true))
      ensures old(forall g <- Around(plan, parent) :: g.Tiles()) ==>
        (Tidy() <==> parent == root || (parent.w == old(parent.w) && parent.h == old(parent.h)))
    {
      hide Tree, Update, Frame.Tiles, Nodes, Panes, Distinct, Annotated, Built, At, Tiled, LaidOutEvenly, PlacedBelow;
      hide Tidy, IndexOf, Min, ShapeOf, HoldsPane, Beside, WithPartAt, Replaces;
      ghost var nodes := StartChange(parent);
      Contains(parent, child);
      var k := IndexOf(parent.frames, child) + if before then 0 else 1;
      added := Enter(parent, window, k, part);
      place := k;
      BesideAt(old(parent.frames), child, added, before);
      NewMin(part, child, k, PaneOf(added, window));
    }

    /** Gives the whole screen a size. */
    method Resize(width: int, height: int)
      requires Valid()
      modifies Nodes(plan)`w, Nodes(plan)`h, Nodes(plan)`x, Nodes(plan)`y, Panes(plan)
      ensures Valid() && Tree(Nodes(plan)) && LaidOutEvenly(root, Nodes(plan))
      ensures PlacedBelow(root, Nodes(plan)) && Tidy()
      ensures root.w == AtLeast(width, Min(root.shape, false)) && root.h == AtLeast(height, Min(root.shape, true))
      ensures root.FixedFrom(old(Along(root.frames, root.vertical)))
    {
      hide Tree, Nodes, Panes, Distinct, At, Built, Annotated, Tiled, PlacedBelow, Min, AllEven, Frame.FixedFrom, Along;
      OnScreen(root);
      FrameSetSize(root, width, height, Nodes(plan));
      UpdateFrameCoordinates(root, 0, 0, Nodes(plan));
    }

    /** Puts everything into a new root, with a new window beside it. */
    method SplitRoot(vertical: bool, before: bool, window: Window) returns (added: Frame)
      requires Valid() && Bushy(plan) && window !in Panes(plan)
      modifies this, Nodes(plan), Panes(plan), window
      ensures Valid() && Bushy(plan) && Tree(Nodes(plan)) && fresh(root) && fresh(added) && root.vertical == vertical
      ensures Nodes(plan) == old(Nodes(plan)) + {root, added} && Panes(plan) == old(Panes(plan)) + {window}
      ensures added.window == window && root.frames == if before then [added, old(root)] else [old(root), added]
      ensures forall g <- old(Nodes(plan)) :: g.window == old(g.window)
      ensures LaidOutEvenly(root, Nodes(plan)) && PlacedBelow(root, Nodes(plan)) && Tidy() && root.equalSize
      ensures root.w == AtLeast(old(root.w), Min(root.shape, false))
      ensures root.h == AtLeast(old(root.h), Min(root.shape, true))
    {
      hide Tree, Nodes, Panes, Distinct, At, Annotated, Tiled, PlacedBelow, Min;
      ghost var nodes := StartChange(root);
      var w, h := root.w, root.h;
      added := NewRoot(vertical, before, window);
      Resize(w, h);
    }

    /** Two new frames, one of which holds the old root and the other. */
    method RootFrames(vertical: bool, before: bool, window: Window) returns (top: Frame, added: Frame)
      modifies root`parent
      ensures fresh(top) && fresh(added) && top != added && top.parent == null && root.parent == top
      ensures added.parent == top && added.window == window && added.frames == []
      ensures top.window == null && top.vertical == vertical && top.equalSize
      ensures top.frames == if before then [added, root] else [root, added]
    {
      hide Tree;
      top := new Frame.Root(window);
      added := new Frame.Child(top, window);
      top.window := null;
      top.vertical := vertical;
      top.frames := if before then [added, root] else [root, added];
      root.parent := top;
    }

    method NewRoot(vertical: bool, before: bool, window: Window) returns (added: Frame)
      requires Valid() && Bushy(plan) && window !in Panes(plan)
      modifies this, root`parent
      modifies Nodes(plan)`shape, Nodes(plan)`below, Nodes(plan)`panes, Nodes(plan)`right, Nodes(plan)`depth
      ensures Valid() && Bushy(plan) && fresh(root) && root.vertical == vertical && root.equalSize
      ensures Nodes(plan) == old(Nodes(plan)) + {root, added} && Panes(plan) == old(Panes(plan)) + {window}
      ensures fresh(added) && added.window == window
      ensures root.frames == if before then [added, old(root)] else [old(root), added]
    {
      hide Tree, Nodes, Panes, At, Annotated, Distinct, Bushy, RightIn, BuiltBut;
      ghost var nodes := StartChange(root);
      ghost var p := plan;
      KeepsParts(p);
      var newRoot;
      newRoot, added := RootFrames(vertical, before, window);
      ghost var k := if before then 0 else 1;
      PairSets(p, k, added, window, newRoot);
      assert Built(p, newRoot) && Built(PaneOf(added, window), newRoot);
      plan := WithPartAt(SplitOf(newRoot, vertical, [p]), k, PaneOf(added, window));
      root := newRoot;
      BuiltPair(p, k, added, window, newRoot);
      BushyPair(p, k, added, window, newRoot);
      Annotate(plan, true, 0);
    }

    /** On a tidy screen every cell belongs to exactly one window's frame, and no other cell to any. */
    lemma EveryCell(px: int, py: int)
      requires Valid() && Tidy() && Tree(Nodes(plan)) && PlacedBelow(root, Nodes(plan))
      ensures root.Has(px, py) <==> exists g <- Nodes(plan) :: g.window != null && g.Has(px, py)
      ensures forall g, h <- Nodes(plan) ::
        g in Nodes(plan) && g.window != null && g.Has(px, py) && h.window != null && h.Has(px, py) ==> g == h
    {
      hide Tree, PlacedBelow, Tiled, Built, Annotated, Distinct, Nodes;
      OnScreen(root);
      if root.Has(px, py) {
        var owner := CellHasOwner(root, Nodes(plan), px, py);
      }
      forall g, h | g in Nodes(plan) && h in Nodes(plan)
          && g.window != null && g.Has(px, py) && h.window != null && h.Has(px, py)
        ensures g == h && root.Has(px, py)
      {
        CellHasOneOwner(root, Nodes(plan), px, py, g, h);
      }
    }

    /** A frame, and everything in it, is taken out of its parent. */
    method TakeOut(u: Frame, k: nat, ghost part: Plan)
      requires Valid() && u in Nodes(plan) && part == At(plan, u) && part.SplitOf?
      requires k < |u.frames| == |part.parts| && |part.parts| > 1
      requires NeedsNoMore(ShapeOf(part), ShapeOf(WithoutPart(part, k)))
      modifies `plan, u`frames
      modifies Nodes(plan)`shape, Nodes(plan)`below, Nodes(plan)`panes, Nodes(plan)`right, Nodes(plan)`depth
      ensures Valid() && u in Nodes(plan)
      ensures Nodes(plan) == old(Nodes(plan)) - Nodes(part.parts[k])
      ensures Panes(plan) == old(Panes(plan)) - Panes(part.parts[k])
      ensures u.frames == old(u.frames)[..k] + old(u.frames)[k + 1..]
      ensures At(plan, u) == WithoutPart(part, k) && plan == Update(old(plan), u, WithoutPart(part, k))
      ensures Replaces(old(plan), u, WithoutPart(part, k)) && Eased(old(plan), plan, Around(plan, u))
      ensures Around(plan, u) == old(Around(plan, u))
      ensures forall g <- Around(plan, u) :: g.Tiles() == old(g.Tiles())
    {
      hide Tree, Update, Frame.Tiles, Nodes, Panes, Distinct, At, BuiltBut, Annotated, RightIn, Replaces;
      hide Min, ShapeOf, Eased;
      ghost var p := plan;
      ghost var nodes := StartChange(u);
      u.frames := u.frames[..k] + u.frames[k + 1..];
      ghost var q := WithoutPart(part, k);
      TakenReplaces(p, u, k);
      UpdateEases(p, u, q);
      forall i | 0 <= i < |q.parts| ensures u.frames[i] == q.parts[i].frame && Built(q.parts[i], u) {
        var j := if i < k then i else i + 1;
        assert q.parts[i] == part.parts[j];
        PartNodes(part, j);
      }
      assert u !in Around(p, u) && BuiltBut(p, null, u);
      Adopt(p, u, q);
    }

    /** The only frame in the root takes its place. */
    method CollapseRoot(c: Frame, ghost part: Plan)
      requires Valid() && plan.SplitOf? && root.frames == [c] && plan.parts == [part] && c !in c.frames
      modifies `root, `plan, c`parent, c`w, c`h
      modifies Nodes(plan)`shape, Nodes(plan)`below, Nodes(plan)`panes, Nodes(plan)`right, Nodes(plan)`depth
      ensures Valid() && root == c && plan == part && Nodes(plan) == old(Nodes(plan)) - {old(root)}
      ensures Panes(plan) == old(Panes(plan)) && c.parent == null && c.w == old(root.w) && c.h == old(root.h)
      ensures Along(c.frames, c.vertical) == old(Along(c.frames, c.vertical))
    {
      hide Tree, Nodes, Panes, Distinct, Annotated, Along;
      OnePart(plan, part);
      PartNodes(plan, 0);
      KeepsParts(part);
      assert plan.parts[0] == part && Built(part, root);
      c.w, c.h := root.w, root.h;
      c.parent := null;
      root, plan := c, part;
      Annotate(part, true, 0);
    }

    /** What is around the frame that is to go, and in it, stays as it is. */
    lemma StartCollapse(gp: Frame, idx: nat, u: Frame, part: Plan)
      requires Valid() && gp in Nodes(plan) && idx < |gp.frames| && gp.frames[idx] == u && u in Nodes(plan)
      requires At(plan, u).SplitOf? && At(plan, u).parts == [part]
      requires At(plan, gp).SplitOf? && |At(plan, gp).parts| == |gp.frames| && At(plan, gp).parts[idx] == At(plan, u)
      ensures var a := At(plan, gp);
        && (forall i :: 0 <= i < |a.parts| ==>
              && Built(a.parts[i], gp) && gp.frames[i] == a.parts[i].frame && gp !in Nodes(a.parts[i])
              && (i != idx ==> Nodes(a.parts[i]) !! Nodes(part) && u !in Nodes(a.parts[i])))
        && Built(part, u) && part.frame in Nodes(part) && part.frame != gp && u.frames == [part.frame]
      ensures part.SplitOf? ==> forall i :: 0 <= i < |part.parts| ==>
        part.frame !in Nodes(part.parts[i]) && Nodes(part.parts[i]) <= Nodes(part)
      ensures gp !in Around(plan, gp) && part.frame !in Around(plan, gp) && BuiltBut(plan, null, gp)
    {
      hide Tree, Nodes, Panes, Distinct, At, BuiltBut, Annotated;
      var a := At(plan, gp);
      var nodes := StartChange(gp);
      AtIsBuilt(plan, null, gp);
      PartNodes(a, idx);
      PartNodes(a.parts[idx], 0);
      KeepsParts(part);
      assert a.parts[idx].parts[0] == part && Built(a.parts[idx], gp) && Built(part, u);
      forall i | 0 <= i < |a.parts|
        ensures gp !in Nodes(a.parts[i])
        ensures i != idx ==> Nodes(a.parts[i]) !! Nodes(part) && u !in Nodes(a.parts[i])
      {
        PartNodes(a, i);
      }
    }

    /** The only frame in a frame takes its place in the parent. */
    method CollapseInto(u: Frame, c: Frame, ghost part: Plan, ghost a: Plan)
      requires Valid() && u in Nodes(plan) && At(plan, u).SplitOf? && At(plan, u).parts == [part] && u.frames == [c]
      requires u.parent != null && u.parent in Nodes(plan) && a == At(plan, u.parent) && u in u.parent.frames
      requires c !in c.frames
      modifies `plan, c`parent, c`w, c`h, u.parent`frames
      modifies Nodes(plan)`shape, Nodes(plan)`below, Nodes(plan)`panes, Nodes(plan)`right, Nodes(plan)`depth
      ensures Valid() && c in Nodes(plan) && Nodes(plan) == old(Nodes(plan)) - {u} && Panes(plan) == old(Panes(plan))
      ensures At(plan, c) == part && Around(plan, c) == old(Around(plan, u))
      ensures c.parent == u.parent == old(u.parent) && c.w == u.w && c.h == u.h
      ensures forall g <- Around(plan, c) :: g.right == old(g.right)
      ensures u.parent.frames == old(u.parent.frames)[IndexOf(old(u.parent.frames), u) := c]
      ensures var k := IndexOf(old(u.parent.frames), u);
        && a.SplitOf? && k < |a.parts| && a.parts[k] == old(At(plan, u))
        && plan == Update(old(plan), u.parent, WithPart(a, k, part))
      ensures Along(c.frames, c.vertical) == old(Along(c.frames, c.vertical))
      ensures Eased(old(plan), plan, Around(plan, c))
    {
      hide Tree, Update, Frame.Tiles, Nodes, Panes, Distinct, At, BuiltBut, Annotated, RightIn, Replaces, IndexOf;
      hide Along;
      ghost var p := plan;
      var gp := u.parent;
      var idx := IndexOf(gp.frames, u);
      ghost var nodes := StartChange(gp);
      forall g | g in nodes ensures g.right == RightIn(p, true, g) {
        RightIsRightIn(p, true, 0, g);
      }
      StartPlace(gp, idx, u);
      CollapseReplaces(p, gp, idx, u, part);
      StartCollapse(gp, idx, u, part);
      CollapseEases(p, gp, idx, u, part);
      c.w, c.h := u.w, u.h;
      c.parent := gp;
      gp.frames := gp.frames[idx := c];
      ghost var q := WithPart(a, idx, part);
      forall i | 0 <= i < |q.parts| ensures gp.frames[i] == q.parts[i].frame && Built(q.parts[i], gp) {
        if i != idx {
          assert q.parts[i] == a.parts[i];
        } else {
          assert Built(part, gp);
        }
      }
      Adopt(p, gp, q);
      forall g | g in Around(p, u) ensures g.right == old(g.right) {
        WithPartRight(p, true, gp, idx, part, g);
        RightIsRightIn(plan, true, 0, g);
      }
    }

    /** The only frame in a frame takes its place; what was filled around it stays filled. */
    method Collapse(u: Frame, c: Frame, ghost part: Plan, ghost before: Plan)
      requires Valid() && u in Nodes(plan) && At(plan, u).SplitOf? && At(plan, u).parts == [part] && u.frames == [c]
      requires Lonely(before, u, At(plan, u)) && plan == Update(before, u, At(plan, u)) && Bushy(part)
      requires u.parent != null ==> u.parent in Nodes(before) && u in Nodes(At(before, u.parent))
      modifies this, Nodes(plan)
      ensures Bushy(plan)
      ensures Valid() && c in Nodes(plan) && Nodes(plan) == old(Nodes(plan)) - {u} && Panes(plan) == old(Panes(plan))
      ensures At(plan, c) == part && Around(plan, c) == old(Around(plan, u))
      ensures c.parent == old(u.parent) && c.w == old(u.w) && c.h == old(u.h)
      ensures forall g <- Around(plan, c) :: old(g.Tiles()) ==> g.Tiles()
      ensures forall g <- Nodes(plan) :: g.window == old(g.window)
      ensures forall g <- Around(plan, c) :: g.w == old(g.w) && g.h == old(g.h)
      ensures Along(c.frames, c.vertical) == old(Along(c.frames, c.vertical))
      ensures Eased(old(plan), plan, Around(plan, c))
    {
      hide Tree, Frame.Tiles, Nodes, Panes, Distinct, At, Built, Annotated, Along;
      OnScreen(u);
      Contains(u, c);
      OnScreen(c);
      if u.parent == null {
        RootPart();
        CollapseRoot(c, part);
        RootPart();
      } else {
        CollapseTiled(u, c, part, before);
      }
    }

    method CollapseTiled(u: Frame, c: Frame, ghost part: Plan, ghost before: Plan)
      requires Valid() && u in Nodes(plan) && At(plan, u).SplitOf? && At(plan, u).parts == [part] && u.frames == [c]
      requires Lonely(before, u, At(plan, u)) && plan == Update(before, u, At(plan, u)) && Bushy(part)
      requires u.parent != null && u.parent in Nodes(before) && u in Nodes(At(before, u.parent))
      ensures Bushy(plan)
      modifies this, Nodes(plan)
      ensures Valid() && c in Nodes(plan) && Nodes(plan) == old(Nodes(plan)) - {u} && Panes(plan) == old(Panes(plan))
      ensures At(plan, c) == part && Around(plan, c) == old(Around(plan, u))
      ensures c.parent == old(u.parent) && c.w == old(u.w) && c.h == old(u.h)
      ensures forall g <- Around(plan, c) :: old(g.Tiles()) ==> g.Tiles()
      ensures forall g <- Nodes(plan) :: g.window == old(g.window)
      ensures forall g <- Around(plan, c) :: g.w == old(g.w) && g.h == old(g.h)
      ensures Along(c.frames, c.vertical) == old(Along(c.frames, c.vertical))
      ensures Eased(old(plan), plan, Around(plan, c))
    {
      hide Tree, Frame.Tiles, Nodes, Panes, Distinct, At, Built, Annotated, IndexOf, Along, Sum;
      hide Update, Lonely, Eased, Bushy;
      OnScreen(u);
      Contains(u, c);
      OnScreen(c);
      var gp := u.parent;
      AllOuter(u);
      ghost var filled, a, k := gp.Tiles(), Along(gp.frames, gp.vertical), IndexOf(gp.frames, u);
      if filled {
        FilledParent(u, k);
      }
      CollapseBushy(u, c, part, before);
      if filled {
        StillFilled(gp, a);
      }
      forall g | g in Around(plan, c) && old(g.Tiles()) ensures g.Tiles() {
        assert old(Outer(u, g));
      }
    }

    method CollapseBushy(u: Frame, c: Frame, ghost part: Plan, ghost before: Plan)
      requires Valid() && u in Nodes(plan) && At(plan, u).SplitOf? && At(plan, u).parts == [part] && u.frames == [c]
      requires Lonely(before, u, At(plan, u)) && plan == Update(before, u, At(plan, u)) && Bushy(part)
      requires u.parent != null && u.parent in Nodes(before) && u in Nodes(At(before, u.parent))
      requires u.parent in Nodes(plan) && u in u.parent.frames && c !in c.frames
      modifies `plan, c`parent, c`w, c`h, u.parent`frames
      modifies Nodes(plan)`shape, Nodes(plan)`below, Nodes(plan)`panes, Nodes(plan)`right, Nodes(plan)`depth
      ensures Valid() && c in Nodes(plan) && Nodes(plan) == old(Nodes(plan)) - {u} && Panes(plan) == old(Panes(plan))
      ensures At(plan, c) == part && Around(plan, c) == old(Around(plan, u)) && Bushy(plan)
      ensures c.parent == u.parent == old(u.parent) && c.w == u.w && c.h == u.h
      ensures forall g <- Around(plan, c) :: g.right == old(g.right)
      ensures u.parent.frames == old(u.parent.frames)[IndexOf(old(u.parent.frames), u) := c]
      ensures Along(c.frames, c.vertical) == old(Along(c.frames, c.vertical))
      ensures Eased(old(plan), plan, Around(plan, c))
    {
      hide Tree, Frame.Tiles, Nodes, Panes, Distinct, At, Built, Annotated, IndexOf, Along, Sum;
      hide Update, Lonely, Eased, Bushy;
      var gp := u.parent;
      ghost var k := IndexOf(gp.frames, u);
      StartPlace(gp, k, u);
      BushyCollapse(before, u, At(plan, u), gp, k, part);
      CollapseInto(u, c, part, At(plan, gp));
    }

    lemma RootPart()
      requires Valid()
      ensures At(plan, root) == plan && Around(plan, root) == {}
    {
    }

    lemma StillFilled(gp: Frame, a: seq<int>)
      requires gp.window == null && gp.w > 0 && gp.h > 0 && |a| == |gp.frames| && Sum(a) == Room(gp)
      requires forall i :: 0 <= i < |a| ==>
        GetSize(gp.frames[i], gp.vertical) == a[i] && GetSize(gp.frames[i], !gp.vertical) == GetSize(gp, !gp.vertical)
      ensures gp.Tiles()
    {
      assert Along(gp.frames, gp.vertical) == a;
    }

    /** Which part of its parent a frame is. */
    lemma StartPlace(gp: Frame, idx: nat, u: Frame)
      requires Valid() && gp in Nodes(plan) && idx < |gp.frames| && gp.frames[idx] == u
      ensures gp.window == null && u in Nodes(plan) && u.parent == gp
      ensures At(plan, gp).SplitOf? && |At(plan, gp).parts| == |gp.frames| && At(plan, gp).parts[idx] == At(plan, u)
    {
      AtIsBuilt(plan, null, gp);
      var a := At(plan, gp);
      PartNodes(a, idx);
      AtAt(plan, gp, u);
      AtPart(a, idx, u);
    }

    /** What is known before a frame is taken out. */
    lemma StartShrink(frame: Frame, k: nat) returns (part: Plan, nodes: set<Frame>)
      requires Valid() && Bushy(plan) && frame in Nodes(plan) && frame.parent in Nodes(plan)
      requires frame in frame.parent.frames && k == IndexOf(frame.parent.frames, frame)
      ensures nodes == Nodes(plan)
      ensures var u := frame.parent; var q := if part.SplitOf? && k < |part.parts| then WithoutPart(part, k) else part;
        && part == At(plan, u) && part.SplitOf? && frame in u.frames
        && k < |u.frames| == |part.parts| && |part.parts| > 1
        && Nodes(part.parts[k]) == frame.below && Panes(part.parts[k]) == frame.panes
        && NeedsNoMore(ShapeOf(part), ShapeOf(q))
        && Left(frame) == ShapeOf(if |part.parts| == 2 then q.parts[0] else q)
        && (if |part.parts| > 2 then Bushy(Update(plan, u, q)) else Bushy(q.parts[0]))
        && (u.parent != null ==> u.parent in Nodes(plan) && u in Nodes(At(plan, u.parent)))
        && SizesLeft(frame) ==
             if |u.frames| == 2 then Along(u.frames[1 - k].frames, u.frames[1 - k].vertical)
             else Along(Others(u.frames, k), u.vertical)
    {
      hide Tree, Frame.Tiles, Nodes, Panes, Distinct, At, Built, Annotated, IndexOf, Min, ShapeOf;
      hide Along, SizesLeft, Left, NeedsNoMore;
      OnScreen(frame);
      var parent := frame.parent;
      StartPlace(parent, k, frame);
      part, nodes := At(plan, parent), Nodes(plan);
      ShapeAt(parent);
      LeftIs(frame, k);
      BushyAt(plan, parent);
      BushyWithoutPart(part, k);
      LeftNeedsNoMore(part, k);
      OnScreen(parent);
      if parent.parent != null {
        var j := ParentOf(plan, null, parent);
        PartNodes(At(plan, parent.parent), j);
      }
      if |part.parts| > 2 {
        BushyUpdate(plan, parent, WithoutPart(part, k));
      }
    }

    /**
     * Takes a frame out, and what is in it; a frame that is left alone in its
     * parent takes the place of the parent.
     */
    method Shrink(frame: Frame) returns (top: Frame)
      requires Valid() && Bushy(plan) && frame in Nodes(plan) && frame.parent in Nodes(plan)
      modifies this, Nodes(plan)
      ensures Bushy(plan)
      ensures Valid() && top in Nodes(plan) && Panes(plan) == old(Panes(plan) - frame.panes)
      ensures Nodes(plan) == old(Nodes(plan) - frame.below - if |frame.parent.frames| == 2 then {frame.parent} else {})
      ensures top.parent == old(frame.parent.parent) && Around(plan, top) == old(Around(plan, frame.parent))
      ensures top.w == old(frame.parent.w) && top.h == old(frame.parent.h)
      ensures top.shape == old(Left(frame)) && Eased(old(plan), plan, Around(plan, top))
      ensures Along(top.frames, top.vertical) == old(SizesLeft(frame))
      ensures forall g <- Around(plan, top) :: old(g.Tiles()) ==> g.Tiles()
      ensures forall g <- Nodes(plan) :: g.window == old(g.window)
      ensures forall g <- Around(plan, top) :: g.w == old(g.w) && g.h == old(g.h)
    {
      hide Tree, Frame.Tiles, Nodes, Panes, Distinct, At, Built, Annotated, IndexOf, Min, ShapeOf;
      hide Along, SizesLeft, Left, Eased, NeedsNoMore, Bushy, ShapeLeft;
      var parent := frame.parent;
      PlaceInParent(frame);
      var k := IndexOf(parent.frames, frame);
      ghost var part, nodes := StartShrink(frame, k);
      ghost var start, around := plan, Around(plan, parent);
      TakeOut(parent, k, part);
      ghost var taken := plan;
      top := parent;
      if |parent.frames| == 1 {
        top := parent.frames[0];
        Collapse(parent, top, WithoutPart(part, k).parts[0], old(plan));
        EasedTwice(start, taken, plan, around);
      }
      ShapeAt(top);
    }

    lemma AllShapes()
      requires Valid()
      ensures forall g <- Nodes(plan) :: g.shape == ShapeOf(At(plan, g))
    {
      forall g | g in Nodes(plan) ensures g.shape == ShapeOf(At(plan, g)) {
        ShapeAt(g);
      }
    }

    /** A frame is as large as it must be in some tree. */
    ghost predicate Ample(p: Plan, g: Frame)
      requires Distinct(p) && g in Nodes(p)
      reads g
    {
      g.w >= Min(ShapeOf(At(p, g)), false) && g.h >= Min(ShapeOf(At(p, g)), true)
    }

    lemma SpaciousBefore()
      requires Valid()
      ensures Spacious() <==> forall g <- Nodes(plan) :: Ample(plan, g)
    {
      hide Min, ShapeOf, Nodes, Distinct, Built, Annotated;
      AllShapes();
      forall g | g in Nodes(plan) ensures g.BigEnough() <==> Ample(plan, g) {
        assert g.shape == ShapeOf(At(plan, g));
      }
    }

    /** What is eased around a frame that is laid out is as large as it must be. */
    lemma SpaciousAfter(p: Plan, top: Frame)
      requires Valid() && top in Nodes(plan) && Eased(p, plan, Around(plan, top))
      requires forall g <- Around(plan, top) :: Ample(p, g)
      requires Tree(Nodes(plan)) && LaidOutEvenly(top, Nodes(plan))
      ensures Spacious()
    {
      hide Min, ShapeOf, Nodes, Distinct, Tree, Tiled, Valid;
      OnScreen(top);
      AllShapes();
      forall g | g in Nodes(plan) ensures g.BigEnough() {
        if g in Around(plan, top) {
          assert Ample(p, g);
          assert Min(g.shape, false) <= Min(ShapeOf(At(p, g)), false);
        } else {
          assert g in top.below;
        }
      }
    }

    /** What is left in the parent of a frame without it. */
    ghost function Left(frame: Frame): Shape
      requires Valid() && frame in Nodes(plan) && frame.parent != null
      reads this, Nodes(plan)
    {
      PlaceInParent(frame);
      ShapeLeft(frame.parent.shape, IndexOf(frame.parent.frames, frame))
    }

    /** The sizes of the frames that are left in it. */
    ghost function SizesLeft(frame: Frame): seq<int>
      requires Valid() && frame in Nodes(plan) && frame.parent != null
      reads this, Nodes(plan)
    {
      PlaceInParent(frame);
      var fs := frame.parent.frames;
      var k := IndexOf(fs, frame);
      if |fs| == 2 then
        OnScreen(fs[1 - k]);
        Along(fs[1 - k].frames, fs[1 - k].vertical)
      else Along(Others(fs, k), frame.parent.vertical)
    }

    lemma LeftIs(frame: Frame, k: nat)
      requires Valid() && frame in Nodes(plan) && frame.parent != null
      requires frame in frame.parent.frames && k == IndexOf(frame.parent.frames, frame)
      ensures frame.parent in Nodes(plan)
      ensures frame.parent.shape.Split? && k < |frame.parent.shape.parts|
      ensures Left(frame) == ShapeLeft(frame.parent.shape, k)
      ensures var fs, v := frame.parent.frames, frame.parent.vertical;
        SizesLeft(frame) ==
          if |fs| == 2 then Along(fs[1 - k].frames, fs[1 - k].vertical) else Along(Others(fs, k), v)
    {
      PlaceInParent(frame);
    }

    lemma PlaceInParent(frame: Frame)
      requires Valid() && frame in Nodes(plan) && frame.parent != null
      ensures frame.parent in Nodes(plan) && frame in frame.parent.frames
      ensures frame.parent.shape.Split? && |frame.parent.shape.parts| == |frame.parent.frames|
      ensures forall c <- frame.parent.frames :: c in Nodes(plan)
    {
      OnScreen(frame);
      Contains(frame.parent, frame);
      Inside(frame.parent, Nodes(plan));
    }

    /** The parent of a frame need not grow for what is left in it, or is the root. */
    ghost predicate FitsWithout(frame: Frame)
      requires Valid() && frame in Nodes(plan) && frame.parent != null
      reads this, Nodes(plan)
    {
      PlaceInParent(frame);
      || frame.parent == root
      || (frame.parent.w >= Min(Left(frame), false) && frame.parent.h >= Min(Left(frame), true))
    }

    lemma FitsMeans(frame: Frame)
      requires Valid() && frame in Nodes(plan) && frame.parent != null
      ensures frame.parent in Nodes(plan)
      ensures FitsWithout(frame) <==>
        || frame.parent.parent == null
        || (frame.parent.w >= Min(Left(frame), false) && frame.parent.h >= Min(Left(frame), true))
    {
      PlaceInParent(frame);
      OnScreen(frame.parent);
    }

    lemma FitsIfEnough(frame: Frame)
      requires Valid() && Bushy(plan) && frame in Nodes(plan) && frame.parent != null
      ensures frame.parent in Nodes(plan)
      ensures Spacious() || frame.parent.BigEnough() ==> FitsWithout(frame)
    {
      hide Tree, Nodes, Panes, Distinct, At, Built, Annotated, IndexOf, Min, ShapeOf;
      PlaceInParent(frame);
      var parent := frame.parent;
      var k := IndexOf(parent.frames, frame);
      StartPlace(parent, k, frame);
      ShapeAt(parent);
      BushyAt(plan, parent);
      LeftNeedsNoMore(At(plan, parent), k);
      forall height: bool ensures Min(Left(frame), height) <= Min(parent.shape, height) {
      }
    }

    /** Every frame on the screen has at least the size it needs. */
    ghost predicate Spacious()
      reads this, Nodes(plan)
    {
      forall g <- Nodes(plan) :: g.BigEnough()
    }

    lemma ShapeAt(f: Frame)
      requires Valid() && f in Nodes(plan)
      ensures f.shape == ShapeOf(At(plan, f))
    {
      AtIsAnnotated(plan, true, 0, f);
    }

    /** Takes a frame out and lays out what is left in its parent. */
    method TakeAway(frame: Frame) returns (top: Frame)
      requires Valid() && Bushy(plan) && frame in Nodes(plan) && frame.parent != null
      modifies this, Nodes(plan), Panes(plan)
      ensures Valid() && Bushy(plan) && Tree(Nodes(plan)) && top in Nodes(plan)
      ensures Panes(plan) == old(Panes(plan) - frame.panes)
      ensures Nodes(plan) == old(Nodes(plan) - frame.below - if |frame.parent.frames| == 2 then {frame.parent} else {})
      ensures LaidOutEvenly(top, Nodes(plan)) && PlacedBelow(root, Nodes(plan))
      ensures forall g <- Nodes(plan) :: g.window == old(g.window)
      ensures forall g <- Around(plan, top) :: g.w == old(g.w) && g.h == old(g.h)
      ensures top.shape == old(Left(frame)) && top.FixedFrom(old(SizesLeft(frame)))
      ensures top.w == AtLeast(old(frame.parent.w), Min(top.shape, false))
      ensures top.h == AtLeast(old(frame.parent.h), Min(top.shape, true))
      ensures old(Tidy()) ==> (Tidy() <==> old(FitsWithout(frame)))
      ensures Eased(old(plan), plan, Around(plan, top))
    {
      hide Tree, Frame.Tiles, Nodes, Panes, Distinct, At, Built, Annotated, Tiled;
      hide LaidOutEvenly, PlacedBelow, Tidy, Min;
      hide FitsWithout, Left, Eased, Bushy;
      ghost var nodes := TidyAll();
      OnScreen(frame);
      FitsMeans(frame);
      top := Shrink(frame);
      SettleIn(top);
      OnScreen(top);
    }

    /**
     * Removes a frame. What is left in its parent is laid out in the same
     * room, which is always enough if it was enough before.
     */
    method Remove(frame: Frame) returns (top: Frame)
      requires Valid() && Bushy(plan) && frame in Nodes(plan) && frame.parent != null
      modifies this, Nodes(plan), Panes(plan)
      ensures Valid() && Bushy(plan) && Tree(Nodes(plan)) && top in Nodes(plan)
      ensures Panes(plan) == old(Panes(plan) - frame.panes)
      ensures Nodes(plan) == old(Nodes(plan) - frame.below - if |frame.parent.frames| == 2 then {frame.parent} else {})
      ensures LaidOutEvenly(top, Nodes(plan)) && PlacedBelow(root, Nodes(plan))
      ensures forall g <- Nodes(plan) :: g.window == old(g.window)
      ensures forall g <- Around(plan, top) :: g.w == old(g.w) && g.h == old(g.h)
      ensures top.shape == old(Left(frame)) && top.FixedFrom(old(SizesLeft(frame)))
      ensures top.w == AtLeast(old(frame.parent.w), Min(top.shape, false))
      ensures top.h == AtLeast(old(frame.parent.h), Min(top.shape, true))
      ensures old(Tidy()) ==> (Tidy() <==> old(FitsWithout(frame)))
      ensures old(Tidy() && frame.parent.BigEnough()) ==> Tidy()
      ensures old(Tidy() && Spacious()) ==> Tidy() && Spacious()
    {
      hide Tree, Frame.Tiles, Nodes, Panes, Distinct, At, Built, Annotated, Tiled;
      hide LaidOutEvenly, PlacedBelow, Tidy, Min;
      hide FitsWithout, Left, Spacious, Eased, Bushy;
      OnScreen(frame);
      SpaciousBefore();
      FitsIfEnough(frame);
      top := TakeAway(frame);
      if old(Tidy() && Spacious()) {
        EasedFrames(old(plan), plan, Around(plan, top));
        SpaciousAfter(old(plan), top);
      }
    }
  }

  ghost predicate HoldsPane(part: Plan, child: Frame) {
    part.SplitOf? && exists i :: 0 <= i < |part.parts| && part.parts[i].PaneOf? && part.parts[i].frame == child
  }

  lemma NewMin(part: Plan, child: Frame, k: nat, leaf: Plan)
    requires HoldsPane(part, child) && k <= |part.parts| && leaf.PaneOf?
    ensures var s, t := ShapeOf(part), ShapeOf(WithPartAt(part, k, leaf));
      && Min(t, false) == Min(s, false) + (if part.vertical then 0 else WINDOW_MIN_WIDTH + 1)
      && Min(t, true) == Min(s, true) + (if part.vertical then WINDOW_MIN_HEIGHT else 0)
  {
    hide Min, ShapeOf;
    var i :| 0 <= i < |part.parts| && part.parts[i].PaneOf? && part.parts[i].frame == child;
    OneMoreNeeds(part, i, k, leaf, false);
    OneMoreNeeds(part, i, k, leaf, true);
  }

  /** A frame with one window in it needs no more room than the window. */
  lemma MinOfPanes(vertical: bool)
    ensures Min(Split(vertical, [Pane]), false) == Min(Pane, false)
    ensures Min(Split(vertical, [Pane]), true) == Min(Pane, true)
  {
    forall height: bool ensures Min(Split(vertical, [Pane]), height) == Min(Pane, height) {
      MinOfSplit(Split(vertical, [Pane]), height);
      var m := Mins([Pane], height);
      assert m == [Min(Pane, height)] && m[..0] == [];
    }
  }

  /** A filled screen with a window of ten columns below another one. */
  ghost predicate HasTenColumns(s: Screen, frame: Frame)
    requires s.Valid()
    reads s, Nodes(s.plan), Panes(s.plan)
  {
    && Bushy(s.plan) && s.Tidy() && frame in Nodes(s.plan) && frame.window != null && frame.w == 10
    && frame.parent == s.root && s.root.vertical && frame != s.root
  }

  method TenColumns(a: Window, b: Window) returns (s: Screen, frame: Frame)
    requires a != b
    modifies a, b
    ensures fresh(s) && s.Valid() && HasTenColumns(s, frame) && Panes(s.plan) == {a, b} && fresh(Nodes(s.plan))
  {
    hide Tree, Nodes, Panes, Distinct, At, Built, Annotated, Tiled, Roomy, PlacedBelow, Min, Screen.Tidy, Bushy;
    s := new Screen(a);
    PaneSets(s.root, a);
    MinOfPane();
    s.Resize(10, 6);
    var top;
    frame, top := s.Split(s.root, true, false, b);
    s.OnScreen(frame);
    s.TidyAcross(frame);
  }

  /** Splitting that window side by side takes 17 columns, and the screen around it is not filled any more. */
  method TooNarrow(s: Screen, frame: Frame, window: Window) returns (added: Frame)
    requires s.Valid() && HasTenColumns(s, frame) && window !in Panes(s.plan)
    modifies s, Nodes(s.plan), Panes(s.plan), window
    ensures s.Valid() && !s.Tidy()
    ensures fresh(added) && added.window == window && added.parent == frame && frame.w == 17
  {
    hide Tree, Nodes, Panes, Distinct, At, Built, Annotated, Tiled, Roomy, PlacedBelow, Min, Screen.Tidy, Bushy;
    MinOfPane();
    var parent;
    added, parent := s.Split(frame, false, false, window);
  }

  /** A frame with a window, at most nine columns wide and not rightmost. */
  ghost predicate HasNarrow(s: Screen, frame: Frame)
    requires s.Valid()
    reads s, Nodes(s.plan), frame, frame.parent
  {
    && Bushy(s.plan) && frame in Nodes(s.plan) && frame.window != null && !frame.right && frame.w <= 9
    && frame.parent != null
  }

  /** Two windows side by side in 17 columns. */
  method NarrowColumn(a: Window, b: Window) returns (s: Screen, frame: Frame)
    requires a != b
    modifies a, b
    ensures fresh(s) && s.Valid() && HasNarrow(s, frame) && !frame.parent.vertical
    ensures Panes(s.plan) == {a, b} && fresh(Nodes(s.plan))
  {
    hide Tree, Nodes, Panes, Distinct, At, Built, Annotated, LaidOut, Roomy, PlacedBelow, Min, Screen.Tidy, Bushy;
    s := new Screen(a);
    PaneSets(s.root, a);
    MinOfPane();
    s.OnScreen(s.root);
    s.Resize(17, 6);
    var top;
    frame, top := s.Split(s.root, false, true, b);
    s.OnScreen(top);
    LeftOfTwo(top, Nodes(s.plan));
  }

  lemma LeftOfTwo(top: Frame, nodes: set<Frame>)
    requires Tree(nodes) && top in nodes && LaidOut(top, nodes) && !top.vertical && top.w == 17
    requires |top.frames| == 2 && top.frames[1].window != null
    ensures !top.frames[0].right && top.frames[0].w <= 9
  {
    hide Tree, Min, Sum;
    PartOf(top, 0, nodes);
    PaneInside(top, 1, nodes);
    var a := Filling(top, nodes);
    SumOfOneMore(a, 0);
    SumOfOneMore(a, 1);
    SumOfNone(a);
    assert a[..2] == a;
    var i := InParent(top.frames[0], nodes);
    assert top.frames[0] != top.frames[1] by {
      PartOf(top, 1, nodes);
    }
  }

  lemma PaneInside(top: Frame, i: nat, nodes: set<Frame>)
    requires Tree(nodes) && top in nodes && LaidOut(top, nodes) && i < |top.frames| && top.frames[i].window != null
    ensures top.window == null && top.frames[i].w >= WINDOW_MIN_WIDTH
  {
    hide Tree, Min;
    PartOf(top, i, nodes);
    Inside(top.frames[i], nodes);
    MinOfPane();
    assert top.frames[i].BigEnough();
  }

  /** That window split, one above the other. */
  method NarrowRow(s: Screen, left: Frame, window: Window) returns (frame: Frame)
    requires s.Valid() && HasNarrow(s, left) && !left.parent.vertical && window !in Panes(s.plan)
    modifies s, Nodes(s.plan), Panes(s.plan), window
    ensures s.Valid() && HasNarrow(s, frame) && frame.parent.vertical
    ensures Panes(s.plan) == old(Panes(s.plan)) + {window}
    ensures forall g :: g in Nodes(s.plan) ==> g in old(Nodes(s.plan)) || fresh(g)
  {
    hide Tree, Nodes, Panes, Distinct, At, Built, Annotated, LaidOut, Roomy, PlacedBelow, Min, Screen.Tidy, Bushy;
    MinOfPane();
    var top;
    frame, top := s.Split(left, true, false, window);
    s.OnScreen(frame);
    LowerOfTwo(top, frame, Nodes(s.plan));
  }

  lemma LowerOfTwo(top: Frame, frame: Frame, nodes: set<Frame>)
    requires Tree(nodes) && top in nodes && LaidOut(top, nodes) && frame in nodes && frame.parent == top
    requires top.vertical && !top.right
    ensures !frame.right && frame.w == top.w
  {
    hide Tree, Min, Sum;
    var i := InParent(frame, nodes);
    var a := Filling(top, nodes);
  }

  /** A window of seven columns: two windows side by side in the room of one that is not rightmost. */
  method SevenColumnsWide(a: Window, b: Window, c: Window, d: Window) returns (s: Screen, frame: Frame)
    requires |{a, b, c, d}| == 4
    modifies a, b, c, d
    ensures fresh(s) && s.Valid() && Panes(s.plan) == {a, b, c, d}
    ensures frame in Nodes(s.plan) && frame.window != null && frame.window.w == WINDOW_MIN_WIDTH - 1
  {
    hide Tree, Nodes, Panes, Distinct, At, Built, Annotated, LaidOut, Roomy, PlacedBelow, Min, Screen.Tidy, Bushy;
    var left, lower, added, top;
    s, left := NarrowColumn(a, b);
    lower := NarrowRow(s, left, c);
    MinOfPane();
    added, top := s.Split(lower, false, false, d);
    PaneInside(top, 0, Nodes(s.plan));
    SevenColumns(top, Nodes(s.plan));
    var i :| 0 <= i < 2 && top.frames[i].window.w == WINDOW_MIN_WIDTH - 1;
    frame := top.frames[i];
    s.Contains(top, frame);
  }

  lemma CollapseReplaces(p: Plan, gp: Frame, idx: nat, u: Frame, c: Plan)
    requires Distinct(p) && gp in Nodes(p) && u in Nodes(p) && At(p, gp).SplitOf? && idx < |At(p, gp).parts|
    requires At(p, gp).parts[idx] == At(p, u) && At(p, u).SplitOf? && At(p, u).parts == [c]
    ensures var a := At(p, gp); var q := WithPart(a, idx, c);
      && Replaces(p, gp, q) && Nodes(q) <= Nodes(p) && Nodes(c) <= Nodes(a.parts[idx]) <= Nodes(a)
      && Nodes(Update(p, gp, q)) == Nodes(p) - {u} && Panes(Update(p, gp, q)) == Panes(p)
      && Distinct(Update(p, gp, q)) && c.frame in Nodes(Update(p, gp, q))
      && At(Update(p, gp, q), c.frame) == c && Around(Update(p, gp, q), c.frame) == Around(p, u)
  {
    hide Nodes, Panes;
    var a := At(p, gp);
    var q := WithPart(a, idx, c);
    OnlyPart(p, u, c);
    PartNodes(a, idx);
    PartNodesChange(a, idx, c);
    PartStaysDistinct(a, idx, c);
    UpdateNodes(p, gp, q);
    AtUpdated(p, gp, q);
    AtAt(Update(p, gp, q), gp, c.frame);
    AtPart(q, idx, c.frame);
  }

  lemma CollapseEases(p: Plan, gp: Frame, idx: nat, u: Frame, c: Plan)
    requires Distinct(p) && gp in Nodes(p) && u in Nodes(p) && At(p, gp).SplitOf? && idx < |At(p, gp).parts|
    requires At(p, gp).parts[idx] == At(p, u) && At(p, u).SplitOf? && At(p, u).parts == [c]
    requires Replaces(p, gp, WithPart(At(p, gp), idx, c))
    ensures Eased(p, Update(p, gp, WithPart(At(p, gp), idx, c)), Around(p, u))
  {
    hide Nodes, Panes, Distinct, Update, Replaces, Min, ShapeOf;
    forall height | true ensures Min(ShapeOf(c), height) <= Min(ShapeOf(At(p, u)), height) {
      PartNeedsLess(At(p, u), 0, height);
    }
    WithPartEases(p, gp, idx, c, Around(p, u));
  }

  lemma PairSets(p: Plan, k: nat, added: Frame, window: Window, top: Frame)
    requires k <= 1 && Distinct(p) && added !in Nodes(p) && top !in Nodes(p) && top != added && window !in Panes(p)
    ensures var q := WithPartAt(SplitOf(top, top.vertical, [p]), k, PaneOf(added, window));
      Distinct(q) && Nodes(q) == Nodes(p) + {top, added} && Panes(q) == Panes(p) + {window}
  {
    hide Nodes, Panes, Distinct;
    var one := SplitOf(top, top.vertical, [p]);
    OnePart(one, p);
    PaneSets(added, window);
    PaneIsDistinct(added, window);
    InsertedPart(one, k, PaneOf(added, window));
  }

  lemma BuiltPair(p: Plan, k: nat, added: Frame, window: Window, top: Frame)
    requires k <= 1 && Built(p, top) && Built(PaneOf(added, window), top) && top.parent == null
    requires top.window == null && top.frames == if k == 0 then [added, p.frame] else [p.frame, added]
    ensures Built(WithPartAt(SplitOf(top, top.vertical, [p]), k, PaneOf(added, window)), null)
  {
    var q := WithPartAt(SplitOf(top, top.vertical, [p]), k, PaneOf(added, window));
    assert q.parts == if k == 0 then [PaneOf(added, window), p] else [p, PaneOf(added, window)];
  }

  lemma BushyPair(p: Plan, k: nat, added: Frame, window: Window, top: Frame)
    requires k <= 1 && Bushy(p)
    ensures Bushy(WithPartAt(SplitOf(top, top.vertical, [p]), k, PaneOf(added, window)))
  {
    var q := WithPartAt(SplitOf(top, top.vertical, [p]), k, PaneOf(added, window));
    assert q.parts == if k == 0 then [PaneOf(added, window), p] else [p, PaneOf(added, window)];
  }

  /** A tree in which one frame has lost all parts but one. */
  ghost predicate Lonely(p: Plan, u: Frame, q: Plan) {
    && Distinct(p) && Bushy(p) && u in Nodes(p) && Replaces(p, u, q)
    && q.SplitOf? && |q.parts| == 1 && Bushy(q.parts[0])
  }

  /** It is as it should be again when that part has taken the place of the frame. */
  lemma BushyCollapse(p: Plan, u: Frame, q: Plan, gp: Frame, k: nat, c: Plan)
    requires Lonely(p, u, q) && q.parts == [c] && gp in Nodes(p) && gp != u && u in Nodes(At(p, gp))
    requires var r := Update(p, u, q);
      Distinct(r) && gp in Nodes(r) && At(r, gp).SplitOf? && k < |At(r, gp).parts| && At(r, gp).parts[k].frame == u
    ensures Bushy(Update(Update(p, u, q), gp, WithPart(At(Update(p, u, q), gp), k, c)))
  {
    hide Nodes, Panes, Distinct;
    var r := Update(p, u, q);
    var a, b := At(p, gp), At(r, gp);
    var x := WithPart(b, k, c);
    UpdateOver(p, u, q, gp, x);
    BushyAt(p, gp);
    var j := Index(a, u);
    ReplacesInAt(p, gp, u, q);
    ReplacesInPart(a, j, u, q);
    UpdateNodes(a.parts[j], u, q);
    PartNodes(b, j);
    assert u in Nodes(b.parts[j]) && u in Nodes(b.parts[k]);
    assert x == WithPart(a, k, c);
    BushyWithPart(a, k, c);
    BushyUpdate(p, gp, x);
  }

  lemma BushySplit(p: Plan, u: Frame, part: Plan, k: nat, leaf: Plan)
    requires Distinct(p) && u in Nodes(p) && Bushy(p) && Replaces(p, u, part) && part.SplitOf? && leaf.PaneOf?
    requires 0 < |part.parts| && k <= |part.parts| && forall i :: 0 <= i < |part.parts| ==> Bushy(part.parts[i])
    requires u in Nodes(Update(p, u, part)) && Distinct(Update(p, u, part))
    ensures Bushy(Update(Update(p, u, part), u, WithPartAt(part, k, leaf)))
  {
    var q := WithPartAt(part, k, leaf);
    UpdateOver(p, u, part, u, q);
    BushyWithPartAt(part, k, leaf);
    BushyUpdate(p, u, q);
  }

  lemma TakenReplaces(p: Plan, u: Frame, k: nat)
    requires Distinct(p) && u in Nodes(p) && At(p, u).SplitOf? && k < |At(p, u).parts| && |At(p, u).parts| > 1
    ensures var q := WithoutPart(At(p, u), k);
      && Replaces(p, u, q) && Nodes(q) <= Nodes(p)
      && Nodes(Update(p, u, q)) == Nodes(p) - Nodes(At(p, u).parts[k])
      && Panes(Update(p, u, q)) == Panes(p) - Panes(At(p, u).parts[k])
  {
    hide Nodes, Panes, Distinct, At, Update;
    var a := At(p, u);
    var q := WithoutPart(a, k);
    RemovedPart(a, k);
    PartNodes(a, k);
    UpdateNodes(p, u, q);
    Taken(Nodes(p), Nodes(a), Nodes(a.parts[k]));
    Taken(Panes(p), Panes(a), Panes(a.parts[k]));
  }

  lemma Taken<T>(whole: set<T>, part: set<T>, gone: set<T>)
    requires gone <= part <= whole
    ensures whole - part + (part - gone) == whole - gone
  {
  }

  lemma OnlyPart(p: Plan, u: Frame, c: Plan)
    requires Distinct(p) && u in Nodes(p) && At(p, u).SplitOf? && At(p, u).parts == [c]
    ensures Distinct(c) && Nodes(At(p, u)) == {u} + Nodes(c) && Panes(At(p, u)) == Panes(c) && u !in Nodes(c)
    ensures c.frame in Nodes(p)
  {
    OnePart(At(p, u), c);
    PartNodes(At(p, u), 0);
  }

  lemma WithPartBuilt(u: Frame, part: Plan, k: nat, leaf: Plan)
    requires part.SplitOf? && k <= |part.parts| && Built(leaf, u)
    requires |u.frames| == |part.parts| + 1 && u.frames[k] == leaf.frame
    requires forall j :: 0 <= j < |part.parts| ==> Built(part.parts[j], u)
    requires forall j :: 0 <= j < |part.parts| ==> u.frames[if j < k then j else j + 1] == part.parts[j].frame
    ensures var us := WithPartAt(part, k, leaf).parts;
      |us| == |u.frames| && forall i :: 0 <= i < |us| ==> u.frames[i] == us[i].frame && Built(us[i], u)
  {
    var us := WithPartAt(part, k, leaf).parts;
    forall i | 0 <= i < |us| ensures u.frames[i] == us[i].frame && Built(us[i], u) {
      if i != k {
        var j := if i < k then i else i - 1;
        assert us[i] == part.parts[j];
      }
    }
  }

  lemma PaneIsDistinct(f: Frame, w: Window)
    ensures Distinct(PaneOf(f, w))
  {
  }

  lemma AddedReplaces(p: Plan, u: Frame, k: nat, added: Frame, window: Window)
    requires Distinct(p) && u in Nodes(p) && At(p, u).SplitOf? && k <= |At(p, u).parts|
    requires added !in Nodes(p) && window !in Panes(p)
    ensures var q := WithPartAt(At(p, u), k, PaneOf(added, window));
      && Replaces(p, u, q) && Panes(Update(p, u, q)) == Panes(p) + {window} && Nodes(q) <= Nodes(p) + {added}
      && Nodes(Update(p, u, q)) == Nodes(p) + {added}
  {
    hide Distinct, At, Update, Nodes, Panes;
    var a := At(p, u);
    var q := WithPartAt(a, k, PaneOf(added, window));
    PaneSets(added, window);
    PaneIsDistinct(added, window);
    InsertedPart(a, k, PaneOf(added, window));
    UpdateNodes(p, u, q);
  }

  lemma HolderReplaces(p: Plan, f: Frame, q: Plan, window: Window, holder: Frame)
    requires Distinct(p) && f in Nodes(p) && At(p, f) == PaneOf(f, window) && holder !in Nodes(p)
    requires q.SplitOf? && q.frame == f && q.parts == [PaneOf(holder, window)]
    ensures Replaces(p, f, q)
    ensures Nodes(q) == {f, holder} && Panes(Update(p, f, q)) == Panes(p)
    ensures Nodes(Update(p, f, q)) == Nodes(p) + {holder}
  {
    hide Nodes, Panes, Distinct, At, Update;
    OnePart(q, PaneOf(holder, window));
    PaneIsDistinct(holder, window);
    PaneSets(holder, window);
    PaneSets(f, window);
    UpdateNodes(p, f, q);
  }
}
