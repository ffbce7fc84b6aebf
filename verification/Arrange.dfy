/** Whole runs of splitting, removing and resizing. */
module Arrangements {
  import opened Sharing
  import opened Frames
  import opened FramePlans
  import opened Screens

  /** Windows are found by a path from the root; numbers that are too large mean the last frame. */
  datatype Change =
    | SplitAt(path: seq<nat>, vertical: bool, before: bool)
    | SplitWhole(vertical: bool, before: bool)
    | RemoveAt(path: seq<nat>)
    | ResizeTo(width: int, height: int)

  /** How many windows there are after a change; the last one stays. */
  function Count(n: nat, c: Change): nat {
    match c
    case SplitAt(_, _, _) => n + 1
    case SplitWhole(_, _) => n + 1
    case RemoveAt(_) => if n <= 1 then n else n - 1
    case ResizeTo(_, _) => n
  }

  function CountAll(n: nat, script: seq<Change>): nat {
    if script == [] then n else Count(CountAll(n, script[..|script| - 1]), script[|script| - 1])
  }

  /** Since the terminal got a size, or the whole screen was split, windows have only been removed. */
  predicate Fills(script: seq<Change>) {
    script == [] ||
      match script[|script| - 1]
      case SplitAt(_, _, _) => false
      case RemoveAt(_) => Fills(script[..|script| - 1])
      case SplitWhole(_, _) => true
      case ResizeTo(_, _) => true
  }

  /** Everything is filled by what is in it, and as large as it must be. */
  ghost predicate Filled(s: Screen)
    requires s.Valid()
    reads s, Nodes(s.plan), Panes(s.plan)
  {
    s.Tidy() && s.Spacious()
  }

  /** A screen that has been laid out as a whole is filled. */
  lemma FilledWhenLaidOut(s: Screen)
    requires s.Valid() && Tree(Nodes(s.plan)) && s.root in Nodes(s.plan) && LaidOut(s.root, Nodes(s.plan))
    ensures Filled(s)
  {
    s.OnScreen(s.root);
  }

  /** Everything is placed, and no window has less room than it needs. */
  ghost predicate Arranged(s: Screen)
    reads s, Nodes(s.plan), Panes(s.plan)
  {
    && s.Valid() && Bushy(s.plan) && Tree(Nodes(s.plan)) && s.root in Nodes(s.plan)
    && PlacedBelow(s.root, Nodes(s.plan))
    && forall g <- Nodes(s.plan) :: RoomForPane(g)
  }

  ghost predicate RoomForPane(g: Frame)
    reads g
  {
    g.window != null ==> g.w >= WINDOW_MIN_WIDTH && g.h >= WINDOW_MIN_HEIGHT
  }

  /** What is laid out has room for its windows. */
  lemma LaidOutHasRoom(top: Frame, nodes: set<Frame>, g: Frame)
    requires Tree(nodes) && top in nodes && LaidOut(top, nodes) && g in top.below
    ensures RoomForPane(g)
  {
    hide Tree, Tiled;
    Below(top, g, nodes);
    Inside(g, nodes);
    MinOfPane();
    assert g.BigEnough();
  }

  lemma {:induction false} SomePanes(p: Plan)
    requires Distinct(p) && Bushy(p)
    ensures Panes(p) != {} && (p.SplitOf? ==> |Panes(p)| >= 2)
    decreases p
  {
    hide Panes, Nodes, Distinct, Bushy;
    if p.SplitOf? {
      FirstParts(p);
      PartNodes(p, 0);
      PartNodes(p, 1);
      SomePanes(p.parts[0]);
      SomePanes(p.parts[1]);
      TwoApart(Panes(p.parts[0]), Panes(p.parts[1]), Panes(p));
    } else {
      PaneSets(p.frame, p.window);
    }
  }

  lemma TwoApart<T>(a: set<T>, b: set<T>, c: set<T>)
    requires a != {} && b != {} && a !! b && a <= c && b <= c
    ensures |c| >= 2
  {
    var x, y :| x in a && y in b;
    SubsetSize({x, y}, c);
  }

  lemma FirstParts(p: Plan)
    requires Distinct(p) && p.SplitOf? && Bushy(p)
    ensures |p.parts| >= 2 && Bushy(p.parts[0]) && Bushy(p.parts[1]) && Panes(p.parts[0]) !! Panes(p.parts[1])
  {
  }

  lemma {:induction false} SubsetSize<T>(a: set<T>, b: set<T>)
    requires a <= b
    ensures |a| <= |b|
    decreases a
  {
    if a != {} {
      var x :| x in a;
      SubsetSize(a - {x}, b - {x});
    }
  }

  /** The root has a window exactly if that is the only one. */
  lemma OnlyPane(s: Screen)
    requires s.Valid() && Bushy(s.plan)
    ensures |Panes(s.plan)| >= 1 && (s.root.window != null <==> |Panes(s.plan)| == 1)
  {
    SomePanes(s.plan);
    if s.plan.PaneOf? {
      PaneSets(s.plan.frame, s.plan.window);
    }
  }

  /** The frame and the window at the end of a path; what is too much of the path is not looked at. */
  ghost function OnPath(p: Plan, path: seq<nat>): (q: Plan)
    requires Distinct(p)
    ensures q.PaneOf?
    decreases p
  {
    if p.PaneOf? then p
    else
      var i := if path != [] && path[0] < |p.parts| then path[0] else |p.parts| - 1;
      PartNodes(p, i);
      OnPath(p.parts[i], if path == [] then [] else path[1..])
  }

  /** The frame with the window at the end of a path. */
  method FrameAt(s: Screen, path: seq<nat>) returns (f: Frame)
    requires s.Valid()
    ensures s.Valid() && f in Nodes(s.plan) && f.window != null && f.panes == {f.window} && f.window in Panes(s.plan)
    ensures Distinct(s.plan) && OnPath(s.plan, path) == PaneOf(f, f.window)
  {
    hide Tree, Nodes, Panes, Screen.Valid, OnPath;
    InScreen(s, s.root);
    s.WholePlan();
    f := s.root;
    var k := 0;
    assert path[0..] == path;
    while f.window == null
      invariant s.Valid() && f in Nodes(s.plan) && Distinct(s.plan) && Distinct(At(s.plan, f))
      invariant OnPath(At(s.plan, f), if k <= |path| then path[k..] else []) == OnPath(s.plan, path)
      decreases f.shape
    {
      InScreen(s, f);
      Inside(f, Nodes(s.plan));
      var i := if k < |path| && path[k] < |f.frames| then path[k] else |f.frames| - 1;
      s.StartPlace(f, i, f.frames[i]);
      PathStep(At(s.plan, f), if k <= |path| then path[k..] else []);
      assert k < |path| ==> path[k..][1..] == path[k + 1..];
      f := f.frames[i];
      k := k + 1;
    }
    InScreen(s, f);
    ghost var nodes := s.StartChange(f);
    PathEnds(At(s.plan, f), if k <= |path| then path[k..] else []);
  }

  lemma PathStep(p: Plan, path: seq<nat>)
    requires Distinct(p) && p.SplitOf?
    ensures p.parts != []
    ensures var i := if path != [] && path[0] < |p.parts| then path[0] else |p.parts| - 1;
      && Distinct(p.parts[i])
      && OnPath(p, path) == OnPath(p.parts[i], if path == [] then [] else path[1..])
  {
    PartNodes(p, if path != [] && path[0] < |p.parts| then path[0] else |p.parts| - 1);
  }

  lemma PathEnds(p: Plan, path: seq<nat>)
    requires Distinct(p) && p.PaneOf?
    ensures OnPath(p, path) == p
  {
  }

  lemma InScreen(s: Screen, f: Frame)
    requires s.Valid()
    ensures s.root in Nodes(s.plan)
    ensures f in Nodes(s.plan) ==>
      && Tree(Nodes(s.plan)) && f.panes <= Panes(s.plan)
      && (f.window != null ==> f.panes == {f.window}) && (f.parent == null <==> f == s.root)
  {
    hide Tree;
    s.TreeOfScreen();
    if f in Nodes(s.plan) {
      s.OnScreen(f);
      Holding(f, Nodes(s.plan));
    }
  }

  lemma Holding(f: Frame, nodes: set<Frame>)
    requires Tree(nodes) && f in nodes
    ensures f.window != null ==> f.panes == {f.window}
  {
    assert f.Divides();
  }

  /** What is around a frame that has been laid out is as it was; so all windows have room. */
  lemma AllHaveRoom(s: Screen, top: Frame)
    requires s.Valid() && Bushy(s.plan) && Tree(Nodes(s.plan)) && top in Nodes(s.plan) && s.root in Nodes(s.plan)
    requires LaidOut(top, Nodes(s.plan)) && PlacedBelow(s.root, Nodes(s.plan))
    requires forall g <- Around(s.plan, top) :: RoomForPane(g)
    ensures Arranged(s)
  {
    hide Tree, LaidOut, PlacedBelow, Nodes, RoomForPane;
    s.OnScreen(top);
    forall g | g in Nodes(s.plan) ensures RoomForPane(g) {
      if g in top.below {
        LaidOutHasRoom(top, Nodes(s.plan), g);
      }
    }
  }

  /** What there is on a screen before it is changed. */
  lemma Everything(s: Screen) returns (nodes: set<Frame>, panes: set<Window>)
    requires s.Valid()
    ensures nodes == Nodes(s.plan) && panes == Panes(s.plan) && s.root in nodes
  {
    InScreen(s, s.root);
    nodes, panes := Nodes(s.plan), Panes(s.plan);
  }

  /** One change to a screen. */
  method Apply(s: Screen, c: Change)
    requires Arranged(s)
    modifies s, Nodes(s.plan), Panes(s.plan)
    ensures Arranged(s)
    ensures forall g :: g in Nodes(s.plan) ==> g in old(Nodes(s.plan)) || fresh(g)
    ensures forall w :: w in Panes(s.plan) ==> w in old(Panes(s.plan)) || fresh(w)
    ensures |Panes(s.plan)| == Count(old(|Panes(s.plan)|), c)
    ensures c.SplitWhole? || c.ResizeTo? || (c.RemoveAt? && old(Filled(s))) ==> Filled(s)
    ensures !c.RemoveAt? ==> old(Panes(s.plan)) <= Panes(s.plan)
    ensures c.SplitAt? ==>
      exists w :: w !in old(Panes(s.plan)) && NextTo(s, c.vertical, old(OnPath(s.plan, c.path)).window, w, c.before)
    ensures c.RemoveAt? && old(|Panes(s.plan)|) > 1 ==>
      Panes(s.plan) == old(Panes(s.plan)) - {old(OnPath(s.plan, c.path)).window}
    ensures c.ResizeTo? ==>
      s.root.w == AtLeast(c.width, Min(s.root.shape, false)) && s.root.h == AtLeast(c.height, Min(s.root.shape, true))
  {
    hide Tree, Nodes, Panes, PlacedBelow, LaidOut, AllEven, Min, Bushy, Distinct, Built, Annotated, RoomForPane, Filled;
    match c {
      case SplitAt(path, vertical, before) =>
        ghost var w := ApplySplit(s, path, vertical, before);
      case SplitWhole(vertical, before) => ApplyWhole(s, vertical, before);
      case RemoveAt(path) => ApplyRemove(s, path);
      case ResizeTo(width, height) =>
        ghost var nodes, panes := Everything(s);
        InScreen(s, s.root);
        s.Resize(width, height);
        s.OnScreen(s.root);
        AllHaveRoom(s, s.root);
        FilledWhenLaidOut(s);
    }
  }

  method ApplyWhole(s: Screen, vertical: bool, before: bool)
    requires Arranged(s)
    modifies s, Nodes(s.plan), Panes(s.plan)
    ensures Arranged(s) && Filled(s)
    ensures forall g :: g in Nodes(s.plan) ==> g in old(Nodes(s.plan)) || fresh(g)
    ensures forall w :: w in Panes(s.plan) ==> w in old(Panes(s.plan)) || fresh(w)
    ensures |Panes(s.plan)| == old(|Panes(s.plan)|) + 1 && old(Panes(s.plan)) <= Panes(s.plan)
  {
    hide Tree, Nodes, Panes, PlacedBelow, LaidOut, AllEven, Min, Bushy, Distinct, Built, Annotated, RoomForPane, Filled;
    ghost var nodes, panes := Everything(s);
    var window := new Window();
    var added := s.SplitRoot(vertical, before, window);
    s.OnScreen(s.root);
    AllHaveRoom(s, s.root);
    FilledWhenLaidOut(s);
  }

  /** Two windows are next to each other in a frame: the new one just before or behind the other. */
  ghost predicate NextTo(s: Screen, vertical: bool, there: Window, added: Window, before: bool)
    reads s, Nodes(s.plan)
  {
    exists p <- Nodes(s.plan) :: p.vertical == vertical && Neighbours(s, p, there, added, before)
  }

  ghost predicate Neighbours(s: Screen, p: Frame, there: Window, added: Window, before: bool)
    reads s, Nodes(s.plan), p
  {
    exists i :: 0 < i < |p.frames| && p.frames[i - 1] in Nodes(s.plan) && p.frames[i] in Nodes(s.plan)
      && p.frames[i - 1].window == (if before then added else there)
      && p.frames[i].window == if before then there else added
  }

  lemma SplitIsNextTo(s: Screen, p: Frame, holder: bool, fs: seq<Frame>, frame: Frame, added: Frame, w: Window,
                      before: bool)
    requires s.Valid() && p in Nodes(s.plan) && added.window != null
    requires holder ==> s.PairedWith(p, added, before, w)
    requires !holder ==> s.Beside(fs, p.frames, frame, added, before) && frame.window == w
    ensures Neighbours(s, p, w, added.window, before)
  {
    hide Tree, Nodes, Panes, Built, Annotated, Distinct, At;
    s.OnScreen(p);
    var i := 1;
    if !holder {
      var j :| 0 <= j < |fs| && fs[j] == frame &&
        var k := if before then j else j + 1; p.frames == fs[..k] + [added] + fs[k..];
      i := j + 1;
    }
    assert p.frames[i - 1] in p.frames && p.frames[i] in p.frames;
  }

  /** Splits the window at the end of a path. */
  method SplitPane(s: Screen, path: seq<nat>, vertical: bool, before: bool) returns (parent: Frame, ghost w: Window)
    requires Arranged(s)
    modifies s, Nodes(s.plan), Panes(s.plan)
    ensures s.Valid() && Bushy(s.plan) && Tree(Nodes(s.plan)) && s.root in Nodes(s.plan)
    ensures parent in Nodes(s.plan) && LaidOut(parent, Nodes(s.plan)) && PlacedBelow(s.root, Nodes(s.plan))
    ensures forall g <- Around(s.plan, parent) :: RoomForPane(g)
    ensures forall g :: g in Nodes(s.plan) ==> g in old(Nodes(s.plan)) || fresh(g)
    ensures Panes(s.plan) == old(Panes(s.plan)) + {w} && fresh(w)
    ensures NextTo(s, vertical, old(OnPath(s.plan, path)).window, w, before)
  {
    hide Tree, Nodes, Panes, PlacedBelow, LaidOut, AllEven, Min, Bushy, Distinct, Built, Annotated, Screen.Tidy;
    hide Neighbours, Screen.HasRoom, Screen.MinAfter, Screen.Beside;
    ghost var nodes, panes := Everything(s);
    var frame := FrameAt(s, path);
    InScreen(s, frame);
    ghost var there, holder := frame.window, s.NeedsHolder(frame, vertical);
    ghost var fs := if holder then [] else frame.parent.frames;
    var window := new Window();
    w := window;
    var added;
    added, parent := s.Split(frame, vertical, before, window);
    SplitIsNextTo(s, parent, holder, fs, frame, added, there, before);
    hide NextTo;
    InScreen(s, parent);
    s.OnScreen(parent);
    forall g | g in Around(s.plan, parent) ensures RoomForPane(g) {
      assert g in nodes && old(RoomForPane(g));
    }
  }

  method ApplySplit(s: Screen, path: seq<nat>, vertical: bool, before: bool) returns (ghost w: Window)
    requires Arranged(s)
    modifies s, Nodes(s.plan), Panes(s.plan)
    ensures Arranged(s)
    ensures forall g :: g in Nodes(s.plan) ==> g in old(Nodes(s.plan)) || fresh(g)
    ensures forall w :: w in Panes(s.plan) ==> w in old(Panes(s.plan)) || fresh(w)
    ensures |Panes(s.plan)| == old(|Panes(s.plan)|) + 1 && old(Panes(s.plan)) <= Panes(s.plan)
    ensures w !in old(Panes(s.plan)) && NextTo(s, vertical, old(OnPath(s.plan, path)).window, w, before)
  {
    hide Tree, Nodes, Panes, PlacedBelow, LaidOut, AllEven, Min, Bushy, Distinct, Built, Annotated, Screen.Tidy;
    hide NextTo, RoomForPane;
    ghost var nodes, panes := Everything(s);
    var parent;
    parent, w := SplitPane(s, path, vertical, before);
    AllHaveRoom(s, parent);
  }

  method ApplyRemove(s: Screen, path: seq<nat>)
    requires Arranged(s)
    modifies s, Nodes(s.plan), Panes(s.plan)
    ensures Arranged(s)
    ensures forall g :: g in Nodes(s.plan) ==> g in old(Nodes(s.plan)) || fresh(g)
    ensures forall w :: w in Panes(s.plan) ==> w in old(Panes(s.plan)) || fresh(w)
    ensures |Panes(s.plan)| == old(if |Panes(s.plan)| == 1 then 1 else |Panes(s.plan)| - 1)
    ensures old(Filled(s)) ==> Filled(s)
    ensures old(|Panes(s.plan)|) > 1 ==> Panes(s.plan) == old(Panes(s.plan)) - {old(OnPath(s.plan, path)).window}
  {
    hide Tree, Nodes, Panes, PlacedBelow, LaidOut, AllEven, Min, Bushy, Distinct, Built, Annotated, Screen.Tidy;
    hide Screen.Spacious, Screen.FitsWithout, Screen.Left;
    OnlyPane(s);
    if s.root.window == null {
      ghost var nodes, panes := Everything(s);
      var frame := FrameAt(s, path);
      InScreen(s, frame);
      var top := s.Remove(frame);
      InScreen(s, top);
      forall g | g in Around(s.plan, top) ensures RoomForPane(g) {
        assert g in nodes && old(RoomForPane(g));
      }
      AllHaveRoom(s, top);
    }
  }

  /**
   * Whatever is done to a screen, every window on it has the room it needs and
   * is where its frame is; and everything is filled if only removals followed the
   * last time that the terminal got a size or the whole screen was split.
   */
  method Arrange(window: Window, width: int, height: int, script: seq<Change>) returns (s: Screen)
    modifies window
    ensures fresh(s) && Arranged(s) && |Panes(s.plan)| == CountAll(1, script)
    ensures Fills(script) ==> Filled(s)
  {
    hide Tree, PlacedBelow, LaidOut, AllEven, Min, Bushy, Distinct, Built, Annotated, Filled, RoomForPane, Nodes, Panes;
    s := new Screen(window);
    PaneSets(s.root, window);
    s.Resize(width, height);
    s.OnScreen(s.root);
    AllHaveRoom(s, s.root);
    FilledWhenLaidOut(s);
    for i := 0 to |script|
      invariant Arranged(s) && |Panes(s.plan)| == CountAll(1, script[..i])
      invariant forall g :: g in Nodes(s.plan) ==> fresh(g)
      invariant forall w :: w in Panes(s.plan) ==> w == window || fresh(w)
      invariant Fills(script[..i]) ==> Filled(s)
    {
      Apply(s, script[i]);
      assert script[..i + 1][..i] == script[..i];
    }
    assert script[..|script|] == script;
  }
}
