/** The frames that windows are laid out in. */
module Frames {
  import opened Sharing

  const WINDOW_MIN_WIDTH := 8
  const WINDOW_MIN_HEIGHT := 3

  /** How frames are nested. */
  datatype Shape = Pane | Split(vertical: bool, parts: seq<Shape>) {
    predicate Proper() {
      Split? ==> parts != [] && forall i :: 0 <= i < |parts| ==> parts[i].Proper()
    }
  }

  function Max(a: seq<int>): (m: int)
    ensures forall i :: 0 <= i < |a| ==> a[i] <= m
    ensures m >= 0 && (m == 0 || m in a)
  {
    if a == [] then 0
    else
      var m := Max(a[..|a| - 1]);
      if a[|a| - 1] > m then a[|a| - 1] else m
  }

  /** The least size a frame can have: its height, or its width with the separators in it. */
  function Min(s: Shape, height: bool): int {
    match s
    case Pane => if height then WINDOW_MIN_HEIGHT else WINDOW_MIN_WIDTH
    case Split(v, parts) =>
      var mins := seq(|parts|, i requires 0 <= i < |parts| => Min(parts[i], height));
      if v != height then Max(mins)
      else if height then Sum(mins)
      else Sum(mins) + |parts| - 1
  }

  function Mins(parts: seq<Shape>, height: bool): (m: seq<int>)
    ensures |m| == |parts| && forall i :: 0 <= i < |m| ==> m[i] == Min(parts[i], height)
  {
    seq(|parts|, i requires 0 <= i < |parts| => Min(parts[i], height))
  }

  lemma MinOfPane()
    ensures Min(Pane, false) == WINDOW_MIN_WIDTH && Min(Pane, true) == WINDOW_MIN_HEIGHT
  {
  }

  lemma MinOfSplit(s: Shape, height: bool)
    requires s.Split?
    ensures var m := Mins(s.parts, height);
      Min(s, height) == if s.vertical != height then Max(m) else if height then Sum(m) else Sum(m) + |m| - 1
  {
    assert Mins(s.parts, height) == seq(|s.parts|, i requires 0 <= i < |s.parts| => Min(s.parts[i], height));
  }

  lemma {:induction false} MinPositive(s: Shape, height: bool)
    requires s.Proper()
    ensures Min(s, height) > 0
    decreases s
  {
    if s.Split? {
      MinOfSplit(s, height);
      var m := Mins(s.parts, height);
      forall i | 0 <= i < |m| ensures m[i] > 0 {
        MinPositive(s.parts[i], height);
      }
      SumPositive(m);
      assert m[0] > 0;
    }
  }

  lemma {:induction false} SumPositive(a: seq<int>)
    requires forall i :: 0 <= i < |a| ==> a[i] > 0
    ensures Sum(a) >= |a|
  {
    if a != [] {
      SumPositive(a[..|a| - 1]);
    }
  }

  class Window {
    var x: int
    var y: int
    var w: int
    var h: int

    constructor ()
      ensures x == y == w == h == 0
    {
      x, y, w, h := 0, 0, 0, 0;
    }
  }

  class Frame {
    var parent: Frame?
    var frames: seq<Frame>
    var window: Window?
    var w: int
    var h: int
    var vertical: bool
    var equalSize: bool

    /** What is in the frame: its shape, the frames and the windows. */
    ghost var shape: Shape
    ghost var below: set<Frame>
    ghost var panes: set<Window>
    /** Whether the frame reaches the right edge, and how deep it is nested. */
    ghost var right: bool
    ghost var depth: nat
    /** Where the frame begins. */
    ghost var x: int
    ghost var y: int

    /** A tree of one frame. */
    constructor Root(window: Window)
      ensures Tree({this}) && this.window == window && parent == null && frames == [] && equalSize
    {
      parent, frames, this.window, w, h, vertical, equalSize := null, [], window, 0, 0, false, true;
      shape, below, panes, right, depth, x, y := Pane, {this}, {window}, true, 0, 0, 0;
    }

    /** A frame for a window, to be put into another frame. */
    constructor Child(parent: Frame, window: Window)
      ensures this.parent == parent && this.window == window && frames == [] && equalSize && w == 0 == h
    {
      this.parent, frames, this.window, w, h, vertical, equalSize := parent, [], window, 0, 0, false, true;
      shape, below, panes, right, depth, x, y := Pane, {this}, {window}, false, 0, 0, 0;
    }

    /** A frame has either a window or frames. */
    ghost predicate Holds()
      reads `frames, `window, `vertical, `shape, `right, `depth
      reads frames`parent, frames`shape, frames`right, frames`depth
    {
      && shape.Proper()
      && if window != null then frames == [] && shape == Pane
         else
           && frames != [] && shape.Split? && shape.vertical == vertical && |shape.parts| == |frames|
           && (forall i :: 0 <= i < |frames| ==> frames[i].shape == shape.parts[i])
           && (forall i :: 0 <= i < |frames| ==> frames[i].parent == this && frames[i].depth == depth + 1)
           && (forall i :: 0 <= i < |frames| ==> frames[i].right == (right && (vertical || i == |frames| - 1)))
    }

    /** What is in a frame is in exactly one of its frames. */
    ghost predicate Divides()
      reads `frames, `window, `below, `panes, frames`below, frames`panes
    {
      && this in below
      && (if window != null then below == {this} && panes == {window} else
           forall g <- below :: g == this || exists f <- frames :: g in f.below)
      && (forall f <- frames :: f.below <= below && this !in f.below && f.panes <= panes)
      && (forall i, j :: 0 <= i < j < |frames| ==> frames[i].below !! frames[j].below)
      && (forall i, j :: 0 <= i < j < |frames| ==> frames[i].panes !! frames[j].panes)
    }

    /** Beginning where its window does, and the frames in it one after another. */
    ghost predicate Placed()
      reads `x, `y, `window, `frames, `vertical, frames`x, frames`y, frames`w, frames`h
      reads (if window == null then {} else {window as Window})`x
      reads (if window == null then {} else {window as Window})`y
    {
      if window != null then window.x == x && window.y == y
      else forall i :: 0 <= i < |frames| ==>
        && frames[i].x == x + (if vertical then 0 else Offset(frames, vertical, i))
        && frames[i].y == y + (if vertical then Offset(frames, vertical, i) else 0)
    }

    /** Whether a cell of the screen belongs to the frame. */
    ghost predicate Has(px: int, py: int)
      reads `x, `y, `w, `h
    {
      x <= px < x + w && y <= py < y + h
    }

    /** Either the window fits in the frame or its frames fill it. */
    ghost predicate Tiles()
      reads `w, `h, `window, `right, `frames, `vertical, frames`w, frames`h
      reads (if window == null then {} else {window as Window})`w
      reads (if window == null then {} else {window as Window})`h
    {
      && w > 0 && h > 0
      && if window != null then window.w == w - (if right then 0 else 1) && window.h == h
         else
           && Sum(Along(frames, vertical)) == (if vertical then h else w)
           && forall i :: 0 <= i < |frames| ==> if vertical then frames[i].w == w else frames[i].h == h
    }

    /** A frame to be divided equally gives every frame in it the same share, or what it needs if that is more. */
    ghost predicate Even()
      reads `window, `equalSize, `shape, `frames, `vertical, frames`w, frames`h
    {
      window == null && equalSize && shape.Split? ==> exists q: int, r: nat :: Shares(q, r)
    }

    ghost predicate Shares(q: int, r: nat)
      requires shape.Split?
      reads `shape, `frames, `vertical, frames`w, frames`h
    {
      var mins := Mins(shape.parts, vertical);
      Fair(mins, Along(frames, vertical), q, r) && r < Sharers(mins, q)
    }

    /** Any other frame keeps the sizes that the frames in it had, as far as they still fill it. */
    ghost predicate FixedFrom(sizes: seq<int>)
      reads `window, `equalSize, `shape, `frames, `vertical, `w, `h, frames`w, frames`h
    {
      window == null && !equalSize && shape.Split? && |sizes| == |shape.parts| ==> exists k: nat :: Keeps(sizes, k)
    }

    ghost predicate Keeps(sizes: seq<int>, k: nat)
      requires shape.Split? && |sizes| == |shape.parts|
      reads `shape, `frames, `vertical, `w, `h, frames`w, frames`h
    {
      var mins := Mins(shape.parts, vertical);
      Fixed(mins, Enlarged(mins, sizes), Along(frames, vertical), if vertical then h else w, k)
    }

    ghost predicate BigEnough()
      reads `w, `h, `shape
    {
      w >= Min(shape, false) && h >= Min(shape, true)
    }
  }

  /** Where the first of some frames next to each other ends. */
  ghost function Offset(frames: seq<Frame>, vertical: bool, i: nat): int
    requires i <= |frames|
    reads frames`w, frames`h
  {
    Sum(Along(frames, vertical)[..i])
  }

  /** The sizes of frames next to each other. */
  ghost function Along(frames: seq<Frame>, vertical: bool): (a: seq<int>)
    reads frames`w, frames`h
    ensures |a| == |frames|
    ensures forall i :: 0 <= i < |a| ==> a[i] == if vertical then frames[i].h else frames[i].w
  {
    if frames == [] then []
    else
      var n := |frames| - 1;
      Along(frames[..n], vertical) + [if vertical then frames[n].h else frames[n].w]
  }

  /** Sizes that are made large enough. */
  function Enlarged(min: seq<int>, sizes: seq<int>): (a: seq<int>)
    requires |min| == |sizes|
    ensures |a| == |min| && forall i :: 0 <= i < |a| ==> a[i] == AtLeast(sizes[i], min[i])
  {
    seq(|min|, i requires 0 <= i < |min| => AtLeast(sizes[i], min[i]))
  }

  /** A whole tree of frames. */
  ghost predicate Tree(nodes: set<Frame>)
    reads nodes`parent, nodes`frames, nodes`window, nodes`vertical
    reads nodes`shape, nodes`below, nodes`panes, nodes`right, nodes`depth
  {
    && (forall f <- nodes :: f.below <= nodes && forall i :: 0 <= i < |f.frames| ==> f.frames[i] in nodes)
    && (forall f <- nodes :: f.Holds() && f.Divides())
    && (forall f <- nodes :: forall g <- f.below :: g.below <= f.below && g.panes <= f.panes)
    && (forall f <- nodes ::
      if f.parent == null then f.right && f.depth == 0
      else f.parent in nodes && f in f.parent.frames)
  }

  /** What is directly in a frame. */
  lemma Inside(frame: Frame, nodes: set<Frame>)
    requires Tree(nodes) && frame in nodes
    ensures frame.window != null ==> frame.shape == Pane
    ensures frame.window == null ==>
      && frame.shape.Split? && frame.shape.vertical == frame.vertical
      && 0 < |frame.frames| == |frame.shape.parts|
      && forall i :: 0 <= i < |frame.frames| ==>
        frame.frames[i] in nodes && frame.frames[i].shape == frame.shape.parts[i]
  {
    assert frame.Holds();
  }

  method GetMinW(frame: Frame, ghost nodes: set<Frame>) returns (w: int)
    requires Tree(nodes) && frame in nodes
    ensures w == Min(frame.shape, false)
    decreases frame.shape
  {
    hide Tree, Min;
    Inside(frame, nodes);
    MinOfPane();
    if frame.window != null {
      return WINDOW_MIN_WIDTH;
    }
    var count := |frame.frames|;
    ghost var mins := Mins(frame.shape.parts, false);
    MinOfSplit(frame.shape, false);
    if !frame.vertical {
      w := count - 1;
      for i := 0 to count
        invariant w == count - 1 + Sum(mins[..i])
      {
        var m := GetMinW(frame.frames[i], nodes);
        assert mins[..i + 1][..i] == mins[..i];
        w := w + m;
      }
    } else {
      w := 0;
      for i := 0 to count
        invariant w == Max(mins[..i])
      {
        var m := GetMinW(frame.frames[i], nodes);
        assert mins[..i + 1][..i] == mins[..i];
        w := if m > w then m else w;
      }
    }
    assert mins[..count] == mins;
  }

  method GetMinH(frame: Frame, ghost nodes: set<Frame>) returns (h: int)
    requires Tree(nodes) && frame in nodes
    ensures h == Min(frame.shape, true)
    decreases frame.shape
  {
    hide Tree, Min;
    Inside(frame, nodes);
    MinOfPane();
    if frame.window != null {
      return WINDOW_MIN_HEIGHT;
    }
    var count := |frame.frames|;
    ghost var mins := Mins(frame.shape.parts, true);
    MinOfSplit(frame.shape, true);
    h := 0;
    if frame.vertical {
      for i := 0 to count
        invariant h == Sum(mins[..i])
      {
        var m := GetMinH(frame.frames[i], nodes);
        assert mins[..i + 1][..i] == mins[..i];
        h := h + m;
      }
    } else {
      for i := 0 to count
        invariant h == Max(mins[..i])
      {
        var m := GetMinH(frame.frames[i], nodes);
        assert mins[..i + 1][..i] == mins[..i];
        h := if m > h then m else h;
      }
    }
    assert mins[..count] == mins;
  }

  /** Where a frame is among the frames of its parent. */
  lemma InParent(frame: Frame, nodes: set<Frame>) returns (i: nat)
    requires Tree(nodes) && frame in nodes && frame.parent != null
    ensures frame.parent in nodes && frame.parent.window == null && frame.parent.frames != []
    ensures i < |frame.parent.frames| && frame.parent.frames[i] == frame && frame.depth == frame.parent.depth + 1
    ensures frame == frame.parent.frames[|frame.parent.frames| - 1] <==> i == |frame.parent.frames| - 1
    ensures frame.right == (frame.parent.right && (frame.parent.vertical || i == |frame.parent.frames| - 1))
  {
    var p := frame.parent;
    i :| 0 <= i < |p.frames| && p.frames[i] == frame;
    assert p.Holds() && p.Divides();
    assert frame.Divides();
  }

  /** Whether nothing is to the right of a frame. */
  method RightmostFrame(frame: Frame, ghost nodes: set<Frame>) returns (right: bool)
    requires Tree(nodes) && frame in nodes
    ensures right == frame.right
    decreases frame.depth
  {
    hide Tree;
    var parent := frame.parent;
    if parent == null {
      RootIsRight(frame, nodes);
      return true;
    }
    ghost var i := InParent(frame, nodes);
    if !parent.vertical {
      if frame != parent.frames[|parent.frames| - 1] {
        return false;
      }
    }
    right := RightmostFrame(parent, nodes);
  }

  lemma RootIsRight(frame: Frame, nodes: set<Frame>)
    requires Tree(nodes) && frame in nodes && frame.parent == null
    ensures frame.right
  {
  }

  /** Everything in a frame is filled by what is in it. */
  ghost predicate Tiled(frame: Frame, nodes: set<Frame>)
    requires Tree(nodes) && frame in nodes
    reads nodes`parent, nodes`frames, nodes`window, nodes`vertical
    reads nodes`shape, nodes`below, nodes`panes, nodes`right, nodes`depth
    reads frame.below`w, frame.below`h, frame.panes`w, frame.panes`h
  {
    hide Tree;
    forall g <- frame.below :: Below(frame, g, nodes); g.Tiles()
  }

  /** Everything in a frame has at least the size it needs. */
  ghost predicate Roomy(frame: Frame, nodes: set<Frame>)
    requires Tree(nodes) && frame in nodes
    reads nodes`parent, nodes`frames, nodes`window, nodes`vertical
    reads nodes`shape, nodes`below, nodes`panes, nodes`right, nodes`depth
    reads frame.below`w, frame.below`h
  {
    hide Tree;
    forall g <- frame.below :: Below(frame, g, nodes); g.BigEnough()
  }

  ghost predicate LaidOut(frame: Frame, nodes: set<Frame>)
    requires Tree(nodes) && frame in nodes
    reads nodes`parent, nodes`frames, nodes`window, nodes`vertical
    reads nodes`shape, nodes`below, nodes`panes, nodes`right, nodes`depth
    reads frame.below`w, frame.below`h, frame.panes`w, frame.panes`h
  {
    Tiled(frame, nodes) && Roomy(frame, nodes)
  }

  /** Every frame in a frame that is to be divided equally is. */
  ghost predicate AllEven(frame: Frame, nodes: set<Frame>)
    requires Tree(nodes) && frame in nodes
    reads nodes`parent, nodes`frames, nodes`window, nodes`vertical
    reads nodes`shape, nodes`below, nodes`panes, nodes`right, nodes`depth
    reads frame.below`w, frame.below`h, frame.below`equalSize
  {
    hide Tree;
    forall g <- frame.below :: Below(frame, g, nodes); g.Even()
  }

  ghost predicate LaidOutEvenly(frame: Frame, nodes: set<Frame>)
    requires Tree(nodes) && frame in nodes
    reads nodes`parent, nodes`frames, nodes`window, nodes`vertical
    reads nodes`shape, nodes`below, nodes`panes, nodes`right, nodes`depth
    reads frame.below`w, frame.below`h, frame.below`equalSize, frame.panes`w, frame.panes`h
  {
    LaidOut(frame, nodes) && AllEven(frame, nodes)
  }

  ghost predicate PartsEven(frame: Frame, nodes: set<Frame>)
    requires Tree(nodes) && frame in nodes
    reads nodes`parent, nodes`frames, nodes`window, nodes`vertical
    reads nodes`shape, nodes`below, nodes`panes, nodes`right, nodes`depth
    reads frame.below`w, frame.below`h, frame.below`equalSize
  {
    hide Tree;
    forall g <- frame.below - {frame} :: Below(frame, g, nodes); g.Even()
  }

  /** What can be found below a frame. */
  lemma Below(frame: Frame, g: Frame, nodes: set<Frame>)
    requires Tree(nodes) && frame in nodes && g in frame.below
    ensures g in nodes && g.below <= frame.below && g.panes <= frame.panes
    ensures forall c <- g.frames :: c in frame.below
    ensures g.window != null ==> g.window in frame.panes
  {
    assert g.Divides();
    forall c | c in g.frames ensures c in frame.below {
      assert c.Divides();
    }
  }

  /** The frames in a frame, as far as giving them sizes goes. */
  lemma PartOf(frame: Frame, i: nat, nodes: set<Frame>)
    requires Tree(nodes) && frame in nodes && i < |frame.frames|
    ensures frame.window == null
    ensures var c := frame.frames[i];
      && c in nodes && c.parent == frame && c.shape == frame.shape.parts[i] && c.shape.Proper()
      && c.below <= frame.below && frame !in c.below && c in c.below && c.panes <= frame.panes
    ensures forall j :: 0 <= j < |frame.frames| ==> frame.frames[j] in frame.frames[j].below
    ensures forall j :: 0 <= j < |frame.frames| && j != i ==>
      frame.frames[j].below !! frame.frames[i].below && frame.frames[j].panes !! frame.frames[i].panes
  {
    assert frame.Holds() && frame.Divides();
    assert forall j :: 0 <= j < |frame.frames| ==> frame.frames[j].Divides();
    assert frame.frames[i].Holds();
  }

  /** The room a frame has for the frames in it. */
  function Room(frame: Frame): int
    reads frame`vertical, frame`w, frame`h
  {
    if frame.vertical then frame.h else frame.w
  }

  method SetSize(frame: Frame, size: int, ghost nodes: set<Frame>)
    requires Tree(nodes) && frame in nodes && frame.parent != null && frame.parent !in frame.below
    modifies frame.below`w, frame.below`h, frame.panes`w, frame.panes`h
    ensures var p := frame.parent;
      frame.w == AtLeast(if p.vertical then p.w else size, Min(frame.shape, false))
      && frame.h == AtLeast(if p.vertical then size else p.h, Min(frame.shape, true))
    ensures LaidOutEvenly(frame, nodes)
    decreases frame.shape, 7
  {
    var w := if frame.parent.vertical then frame.parent.w else size;
    var h := if frame.parent.vertical then size else frame.parent.h;
    FrameSetSize(frame, w, h, nodes);
  }

  function AtLeast(size: int, min: int): int {
    if size > min then size else min
  }

  /** Gives the frames in a frame sizes that fill it. */
  method SetSizes(frame: Frame, size: array<int>, ghost nodes: set<Frame>)
    requires Tree(nodes) && frame in nodes && frame.window == null && size.Length == |frame.frames|
    requires frame.w >= Min(frame.shape, false) && frame.h >= Min(frame.shape, true)
    requires Sum(size[..]) == Room(frame)
    requires forall i :: 0 <= i < size.Length ==> size[i] >= Min(frame.frames[i].shape, frame.vertical)
    modifies frame.below`w, frame.below`h, frame.panes`w, frame.panes`h
    ensures unchanged(frame) && LaidOut(frame, nodes) && PartsEven(frame, nodes)
    ensures Along(frame.frames, frame.vertical) == size[..]
    decreases frame.shape, 3
  {
    hide Tree, LaidOutEvenly, Min;
    Inside(frame, nodes);
    for i := 0 to size.Length
      invariant unchanged(frame)
      invariant forall j :: 0 <= j < i ==> frame.frames[j] in nodes && LaidOutEvenly(frame.frames[j], nodes)
      invariant forall j :: 0 <= j < i ==> var c := frame.frames[j];
        if frame.vertical then c.h == size[j] && c.w == frame.w else c.w == size[j] && c.h == frame.h
    {
      PartOf(frame, i, nodes);
      AcrossFits(frame, i, nodes);
      SetSize(frame.frames[i], size[i], nodes);
    }
    EvenParts(frame, nodes);
    Filled(frame, size[..], nodes);
  }

  lemma EvenParts(frame: Frame, nodes: set<Frame>)
    requires Tree(nodes) && frame in nodes && frame.window == null
    requires forall j :: 0 <= j < |frame.frames| ==> frame.frames[j] in nodes && LaidOutEvenly(frame.frames[j], nodes)
    ensures PartsEven(frame, nodes)
    ensures forall j :: 0 <= j < |frame.frames| ==> LaidOut(frame.frames[j], nodes)
  {
    hide Tree;
    forall g | g in frame.below - {frame} ensures g.Even() {
      var f := PartHolding(frame, g, nodes);
    }
  }

  lemma AcrossFits(frame: Frame, i: nat, nodes: set<Frame>)
    requires Tree(nodes) && frame in nodes && i < |frame.frames|
    ensures Min(frame.frames[i].shape, !frame.vertical) <= Min(frame.shape, !frame.vertical)
  {
    Inside(frame, nodes);
    PartOf(frame, i, nodes);
    MinOfSplit(frame.shape, !frame.vertical);
    var m := Mins(frame.shape.parts, !frame.vertical);
    assert m[i] == Min(frame.frames[i].shape, !frame.vertical);
  }

  lemma Filled(frame: Frame, size: seq<int>, nodes: set<Frame>)
    requires Tree(nodes) && frame in nodes && frame.window == null && |size| == |frame.frames|
    requires frame.w >= Min(frame.shape, false) && frame.h >= Min(frame.shape, true)
    requires Sum(size) == Room(frame)
    requires forall j :: 0 <= j < |size| ==> frame.frames[j] in nodes && LaidOut(frame.frames[j], nodes)
    requires forall j :: 0 <= j < |size| ==> var c := frame.frames[j];
        if frame.vertical then c.h == size[j] && c.w == frame.w else c.w == size[j] && c.h == frame.h
    ensures LaidOut(frame, nodes) && Along(frame.frames, frame.vertical) == size
  {
    hide Tree, Min, Sum;
    SelfBelow(frame, nodes);
    assert Along(frame.frames, frame.vertical) == size;
    assert frame.BigEnough() && frame.Tiles();
    forall g | g in frame.below ensures g.BigEnough() && g.Tiles() {
      if g != frame {
        var f := PartHolding(frame, g, nodes);
      }
    }
  }

  /** Everything else in a frame is in one of its frames. */
  lemma PartHolding(frame: Frame, g: Frame, nodes: set<Frame>) returns (f: Frame)
    requires Tree(nodes) && frame in nodes && g in frame.below && g != frame
    ensures f in frame.frames && f in nodes && g in f.below && frame.window == null
  {
    assert frame.Divides();
    f :| f in frame.frames && g in f.below;
  }

  /** Divides a frame equally among the frames in it. */
  method DivideEqually(frame: Frame, ghost nodes: set<Frame>) returns (ghost q: int, ghost r: nat)
    requires Tree(nodes) && frame in nodes && frame.window == null
    requires frame.w >= Min(frame.shape, false) && frame.h >= Min(frame.shape, true)
    modifies frame.below`w, frame.below`h, frame.panes`w, frame.panes`h
    ensures unchanged(frame) && LaidOut(frame, nodes) && PartsEven(frame, nodes)
    ensures Fair(Mins(frame.shape.parts, frame.vertical), Along(frame.frames, frame.vertical), q, r)
    ensures r < Sharers(Mins(frame.shape.parts, frame.vertical), q)
    decreases frame.shape, 4
  {
    hide Tree, LaidOut, PartsEven, Min, Sum, Sharers, FairSize;
    var min := GetMins(frame, nodes);
    var size;
    size, q, r := Divide(min, Room(frame));
    FairIsEnough(min[..], size[..], q, r);
    SetSizes(frame, size, nodes);
  }

  lemma FairIsEnough(min: seq<int>, size: seq<int>, q: int, r: nat)
    requires Fair(min, size, q, r)
    ensures forall i :: 0 <= i < |min| ==> size[i] >= min[i]
  {
  }

  /** The least sizes of the frames in a frame, which together are not too much for it. */
  method GetMins(frame: Frame, ghost nodes: set<Frame>) returns (min: array<int>)
    requires Tree(nodes) && frame in nodes && frame.window == null
    requires frame.w >= Min(frame.shape, false) && frame.h >= Min(frame.shape, true)
    ensures fresh(min) && min.Length == |frame.frames| > 0 && Sum(min[..]) <= Room(frame)
    ensures forall i :: 0 <= i < min.Length ==> min[i] == Min(frame.frames[i].shape, frame.vertical) > 0
    ensures min[..] == Mins(frame.shape.parts, frame.vertical)
  {
    hide Tree, Min;
    Inside(frame, nodes);
    min := new int[|frame.frames|];
    for i := 0 to |frame.frames|
      invariant forall j :: 0 <= j < i ==> min[j] == Min(frame.frames[j].shape, frame.vertical) > 0
    {
      PartOf(frame, i, nodes);
      MinPositive(frame.frames[i].shape, frame.vertical);
      min[i] := GetMin(frame.frames[i], nodes);
    }
    MinOfSplit(frame.shape, frame.vertical);
    assert min[..] == Mins(frame.shape.parts, frame.vertical);
  }

  method GetMin(frame: Frame, ghost nodes: set<Frame>) returns (min: int)
    requires Tree(nodes) && frame in nodes && frame.parent != null
    ensures min == Min(frame.shape, frame.parent.vertical)
  {
    if frame.parent.vertical {
      min := GetMinH(frame, nodes);
    } else {
      min := GetMinW(frame, nodes);
    }
  }

  function GetSize(frame: Frame, vertical: bool): int
    reads frame`w, frame`h
  {
    if vertical then frame.h else frame.w
  }

  method GetSizes(frame: Frame, min: array<int>) returns (size: array<int>)
    requires min.Length == |frame.frames|
    ensures fresh(size) && size[..] == Enlarged(min[..], Along(frame.frames, frame.vertical))
    ensures forall i :: 0 <= i < min.Length ==> min[i] <= size[i]
  {
    size := new int[min.Length];
    for i := 0 to min.Length
      invariant forall j :: 0 <= j < i ==> size[j] == AtLeast(GetSize(frame.frames[j], frame.vertical), min[j])
    {
      size[i] := AtLeast(GetSize(frame.frames[i], frame.vertical), min[i]);
    }
    assert size[..] == Enlarged(min[..], Along(frame.frames, frame.vertical));
  }

  /** Keeps the sizes of the frames in a frame as far as they still fill it. */
  method FixSize(frame: Frame, ghost nodes: set<Frame>) returns (ghost k: nat)
    requires Tree(nodes) && frame in nodes && frame.window == null
    requires frame.w >= Min(frame.shape, false) && frame.h >= Min(frame.shape, true)
    modifies frame.below`w, frame.below`h, frame.panes`w, frame.panes`h
    ensures unchanged(frame) && LaidOut(frame, nodes) && PartsEven(frame, nodes)
    ensures |frame.frames| == |frame.shape.parts|
    ensures var mins := Mins(frame.shape.parts, frame.vertical);
      Fixed(mins, Enlarged(mins, old(Along(frame.frames, frame.vertical))),
        Along(frame.frames, frame.vertical), Room(frame), k)
    decreases frame.shape, 4
  {
    hide Tree, LaidOut, PartsEven, Min, Sum, Fixed, Along;
    var min := GetMins(frame, nodes);
    var size := GetSizes(frame, min);
    k := Fix(min, size, Room(frame));
    SetSizes(frame, size, nodes);
  }

  /** Lays out a frame in at least the size asked for. */
  method FrameSetSize(frame: Frame, width: int, height: int, ghost nodes: set<Frame>)
    requires Tree(nodes) && frame in nodes
    modifies frame.below`w, frame.below`h, frame.panes`w, frame.panes`h
    ensures frame.w == AtLeast(width, Min(frame.shape, false))
    ensures frame.h == AtLeast(height, Min(frame.shape, true))
    ensures LaidOutEvenly(frame, nodes)
    ensures frame.FixedFrom(old(Along(frame.frames, frame.vertical)))
    ensures frame.window != null ==>
      (frame.window.w < WINDOW_MIN_WIDTH <==> width <= WINDOW_MIN_WIDTH && !frame.right)
    decreases frame.shape, 6
  {
    hide Tree, Min, LaidOutEvenly, Frame.FixedFrom;
    Inside(frame, nodes);
    MinOfPane();
    var minW := GetMinW(frame, nodes);
    var minH := GetMinH(frame, nodes);
    SelfBelow(frame, nodes);
    var w, h := AtLeast(width, minW), AtLeast(height, minH);
    frame.w, frame.h := w, h;
    if frame.window != null {
      var right := RightmostFrame(frame, nodes);
      w := w - if right then 0 else 1;
      frame.window.w, frame.window.h := w, h;
      PaneFits(frame, nodes);
    } else {
      PartOf(frame, 0, nodes);
      SetParts(frame, nodes);
    }
  }

  /** Lays out the frames in a frame that has got its size. */
  method SetParts(frame: Frame, ghost nodes: set<Frame>)
    requires Tree(nodes) && frame in nodes && frame.window == null
    requires frame.w >= Min(frame.shape, false) && frame.h >= Min(frame.shape, true)
    modifies frame.below`w, frame.below`h, frame.panes`w, frame.panes`h
    ensures unchanged(frame) && LaidOutEvenly(frame, nodes)
    ensures frame.FixedFrom(old(Along(frame.frames, frame.vertical)))
    decreases frame.shape, 5
  {
    hide Tree, Min, Fair, Fixed, Sharers, LaidOut;
    SelfBelow(frame, nodes);
    Inside(frame, nodes);
    if frame.equalSize {
      ghost var q, r := DivideEqually(frame, nodes);
      assert frame.Shares(q, r);
    } else {
      ghost var k := FixSize(frame, nodes);
      assert frame.Keeps(old(Along(frame.frames, frame.vertical)), k);
    }
  }

  lemma PaneFits(frame: Frame, nodes: set<Frame>)
    requires Tree(nodes) && frame in nodes && frame.window != null && frame.BigEnough()
    requires frame.window.w == frame.w - (if frame.right then 0 else 1) && frame.window.h == frame.h
    ensures LaidOutEvenly(frame, nodes) && forall sizes :: frame.FixedFrom(sizes)
  {
    hide Tree, Min;
    SelfBelow(frame, nodes);
  }

  lemma SelfBelow(frame: Frame, nodes: set<Frame>)
    requires Tree(nodes) && frame in nodes
    ensures frame in frame.below && Min(frame.shape, false) > 0 && Min(frame.shape, true) > 0
    ensures frame.window != null ==> frame.below == {frame} && frame.window in frame.panes
  {
    assert frame.Divides() && frame.Holds();
    MinPositive(frame.shape, false);
    MinPositive(frame.shape, true);
  }

  ghost predicate PlacedBelow(frame: Frame, nodes: set<Frame>)
    requires Tree(nodes) && frame in nodes
    reads nodes`parent, nodes`frames, nodes`window, nodes`vertical
    reads nodes`shape, nodes`below, nodes`panes, nodes`right, nodes`depth
    reads frame.below`x, frame.below`y, frame.below`w, frame.below`h, frame.panes`x, frame.panes`y
  {
    hide Tree;
    forall g <- frame.below :: Below(frame, g, nodes); g.Placed()
  }

  method UpdateFrameCoordinates(frame: Frame, left: int, top: int, ghost nodes: set<Frame>)
    requires Tree(nodes) && frame in nodes
    modifies frame.below`x, frame.below`y, frame.panes`x, frame.panes`y
    ensures frame.x == left && frame.y == top && PlacedBelow(frame, nodes)
    decreases frame.shape, 1
  {
    hide Tree, PlacedBelow, Sum, Along, Min;
    SelfBelow(frame, nodes);
    frame.x, frame.y := left, top;
    if frame.window != null {
      frame.window.x, frame.window.y := left, top;
      PaneIsPlaced(frame, nodes);
      return;
    }
    Inside(frame, nodes);
    PlaceParts(frame, left, top, nodes);
    PartsArePlaced(frame, nodes);
  }

  /** Places the frames in a frame one after another. */
  method PlaceParts(frame: Frame, left: int, top: int, ghost nodes: set<Frame>)
    requires Tree(nodes) && frame in nodes && frame.window == null && frame.x == left && frame.y == top
    modifies frame.below`x, frame.below`y, frame.panes`x, frame.panes`y
    ensures frame.x == left && frame.y == top
    ensures forall j :: 0 <= j < |frame.frames| ==> frame.frames[j] in nodes && PlacedBelow(frame.frames[j], nodes)
    ensures var a, v := Along(frame.frames, frame.vertical), frame.vertical;
      forall j :: 0 <= j < |a| ==>
        && frame.frames[j].x == frame.x + (if v then 0 else Sum(a[..j]))
        && frame.frames[j].y == frame.y + (if v then Sum(a[..j]) else 0)
    decreases frame.shape, 0
  {
    hide Tree, PlacedBelow, Sum, Along, Min;
    Inside(frame, nodes);
    var x, y := left, top;
    ghost var fs, v := frame.frames, frame.vertical;
    ghost var a := Along(fs, v);
    SumOfNone(a);
    for i := 0 to |frame.frames|
      invariant frame.x == left && frame.y == top
      invariant x == left + (if v then 0 else Sum(a[..i])) && y == top + (if v then Sum(a[..i]) else 0)
      invariant forall j :: 0 <= j < i ==> fs[j] in nodes && PlacedBelow(fs[j], nodes)
      invariant forall j :: 0 <= j < i ==>
        fs[j].x == left + (if v then 0 else Sum(a[..j])) && fs[j].y == top + (if v then Sum(a[..j]) else 0)
    {
      PartOf(frame, i, nodes);
      SumOfOneMore(a, i);
      var c := frame.frames[i];
      UpdateFrameCoordinates(c, x, y, nodes);
      if frame.vertical {
        y := y + c.h;
      } else {
        x := x + c.w;
      }
    }
  }

  lemma SumOfNone(a: seq<int>)
    ensures Sum(a[..0]) == 0
  {
  }

  lemma SumOfOneMore(a: seq<int>, i: nat)
    requires i < |a|
    ensures Sum(a[..i + 1]) == Sum(a[..i]) + a[i]
  {
    assert a[..i + 1][..i] == a[..i];
  }

  lemma PaneIsPlaced(frame: Frame, nodes: set<Frame>)
    requires Tree(nodes) && frame in nodes && frame.window != null
    requires frame.window.x == frame.x && frame.window.y == frame.y
    ensures PlacedBelow(frame, nodes)
  {
    SelfBelow(frame, nodes);
  }

  lemma PartsArePlaced(frame: Frame, nodes: set<Frame>)
    requires Tree(nodes) && frame in nodes && frame.window == null
    requires forall j :: 0 <= j < |frame.frames| ==> frame.frames[j] in nodes && PlacedBelow(frame.frames[j], nodes)
    requires var a, v := Along(frame.frames, frame.vertical), frame.vertical;
      forall j :: 0 <= j < |a| ==>
        && frame.frames[j].x == frame.x + (if v then 0 else Sum(a[..j]))
        && frame.frames[j].y == frame.y + (if v then Sum(a[..j]) else 0)
    ensures PlacedBelow(frame, nodes)
  {
    hide Tree, Sum, Along;
    assert frame.Placed();
    forall g | g in frame.below ensures g.Placed() {
      if g != frame {
        var f := PartHolding(frame, g, nodes);
      }
    }
  }

  /** The part that a point falls into, when parts of these sizes follow one another. */
  lemma {:induction false} Locate(a: seq<int>, p: int) returns (i: nat)
    requires 0 <= p < Sum(a)
    ensures i < |a| && Sum(a[..i]) <= p < Sum(a[..i + 1])
  {
    var n := |a| - 1;
    if p < Sum(a[..n]) {
      i := Locate(a[..n], p);
      assert a[..n][..i] == a[..i] && a[..n][..i + 1] == a[..i + 1];
    } else {
      i := n;
      assert a[..n + 1] == a;
    }
  }

  lemma {:induction false} PrefixGrows(a: seq<int>, i: nat, j: nat)
    requires i <= j <= |a| && forall k :: 0 <= k < |a| ==> a[k] > 0
    ensures Sum(a[..i]) <= Sum(a[..j]) && (i < j ==> Sum(a[..i]) < Sum(a[..j]))
    decreases j
  {
    if i < j {
      PrefixGrows(a, i, j - 1);
      SumOfOneMore(a, j - 1);
    }
  }

  /** The sizes of the frames in a frame are positive and fill it. */
  lemma Filling(frame: Frame, nodes: set<Frame>) returns (a: seq<int>)
    requires Tree(nodes) && frame in nodes && frame.window == null && Tiled(frame, nodes)
    ensures a == Along(frame.frames, frame.vertical) && Sum(a) == Room(frame)
    ensures forall i :: 0 <= i < |a| ==> a[i] > 0
    ensures forall i :: 0 <= i < |frame.frames| ==>
      if frame.vertical then frame.frames[i].w == frame.w else frame.frames[i].h == frame.h
    ensures forall i :: 0 <= i < |frame.frames| ==> frame.frames[i] in nodes && Tiled(frame.frames[i], nodes)
  {
    hide Sum;
    SelfBelow(frame, nodes);
    assert frame.Tiles();
    a := Along(frame.frames, frame.vertical);
    forall i | 0 <= i < |frame.frames|
      ensures a[i] > 0 && frame.frames[i] in nodes && Tiled(frame.frames[i], nodes)
    {
      PartOf(frame, i, nodes);
      var c := frame.frames[i];
      assert c.Tiles();
    }
  }

  /** Where a frame in a frame is, along and across. */
  lemma PartPlace(frame: Frame, i: nat, nodes: set<Frame>)
    requires Tree(nodes) && frame in nodes && i < |frame.frames| && PlacedBelow(frame, nodes)
    ensures var c, o := frame.frames[i], Offset(frame.frames, frame.vertical, i);
      && c in nodes && PlacedBelow(c, nodes)
      && c.x == frame.x + (if frame.vertical then 0 else o) && c.y == frame.y + (if frame.vertical then o else 0)
  {
    hide Offset;
    PartOf(frame, i, nodes);
    SelfBelow(frame, nodes);
    assert frame.Placed();
  }

  /** A cell of a part is a cell of the whole, in the part's stretch of it. */
  lemma PartHas(frame: Frame, i: nat, nodes: set<Frame>, px: int, py: int)
    requires Tree(nodes) && frame in nodes && i < |frame.frames|
    requires Tiled(frame, nodes) && PlacedBelow(frame, nodes)
    ensures var a, p := Along(frame.frames, frame.vertical), if frame.vertical then py - frame.y else px - frame.x;
      frame.frames[i].Has(px, py) <==> frame.Has(px, py) && Sum(a[..i]) <= p < Sum(a[..i + 1])
  {
    hide Tree, Tiled, PlacedBelow, Sum;
    PartOf(frame, i, nodes);
    var a := Filling(frame, nodes);
    PartPlace(frame, i, nodes);
    SumOfOneMore(a, i);
    PrefixGrows(a, 0, i);
    PrefixGrows(a, i + 1, |a|);
    assert a[..|a|] == a;
    SumOfNone(a);
  }

  /** Every cell of a frame belongs to exactly one of the frames with a window. */
  lemma {:induction false} CellHasOwner(frame: Frame, nodes: set<Frame>, px: int, py: int) returns (owner: Frame)
    requires Tree(nodes) && frame in nodes && Tiled(frame, nodes) && PlacedBelow(frame, nodes)
    requires frame.Has(px, py)
    ensures owner in frame.below && owner.window != null && owner.Has(px, py)
    decreases frame.shape
  {
    hide Tree, Tiled, PlacedBelow, Sum;
    SelfBelow(frame, nodes);
    if frame.window != null {
      return frame;
    }
    Inside(frame, nodes);
    var a := Filling(frame, nodes);
    var i := Locate(a, if frame.vertical then py - frame.y else px - frame.x);
    PartHas(frame, i, nodes, px, py);
    PartPlace(frame, i, nodes);
    PartOf(frame, i, nodes);
    owner := CellHasOwner(frame.frames[i], nodes, px, py);
  }

  /** No cell belongs to two of them, and none outside the frame to any. */
  lemma {:induction false} CellHasOneOwner(frame: Frame, nodes: set<Frame>, px: int, py: int, g: Frame, h: Frame)
    requires Tree(nodes) && frame in nodes && Tiled(frame, nodes) && PlacedBelow(frame, nodes)
    requires g in frame.below && g.window != null && g.Has(px, py)
    requires h in frame.below && h.window != null && h.Has(px, py)
    ensures g == h && frame.Has(px, py)
    decreases frame.shape
  {
    hide Tree, Tiled, PlacedBelow, Sum;
    SelfBelow(frame, nodes);
    if frame.window == null {
      Inside(frame, nodes);
      var i := PartWith(frame, g, nodes);
      var j := PartWith(frame, h, nodes);
      var a := Filling(frame, nodes);
      PartOf(frame, i, nodes);
      PartPlace(frame, i, nodes);
      PartOf(frame, j, nodes);
      PartPlace(frame, j, nodes);
      CellHasOneOwner(frame.frames[i], nodes, px, py, g, g);
      CellHasOneOwner(frame.frames[j], nodes, px, py, h, h);
      PartHas(frame, i, nodes, px, py);
      PartHas(frame, j, nodes, px, py);
      PrefixesApart(a, i, j, if frame.vertical then py - frame.y else px - frame.x);
      CellHasOneOwner(frame.frames[i], nodes, px, py, g, h);
    }
  }

  lemma PartWith(frame: Frame, g: Frame, nodes: set<Frame>) returns (i: nat)
    requires Tree(nodes) && frame in nodes && frame.window == null && g in frame.below && g.window != null
    ensures i < |frame.frames| && g in frame.frames[i].below
  {
    assert frame.Divides() && frame.Holds();
    var f :| f in frame.frames && g in f.below;
    i :| 0 <= i < |frame.frames| && frame.frames[i] == f;
  }

  lemma PrefixesApart(a: seq<int>, i: nat, j: nat, p: int)
    requires i < |a| && j < |a| && forall k :: 0 <= k < |a| ==> a[k] > 0
    requires Sum(a[..i]) <= p < Sum(a[..i + 1]) && Sum(a[..j]) <= p < Sum(a[..j + 1])
    ensures i == j
  {
    if i < j {
      PrefixGrows(a, i + 1, j);
    } else if j < i {
      PrefixGrows(a, j + 1, i);
    }
  }

  /** The right edge of a frame is that of the whole screen exactly if the frame is rightmost. */
  lemma {:induction false} RightEdge(root: Frame, nodes: set<Frame>, g: Frame)
    requires Tree(nodes) && root in nodes && root.parent == null && root.below == nodes
    requires Tiled(root, nodes) && PlacedBelow(root, nodes) && g in nodes
    requires forall f <- nodes :: f.parent == null ==> f == root
    ensures g.x + g.w <= root.x + root.w
    ensures g.x + g.w == root.x + root.w <==> g.right
    decreases g.depth
  {
    hide Tree, Tiled, PlacedBelow, Sum;
    if g.parent == null {
      RootIsRight(g, nodes);
    } else {
      var i := InParent(g, nodes);
      var p := g.parent;
      RightEdge(root, nodes, p);
      Subtree(root, p, nodes);
      var a := Filling(p, nodes);
      PartPlace(p, i, nodes);
      SumOfOneMore(a, i);
      PrefixGrows(a, i + 1, |a|);
      assert a[..|a|] == a;
    }
  }

  lemma Subtree(root: Frame, f: Frame, nodes: set<Frame>)
    requires Tree(nodes) && root in nodes && f in nodes && f in root.below
    requires Tiled(root, nodes) && PlacedBelow(root, nodes)
    ensures Tiled(f, nodes) && PlacedBelow(f, nodes)
  {
  }

  /**
   * A window reaches the right edge of the screen exactly if it is rightmost;
   * any other leaves one column, which is its own.
   */
  lemma Separator(root: Frame, nodes: set<Frame>, g: Frame, py: int)
    requires Tree(nodes) && root in nodes && root.parent == null && root.below == nodes
    requires Tiled(root, nodes) && PlacedBelow(root, nodes) && g in nodes && g.window != null
    requires forall f <- nodes :: f.parent == null ==> f == root
    ensures var edge := g.window.x + g.window.w;
      if g.right then edge == root.x + root.w
      else edge < root.x + root.w && edge == g.x + g.w - 1 && (g.y <= py < g.y + g.h ==> g.Has(edge, py))
  {
    hide Tree, Sum;
    RightEdge(root, nodes, g);
    Below(root, g, nodes);
    assert g.Tiles() && g.Placed();
  }

  /** A window can be narrower than a frame must be: if its frame is as narrow as can be and not rightmost. */
  lemma WindowRoom(frame: Frame, nodes: set<Frame>, g: Frame)
    requires Tree(nodes) && frame in nodes && LaidOut(frame, nodes) && g in frame.below && g.window != null
    ensures g.window.w >= WINDOW_MIN_WIDTH - 1 && g.window.h >= WINDOW_MIN_HEIGHT
    ensures g.window.w < WINDOW_MIN_WIDTH <==> g.w == WINDOW_MIN_WIDTH && !g.right
  {
    hide Tree;
    Below(frame, g, nodes);
    Inside(g, nodes);
    MinOfPane();
    assert g.Tiles() && g.BigEnough();
  }

  /** That happens: two windows side by side in 17 columns that are not rightmost. */
  lemma SevenColumns(frame: Frame, nodes: set<Frame>)
    requires Tree(nodes) && frame in nodes && LaidOut(frame, nodes)
    requires frame.window == null && !frame.vertical && !frame.right && frame.w == 2 * WINDOW_MIN_WIDTH + 1
    requires |frame.frames| == 2 && frame.frames[0].window != null && frame.frames[1].window != null
    ensures exists i :: 0 <= i < 2 && frame.frames[i].window.w == WINDOW_MIN_WIDTH - 1
  {
    hide Tree, Sum;
    var a := Filling(frame, nodes);
    SumOfOneMore(a, 0);
    SumOfOneMore(a, 1);
    SumOfNone(a);
    assert a[..2] == a;
    hide LaidOut, Tiled;
    forall i | 0 <= i < 2
      ensures frame.frames[i].window.w < WINDOW_MIN_WIDTH <==> a[i] == WINDOW_MIN_WIDTH
      ensures frame.frames[i].window.w >= WINDOW_MIN_WIDTH - 1 && a[i] >= WINDOW_MIN_WIDTH
    {
      NarrowPart(frame, nodes, i);
    }
  }

  lemma NarrowPart(frame: Frame, nodes: set<Frame>, i: nat)
    requires Tree(nodes) && frame in nodes && LaidOut(frame, nodes) && !frame.right && !frame.vertical
    requires i < |frame.frames| && frame.frames[i].window != null
    ensures var f := frame.frames[i];
      && f.w >= WINDOW_MIN_WIDTH && f.window.w >= WINDOW_MIN_WIDTH - 1
      && (f.window.w < WINDOW_MIN_WIDTH <==> f.w == WINDOW_MIN_WIDTH)
  {
    hide Tree;
    var f := frame.frames[i];
    PartOf(frame, i, nodes);
    WindowRoom(frame, nodes, f);
    Inside(f, nodes);
    MinOfPane();
    assert f.BigEnough();
    assert !f.right by {
      var j := InParent(f, nodes);
    }
  }
}
