/** The room that frames need while the frames in them change. */
module FrameNeeds {
  import opened Sharing
  import opened Frames
  import opened FramePlans

  /** The second frame needs no more room than the first. */
  ghost predicate NeedsNoMore(s: Shape, t: Shape) {
    forall height :: Min(t, height) <= Min(s, height)
  }

  /** What is left of a frame without one of the frames in it; a single frame takes its place. */
  function ShapeLeft(s: Shape, k: nat): Shape
    requires s.Split? && k < |s.parts|
  {
    var rest := s.parts[..k] + s.parts[k + 1..];
    if |rest| == 1 then rest[0] else Split(s.vertical, rest)
  }

  lemma LeftNeedsNoMore(p: Plan, k: nat)
    requires Distinct(p) && p.SplitOf? && k < |p.parts| && |p.parts| > 1
    ensures NeedsNoMore(ShapeOf(p), ShapeOf(WithoutPart(p, k)))
    ensures var q := WithoutPart(p, k);
      ShapeLeft(ShapeOf(p), k) == ShapeOf(if |p.parts| == 2 then q.parts[0] else q)
    ensures NeedsNoMore(ShapeOf(p), ShapeLeft(ShapeOf(p), k))
  {
    hide Min;
    var q := WithoutPart(p, k);
    RemovedPart(p, k);
    ShapeWithout(p, k);
    assert |p.parts| == 2 ==> ShapeOf(q).parts[0] == ShapeOf(q.parts[0]);
    forall height | true
      ensures Min(ShapeOf(q), height) <= Min(ShapeOf(p), height)
      ensures Min(ShapeOf(q.parts[0]), height) <= Min(ShapeOf(q), height)
    {
      LessNeedsLess(p, k, height);
      PartNeedsLess(q, 0, height);
    }
  }

  lemma ShapeWithPart(p: Plan, k: nat, r: Plan)
    requires p.SplitOf? && k < |p.parts|
    ensures ShapeOf(p).Split? && |ShapeOf(p).parts| == |p.parts| && ShapeOf(p).parts[k] == ShapeOf(p.parts[k])
    ensures ShapeOf(WithPart(p, k, r)) == Split(p.vertical, ShapeOf(p).parts[k := ShapeOf(r)])
  {
  }

  lemma MaxOfLess(a: seq<int>, k: nat, x: int)
    requires k < |a| && x <= a[k]
    ensures Max(a[k := x]) <= Max(a)
  {
  }

  /** A frame with a part in it that needs no more than the one before needs no more. */
  lemma WithPartNeedsNoMore(p: Plan, k: nat, r: Plan)
    requires p.SplitOf? && k < |p.parts| && NeedsNoMore(ShapeOf(p.parts[k]), ShapeOf(r))
    ensures NeedsNoMore(ShapeOf(p), ShapeOf(WithPart(p, k, r)))
  {
    ShapeWithPart(p, k, r);
    hide Min, ShapeOf, Max, Sum;
    var s, t := ShapeOf(p), ShapeOf(WithPart(p, k, r));
    forall height | true ensures Min(t, height) <= Min(s, height) {
      MinOfSplit(s, height);
      MinOfSplit(t, height);
      var a, x := Mins(s.parts, height), Min(ShapeOf(r), height);
      assert Mins(t.parts, height) == a[k := x];
      MaxOfLess(a, k, x);
      SumUpdate(a, k, x);
    }
  }

  lemma {:induction false} UpdateNeedsNoMore(p: Plan, f: Frame, q: Plan)
    requires Distinct(p) && f in Nodes(p) && q.frame == f && NeedsNoMore(ShapeOf(At(p, f)), ShapeOf(q))
    ensures NeedsNoMore(ShapeOf(p), ShapeOf(Update(p, f, q)))
    decreases p
  {
    hide Min, ShapeOf, Nodes, NeedsNoMore;
    if p.frame != f {
      var k := Index(p, f);
      PartNodes(p, k);
      UpdateNeedsNoMore(p.parts[k], f, q);
      WithPartNeedsNoMore(p, k, Update(p.parts[k], f, q));
    }
  }

  /** Some frames of a tree need no more room in another one. */
  ghost predicate Eased(p: Plan, q: Plan, s: set<Frame>) {
    && Distinct(p) && Distinct(q) && s <= Nodes(p) && s <= Nodes(q)
    && forall g <- s :: NeedsNoMore(ShapeOf(At(p, g)), ShapeOf(At(q, g)))
  }

  lemma EasedFrames(p: Plan, q: Plan, s: set<Frame>)
    requires Eased(p, q, s)
    ensures Distinct(p) && s <= Nodes(p)
  {
  }

  lemma EasedTwice(p: Plan, q: Plan, r: Plan, s: set<Frame>)
    requires Eased(p, q, s) && Eased(q, r, s)
    ensures Eased(p, r, s)
  {
    hide Min, ShapeOf, Nodes, Distinct;
    forall g | g in s ensures NeedsNoMore(ShapeOf(At(p, g)), ShapeOf(At(r, g))) {
      var a, b, c := ShapeOf(At(p, g)), ShapeOf(At(q, g)), ShapeOf(At(r, g));
      forall height | true ensures Min(c, height) <= Min(a, height) {
        assert Min(c, height) <= Min(b, height) <= Min(a, height);
      }
    }
  }

  /** A part that needs no more room eases everything around it. */
  lemma UpdateEases(p: Plan, f: Frame, q: Plan)
    requires Distinct(p) && f in Nodes(p) && Replaces(p, f, q) && NeedsNoMore(ShapeOf(At(p, f)), ShapeOf(q))
    ensures Eased(p, Update(p, f, q), Around(p, f) + {f}) && Eased(p, Update(p, f, q), Around(p, f))
  {
    hide Min, ShapeOf, Nodes, Distinct, NeedsNoMore;
    UpdateNodes(p, f, q);
    AtUpdated(p, f, q);
    forall g | g in Around(p, f)
      ensures g in Nodes(Update(p, f, q)) && NeedsNoMore(ShapeOf(At(p, g)), ShapeOf(At(Update(p, f, q), g)))
    {
      UpdateEasesOne(p, f, q, g);
    }
  }

  lemma {:induction false} UpdateEasesOne(p: Plan, f: Frame, q: Plan, g: Frame)
    requires Distinct(p) && f in Nodes(p) && Replaces(p, f, q) && NeedsNoMore(ShapeOf(At(p, f)), ShapeOf(q))
    requires g in Around(p, f)
    ensures Distinct(Update(p, f, q)) && g in Nodes(Update(p, f, q))
    ensures NeedsNoMore(ShapeOf(At(p, g)), ShapeOf(At(Update(p, f, q), g)))
    decreases p
  {
    hide Min, ShapeOf;
    StaysAround(p, f, q, g);
    if g == p.frame {
      UpdateNeedsNoMore(p, f, q);
    } else {
      PlaceStays(p, f, q, g);
      var k, i := Index(p, f), Index(p, g);
      hide Nodes, Panes, Distinct, Replaces, NeedsNoMore;
      if i == k {
        UpdateEasesOne(p.parts[k], f, q, g);
      } else {
        SameShape(ShapeOf(At(p, g)));
      }
    }
  }

  lemma SameShape(s: Shape)
    ensures NeedsNoMore(s, s)
  {
  }

  /** So does a part of a part that takes the place of it. */
  lemma WithPartEases(p: Plan, u: Frame, k: nat, c: Plan, s: set<Frame>)
    requires Distinct(p) && u in Nodes(p) && At(p, u).SplitOf? && k < |At(p, u).parts|
    requires Replaces(p, u, WithPart(At(p, u), k, c)) && NeedsNoMore(ShapeOf(At(p, u).parts[k]), ShapeOf(c))
    requires s <= Nodes(p) && s !! Nodes(At(p, u).parts[k])
    ensures Eased(p, Update(p, u, WithPart(At(p, u), k, c)), s)
  {
    hide Min, ShapeOf, Nodes, Distinct, NeedsNoMore;
    var a := At(p, u);
    var q := WithPart(a, k, c);
    var r := Update(p, u, q);
    WithPartNeedsNoMore(a, k, c);
    UpdateEases(p, u, q);
    UpdateNodes(p, u, q);
    forall g | g in s ensures g in Nodes(r) && NeedsNoMore(ShapeOf(At(p, g)), ShapeOf(At(r, g))) {
      if g in Around(p, u) || g == u {
        assert g in Around(p, u) + {u};
      } else {
        BesidePart(p, u, k, c, g);
        SameShape(ShapeOf(At(p, g)));
      }
    }
  }

  /** The parts beside a part stay as they are when it is replaced. */
  lemma BesidePart(p: Plan, u: Frame, k: nat, c: Plan, g: Frame)
    requires Distinct(p) && u in Nodes(p) && At(p, u).SplitOf? && k < |At(p, u).parts|
    requires Replaces(p, u, WithPart(At(p, u), k, c))
    requires g in Nodes(At(p, u)) && g != u && g !in Nodes(At(p, u).parts[k])
    ensures var r := Update(p, u, WithPart(At(p, u), k, c));
      g in Nodes(p) && Distinct(r) && g in Nodes(r) && At(r, g) == At(p, g)
  {
    hide Panes;
    var a := At(p, u);
    var q := WithPart(a, k, c);
    var r := Update(p, u, q);
    UpdateNodes(p, u, q);
    PartNodesChange(a, k, c);
    AtUpdated(p, u, q);
    var i := Index(a, g);
    hide Nodes, Distinct, Replaces;
    AtPart(a, i, g);
    AtPart(q, i, g);
    AtAt(p, u, g);
    AtAt(r, u, g);
  }
}
