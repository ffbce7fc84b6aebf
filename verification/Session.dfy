/** Whole runs of commands: the undo tree does what the editor on whole texts does. */
module Sessions {
  import opened Bytes
  import opened Records
  import opened Edit
  import opened ChangeTrees
  import opened Editors
  import opened Commands
  import opened LineStates

  /** A version is what there is at a node. */
  ghost predicate Shows(t: ChangeTree, made: seq<Change>, n: Change, v: Version)
    requires t.Tree() && t.Chained() && t.cur in t.nodes && !t.cur.open && n in t.nodes && !n.open
    reads t, t.nodes
  {
    && v.text == n.text && v.parent < |made| && |v.branches| == |n.prev|
    && (if n.next == null then made[v.parent] == n && v.undoAt == v.redoAt == 0 else
          && made[v.parent] == t.Above(n)
          && v.undoAt == t.UndoPlace(n) && v.redoAt == t.RedoPlace(n))
    && forall k :: 0 <= k < |v.branches| ==>
         v.branches[k] < |made| && made[v.branches[k]] == t.BranchOf(n, k)
  }

  /** A tree, and the editor whose versions are the nodes in `made`. */
  datatype Picture = Picture(tree: ChangeTree, made: seq<Change>, editor: Editor) {
    /** The nodes outside of chains are numbered. */
    ghost predicate Numbered()
      reads tree, tree.nodes
    {
      && |made| == |editor.versions| && made != [] && made[0] == tree.root
      && (forall i :: 0 <= i < |made| ==> made[i] in tree.nodes && !made[i].open)
      && (forall i, j :: 0 <= i < j < |made| ==> made[i] != made[j])
      && (forall n :: n in tree.nodes && !n.open ==> n in made)
    }

    ghost predicate Rests()
      reads tree, tree.nodes
    {
      && tree.Tree() && tree.Chained() && tree.cur in tree.nodes && !tree.cur.open && Numbered()
      && editor.cur < |made| && made[editor.cur] == tree.cur
    }

    ghost predicate Drawn()
      reads tree, tree.nodes
    {
      editor.Valid() && Rests() && forall i :: 0 <= i < |made| ==> Shows(tree, made, made[i], editor.versions[i])
    }
  }

  /** A node that has not changed still shows what it showed. */
  twostate lemma StillShows(p: Picture, new i: nat)
    requires old(p.Drawn()) && p.tree.Tree() && p.tree.Chained() && p.tree.ChainsKept()
    requires p.tree.cur in p.tree.nodes && !p.tree.cur.open && i < |p.made|
    requires p.made[i] in p.tree.nodes && p.made[i].prev == old(p.made[i].prev) && p.made[i].text == old(p.made[i].text)
    requires p.made[i].offset == old(p.made[i].offset) && p.made[i].BackAt() == old(p.made[i].BackAt())
    ensures !p.made[i].open && Shows(p.tree, p.made, p.made[i], p.editor.versions[i])
  {
    hide ChangeTree.Tree, ChangeTree.Chained, ChangeTree.Above, ChangeTree.UndoPlace, ChangeTree.RedoPlace;
    hide ChangeTree.BranchOf, Editor.Valid;
    p.tree.KeptPlaces(p.made[i]);
    assert old(Shows(p.tree, p.made, p.made[i], p.editor.versions[i]));
  }

  /** Undoing and redoing lead from version to version. */
  twostate lemma WalkIsDrawn(p: Picture)
    requires old(p.Drawn()) && p.tree.Walked() && p.tree.Tree() && p.tree.Chained()
    requires p.tree.cur in p.tree.nodes && !p.tree.cur.open
    ensures forall e: Editor ::
      e.Valid() && e.versions == p.editor.versions && e.cur < |p.made| && p.made[e.cur] == p.tree.cur ==>
        Picture(p.tree, p.made, e).Drawn()
  {
    hide Editor.Valid, Shows, ChangeTree.ChainsKept;
    var t := p.tree;
    t.WalkKeepsChains();
    hide ChangeTree.Tree, ChangeTree.Chained;
    forall i | 0 <= i < |p.made| ensures !p.made[i].open && Shows(t, p.made, p.made[i], p.editor.versions[i]) {
      assert old(Shows(t, p.made, p.made[i], p.editor.versions[i]));
      StillShows(p, i);
    }
  }

  twostate lemma WasDrawn(p: Picture)
    requires old(p.Drawn())
    ensures old(p.tree.Tree() && p.tree.Chained() && p.tree.cur in p.tree.nodes && !p.tree.cur.open)
    ensures p.editor.Valid() && p.editor.cur < |p.editor.versions| == |p.made|
    ensures p.made[p.editor.cur] == old(p.tree.cur)
    ensures old(Shows(p.tree, p.made, p.tree.cur, p.editor.versions[p.editor.cur]))
  {
  }

  /** The node that gets a new branch keeps all the others. */
  twostate lemma HeadKept(t: ChangeTree)
    requires old(t.Tree() && t.Chained() && t.cur in t.nodes && !t.cur.open) && Branched(t)
    ensures old(t.cur) in t.nodes && !old(t.cur).open
    ensures var n := old(t.cur); n.text == old(n.text) && n.next == old(n.next) && |n.prev| == |old(n.prev)| + 1
    ensures var n := old(t.cur); n.next != null ==>
      t.Above(n) == old(t.Above(n)) && t.UndoPlace(n) == old(t.UndoPlace(n)) && t.RedoPlace(n) == old(t.RedoPlace(n))
    ensures var n := old(t.cur); forall k :: 0 <= k < |old(n.prev)| ==> t.BranchOf(n, k) == old(t.BranchOf(n, k))
    ensures var n := old(t.cur); t.BranchOf(n, |old(n.prev)|) == t.cur
  {
    t.GrowthKeepsChains();
    hide ChangeTree.Tree, ChangeTree.Chained, ChangeTree.Above, ChangeTree.UndoPlace, ChangeTree.RedoPlace;
    hide ChangeTree.BranchOf, ChangeTree.ChainsKept;
    var n := old(t.cur);
    t.KeptPlaces(n);
    forall k | 0 <= k < |old(n.prev)| ensures t.BranchOf(n, k) == old(t.BranchOf(n, k)) {
      assert n.prev[k] == n.prev[..|old(n.prev)|][k] == old(n.prev[k]);
    }
  }

  /** The current version gets a new branch. */
  twostate lemma ShowsBranch(p: Picture)
    requires old(p.Drawn()) && Branched(p.tree)
    ensures old(p.tree.cur) in p.tree.nodes
    ensures p.editor.cur < |p.editor.versions|
    ensures var v := p.editor.versions[p.editor.cur];
      Shows(p.tree, p.made + [p.tree.cur], old(p.tree.cur), v.(branches := v.branches + [|p.made|]))
  {
    var t := p.tree;
    hide ChangeTree.Tree, ChangeTree.Chained, ChangeTree.Above, ChangeTree.UndoPlace, ChangeTree.RedoPlace;
    hide ChangeTree.BranchOf, Picture.Drawn;
    WasDrawn(p);
    HeadKept(t);
    assert t.Tree() && t.Chained() && t.cur in t.nodes && !t.cur.open;
    hide Branched;
    var n, v := old(t.cur), p.editor.versions[p.editor.cur];
    var made, w := p.made + [t.cur], v.(branches := v.branches + [|p.made|]);
    assert made[v.parent] == p.made[v.parent];
    forall k | 0 <= k < |w.branches| ensures w.branches[k] < |made| && made[w.branches[k]] == t.BranchOf(n, k) {
    }
  }

  lemma ShowsMore(t: ChangeTree, made: seq<Change>, more: seq<Change>, n: Change, v: Version)
    requires t.Tree() && t.Chained() && t.cur in t.nodes && !t.cur.open && n in t.nodes && !n.open
    requires Shows(t, made, n, v)
    ensures Shows(t, made + more, n, v)
  {
  }

  /** A new node is a new version. */
  twostate lemma BranchIsDrawn(p: Picture)
    requires old(p.Drawn()) && Branched(p.tree)
    ensures p.editor.cur < |p.editor.versions|
    ensures var c := p.tree.cur; forall e: Editor ::
      && e.Valid() && e.cur == |p.made|
      && e.versions == WithBranch(p.editor.versions, p.editor.cur, c.text, p.tree.UndoPlace(c), p.tree.RedoPlace(c)) ==>
        Picture(p.tree, p.made + [c], e).Drawn()
  {
    var t, made := p.tree, p.made + [p.tree.cur];
    BranchNumbered(p);
    ShowsBranch(p);
    hide ChangeTree.Tree, ChangeTree.Chained, ChangeTree.Above, ChangeTree.UndoPlace, ChangeTree.RedoPlace;
    hide ChangeTree.BranchOf, Editor.Valid, Shows, ChangeTree.ChainsKept, Branched, Picture.Drawn, Picture.Numbered;
    var vs := WithBranch(p.editor.versions, p.editor.cur, t.cur.text, t.UndoPlace(t.cur), t.RedoPlace(t.cur));
    forall i | 0 <= i < |made| ensures made[i] in t.nodes && !made[i].open && Shows(t, made, made[i], vs[i]) {
      if i == |p.made| {
        ShowsNew(t, made, vs[i]);
      } else if i != p.editor.cur {
        BranchedOther(p, i);
      }
    }
  }

  twostate lemma BranchNumbered(p: Picture)
    requires old(p.Drawn()) && Branched(p.tree)
    ensures p.tree.Tree() && p.tree.Chained() && p.tree.cur in p.tree.nodes && !p.tree.cur.open
    ensures p.tree.cur.next != null && p.tree.cur.prev == []
    ensures |p.made| == |p.editor.versions| && p.editor.cur < |p.made| && p.made[p.editor.cur] == old(p.tree.cur)
    ensures p.tree.Above(p.tree.cur) == old(p.tree.cur)
    ensures var made := p.made + [p.tree.cur];
      && (forall e: Editor :: |e.versions| == |made| ==> Picture(p.tree, made, e).Numbered())
      && forall i :: 0 <= i < |made| ==> made[i] in p.tree.nodes && !made[i].open
  {
    hide ChangeTree.Tree, ChangeTree.Chained, ChangeTree.Above, ChangeTree.BranchOf, Shows, Editor.Valid;
  }

  twostate lemma BranchedOther(p: Picture, new i: nat)
    requires old(p.Drawn()) && Branched(p.tree) && i < |p.made| == |p.editor.versions| && i != p.editor.cur
    ensures p.made[i] in p.tree.nodes && !p.made[i].open
    ensures Shows(p.tree, p.made + [p.tree.cur], p.made[i], p.editor.versions[i])
  {
    hide Shows, ChangeTree.ChainsKept, ChangeTree.BranchOf, ChangeTree.Above, Editor.Valid;
    p.tree.GrowthKeepsChains();
    hide ChangeTree.Tree, ChangeTree.Chained;
    StillShows(p, i);
    ShowsMore(p.tree, p.made, [p.tree.cur], p.made[i], p.editor.versions[i]);
  }

  lemma ShowsNew(t: ChangeTree, made: seq<Change>, v: Version)
    requires t.Tree() && t.Chained() && t.cur in t.nodes && !t.cur.open && t.cur.next != null && t.cur.prev == []
    requires v.text == t.cur.text && v.branches == [] && v.parent < |made| && made[v.parent] == t.Above(t.cur)
    requires v.undoAt == t.UndoPlace(t.cur) && v.redoAt == t.RedoPlace(t.cur)
    ensures Shows(t, made, t.cur, v)
  {
  }

  /** A node that takes more in is the same version, with another text. */
  twostate lemma MergeIsDrawn(p: Picture)
    requires old(p.Drawn()) && p.tree.RecordedEdit(true) && p.tree.cur.BackAt() == old(p.tree.cur.BackAt())
    ensures p.editor.cur < |p.editor.versions|
    ensures var c := p.tree.cur; forall e: Editor ::
      && e.Valid() && e.cur == p.editor.cur
      && e.versions == WithText(p.editor.versions, p.editor.cur, c.text, c.offset) ==>
        Picture(p.tree, p.made, e).Drawn()
  {
    var t := p.tree;
    MergedHead(p);
    StaysNumbered(p);
    hide ChangeTree.RecordedEdit, Picture.Drawn, Picture.Numbered, Editor.Valid, Shows;
    var vs := WithText(p.editor.versions, p.editor.cur, t.cur.text, t.cur.offset);
    forall i | 0 <= i < |p.made|
      ensures p.made[i] in t.nodes && !p.made[i].open && Shows(t, p.made, p.made[i], vs[i])
    {
      if i != p.editor.cur {
        MergedOther(p, i);
      }
    }
  }

  twostate lemma StaysNumbered(p: Picture)
    requires old(p.Drawn()) && p.tree.RecordedEdit(true)
    ensures p.tree.Tree() && p.tree.Chained() && p.tree.cur in p.tree.nodes && !p.tree.cur.open
    ensures |p.made| == |p.editor.versions|
    ensures forall e: Editor :: |e.versions| == |p.editor.versions| ==> Picture(p.tree, p.made, e).Numbered()
    ensures forall i :: 0 <= i < |p.made| ==> p.made[i] in p.tree.nodes && !p.made[i].open
  {
    hide ChangeTree.Tree, ChangeTree.Chained, ChangeTree.OnPath, ChangeTree.Recorded, View.Valid, View.Text, Shows;
  }

  twostate lemma MergedOther(p: Picture, new i: nat)
    requires old(p.Drawn()) && p.tree.RecordedEdit(true) && i < |p.made| == |p.editor.versions| && i != p.editor.cur
    ensures p.made[i] in p.tree.nodes && !p.made[i].open
    ensures Shows(p.tree, p.made, p.made[i], p.editor.versions[i])
  {
    hide Shows, ChangeTree.ChainsKept, ChangeTree.OnPath, ChangeTree.Recorded, View.Valid, View.Text;
    p.tree.MergingKeepsChains();
    hide ChangeTree.Tree, ChangeTree.Chained;
    StillShows(p, i);
  }

  twostate lemma MergedHead(p: Picture)
    requires old(p.Drawn()) && p.tree.RecordedEdit(true) && p.tree.cur.BackAt() == old(p.tree.cur.BackAt())
    ensures p.editor.cur < |p.editor.versions| == |p.made| && p.made[p.editor.cur] == p.tree.cur && !p.tree.cur.open
    ensures var v := p.editor.versions[p.editor.cur];
      Shows(p.tree, p.made, p.tree.cur, v.(text := p.tree.cur.text, redoAt := p.tree.cur.offset))
  {
    var t := p.tree;
    hide Picture.Drawn;
    WasDrawn(p);
    t.MergingKeepsChains();
    hide ChangeTree.Tree, ChangeTree.Chained, ChangeTree.ChainsKept;
    t.KeptPlaces(t.cur);
  }

  ghost predicate Faithful(p: Picture)
    reads p.tree, p.tree.nodes, p.tree.barrier, p.tree.view, p.tree.view.Repr
  {
    && Ready(p.tree) && p.Drawn()
    && p.editor.at == p.tree.view.At() && p.editor.merge == p.tree.prevMerge
  }

  lemma AtHead(p: Picture)
    requires Faithful(p)
    ensures p.editor.Valid() && p.editor.cur < |p.editor.versions| == |p.made| && p.made[p.editor.cur] == p.tree.cur
    ensures p.tree.view.Text() == p.tree.cur.text == p.editor.Text() == p.editor.versions[p.editor.cur].text
    ensures p.editor.at == p.tree.view.At() && p.editor.merge == p.tree.prevMerge && Ready(p.tree)
    ensures p.tree.cur.next != null && !p.tree.cur.IsBarrier() ==>
      p.editor.versions[p.editor.cur].redoAt == p.tree.cur.offset
    ensures p.tree.cur.next != null && p.tree.cur.moveAfter ==> |p.tree.cur.text| <= |p.tree.cur.next.text|
    ensures p.tree.prevMerge == MergeInsert ==>
      p.tree.cur.next != null && !p.tree.cur.IsBarrier() && !p.tree.cur.moveAfter
  {
    hide Edge, View.Valid, View.Text, View.At;
    if p.tree.cur.next != null {
      p.tree.HereIsStored();
      p.tree.ErasureIsShorter();
    }
  }

  /** The next typed edit of the same kind could go into the current node. */
  ghost predicate MayMerge(t: ChangeTree)
    requires t.view.Valid()
    reads t, t.view, t.view.Repr
  {
    || t.prevMerge == MergeInsert
    || (t.prevMerge == MergeDelete && t.view.At() < |t.view.Text()|)
    || (t.prevMerge == MergeErase && t.view.At() > 0)
  }

  /**
   * No node is ever lost, moved, or given another text, save that the leaf
   * being typed into takes in what is typed.
   */
  twostate predicate Kept(t: ChangeTree)
    requires old(t.view.Valid()) && t.view.Valid()
    reads t, t.nodes, t.view, t.view.Repr
  {
    && old(t.nodes) <= t.nodes && fresh(t.nodes - old(t.nodes))
    && (forall n :: n in old(t.nodes) ==>
          && n in t.nodes && n.next == old(n.next)
          && (n.text == old(n.text) || (n == old(t.cur) && old(MayMerge(t)))))
    && (MayMerge(t) ==> t.cur !in old(t.nodes) || (t.cur == old(t.cur) && old(MayMerge(t))))
  }

  /** An edit is recorded in one node: the current one, or a new one below it. */
  twostate predicate OneNode(t: ChangeTree, merged: bool)
    reads t, t.nodes, t.cur
  {
    && t.nodes == old(t.nodes) + {t.cur}
    && if merged then t.cur == old(t.cur) && old(t.cur in t.nodes) && t.cur.next == old(t.cur.next) else
         t.cur !in old(t.nodes) && t.cur.next == old(t.cur)
  }

  twostate lemma EditKeeps(t: ChangeTree)
    requires old(t.Valid() && !t.inChain && t.view.Valid()) && t.view.Valid()
    requires t.RecordedEdit(false) || (t.RecordedEdit(true) && old(MayMerge(t)))
    ensures Kept(t) && fresh(t.nodes - old(t.nodes))
    ensures t.RecordedEdit(false) ==> OneNode(t, false)
    ensures t.RecordedEdit(true) ==> OneNode(t, true)
  {
  }

  twostate lemma WalkKeeps(t: ChangeTree)
    requires old(t.view.Valid()) && t.view.Valid() && t.Walked() && !MayMerge(t)
    ensures Kept(t) && t.nodes == old(t.nodes)
    ensures forall n :: n in t.nodes ==> n.next == old(n.next) && n.text == old(n.text)
  {
  }

  twostate lemma BranchKeeps(t: ChangeTree)
    requires old(t.view.Valid() && t.cur in t.nodes) && t.view.Valid() && Branched(t) && fresh(t.nodes - old(t.nodes))
    ensures Kept(t)
  {
  }

  method ExecuteType(t: ChangeTree, ch: seq<byte>, ghost p: Picture) returns (ghost q: Picture)
    requires Faithful(p) && p.tree == t
    modifies t, t.nodes, t.view.Repr
    ensures q.tree == t && Faithful(q) && q.editor == p.editor.Typed(ch) && p.made <= q.made
    ensures fresh(t.view.Repr - old(t.view.Repr)) && fresh(t.nodes - old(t.nodes)) && Kept(t)
    ensures ch != [] ==> OneNode(t, p.editor.merge == MergeInsert)
  {
    hide Edge, Terminated, Splice, View.Valid, View.Text, View.At, Editor.Valid, Picture.Drawn;
    hide ChangeTree.Tree, ChangeTree.OnPath, ChangeTree.Recorded, ChangeTree.Chained, ChangeTree.RecordedEdit;
    AtHead(p);
    q := p;
    if ch != [] {
      ghost var e := p.editor.Typed(ch);
      label before:
      TypeChar(t, ch);
      if p.editor.merge == MergeInsert {
        t.MergedBack@before();
        MergeIsDrawn@before(p);
        EditKeeps@before(t);
        q := Picture(t, p.made, e);
      } else {
        EditBranches@before(t);
        EditKeeps@before(t);
        BranchIsDrawn@before(p);
        q := Picture(t, p.made + [t.cur], e);
      }
    }
  }

  twostate lemma UntouchedIsWalked(t: ChangeTree)
    requires t.TreeUntouched()
    ensures t.Walked() && t.Tree() && t.Chained() && t.cur in t.nodes && t.cur == old(t.cur)
    ensures !t.inChain ==> !t.cur.open
  {
  }

  method ExecuteDelete(t: ChangeTree, n: nat, ghost p: Picture) returns (ghost q: Picture)
    requires Faithful(p) && p.tree == t
    modifies t, t.nodes, t.view.Repr
    ensures q.tree == t && Faithful(q) && q.editor == p.editor.Step(Delete(n)) && p.made <= q.made
    ensures fresh(t.view.Repr - old(t.view.Repr)) && Kept(t)
    ensures t.view.Text() == old(t.view.Text()) ==>
      t.nodes == old(t.nodes) && t.cur == old(t.cur) && t.cur.next == old(t.cur.next)
    ensures t.view.Text() != old(t.view.Text()) ==> OneNode(t, p.editor.merge == MergeDelete)
  {
    hide Edge, Terminated, Splice, View.Valid, View.Text, View.At, Editor.Valid, Picture.Drawn;
    hide ChangeTree.Tree, ChangeTree.OnPath, ChangeTree.Recorded, ChangeTree.Chained, Editor.Removed;
    AtHead(p);
    var size := t.view.TextSize();
    var at := t.view.GetOffset();
    q := DeleteBytes(t, Clamp(n, size - at), p);
  }

  method DeleteBytes(t: ChangeTree, len: nat, ghost p: Picture) returns (ghost q: Picture)
    requires Faithful(p) && p.tree == t && p.editor.at + len <= |p.editor.Text()|
    requires len == 0 <==> p.editor.at == |p.editor.Text()|
    modifies t, t.nodes, t.view.Repr
    ensures q.tree == t && Faithful(q) && p.made <= q.made
    ensures q.editor == p.editor.Removed(p.editor.at, len, MergeDelete)
    ensures fresh(t.view.Repr - old(t.view.Repr)) && Kept(t)
    ensures t.view.Text() == old(t.view.Text()) ==>
      t.nodes == old(t.nodes) && t.cur == old(t.cur) && t.cur.next == old(t.cur.next)
    ensures t.view.Text() != old(t.view.Text()) ==> OneNode(t, p.editor.merge == MergeDelete)
  {
    hide Edge, Terminated, Splice, View.Valid, View.Text, View.At, Editor.Valid, Picture.Drawn, Kept;
    hide ChangeTree.Tree, ChangeTree.OnPath, ChangeTree.Recorded, ChangeTree.Chained, ChangeTree.RecordedEdit;
    hide ChangeTree.TreeUntouched, ChangeTree.Walked, Editor.Removed, WithFinalNewline, OneNode;
    AtHead(p);
    ghost var e := p.editor.Removed(p.editor.at, len, MergeDelete);
    p.editor.RemovedIs(p.editor.at, len, MergeDelete);
    DeleteCh(t, len);
    if t.view.Text() == p.editor.Text() {
      UntouchedIsWalked(t);
      WalkIsDrawn(p);
      WalkKeeps(t);
      q := Picture(t, p.made, e);
    } else if p.editor.merge == MergeDelete {
      t.MergedBack();
      MergeIsDrawn(p);
      EditKeeps(t);
      q := Picture(t, p.made, e);
    } else {
      EditBranches(t);
      EditKeeps(t);
      BranchIsDrawn(p);
      q := Picture(t, p.made + [t.cur], e);
    }
  }

  method ExecuteErase(t: ChangeTree, n: nat, ghost p: Picture) returns (ghost q: Picture)
    requires Faithful(p) && p.tree == t
    modifies t, t.nodes, t.view.Repr
    ensures q.tree == t && Faithful(q) && q.editor == p.editor.Step(Erase(n)) && p.made <= q.made
    ensures fresh(t.view.Repr - old(t.view.Repr)) && Kept(t)
    ensures t.view.Text() == old(t.view.Text()) ==>
      t.nodes == old(t.nodes) && t.cur == old(t.cur) && t.cur.next == old(t.cur.next)
    ensures t.view.Text() != old(t.view.Text()) ==> OneNode(t, p.editor.merge == MergeErase)
  {
    hide Edge, Terminated, Splice, View.Valid, View.Text, View.At, Editor.Valid, Picture.Drawn, EraseSize;
    hide ChangeTree.Tree, ChangeTree.OnPath, ChangeTree.Recorded, ChangeTree.Chained, Editor.Removed;
    AtHead(p);
    var len := EraseLength(t, n);
    q := EraseBytes(t, len, p);
  }

  method EraseBytes(t: ChangeTree, len: nat, ghost p: Picture) returns (ghost q: Picture)
    requires Faithful(p) && p.tree == t && p.editor.MayErase(len)
    modifies t, t.nodes, t.view.Repr
    ensures q.tree == t && Faithful(q) && p.made <= q.made
    ensures q.editor == p.editor.Erased(len)
    ensures fresh(t.view.Repr - old(t.view.Repr)) && Kept(t)
    ensures t.view.Text() == old(t.view.Text()) ==>
      t.nodes == old(t.nodes) && t.cur == old(t.cur) && t.cur.next == old(t.cur.next)
    ensures t.view.Text() != old(t.view.Text()) ==> OneNode(t, p.editor.merge == MergeErase)
  {
    hide Edge, Terminated, Splice, View.Valid, View.Text, View.At, Editor.Valid, Picture.Drawn, Kept;
    hide ChangeTree.Tree, ChangeTree.OnPath, ChangeTree.Recorded, ChangeTree.Chained, ChangeTree.RecordedEdit;
    hide ChangeTree.TreeUntouched, ChangeTree.Walked, Editor.Erased, Erasable, WithFinalNewline, OneNode;
    AtHead(p);
    ghost var e, text := p.editor.Erased(len), p.editor.Text();
    p.editor.ErasedIs(len);
    EraseCh(t, len);
    if t.view.Text() == text {
      UntouchedIsWalked(t);
      WalkIsDrawn(p);
      WalkKeeps(t);
      q := Picture(t, p.made, e);
    } else if p.editor.merge == MergeErase {
      t.MergedBack();
      MergeIsDrawn(p);
      EditKeeps(t);
      q := Picture(t, p.made, e);
    } else {
      EditBranches(t);
      EditKeeps(t);
      BranchIsDrawn(p);
      q := Picture(t, p.made + [t.cur], e);
    }
  }

  method ExecuteEraseAt(t: ChangeTree, at: nat, n: nat, ghost p: Picture) returns (ghost q: Picture)
    requires Faithful(p) && p.tree == t
    modifies t, t.nodes, t.view.Repr
    ensures q.tree == t && Faithful(q) && q.editor == p.editor.Step(EraseAt(at, n)) && p.made <= q.made
    ensures fresh(t.view.Repr - old(t.view.Repr)) && Kept(t)
  {
    hide Edge, Terminated, Splice, View.Valid, View.Text, View.At, Editor.Valid, Picture.Drawn, Editor.ErasedAt;
    hide ChangeTree.Tree, ChangeTree.OnPath, ChangeTree.Recorded, ChangeTree.Chained;
    AtHead(p);
    var size := t.view.TextSize();
    var r := Replacement(at, n, []);
    q := EraseBytesAt(t, r.At(size), r.Del(size), p);
  }

  method EraseBytesAt(t: ChangeTree, at: nat, len: nat, ghost p: Picture) returns (ghost q: Picture)
    requires Faithful(p) && p.tree == t && p.editor.Valid() && at + len <= |p.editor.Text()|
    modifies t, t.nodes, t.view.Repr
    ensures q.tree == t && Faithful(q) && q.editor == p.editor.ErasedAt(at, len) && p.made <= q.made
    ensures fresh(t.view.Repr - old(t.view.Repr)) && Kept(t)
  {
    hide Edge, Terminated, Splice, View.Valid, View.Text, View.At, Editor.Valid, Picture.Drawn, Kept;
    hide ChangeTree.Tree, ChangeTree.OnPath, ChangeTree.Recorded, ChangeTree.Chained, ChangeTree.RecordedEdit;
    hide ChangeTree.TreeUntouched, ChangeTree.Walked, Editor.ErasedAt, WithFinalNewline;
    AtHead(p);
    ghost var e, text := p.editor.ErasedAt(at, len), p.editor.Text();
    p.editor.ErasedAtIs(at, len);
    EraseAllAt(t, at, len);
    if t.view.Text() == text {
      UntouchedIsWalked(t);
      WalkIsDrawn(p);
      WalkKeeps(t);
      q := Picture(t, p.made, e);
    } else {
      EditBranches(t);
      EditKeeps(t);
      BranchIsDrawn(p);
      q := Picture(t, p.made + [t.cur], e);
    }
  }

  method EraseLength(t: ChangeTree, n: nat) returns (len: nat)
    requires Ready(t)
    ensures len == EraseSize(t.view.Text(), t.view.At(), n)
  {
    hide Edge, Terminated, Splice, View.Valid, View.Text, View.At;
    hide ChangeTree.Tree, ChangeTree.OnPath, ChangeTree.Recorded, ChangeTree.Chained;
    var at := t.view.GetOffset();
    len := Clamp(n, at);
    var bytes := t.view.BytesBefore(len);
    if len > 1 && NL in bytes {
      len := 1;
    }
  }

  method ExecuteReplace(t: ChangeTree, r: Replacement, ghost p: Picture) returns (ghost q: Picture)
    requires Faithful(p) && p.tree == t
    modifies t, t.nodes, t.view.Repr
    ensures q.tree == t && Faithful(q) && q.editor == p.editor.Replaced(r) && p.made <= q.made
    ensures fresh(t.view.Repr - old(t.view.Repr)) && Kept(t)
  {
    hide Edge, Terminated, Splice, View.Valid, View.Text, View.At, Editor.Valid, Picture.Drawn;
    hide ChangeTree.Tree, ChangeTree.OnPath, ChangeTree.Recorded, ChangeTree.Chained, ChangeTree.RecordedEdit;
    hide ChangeTree.TreeUntouched, ChangeTree.Walked, WithFinalNewline;
    AtHead(p);
    var size := t.view.TextSize();
    ghost var e := p.editor.Replaced(r);
    label before:
    ReplaceAt(t, r.At(size), r.Del(size), r.ins);
    if r.Records(p.editor.Text()) {
      EditBranches@before(t);
      BranchKeeps@before(t);
      BranchIsDrawn@before(p);
      q := Picture(t, p.made + [t.cur], e);
    } else {
      UntouchedIsWalked@before(t);
      WalkIsDrawn@before(p);
      WalkKeeps@before(t);
      q := Picture(t, p.made, e);
    }
  }

  method ExecuteReplaceAll(t: ChangeTree, rs: seq<Replacement>, ghost p: Picture) returns (ghost q: Picture)
    requires Faithful(p) && p.tree == t
    modifies t, t.nodes, t.view.Repr
    ensures q.tree == t && Faithful(q) && q.editor == p.editor.ReplacedAll(rs) && p.made <= q.made
    ensures fresh(t.view.Repr - old(t.view.Repr)) && Kept(t)
  {
    hide Edge, Terminated, Splice, View.Valid, View.Text, View.At, Editor.Valid, Picture.Drawn;
    hide ChangeTree.Tree, ChangeTree.OnPath, ChangeTree.Recorded, ChangeTree.Chained;
    hide ChangeTree.TreeUntouched, ChangeTree.Walked, Branched, AfterAll;
    AtHead(p);
    ghost var e := p.editor.ReplacedAll(rs);
    label before:
    ghost var s := ReplaceChain(t, rs);
    ReadyTree(t);
    if s.recorded {
      BranchKeeps@before(t);
      BranchIsDrawn@before(p);
      q := Picture(t, p.made + [t.cur], e);
    } else {
      WalkIsDrawn@before(p);
      WalkKeeps@before(t);
      q := Picture(t, p.made, e);
    }
  }

  lemma ReadyTree(t: ChangeTree)
    requires Ready(t)
    ensures t.Tree() && t.Chained() && t.cur in t.nodes && !t.cur.open && t.view.Text() == t.cur.text
    ensures t.root in t.nodes && t.root.next == null && !t.root.open
  {
  }

  method ExecuteMove(t: ChangeTree, to: nat, ghost p: Picture) returns (ghost q: Picture)
    requires Faithful(p) && p.tree == t
    modifies t, t.nodes, t.view.Repr
    ensures q.tree == t && Faithful(q) && q.editor == p.editor.Step(Move(to)) && p.made <= q.made
    ensures fresh(t.view.Repr - old(t.view.Repr)) && Kept(t)
  {
    hide Edge, Terminated, Splice, View.Valid, View.Text, View.At, Editor.Valid, Picture.Drawn;
    hide ChangeTree.Tree, ChangeTree.OnPath, ChangeTree.Recorded, ChangeTree.Chained;
    hide ChangeTree.TreeUntouched, ChangeTree.Walked;
    AtHead(p);
    var size := t.view.TextSize();
    ghost var e := p.editor.Step(Move(to));
    label before:
    MoveTo(t, if to < size then to else size);
    UntouchedIsWalked@before(t);
    WalkIsDrawn@before(p);
    WalkKeeps@before(t);
    q := Picture(t, p.made, e);
  }

  method ExecuteUndo(t: ChangeTree, ghost p: Picture) returns (more: bool, ghost q: Picture)
    requires Faithful(p) && p.tree == t
    modifies t, t.nodes, t.view.Repr
    ensures q.tree == t && Faithful(q) && q.editor == p.editor.Undone() && p.made == q.made
    ensures t.nodes == old(t.nodes) && forall n :: n in t.nodes ==> n.next == old(n.next) && n.text == old(n.text)
    ensures more <==> p.editor.cur != 0
    ensures fresh(t.view.Repr - old(t.view.Repr)) && Kept(t)
  {
    hide Edge, Terminated, Splice, View.Valid, View.Text, View.At, Editor.Valid, Picture.Drawn;
    hide ChangeTree.Tree, ChangeTree.OnPath, ChangeTree.Recorded, ChangeTree.Chained;
    hide ChangeTree.Walked, ChangeTree.Above, ChangeTree.UndoPlace;
    AtHead(p);
    UndoShown(p);
    ghost var e := p.editor.Undone();
    label before:
    more := UndoCommand(t);
    ReadyTree(t);
    WalkIsDrawn@before(p);
    WalkKeeps@before(t);
    q := Picture(t, p.made, e);
  }

  /** Where an undo leads in the picture. */
  lemma UndoShown(p: Picture)
    requires Faithful(p)
    ensures p.editor.Valid() && (p.tree.cur == p.tree.root <==> p.editor.cur == 0)
    ensures p.tree.cur != p.tree.root ==> p.tree.cur.next != null
    ensures p.editor.Undone().cur < |p.made|
    ensures p.tree.cur != p.tree.root ==>
      p.made[p.editor.Undone().cur] == p.tree.UndoTarget() && p.editor.Undone().at == p.tree.UndoPlace(p.tree.cur)
  {
    hide Edge, View.Valid, View.Text, View.At, ChangeTree.OnPath, ChangeTree.Recorded;
    p.tree.AroundNode(p.tree.cur);
    hide ChangeTree.Tree, ChangeTree.Chained, ChangeTree.Above, ChangeTree.UndoPlace;
    assert p.editor.Linked(p.editor.cur);
    assert Shows(p.tree, p.made, p.made[p.editor.cur], p.editor.versions[p.editor.cur]);
  }

  method ExecuteRedo(t: ChangeTree, id: nat, ghost p: Picture) returns (ghost q: Picture)
    requires Faithful(p) && p.tree == t
    modifies t, t.nodes, t.view.Repr
    ensures q.tree == t && Faithful(q) && q.editor == p.editor.Redone(id) && p.made <= q.made
    ensures fresh(t.view.Repr - old(t.view.Repr)) && Kept(t)
  {
    hide Edge, Terminated, Splice, View.Valid, View.Text, View.At, Editor.Valid, Picture.Drawn;
    hide ChangeTree.Tree, ChangeTree.OnPath, ChangeTree.Recorded, ChangeTree.Chained;
    hide ChangeTree.Walked, ChangeTree.BranchOf, ChangeTree.RedoPlace;
    AtHead(p);
    RedoShown(p, id);
    ghost var e := p.editor.Redone(id);
    label before:
    var ok := RedoCommand(t, id);
    ReadyTree(t);
    WalkIsDrawn@before(p);
    WalkKeeps@before(t);
    q := Picture(t, p.made, e);
    DrawnHead(q);
  }

  /** Where a redo leads in the picture. */
  lemma RedoShown(p: Picture, id: nat)
    requires Faithful(p)
    ensures p.editor.Valid() && p.editor.Choice(id) < |p.tree.cur.prev| == |p.editor.versions[p.editor.cur].branches|
    ensures p.editor.Redone(id).cur < |p.made|
    ensures p.editor.Choice(id) < 0 ==> p.editor.Redone(id).cur == p.editor.cur && p.editor.Redone(id).at == p.editor.at
    ensures p.editor.Redone(id).versions == p.editor.versions && p.editor.Redone(id).merge == MergeNone
    ensures p.editor.Choice(id) >= 0 ==> p.made[p.editor.Redone(id).cur] == p.tree.RedoBranch(p.editor.Choice(id))
    ensures p.editor.Choice(id) >= 0 ==>
      p.editor.Redone(id).at == p.editor.versions[p.editor.Redone(id).cur].redoAt
  {
    hide Edge, View.Valid, View.Text, View.At, ChangeTree.OnPath, ChangeTree.Recorded;
    hide ChangeTree.Tree, ChangeTree.Chained, ChangeTree.BranchOf;
    assert Shows(p.tree, p.made, p.made[p.editor.cur], p.editor.versions[p.editor.cur]);
  }

  lemma DrawnHead(p: Picture)
    requires p.Drawn()
    ensures p.editor.cur < |p.editor.versions|
    ensures p.tree.cur.next != null ==> p.editor.versions[p.editor.cur].redoAt == p.tree.RedoPlace(p.tree.cur)
  {
  }

  /** Drawing lines leaves everything but the cache alone, and draws each from the state that its text gives. */
  method ExecuteDraw(t: ChangeTree, first: nat, count: nat, ghost p: Picture) returns (used: seq<State>)
    requires Faithful(p) && p.tree == t
    modifies t.view.Repr
    ensures Faithful(p) && fresh(t.view.Repr - old(t.view.Repr)) && Kept(t) && p.editor.Valid()
    ensures t.view.states == null ==> used == []
    ensures t.view.states != null ==>
      && |used| <= count && (|used| == count || LineStart(p.editor.Text(), first + |used|) == |p.editor.Text()|)
      && (used != [] ==> LineStart(p.editor.Text(), first + |used| - 1) < |p.editor.Text()|)
      && forall i :: 0 <= i < |used| ==>
           used[i] == StateAt(t.view.states.step, t.view.states.start, p.editor.Text(), first + i)
  {
    hide Edge, Terminated, Splice, View.Valid, View.Text, View.At, Editor.Valid, Picture.Drawn;
    hide ChangeTree.Tree, ChangeTree.OnPath, ChangeTree.Recorded, ChangeTree.Chained;
    AtHead(p);
    used := [];
    if t.view.states != null {
      used := t.view.DrawLines(first, count);
    }
  }

  /** Carries out any command in any state as the editor on whole texts does. */
  method Execute(t: ChangeTree, c: Command, ghost p: Picture) returns (ghost q: Picture)
    requires Faithful(p) && p.tree == t
    modifies t, t.nodes, t.view.Repr
    ensures q.tree == t && Faithful(q) && q.editor == p.editor.Step(c) && p.made <= q.made
    ensures fresh(t.view.Repr - old(t.view.Repr)) && Kept(t)
  {
    hide Faithful, Kept;
    SafeToWrite(p);
    match c {
      case Type(ch) => q := ExecuteType(t, ch, p);
      case Delete(n) => q := ExecuteDelete(t, n, p);
      case Erase(n) => q := ExecuteErase(t, n, p);
      case EraseAt(at, n) => q := ExecuteEraseAt(t, at, n, p);
      case Replace(r) => q := ExecuteReplace(t, r, p);
      case ReplaceAll(rs) => q := ExecuteReplaceAll(t, rs, p);
      case Move(to) => q := ExecuteMove(t, to, p);
      case Undo =>
        var more;
        more, q := ExecuteUndo(t, p);
      case Redo(id) => q := ExecuteRedo(t, id, p);
      case Draw(first, count) =>
        var used := ExecuteDraw(t, first, count, p);
        q := p;
    }
  }

  lemma SafeToWrite(p: Picture)
    requires Faithful(p)
    ensures p.editor.Valid() && p.tree.view.Valid()
  {
  }

  /** A run of commands takes the tree wherever it takes the editor on whole texts. */
  method Run(t: ChangeTree, script: seq<Command>, ghost p: Picture) returns (ghost q: Picture)
    requires Faithful(p) && p.tree == t
    modifies t, t.nodes, t.view.Repr
    ensures q.tree == t && Faithful(q) && q.editor == p.editor.Run(script) && p.made <= q.made
    ensures fresh(t.view.Repr - old(t.view.Repr)) && fresh(t.nodes - old(t.nodes)) && Kept(t)
  {
    hide Faithful, Editor.Valid, View.Valid, View.Text, View.At, Editor.Step;
    SafeToWrite(p);
    q := p;
    for i := 0 to |script|
      invariant q.tree == t && Faithful(q) && q.editor == p.editor.Run(script[..i]) && p.made <= q.made
      invariant t.view.Valid() && fresh(t.view.Repr - old(t.view.Repr)) && Kept(t)
    {
      assert script[..i + 1] == script[..i] + [script[i]];
      RunMore(p.editor, script[..i], script[i]);
      q := Execute(t, script[i], q);
      SafeToWrite(q);
    }
    assert script[..|script|] == script;
  }

  /** The first version is what is at the root. */
  lemma FirstVersion(p: Picture)
    requires Faithful(p)
    ensures p.editor.versions != [] && p.editor.versions[0].text == p.tree.root.text
    ensures p.editor.cur == 0 ==> p.tree.cur == p.tree.root && p.tree.view.Text() == p.tree.root.text
  {
    AtHead(p);
    assert Shows(p.tree, p.made, p.made[0], p.editor.versions[0]);
  }

  /** From any state, some undos and redos lead to any node outside of chains, and so to its text. */
  lemma EveryNodeIsReached(p: Picture, n: Change) returns (script: seq<Command>)
    requires Faithful(p) && n in p.tree.nodes && !n.open
    ensures p.editor.Valid() && IsWalk(script)
    ensures var e := p.editor.Run(script);
      e.versions == p.editor.versions && e.cur < |p.made| && p.made[e.cur] == n && e.Text() == n.text
  {
    hide ChangeTree.Tree, ChangeTree.OnPath, ChangeTree.Recorded, ChangeTree.Chained;
    assert n in p.made;
    var v :| 0 <= v < |p.made| && p.made[v] == n;
    NewestIsShown(p, v);
    script := EveryVersionIsReached(p.editor, v);
  }

  /** Undoes until there is nothing left to undo. */
  method UndoAll(t: ChangeTree, ghost p: Picture) returns (ghost q: Picture)
    requires Faithful(p) && p.tree == t
    modifies t, t.nodes, t.view.Repr
    ensures q.tree == t && Faithful(q) && q.editor == p.editor.UndoneAll() && q.made == p.made
    ensures t.cur == t.root && t.view.Text() == old(t.root.text) && fresh(t.view.Repr - old(t.view.Repr))
  {
    hide Faithful, Editor.Valid, View.Valid, View.Text, View.At;
    SafeToWrite(p);
    FirstVersion(p);
    q := p;
    var more := true;
    while more
      invariant q.tree == t && Faithful(q) && q.made == p.made && q.editor.Valid()
      invariant t.view.Valid() && fresh(t.view.Repr - old(t.view.Repr)) && t.nodes == old(t.nodes)
      invariant if more then q.editor.UndoneAll() == p.editor.UndoneAll() else q.editor == p.editor.UndoneAll()
      decreases more, q.editor.cur
    {
      UndoneIsEarlier(q.editor);
      more, q := ExecuteUndo(t, q);
      SafeToWrite(q);
    }
    FirstVersion(q);
  }

  /**
   * Whatever is done to a buffer, it is what the editor on whole texts does,
   * and undoing everything gives back the text the buffer was opened with.
   */
  method Session(view: View, script: seq<Command>) returns (t: ChangeTree, ghost p: Picture)
    requires view.Valid() && Terminated(view.Text())
    modifies view.Repr
    ensures t.view == view && p.tree == t && Faithful(p) && t.cur == t.root
    ensures p.editor == Opened(old(view.Text()), old(view.At())).Run(script).UndoneAll()
    ensures view.Text() == old(view.Text())
  {
    hide Faithful, Editor.Valid, View.Valid, View.Text, View.At, Terminated, Kept;
    t := new ChangeTree(view);
    p := Picture(t, [t.root], Opened(view.Text(), view.At()));
    JustOpened(p);
    FirstVersion(p);
    p := Run(t, script, p);
    RunKeeps(Opened(old(view.Text()), old(view.At())), script);
    FirstVersion(p);
    SafeToWrite(p);
    p := UndoAll(t, p);
  }

  lemma JustOpened(p: Picture)
    requires p.tree.Valid() && !p.tree.inChain && p.tree.merge == p.tree.prevMerge == MergeNone
    requires p.tree.cur == p.tree.root && p.tree.root.prev == [] && p.tree.nodes == {p.tree.root}
    requires p.made == [p.tree.root]
    requires p.editor == Opened(p.tree.view.Text(), p.tree.view.At())
    ensures Faithful(p)
  {
    hide Edge, View.Valid, View.Text, View.At, Terminated, ChangeTree.OnPath, ChangeTree.Recorded;
    var t := p.tree;
    t.AroundNode(t.root);
    hide ChangeTree.Tree, ChangeTree.Chained;
    assert Shows(t, p.made, t.root, p.editor.versions[0]);
  }

  /** What a picture tells about a node that is a version of its own, made from the current one. */
  lemma NewestIsShown(p: Picture, k: nat)
    requires Faithful(p) && k < |p.editor.versions|
    ensures |p.made| == |p.editor.versions| && p.made[k].text == p.editor.versions[k].text
    ensures p.made[p.editor.cur] == p.tree.cur && p.editor.Valid()
  {
    assert Shows(p.tree, p.made, p.made[k], p.editor.versions[k]);
  }

  /** Types characters one after the other; all of them go into one new node. */
  method TypeAll(t: ChangeTree, chars: seq<seq<byte>>, ghost p: Picture) returns (ghost q: Picture)
    requires Faithful(p) && p.tree == t && p.editor.merge != MergeInsert
    requires chars != [] && forall i :: 0 <= i < |chars| ==> chars[i] != []
    modifies t, t.nodes, t.view.Repr
    ensures q.tree == t && Faithful(q) && p.made <= q.made
    ensures p.editor.Valid() && q.editor == p.editor.Run(Typing(chars))
    ensures fresh(t.view.Repr - old(t.view.Repr)) && fresh(t.nodes - old(t.nodes)) && OneNode(t, false)
  {
    hide Faithful, Editor.Valid, Editor.Typed, Editor.Run, Editor.Step, View.Valid, View.Text, View.At, Typing, Kept;
    SafeToWrite(p);
    TypingMore([], []);
    RunNone(p.editor);
    q := p;
    for i := 0 to |chars|
      invariant q.tree == t && Faithful(q) && q.editor == p.editor.Run(Typing(chars[..i])) && p.made <= q.made
      invariant t.view.Valid() && fresh(t.view.Repr - old(t.view.Repr)) && fresh(t.nodes - old(t.nodes))
      invariant i == 0 ==> q == p && t.nodes == old(t.nodes) && t.cur == old(t.cur)
      invariant i > 0 ==> OneNode(t, false) && q.editor.merge == MergeInsert
    {
      assert chars[..i + 1] == chars[..i] + [chars[i]];
      TypingMore(chars[..i], chars[i]);
      RunMore(p.editor, Typing(chars[..i]), Type(chars[i]));
      TypedMerges(q.editor, chars[i]);
      q := ExecuteType(t, chars[i], q);
      SafeToWrite(q);
    }
    assert chars[..|chars|] == chars;
  }

  /**
   * Any number of characters typed in a row are one node, with the text after
   * all of them; they go with one undo, and one redo makes them again.
   */
  method TypeThenUndo(t: ChangeTree, chars: seq<seq<byte>>, ghost p: Picture)
    returns (ghost node: Change, ghost q: Picture)
    requires Faithful(p) && p.tree == t && p.editor.merge != MergeInsert
    requires chars != [] && forall i :: 0 <= i < |chars| ==> chars[i] != []
    modifies t, t.nodes, t.view.Repr
    ensures q.tree == t && Faithful(q) && q.editor == p.editor.Run(Typing(chars)).Undone() && p.made <= q.made
    ensures t.cur == old(t.cur) && t.view.Text() == p.editor.Text() && t.view.At() == p.editor.at
    ensures node !in old(t.nodes) && t.nodes == old(t.nodes) + {node} && node.next == old(t.cur)
    ensures node.text == TypedText(p.editor.Text(), p.editor.at, chars)
    ensures q.editor.Redone(0).cur < |q.made|
    ensures q.made[q.editor.Redone(0).cur] == node && q.editor.Redone(0).Text() == node.text
  {
    hide Faithful, Editor.Valid, View.Valid, View.Text, View.At, Terminated, TypedText, Typing, Edited;
    hide Editor.Branch, Editor.Undone, Editor.Redone, Editor.Text, Editor.Run, Kept, ChangeTree.Valid;
    AtHead(p);
    q := TypeAll(t, chars, p);
    node := t.cur;
    ghost var e := q.editor;
    TypingIsOneVersion(p.editor, chars);
    BranchIsUndone(p.editor, TypedText(p.editor.Text(), p.editor.at, chars), p.editor.at, p.editor.at,
                   p.editor.at + |Concat(chars)|, MergeInsert);
    AtHead(q);
    var ok;
    ok, q := ExecuteUndo(t, q);
    AtHead(q);
    assert e.Text() == TypedText(p.editor.Text(), p.editor.at, chars);
  }

  /** Erases or deletes one character of about `n` bytes; tells whether that changed the text. */
  method RemoveChar(t: ChangeTree, n: nat, erase: bool, ghost p: Picture) returns (changed: bool, ghost q: Picture)
    requires Faithful(p) && p.tree == t
    modifies t, t.nodes, t.view.Repr
    ensures q.tree == t && Faithful(q) && p.made <= q.made
    ensures p.editor.Valid() && q.editor == p.editor.Step(Removal(n, erase))
    ensures changed <==> q.editor.Text() != p.editor.Text()
    ensures fresh(t.view.Repr - old(t.view.Repr)) && fresh(t.nodes - old(t.nodes))
    ensures !changed ==> t.nodes == old(t.nodes) && t.cur == old(t.cur) && t.cur.next == old(t.cur.next)
    ensures changed ==> OneNode(t, p.editor.merge == if erase then MergeErase else MergeDelete)
  {
    hide Faithful, View.Valid, View.Text, View.At, Editor.Valid, Editor.Step, ChangeTree.Valid, Editor.Text;
    AtHead(p);
    SafeToWrite(p);
    var size := t.view.TextSize();
    if erase {
      q := ExecuteErase(t, n, p);
    } else {
      q := ExecuteDelete(t, n, p);
    }
    AtHead(q);
    SafeToWrite(q);
    var left := t.view.TextSize();
    changed := left != size;
    RemovalShows(p.editor, n, erase);
  }

  /**
   * Deletes, or erases, characters one after the other until nothing changes
   * any more; all of it is one new node. The editor `e` is what the removals
   * that count made of it.
   */
  method RemoveEach(t: ChangeTree, sizes: seq<nat>, erase: bool, ghost p: Picture)
    returns (count: nat, ghost e: Editor, ghost q: Picture)
    requires Faithful(p) && p.tree == t && p.editor.merge != (if erase then MergeErase else MergeDelete)
    modifies t, t.nodes, t.view.Repr
    ensures q.tree == t && Faithful(q) && p.made <= q.made && p.editor.Valid() && count <= |sizes|
    ensures AllRemove(p.editor, sizes[..count], erase)
    ensures count < |sizes| ==> !AllRemove(p.editor, sizes[..count + 1], erase)
    ensures e == p.editor.Run(Removing(sizes[..count], erase))
    ensures q.editor.Text() == e.Text() && q.editor.versions == e.versions && q.editor.cur == e.cur
    ensures fresh(t.view.Repr - old(t.view.Repr)) && fresh(t.nodes - old(t.nodes))
    ensures if count == 0 then t.nodes == old(t.nodes) && t.cur == old(t.cur) else OneNode(t, false)
  {
    hide Faithful, View.Valid, View.Text, View.At, Editor.Valid, Editor.Step, Editor.Run, Removing, AllRemove;
    ghost var kind := if erase then MergeErase else MergeDelete;
    SafeToWrite(p);
    NoneRemoved(p.editor, erase);
    q, e := p, p.editor;
    count := 0;
    while count < |sizes|
      invariant count <= |sizes| && q.tree == t && Faithful(q) && p.made <= q.made && q.editor == e
      invariant e == p.editor.Run(Removing(sizes[..count], erase)) && AllRemove(p.editor, sizes[..count], erase)
      invariant t.view.Valid() && fresh(t.view.Repr - old(t.view.Repr)) && fresh(t.nodes - old(t.nodes))
      invariant count == 0 ==> e == p.editor && t.nodes == old(t.nodes) && t.cur == old(t.cur)
      invariant count > 0 ==> OneNode(t, false) && e.merge == kind
    {
      var n := sizes[count];
      assert sizes[..count + 1] == sizes[..count] + [n];
      OneMoreRemoved(p.editor, sizes[..count], n, erase);
      var changed;
      changed, q := RemoveChar(t, n, erase, q);
      SafeToWrite(q);
      if !changed {
        NothingRemoved(e, n, erase);
        return;
      }
      RemovalIs(e, n, erase);
      count, e := count + 1, q.editor;
    }
  }

  /**
   * Any number of characters deleted, or erased, in a row are one node, with
   * the text without them; they go with one undo, and one redo makes them again.
   * The row ends only where there is nothing to remove.
   */
  method RemoveThenUndo(t: ChangeTree, sizes: seq<nat>, erase: bool, ghost p: Picture)
    returns (count: nat, ghost node: Change, ghost q: Picture)
    requires Faithful(p) && p.tree == t && p.editor.merge != (if erase then MergeErase else MergeDelete)
    modifies t, t.nodes, t.view.Repr
    ensures q.tree == t && Faithful(q) && p.made <= q.made && p.editor.Valid() && count <= |sizes|
    ensures AllRemove(p.editor, sizes[..count], erase)
    ensures count < |sizes| ==> !AllRemove(p.editor, sizes[..count + 1], erase)
    ensures t.cur == old(t.cur) && t.view.Text() == p.editor.Text() && (count > 0 ==> t.view.At() == p.editor.at)
    ensures count == 0 ==> t.nodes == old(t.nodes)
    ensures count > 0 ==>
      && node !in old(t.nodes) && t.nodes == old(t.nodes) + {node} && node.next == old(t.cur)
      && node.text == p.editor.Run(Removing(sizes[..count], erase)).Text()
      && Shorter(p.editor, p.editor.Run(Removing(sizes[..count], erase)), erase)
      && q.editor.Redone(0).cur < |q.made| && q.made[q.editor.Redone(0).cur] == node
      && q.editor.Redone(0).Text() == node.text
  {
    hide Faithful, Editor.Valid, View.Valid, View.Text, View.At, Terminated, Removing, AllRemove, Shorter, Splice;
    hide Editor.Undone, Editor.Redone, Editor.Text, Editor.Run, Editor.Step, Kept, ChangeTree.Valid;
    AtHead(p);
    ghost var e;
    count, e, q := RemoveEach(t, sizes, erase, p);
    AtHead(q);
    node := t.cur;
    if count == 0 {
      NoneRemoved(p.editor, erase);
      return;
    }
    ghost var g := q.editor;
    RemovingIsOneVersion(p.editor, sizes[..count], erase);
    RemovedIsUndone(p.editor, e, g, erase);
    var ok;
    ok, q := ExecuteUndo(t, q);
    AtHead(q);
  }
}
