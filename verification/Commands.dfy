/** The commands that bracket edits for merging. */
module Commands {
  import opened Bytes
  import opened Records
  import opened Edit
  import opened ChangeTrees
  import opened Editors

  /**
   * The state between commands. If the last command left a merge kind behind,
   * the current node is a leaf of that kind lying at the cursor, or no such
   * edit is possible at the cursor.
   */
  ghost predicate Ready(t: ChangeTree)
    reads t, t.nodes, t.barrier, t.view, t.view.Repr
  {
    && t.Valid() && !t.inChain
    && (t.prevMerge == MergeInsert ==> t.InsertionAround(t.view.At()))
    && (t.prevMerge == MergeDelete ==>
          t.view.At() == |t.view.Text()| || (t.DeletionAt(t.view.At()) && !t.cur.moveAfter))
    && (t.prevMerge == MergeErase ==>
          t.view.At() == 0 || (t.DeletionAt(t.view.At()) && t.cur.moveAfter))
  }

  /** Moving the cursor leaves the tree alone. */
  method PutCursor(t: ChangeTree, at: nat)
    requires t.Valid() && at <= |t.view.Text()|
    modifies t.view.Repr
    ensures t.Valid() && fresh(t.view.Repr - old(t.view.Repr))
    ensures t.view.Text() == old(t.view.Text()) && t.view.At() == at
    ensures unchanged(t) && forall n :: n in t.nodes || n == t.barrier ==> unchanged(n)
  {
    hide Edge, Terminated, Splice, View.Valid, View.Text, View.At;
    hide ChangeTree.Tree, ChangeTree.OnPath, ChangeTree.Recorded, ChangeTree.Chained;
    t.view.Goto(at);
  }

  method SkipCursor(t: ChangeTree, count: nat)
    requires t.Valid() && t.view.At() + count <= |t.view.Text()|
    modifies t.view.Repr
    ensures t.Valid() && fresh(t.view.Repr - old(t.view.Repr))
    ensures t.view.Text() == old(t.view.Text()) && t.view.At() == old(t.view.At()) + count
    ensures unchanged(t) && forall n :: n in t.nodes || n == t.barrier ==> unchanged(n)
  {
    hide Edge, Terminated, Splice, View.Valid, View.Text, View.At;
    hide ChangeTree.Tree, ChangeTree.OnPath, ChangeTree.Recorded, ChangeTree.Chained;
    t.view.MoveCursor(count);
  }

  method StepBackCursor(t: ChangeTree, count: nat)
    requires t.Valid() && count <= t.view.At()
    modifies t.view.Repr
    ensures t.Valid() && fresh(t.view.Repr - old(t.view.Repr))
    ensures t.view.Text() == old(t.view.Text()) && t.view.At() == old(t.view.At()) - count
    ensures unchanged(t) && forall n :: n in t.nodes || n == t.barrier ==> unchanged(n)
  {
    hide Edge, Terminated, Splice, View.Valid, View.Text, View.At;
    hide ChangeTree.Tree, ChangeTree.OnPath, ChangeTree.Recorded, ChangeTree.Chained;
    t.view.BackCursor(count);
  }

  /** A typed character goes in at the cursor, which moves behind it. */
  method TypeChar(t: ChangeTree, ch: seq<byte>)
    requires Ready(t) && ch != []
    modifies t, t.nodes, t.view.Repr
    ensures Ready(t) && fresh(t.view.Repr - old(t.view.Repr))
    ensures t.view.Text() == WithFinalNewline(Splice(old(t.view.Text()), old(t.view.At()), 0, ch))
    ensures t.view.At() == old(t.view.At()) + |ch|
    ensures t.prevMerge == MergeInsert
    ensures t.RecordedEdit(old(t.prevMerge) == MergeInsert)
    ensures t.RecordedAt(if old(t.prevMerge) == MergeInsert then old(t.cur.offset) else old(t.view.At()), false)
  {
    hide Edge, Terminated, Splice, View.Valid, View.Text, View.At, WithFinalNewline;
    hide ChangeTree.Tree, ChangeTree.OnPath, ChangeTree.Recorded, ChangeTree.Chained, ChangeTree.Valid;
    t.CanEdit();
    t.BeginChange(MergeInsert);
    TypeHere(t, ch);
    t.EndChange();
  }

  method TypeHere(t: ChangeTree, ch: seq<byte>)
    requires t.Valid() && !t.inChain && t.merge == MergeInsert && ch != []
    requires t.prevMerge == MergeInsert ==> t.InsertionAround(t.view.At())
    modifies t, t.nodes, t.view.Repr
    ensures t.Valid() && !t.inChain && fresh(t.view.Repr - old(t.view.Repr))
    ensures t.view.Text() == WithFinalNewline(Splice(old(t.view.Text()), old(t.view.At()), 0, ch))
    ensures t.view.At() == old(t.view.At()) + |ch| && t.InsertionAround(t.view.At())
    ensures t.merge == MergeInsert
    ensures t.RecordedEdit(old(t.prevMerge) == MergeInsert)
    ensures t.RecordedAt(if old(t.prevMerge) == MergeInsert then old(t.cur.offset) else old(t.view.At()), false)
  {
    hide Edge, Terminated, Splice, View.Valid, View.Text, View.At, WithFinalNewline;
    hide ChangeTree.Tree, ChangeTree.OnPath, ChangeTree.Recorded, ChangeTree.Chained, ChangeTree.Valid;
    t.CanEdit();
    ReplacementSize(t.view.Text(), t.view.At(), 0, ch);
    t.ReplaceBytes(0, ch);
    t.CanEdit();
    SkipCursor(t, |ch|);
  }

  /**
   * Deletes the character under the cursor, of `size` bytes; only at the end of
   * the text is there none.
   */
  method DeleteCh(t: ChangeTree, size: nat)
    requires Ready(t) && t.view.At() + size <= |t.view.Text()|
    requires size == 0 <==> t.view.At() == |t.view.Text()|
    modifies t, t.nodes, t.view.Repr
    ensures Ready(t) && fresh(t.view.Repr - old(t.view.Repr))
    ensures t.view.Text() == WithFinalNewline(Splice(old(t.view.Text()), old(t.view.At()), size, []))
    ensures t.view.At() == old(t.view.At())
    ensures size == 0 ==> t.view.Text() == old(t.view.Text())
    ensures t.view.Text() == old(t.view.Text()) ==>
      t.TreeUntouched() && t.prevMerge == if size == 0 then MergeDelete else MergeNone
    ensures t.view.Text() != old(t.view.Text()) ==>
      && t.prevMerge == MergeDelete && t.RecordedEdit(old(t.prevMerge) == MergeDelete)
      && t.RecordedAt(t.view.At(), false)
  {
    hide Edge, Terminated, Splice, View.Valid, View.Text, View.At, WithFinalNewline;
    hide ChangeTree.Tree, ChangeTree.OnPath, ChangeTree.Recorded, ChangeTree.Chained, ChangeTree.Valid;
    t.CanEdit();
    t.BeginChange(MergeDelete);
    t.DeleteBytes(size, false);
    t.EndChange();
  }

  /**
   * Erases the character in front of the cursor, of `size` bytes; only at the
   * beginning of the text is there none. A newline is a character of its own.
   */
  method EraseCh(t: ChangeTree, size: nat)
    requires Ready(t) && Erasable(t.view.Text(), t.view.At(), size)
    modifies t, t.nodes, t.view.Repr
    ensures Ready(t) && fresh(t.view.Repr - old(t.view.Repr))
    ensures t.view.Text() == WithFinalNewline(Splice(old(t.view.Text()), old(t.view.At()) - size, size, []))
    ensures t.view.At() == old(t.view.At()) - size
    ensures size == 0 ==> t.view.Text() == old(t.view.Text())
    ensures t.view.Text() == old(t.view.Text()) ==>
      t.TreeUntouched() && t.prevMerge == if size == 0 then MergeErase else MergeNone
    ensures t.view.Text() != old(t.view.Text()) ==>
      && t.prevMerge == MergeErase && t.RecordedEdit(old(t.prevMerge) == MergeErase)
      && t.RecordedAt(t.view.At(), true)
  {
    hide Edge, Terminated, Splice, View.Valid, View.Text, View.At, WithFinalNewline;
    hide ChangeTree.Tree, ChangeTree.OnPath, ChangeTree.Recorded, ChangeTree.Chained, ChangeTree.Valid;
    t.CanEdit();
    CharNotLast(t.view.Text(), t.view.At() - size, size);
    t.BeginChange(MergeErase);
    EraseHere(t, size);
    t.EndChange();
  }

  method EraseHere(t: ChangeTree, size: nat)
    requires t.Valid() && !t.inChain && t.merge == MergeErase && size <= t.view.At()
    requires size > 1 ==> Terminated(Splice(t.view.Text(), t.view.At() - size, size, []))
    requires t.prevMerge == MergeErase && size > 0 ==> t.DeletionAt(t.view.At()) && t.cur.moveAfter
    modifies t, t.nodes, t.view.Repr
    ensures t.Valid() && !t.inChain && fresh(t.view.Repr - old(t.view.Repr))
    ensures t.view.Text() == WithFinalNewline(Splice(old(t.view.Text()), old(t.view.At()) - size, size, []))
    ensures t.view.At() == old(t.view.At()) - size
    ensures size == 0 ==> t.view.Text() == old(t.view.Text())
    ensures t.view.Text() == old(t.view.Text()) ==>
      t.TreeUntouched() && t.merge == if size == 0 then MergeErase else MergeNone
    ensures t.view.Text() != old(t.view.Text()) ==>
      && t.merge == MergeErase && t.RecordedEdit(old(t.prevMerge) == MergeErase)
      && t.DeletionAt(t.view.At()) && t.RecordedAt(t.view.At(), true)
  {
    hide Edge, Terminated, Splice, View.Valid, View.Text, View.At, WithFinalNewline;
    hide ChangeTree.Tree, ChangeTree.OnPath, ChangeTree.Recorded, ChangeTree.Chained, ChangeTree.Valid;
    t.CanEdit();
    StepBackCursor(t, size);
    t.CanEdit();
    t.DeleteBytes(size, true);
  }

  /** A character longer than a newline is not the end of the text. */
  lemma CharNotLast(t: seq<byte>, p: nat, size: nat)
    requires Terminated(t) && p + size <= |t|
    requires size > 1 ==> NL !in t[p..p + size]
    ensures size > 1 ==> Terminated(Splice(t, p, size, []))
  {
    if size > 1 {
      assert t[p..p + size][size - 1] != NL;
      EditShortOfEnd(t, p, size, []);
    }
  }

  /** Moves the cursor somewhere and erases `size` bytes there all at once; that is never merged. */
  method EraseAllAt(t: ChangeTree, at: nat, size: nat)
    requires Ready(t) && at + size <= |t.view.Text()|
    modifies t, t.nodes, t.view.Repr
    ensures Ready(t) && fresh(t.view.Repr - old(t.view.Repr)) && t.prevMerge == MergeNone
    ensures t.view.Text() == WithFinalNewline(Splice(old(t.view.Text()), at, size, []))
    ensures t.view.At() == at
    ensures t.view.Text() == old(t.view.Text()) ==> t.TreeUntouched()
    ensures t.view.Text() != old(t.view.Text()) ==> t.RecordedEdit(false) && t.RecordedAt(t.view.At(), true)
  {
    hide Edge, Terminated, Splice, View.Valid, View.Text, View.At, WithFinalNewline;
    hide ChangeTree.Tree, ChangeTree.OnPath, ChangeTree.Recorded, ChangeTree.Chained, ChangeTree.Valid;
    t.CanEdit();
    t.BeginChange(MergeNone);
    EraseThere(t, at, size);
    t.EndChange();
  }

  method EraseThere(t: ChangeTree, at: nat, size: nat)
    requires t.Valid() && t.merge == MergeNone && at + size <= |t.view.Text()|
    modifies t, t.nodes, t.barrier, t.view.Repr
    ensures t.Valid() && t.inChain == old(t.inChain) && fresh(t.view.Repr - old(t.view.Repr)) && t.merge == MergeNone
    ensures t.view.Text() == WithFinalNewline(Splice(old(t.view.Text()), at, size, []))
    ensures t.view.At() == at
    ensures t.view.Text() == old(t.view.Text()) ==> t.TreeUntouched()
    ensures t.view.Text() != old(t.view.Text()) ==> t.RecordedEdit(false) && t.RecordedAt(t.view.At(), true)
  {
    hide Edge, Terminated, Splice, View.Valid, View.Text, View.At, WithFinalNewline;
    hide ChangeTree.Tree, ChangeTree.OnPath, ChangeTree.Recorded, ChangeTree.Chained, ChangeTree.Valid;
    t.CanEdit();
    PutCursor(t, at);
    t.CanEdit();
    t.DeleteBytes(size, true);
  }

  /** Any command that is not a typed edit first moves the cursor somewhere and then replaces text there. */
  method ReplaceAt(t: ChangeTree, at: nat, del: nat, ins: seq<byte>)
    requires Ready(t) && at + del <= |t.view.Text()|
    modifies t, t.nodes, t.view.Repr
    ensures Ready(t) && fresh(t.view.Repr - old(t.view.Repr)) && t.prevMerge == MergeNone
    ensures t.view.Text() == WithFinalNewline(Splice(old(t.view.Text()), at, del, ins))
    ensures t.view.At() == at + |ins|
    ensures ins == [] && t.view.Text() == old(t.view.Text()) ==> t.TreeUntouched()
    ensures ins != [] || t.view.Text() != old(t.view.Text()) ==> t.RecordedEdit(false) && t.RecordedAt(at, false)
  {
    hide Edge, Terminated, Splice, View.Valid, View.Text, View.At, WithFinalNewline;
    hide ChangeTree.Tree, ChangeTree.OnPath, ChangeTree.Recorded, ChangeTree.Chained;
    t.BeginChange(MergeNone);
    ReplaceThere(t, at, del, ins);
    t.EndChange();
  }

  method ReplaceThere(t: ChangeTree, at: nat, del: nat, ins: seq<byte>)
    requires t.Valid() && t.merge == MergeNone && at + del <= |t.view.Text()|
    modifies t, t.nodes, t.barrier, t.view.Repr
    ensures t.Valid() && t.inChain == old(t.inChain) && fresh(t.view.Repr - old(t.view.Repr)) && t.merge == MergeNone
    ensures t.view.Text() == WithFinalNewline(Splice(old(t.view.Text()), at, del, ins))
    ensures t.view.At() == at + |ins|
    ensures ins == [] && t.view.Text() == old(t.view.Text()) ==> t.TreeUntouched()
    ensures ins != [] || t.view.Text() != old(t.view.Text()) ==> t.RecordedEdit(false) && t.RecordedAt(at, false)
  {
    hide Edge, Terminated, Splice, View.Valid, View.Text, View.At, WithFinalNewline, ChangeTree.Valid;
    hide ChangeTree.Tree, ChangeTree.OnPath, ChangeTree.Recorded, ChangeTree.Chained;
    t.CanEdit();
    PutCursor(t, at);
    t.CanEdit();
    t.ReplaceBytes(del, ins);
    t.CanEdit();
    SkipCursor(t, |ins|);
  }

  method MoveTo(t: ChangeTree, at: nat)
    requires Ready(t) && at <= |t.view.Text()|
    modifies t, t.view.Repr
    ensures Ready(t) && fresh(t.view.Repr - old(t.view.Repr)) && t.prevMerge == MergeNone
    ensures t.view.Text() == old(t.view.Text()) && t.view.At() == at
    ensures t.TreeUntouched()
  {
    hide Edge, Terminated, Splice, View.Valid, View.Text, View.At;
    hide ChangeTree.Tree, ChangeTree.OnPath, ChangeTree.Recorded, ChangeTree.Chained;
    t.BeginChange(MergeNone);
    t.view.Goto(at);
    t.EndChange();
  }

  method UndoCommand(t: ChangeTree) returns (ok: bool)
    requires Ready(t)
    modifies t, t.nodes, t.view.Repr
    ensures Ready(t) && fresh(t.view.Repr - old(t.view.Repr)) && t.prevMerge == MergeNone
    ensures t.Walked()
    ensures ok <==> old(t.cur) != t.root
    ensures !ok ==> t.cur == old(t.cur)
    ensures ok ==> t.cur == old(t.UndoTarget()) && |t.path| < |old(t.path)|
    ensures t.view.At() == if ok then old(t.UndoPlace(t.cur)) else old(t.view.At())
    ensures ok ==> exists i :: 0 <= i < |t.cur.prev| && t.RedoBranch(i) == old(t.cur)
  {
    hide Edge, Terminated, Splice, View.Valid, View.Text, View.At;
    hide ChangeTree.Tree, ChangeTree.OnPath, ChangeTree.Recorded, ChangeTree.Chained;
    t.BeginChange(MergeNone);
    ok := t.Undo();
    ghost var i := 0;
    if ok {
      i :| 0 <= i < |t.cur.prev| && t.RedoBranch(i) == old(t.cur);
    }
    t.EndChange();
    assert ok ==> t.RedoBranch(i) == old(t.cur);
  }

  method RedoCommand(t: ChangeTree, changeId: nat) returns (ok: bool)
    requires Ready(t)
    modifies t, t.nodes, t.view.Repr
    ensures Ready(t) && fresh(t.view.Repr - old(t.view.Repr)) && t.prevMerge == MergeNone
    ensures t.Walked()
    ensures ok <==> old(t.cur.prev != [] && changeId <= |t.cur.prev|)
    ensures !ok ==> t.cur == old(t.cur)
    ensures ok ==> t.cur.next != null
    ensures t.view.At() == if ok then t.RedoPlace(t.cur) else old(t.view.At())
    ensures ok ==> t.cur == old(t.RedoBranch(if changeId == 0 then |t.cur.prev| - 1 else changeId - 1))
    ensures ok ==> t.UndoTarget() == old(t.cur)
  {
    hide Edge, Terminated, Splice, View.Valid, View.Text, View.At;
    hide ChangeTree.Tree, ChangeTree.OnPath, ChangeTree.Recorded, ChangeTree.Chained;
    t.BeginChange(MergeNone);
    ok := t.Redo(changeId);
    t.EndChange();
  }

  /** A chain in the making: the node it started from, and what it amounts to so far. */
  datatype Chain = Chain(tree: ChangeTree, before: Change, done: Series) {
    /** Either nothing has been recorded, or undoing the chain so far leads to `before`. */
    ghost predicate Sound()
      reads tree, tree.nodes, tree.barrier, tree.view, tree.view.Repr
    {
      && tree.Valid() && tree.inChain && before in tree.nodes && !before.open
      && done.recorded == (tree.barrier == null)
      && if tree.barrier != null then tree.cur == before else
           var start := tree.ChainStart(tree.cur);
           && start.next == before && before.prev != [] && before.prev[|before.prev| - 1] == start
           && |start.prev| == 1 && start.prev[0] in tree.nodes && start.prev[0].next == start
           && start.prev[0].BackAt() == done.undoAt && tree.cur.offset == done.redoAt
    }

    ghost predicate Valid()
      reads tree, tree.nodes, tree.barrier, tree.view, tree.view.Repr
    {
      Sound() && tree.view.Text() == done.text && tree.view.At() == done.at
    }

    ghost function With(s: Series): Chain {
      Chain(tree, before, s)
    }

    lemma InChain()
      requires Sound()
      ensures tree.Valid() && tree.inChain && tree.merge == MergeNone && before in tree.nodes
      ensures tree.barrier != null ==> tree.cur == before
      ensures Terminated(tree.view.Text()) && tree.view.At() <= |tree.view.Text()|
    {
    }
  }

  /** One more edit of a chain: nothing was recorded, or a node of its own, with the barrier above the first of them. */
  twostate predicate ChainStepped(t: ChangeTree, recorded: bool)
    requires old(t.cur in t.nodes)
    reads t, t.nodes, t.barrier
  {
    && t.Grew() && (forall n :: n in t.nodes ==> n in old(t.nodes) || (n.open && (fresh(n) || n == old(t.barrier))))
    && if recorded then
         && t.barrier == null && t.cur !in old(t.nodes)
         && |old(t.cur).prev| == |old(t.cur.prev)| + 1 && old(t.cur).prev[..|old(t.cur.prev)|] == old(t.cur.prev)
       else
         && t.barrier == old(t.barrier) && t.nodes == old(t.nodes) && t.height == old(t.height)
         && t.cur == old(t.cur) && old(t.cur).prev == old(t.cur.prev)
  }

  twostate lemma ChainBegins(c: Chain)
    requires old(c.Sound()) && !c.done.recorded && c.tree.RecordedEdit(false) && !c.tree.cur.moveAfter
    ensures ChainStepped(c.tree, true)
    ensures var p := c.tree.cur.offset; forall text, at :: c.With(Series(text, at, true, p, p)).Sound()
  {
    hide ChangeTree.Tree, ChangeTree.OnPath, ChangeTree.Recorded, ChangeTree.Chained, Edge, View.Valid, View.Text;
    var t := c.tree;
    t.AroundNode(t.cur);
    t.AroundNode(t.cur.next);
    assert t.ChainStart(t.cur) == t.cur.next == old(t.barrier);
  }

  twostate lemma ChainContinues(c: Chain)
    requires old(c.Sound()) && c.done.recorded && c.tree.RecordedEdit(false)
    ensures ChainStepped(c.tree, true)
    ensures var p := c.tree.cur.offset; forall text, at :: c.With(Series(text, at, true, c.done.undoAt, p)).Sound()
  {
    hide ChangeTree.Tree, ChangeTree.OnPath, ChangeTree.Recorded, ChangeTree.Chained, Edge, View.Valid, View.Text;
    var t := c.tree;
    t.AroundNode(t.cur);
    t.FramedChainStart(old(t.cur));
    var start := t.ChainStart(t.cur);
    assert start == old(t.ChainStart(t.cur));
  }

  twostate lemma ChainWaits(c: Chain)
    requires old(c.Sound()) && c.tree.TreeUntouched()
    ensures ChainStepped(c.tree, false)
    ensures forall text, at :: c.With(c.done.(text := text, at := at)).Sound()
  {
    hide ChangeTree.Tree, ChangeTree.OnPath, ChangeTree.Recorded, ChangeTree.Chained, Edge, View.Valid, View.Text;
    if c.tree.barrier == null {
      c.tree.FramedChainStart(old(c.tree.cur));
    }
  }

  method ChainStep(t: ChangeTree, r: Replacement, ghost c: Chain)
    requires c.Valid() && c.tree == t
    modifies t, t.nodes, t.barrier, t.view.Repr
    ensures c.With(c.done.Then(r)).Valid() && fresh(t.view.Repr - old(t.view.Repr))
    ensures ChainStepped(t, r.Records(c.done.text))
  {
    hide Edge, Terminated, Splice, View.Valid, View.Text, View.At, WithFinalNewline, Chain.Sound;
    hide ChangeTree.Tree, ChangeTree.OnPath, ChangeTree.Recorded, ChangeTree.Chained, ChangeTree.RecordedEdit;
    hide ChangeTree.Valid, ChangeTree.TreeUntouched;
    c.InChain();
    t.CanEdit();
    var size := t.view.TextSize();
    label start:
    ReplaceThere(t, r.At(size), r.Del(size), r.ins);
    if !r.Records(c.done.text) {
      ChainWaits@start(c);
    } else if c.done.recorded {
      ChainContinues@start(c);
    } else {
      ChainBegins@start(c);
    }
  }

  /** The nodes there were are what they were; only `before` has got a new branch, all of it inside of the chain. */
  twostate predicate ChainGrown(t: ChangeTree, before: Change)
    requires before in old(t.nodes)
    reads t, t.nodes
  {
    && old(t.nodes) <= t.nodes
    && (forall n :: n in old(t.nodes) ==>
          && n in t.nodes && unchanged(n`next, n`text, n`depth, n`open, n`insCount, n`delCount, n`offset, n`moveAfter)
          && (n.prev == old(n.prev) || n == before))
    && (forall n :: n in t.nodes ==> n in old(t.nodes) || n.open)
    && if t.barrier != null then
         t.nodes == old(t.nodes) && t.height == old(t.height) && t.cur == before && before.prev == old(before.prev)
       else
         && t.cur !in old(t.nodes)
         && |before.prev| == |old(before.prev)| + 1 && before.prev[..|old(before.prev)|] == old(before.prev)
  }

  method ReplaceEach(t: ChangeTree, rs: seq<Replacement>, ghost c: Chain)
    requires c.Valid() && c.tree == t && t.barrier != null && c.done == AfterAll(t.view.Text(), t.view.At(), [])
    modifies t, t.nodes, t.barrier, t.view.Repr
    ensures c.With(AfterAll(c.done.text, c.done.at, rs)).Valid() && fresh(t.view.Repr - old(t.view.Repr))
    ensures t.barrier == old(t.barrier) || t.barrier == null
    ensures forall n :: n in t.nodes ==> n in old(t.nodes) || fresh(n) || n == old(t.barrier)
    ensures ChainGrown(t, c.before)
  {
    hide Edge, Terminated, Splice, View.Valid, View.Text, View.At, WithFinalNewline, Chain.Sound, Series.Then;
    hide ChangeTree.Tree, ChangeTree.OnPath, ChangeTree.Recorded, ChangeTree.Chained, ChangeTree.Valid;
    c.InChain();
        ghost var s := c.done;
    for i := 0 to |rs|
      invariant s == AfterAll(c.done.text, c.done.at, rs[..i]) && c.With(s).Valid()
      invariant fresh(t.view.Repr - old(t.view.Repr)) && (t.barrier == old(t.barrier) || t.barrier == null)
      invariant ChainGrown(t, c.before)
      invariant forall n :: n in t.nodes ==> n in old(t.nodes) || fresh(n) || n == old(t.barrier)
    {
      c.With(s).InChain();
      ChainStep(t, rs[i], c.With(s));
      s := s.Then(rs[i]);
      assert rs[..i + 1][..i] == rs[..i];
    }
    assert rs[..|rs|] == rs;
  }

  /** A new leaf has become the current node, a branch of the one that was. */
  twostate predicate Branched(t: ChangeTree)
    requires old(t.cur in t.nodes)
    reads t, t.nodes
  {
    && t.Tree() && t.Chained() && t.Grew() && !old(t.cur).open
    && t.cur in t.nodes && t.cur !in old(t.nodes) && !t.cur.open && t.cur.next != null && t.cur.prev == []
    && (forall n :: n in t.nodes ==> n in old(t.nodes) || n.open || n == t.cur)
    && |old(t.cur).prev| == |old(t.cur.prev)| + 1 && old(t.cur).prev[..|old(t.cur.prev)|] == old(t.cur.prev)
    && t.BranchOf(old(t.cur), |old(t.cur.prev)|) == t.cur && t.Above(t.cur) == old(t.cur)
  }

  /** Outside of chains, an edit with a record of its own is a new branch. */
  twostate lemma EditBranches(t: ChangeTree)
    requires old(t.Valid() && !t.inChain) && t.RecordedEdit(false)
    ensures Branched(t) && fresh(t.nodes - old(t.nodes))
    ensures t.UndoPlace(t.cur) == t.cur.BackAt() && t.RedoPlace(t.cur) == t.cur.offset
    ensures t.cur.next.text == old(t.cur.text)
  {
    hide ChangeTree.Tree, ChangeTree.OnPath, ChangeTree.Recorded, ChangeTree.Chained, Edge, View.Valid, View.Text;
    t.AroundNode(t.cur);
    assert t.cur.next == old(t.cur) && t.BranchOf(t.cur.next, |old(t.cur.prev)|) == t.cur;
  }

  /** What the end of a chain that is not empty makes of it: a barrier below its last change. */
  twostate predicate Closed(t: ChangeTree)
    requires old(t.cur in t.nodes)
    reads t, t.nodes, t.barrier, t.view, t.view.Repr
  {
    && t.Valid() && !t.inChain && t.Grew() && t.cur.IsBarrier() && t.nodes == old(t.nodes) + {t.cur}
    && t.cur.next == old(t.cur) && old(t.cur).prev == old(t.cur.prev) + [t.cur] && t.cur.prev == [] && !t.cur.open
  }

  twostate lemma ChainCloses(c: Chain)
    requires old(c.Sound()) && c.done.recorded && Closed(c.tree)
    ensures c.before in c.tree.nodes && !c.before.open && c.before.prev == old(c.before.prev) != []
    ensures c.tree.BranchOf(c.before, |c.before.prev| - 1) == c.tree.cur && c.tree.Above(c.tree.cur) == c.before
    ensures c.tree.UndoPlace(c.tree.cur) == c.done.undoAt && c.tree.RedoPlace(c.tree.cur) == c.done.redoAt
  {
    hide ChangeTree.Tree, ChangeTree.OnPath, ChangeTree.Recorded, ChangeTree.Chained, Edge, View.Valid, View.Text;
    var t := c.tree;
    t.FramedChainStart(old(t.cur));
    t.AroundNode(t.cur);
    t.AroundNode(t.cur.next);
    t.ChainEndFromStart(t.cur.next);
    var start := t.ChainStart(t.cur.next);
    assert start == old(t.ChainStart(t.cur));
    assert t.ChainEnd(t.cur.next) == t.cur;
  }

  /** Ends a chain; if nothing was recorded, the tree is what it was. */
  method FinishChain(t: ChangeTree, ghost c: Chain)
    requires c.Valid() && c.tree == t
    modifies t, t.cur
    ensures Ready(t) && t.prevMerge == MergeNone
    ensures t.view.Text() == c.done.text && t.view.At() == c.done.at
    ensures !c.done.recorded ==>
      t.cur == old(t.cur) == c.before && t.nodes == old(t.nodes) && t.height == old(t.height) && unchanged(t.cur)
    ensures c.done.recorded ==> Closed(t) && fresh(t.cur) && t.cur !in old(t.nodes)
    ensures c.done.recorded ==> c.before in t.nodes && !c.before.open && c.before.prev == old(c.before.prev) != []
    ensures c.done.recorded ==>
      && t.BranchOf(c.before, |c.before.prev| - 1) == t.cur && t.Above(t.cur) == c.before
      && t.UndoPlace(t.cur) == c.done.undoAt && t.RedoPlace(t.cur) == c.done.redoAt
  {
    hide Edge, Terminated, Splice, View.Valid, View.Text, View.At;
    hide ChangeTree.Tree, ChangeTree.OnPath, ChangeTree.Recorded, ChangeTree.Chained;
    hide ChangeTree.Above, ChangeTree.BranchOf, ChangeTree.UndoPlace, ChangeTree.RedoPlace;
    t.EndChangeChain();
    if c.done.recorded {
      ChainCloses(c);
    }
    t.EndChange();
  }

  /** A chain from its first change on. */
  method FillChain(t: ChangeTree, rs: seq<Replacement>, ghost c: Chain) returns (ghost s: Series)
    requires c.Valid() && c.tree == t && t.barrier != null && c.done == AfterAll(t.view.Text(), t.view.At(), [])
    modifies t, t.nodes, t.barrier, t.view.Repr
    ensures Ready(t) && fresh(t.view.Repr - old(t.view.Repr)) && t.prevMerge == MergeNone
    ensures forall n :: n in t.nodes ==> n in old(t.nodes) || fresh(n) || n == old(t.barrier)
    ensures s == AfterAll(c.done.text, c.done.at, rs)
    ensures t.view.Text() == s.text && t.view.At() == s.at
    ensures !s.recorded ==> t.cur == old(t.cur) && t.barrier == null && t.SameNodes()
    ensures s.recorded ==> Branched(t) && t.UndoPlace(t.cur) == s.undoAt && t.RedoPlace(t.cur) == s.redoAt
  {
    hide Edge, Terminated, Splice, View.Valid, View.Text, View.At, Chain.Sound, AfterAll;
    hide ChangeTree.Tree, ChangeTree.OnPath, ChangeTree.Recorded, ChangeTree.Chained;
    hide ChangeTree.Above, ChangeTree.BranchOf, ChangeTree.UndoPlace, ChangeTree.RedoPlace;
    c.InChain();
    ReplaceEach(t, rs, c);
    s := AfterAll(c.done.text, c.done.at, rs);
    c.With(s).InChain();
    FinishChain(t, c.With(s));
  }

  /**
   * A series of replacements is recorded as one chain: undoing it once leads
   * back to the node, and so to the text, from before it.
   */
  method ReplaceChain(t: ChangeTree, rs: seq<Replacement>) returns (ghost s: Series)
    requires Ready(t)
    modifies t, t.nodes, t.view.Repr
    ensures Ready(t) && t.prevMerge == MergeNone
    ensures fresh(t.view.Repr - old(t.view.Repr)) && fresh(t.nodes - old(t.nodes))
    ensures s == AfterAll(old(t.view.Text()), old(t.view.At()), rs)
    ensures t.view.Text() == s.text && t.view.At() == s.at
    ensures !s.recorded ==> t.Walked() && t.cur == old(t.cur)
    ensures s.recorded ==> Branched(t) && t.UndoPlace(t.cur) == s.undoAt && t.RedoPlace(t.cur) == s.redoAt
  {
    hide Edge, Terminated, Splice, View.Valid, View.Text, View.At;
    hide ChangeTree.Tree, ChangeTree.OnPath, ChangeTree.Recorded, ChangeTree.Chained;
    hide ChangeTree.Above, ChangeTree.BranchOf, ChangeTree.UndoPlace, ChangeTree.RedoPlace;
    t.BeginChange(MergeNone);
    t.BeginChangeChain();
    ghost var c := Chain(t, t.cur, AfterAll(t.view.Text(), t.view.At(), []));
    s := FillChain(t, rs, c);
  }
}
