/** The undo tree: change nodes that are flipped in place as they are undone and redone. */
module ChangeTrees {
  import opened Bytes
  import opened Records
  import opened Edit

  class Change {
    var next: Change?
    var prev: seq<Change>
    var moveAfter: bool
    var offset: nat
    var delCount: nat
    var insCount: nat
    var buf: seq<byte>
    /** The text that belongs to this node. */
    ghost var text: seq<byte>
    ghost var depth: nat
    /** A chain has been begun at or above this node and not ended. */
    ghost var open: bool

    constructor ()
      ensures next == null && prev == [] && IsBarrier() && offset == 0 && buf == [] && !moveAfter
    {
      next, prev, moveAfter := null, [], false;
      offset, delCount, insCount, buf := 0, 0, 0, [];
    }

    constructor Of(offset: nat, del: nat, ins: nat, buf: seq<byte>, moveAfter: bool)
      ensures next == null && prev == []
      ensures this.offset == offset && delCount == del && insCount == ins
      ensures this.buf == buf && this.moveAfter == moveAfter
    {
      next, prev, this.moveAfter := null, [], moveAfter;
      this.offset, delCount, insCount, this.buf := offset, del, ins, buf;
    }

    predicate IsBarrier()
      reads this
    {
      insCount == 0 && delCount == 0
    }

    ghost predicate Connects(from: seq<byte>, to: seq<byte>)
      reads this
    {
      Edge(from, to, offset, delCount, insCount, buf)
    }

    /** As stored, the node can be undone (when applied) or redone (when not). */
    ghost predicate Stored(applied: bool)
      requires next != null
      reads this, next
    {
      && (if applied then Connects(next.text, text) else Connects(text, next.text))
      && (moveAfter ==> (if applied then insCount else delCount) == 0)
    }

    /** Where undoing leaves the cursor: behind what an erasure took away, else where the change was made. */
    ghost function BackAt(): nat
      reads this, next
    {
      offset + if moveAfter && next != null && |text| <= |next.text| then |next.text| - |text| else 0
    }

    /**
     * Plays the node backwards on the text and stores it the other way round:
     * the text it leads from is put in place of the current one.
     */
    method Reverse(view: View, ghost target: seq<byte>)
      requires view.Valid() && Terminated(view.Text()) && Terminated(target)
      requires this !in view.Repr && !IsBarrier()
      requires Connects(target, view.Text())
      modifies view.Repr, this`insCount, this`delCount, this`buf
      ensures view.Valid() && fresh(view.Repr - old(view.Repr))
      ensures view.Text() == target && Connects(old(view.Text()), target)
      ensures insCount == old(delCount) && delCount == old(insCount)
      ensures view.At() == offset + if old(insCount) == 0 && moveAfter then old(delCount) else 0
    {
      hide Edge, Splice, Terminated, View.Valid, View.Text, View.At;
      EdgeReverse(target, view.Text(), offset, delCount, insCount, buf);
      EdgeBounds(target, view.Text(), offset, delCount, insCount, buf);
      view.Goto(offset);
      if insCount == 0 {
        view.DoInsert(buf);
        if moveAfter {
          view.MoveCursor(delCount);
        }
        insCount, delCount, buf := delCount, 0, [];
        return;
      }
      if delCount == 0 {
        buf := view.DoDelete(insCount);
        delCount, insCount := insCount, 0;
        return;
      }
      buf := view.DoReplace(insCount, buf);
      insCount, delCount := delCount, insCount;
    }
  }

  class ChangeTree {
    const view: View
    var cur: Change
    var merge: Merge
    var prevMerge: Merge
    var barrier: Change?
    const root: Change
    ghost var nodes: set<Change>
    /** The nodes from the root down to the one whose text is current. */
    ghost var path: seq<Change>
    ghost var height: nat
    ghost var inChain: bool

    ghost predicate Shape()
      reads `nodes, `height, nodes`next, nodes`prev, nodes`depth, nodes`open
    {
      && root in nodes && root.next == null && root.depth == 0 && !root.open
      && (forall n :: n in nodes && n != root ==>
            n.next != null && n.next in nodes && n in n.next.prev
            && n.depth == n.next.depth + 1 && n.depth <= height)
      && (forall n, c :: n in nodes && c in n.prev ==> c in nodes && c.next == n)
    }

    ghost predicate Tree()
      reads `nodes, `height, nodes`next, nodes`prev, nodes`depth, nodes`text, nodes`open
    {
      && Shape()
      && (forall n :: n in nodes ==> Terminated(n.text))
    }

    ghost predicate OnPath()
      reads `nodes, `path, nodes`next, nodes`depth
    {
      && path != [] && path[0] == root
      && (forall i :: 0 <= i < |path| ==> path[i] in nodes && path[i].depth == i)
      && (forall i :: 0 < i < |path| ==> path[i].next == path[i - 1])
    }

    /** The node whose text is the current text; `cur` catches up with it at the end of an undo or redo. */
    ghost function Here(): Change
      reads `path
    {
      if path == [] then root else path[|path| - 1]
    }

    ghost predicate Applied(n: Change)
      reads `path, n`depth
    {
      n.depth < |path| && path[n.depth] == n
    }

    /** Nodes on the path are stored ready to be undone, all others ready to be redone. */
    ghost predicate Recorded()
      requires Tree()
      reads `nodes, `height, `path, nodes
    {
      forall n :: n in nodes && n != root ==> n.Stored(Applied(n))
    }

    /** Barriers alternate along every root path, with changes between them, and no branch starts inside of a chain. */
    ghost predicate Chained()
      requires Tree()
      reads `nodes, `height, `cur, nodes
    {
      && (forall n :: n in nodes && n != root ==>
            && n.open == (if n.IsBarrier() then !n.next.open else n.next.open)
            && (n.IsBarrier() && !n.open ==> !n.next.IsBarrier()))
      && (forall n :: n in nodes && n.open ==> |n.prev| == if n == cur then 0 else 1)
    }

    /** A chain has begun but nothing has been changed yet exactly while a barrier is pending. */
    ghost predicate ChainState()
      reads `cur, `barrier, `inChain, `merge, cur`open, barrier
    {
      && (barrier != null ==>
            && inChain && barrier.prev == [] && barrier.IsBarrier()
            && barrier.offset == 0 && barrier.buf == [] && !barrier.moveAfter)
      && cur.open == (inChain && barrier == null)
      && (inChain ==> merge == MergeNone)
    }

    /** No node of the tree is part of what the view writes to. */
    ghost predicate Outside()
      reads `nodes, `barrier, view
    {
      && this !in view.Repr
      && (forall n :: n in nodes ==> n !in view.Repr)
      && (barrier != null ==> barrier !in nodes && barrier !in view.Repr)
    }

    /** Everything but that the text is the one that belongs to the current node. */
    ghost predicate Sound()
      reads this, nodes, barrier, view, view.Repr
    {
      && Tree() && OnPath() && Recorded() && Chained()
      && cur in nodes && ChainState() && Outside()
      && view.Valid() && Terminated(view.Text())
    }

    ghost predicate Valid()
      reads this, nodes, barrier, view, view.Repr
    {
      Sound() && Here() == cur && view.Text() == cur.text && (cur.open ==> !cur.IsBarrier())
    }

    lemma CanEdit()
      requires Valid()
      ensures view.Valid() && this !in view.Repr && barrier !in view.Repr
      ensures view.Text() == cur.text && Terminated(view.Text()) && cur in nodes
      ensures if inChain then merge == MergeNone else barrier == null
    {
    }

    /** A tree with nothing but the text the buffer was opened with. */
    constructor (view: View)
      requires view.Valid() && Terminated(view.Text())
      ensures Valid() && fresh(root) && this.view == view
      ensures cur == root && root.text == view.Text() && root.prev == [] && nodes == {root}
      ensures merge == prevMerge == MergeNone && !inChain
    {
      hide View.Valid, View.Text, Terminated, Tree, OnPath, Recorded, Chained;
      this.view := view;
      var r := new Change();
      root, cur := r, r;
      merge, prevMerge, barrier := MergeNone, MergeNone, null;
      nodes, path, height, inChain := {r}, [r], 0, false;
      new;
      root.text, root.depth, root.open := view.Text(), 0, false;
      RootAlone();
    }

    /** A tree of one node. */
    lemma RootAlone()
      requires nodes == {root} && path == [root] && cur == root && height == 0
      requires root.next == null && root.prev == [] && root.depth == 0 && !root.open && Terminated(root.text)
      ensures Tree() && OnPath() && Recorded() && Chained()
    {
    }

    /** `change` is now the current node, a child of the node that was. */
    twostate predicate Linked(new change: Change, text: seq<byte>)
      reads this, nodes, change
    {
      && old(cur in nodes) && old(cur) != change && cur == change
      && nodes == old(nodes) + {change} && path == old(path) + [change]
      && old(height) <= height && change.depth <= height
      && change.next == old(cur) && change.depth == old(cur.depth) + 1 && change.text == text
      && change.prev == [] && change !in old(nodes)
      && change.open == (if change.IsBarrier() then !old(cur.open) else old(cur.open))
      && old(cur).prev == old(cur.prev) + [change]
      && (forall n :: n in old(nodes) ==>
            && (n != old(cur) ==> n.prev == old(n.prev))
            && unchanged(n`next, n`depth, n`text, n`open)
            && unchanged(n`offset, n`delCount, n`insCount, n`buf, n`moveAfter))
    }

    twostate lemma LinkedTree(new change: Change, text: seq<byte>)
      requires old(Tree()) && Linked(change, text) && Terminated(text)
      ensures Tree()
    {
      hide Terminated;
      forall n, c | n in nodes && c in n.prev
        ensures c in nodes && c.next == n
      {
        if n in old(nodes) && c in old(n.prev) {
        }
      }
      forall n | n in nodes && n != root
        ensures n.next != null && n.next in nodes && n in n.next.prev
      {
        if n in old(nodes) {
          assert old(n in n.next.prev);
        }
      }
    }

    twostate lemma LinkedPath(new change: Change, text: seq<byte>)
      requires old(OnPath() && Here() == cur) && Linked(change, text)
      ensures OnPath() && Here() == cur
      ensures forall n :: n in old(nodes) ==> (Applied(n) <==> old(Applied(n)))
      ensures Applied(change)
    {
      assert old(path)[|old(path)| - 1] == old(cur);
    }

    twostate lemma LinkedRecorded(new change: Change, text: seq<byte>)
      requires old(Tree() && OnPath() && Here() == cur && Recorded()) && Linked(change, text)
      requires Tree() && change.Connects(old(cur.text), text) && (change.moveAfter ==> change.insCount == 0)
      ensures Recorded()
    {
      hide Edge;
      LinkedPath(change, text);
      forall n | n in nodes && n != root
        ensures n.Stored(Applied(n))
      {
        if n in old(nodes) {
          assert old(n.Stored(Applied(n)));
          assert n.next in old(nodes);
        }
      }
    }

    twostate lemma LinkedChained(new change: Change, text: seq<byte>)
      requires old(Tree() && Chained()) && Linked(change, text)
      requires Tree() && (change.IsBarrier() && !change.open ==> !change.next.IsBarrier())
      ensures Chained()
    {
      forall n | n in nodes && n != root
        ensures n.open == if n.IsBarrier() then !n.next.open else n.next.open
        ensures n.IsBarrier() && !n.open ==> !n.next.IsBarrier()
      {
        if n in old(nodes) {
          assert n.next in old(nodes);
          assert old(n.IsBarrier()) == n.IsBarrier();
        }
      }
    }

    method Link(change: Change, ghost text: seq<byte>)
      requires cur in nodes && change !in nodes && change.prev == []
      modifies this`cur, this`nodes, this`path, this`height, cur`prev
      modifies change`next, change`text, change`depth, change`open
      ensures Linked(change, text)
    {
      var head := cur;
      change.next := head;
      head.prev := head.prev + [change];
      cur := change;
      change.text, change.depth := text, head.depth + 1;
      change.open := if change.IsBarrier() then !head.open else head.open;
      nodes, path := nodes + {change}, path + [change];
      height := if height < change.depth then change.depth else height;
    }

    /** Links a node in below the current one. */
    method AddChange(change: Change, ghost text: seq<byte>)
      requires Tree() && OnPath() && Recorded() && Chained() && Here() == cur && cur in nodes
      requires change !in nodes && change.prev == []
      requires Terminated(text) && change.Connects(cur.text, text) && (change.moveAfter ==> change.insCount == 0)
      requires change.IsBarrier() && cur.open ==> !cur.IsBarrier()
      modifies this`cur, this`nodes, this`path, this`height, cur`prev
      modifies change`next, change`text, change`depth, change`open
      ensures Tree() && OnPath() && Recorded() && Chained() && Here() == cur
      ensures Linked(change, text)
    {
      hide Edge, Terminated, Tree, OnPath, Recorded, Chained;
      Link(change, text);
      LinkedTree(change, text);
      LinkedPath(change, text);
      LinkedRecorded(change, text);
      LinkedChained(change, text);
    }

    lemma NodeText(n: Change)
      requires Tree() && n in nodes
      ensures Terminated(n.text)
    {
    }

    /** The old nodes are where they were and have the texts they had; only the current one has got a new branch. */
    twostate predicate Grew()
      reads this, nodes
    {
      && old(nodes) <= nodes
      && forall n :: n in old(nodes) ==>
           && n in nodes && unchanged(n`next, n`text, n`depth, n`open, n`insCount, n`delCount, n`offset, n`moveAfter)
           && (n.prev == old(n.prev) || n == old(cur))
    }

    /** The pending barrier joins the tree. */
    method LinkBarrier(b: Change)
      requires Sound() && Here() == cur && barrier == b && !cur.open
      modifies this`cur, this`barrier, this`nodes, this`path, this`height, nodes`prev, b
      ensures Sound() && Here() == cur && Grew() && barrier == null && inChain == old(inChain)
      ensures cur == b && cur.next == old(cur) && cur.prev == [] && cur.text == old(cur.text) && cur.IsBarrier()
      ensures nodes == old(nodes) + {cur} && old(cur).prev == old(cur.prev) + [cur]
    {
      hide Edge, Terminated, View.Valid, View.Text, Tree, OnPath, Recorded, Chained;
      EmptyEdge(cur.text, [], 0);
      NodeText(cur);
      AddChange(b, cur.text);
      barrier := null;
    }

    /** A record that is not a barrier joins the tree. */
    method LinkRecord(change: Change, ghost text: seq<byte>)
      requires Sound() && Here() == cur && barrier == null
      requires change !in nodes && change !in view.Repr && change.prev == [] && !change.IsBarrier()
      requires Terminated(text) && change.Connects(cur.text, text) && (change.moveAfter ==> change.insCount == 0)
      modifies this`cur, this`nodes, this`path, this`height, cur`prev
      modifies change`next, change`text, change`depth, change`open
      ensures Sound() && Here() == cur && Grew()
      ensures cur == change && cur.next == old(cur) && cur.text == text && cur.prev == []
      ensures old(cur).prev == old(cur.prev) + [cur] && nodes == old(nodes) + {cur}
    {
      hide Edge, Terminated, View.Valid, View.Text, Tree, OnPath, Recorded, Chained;
      AddChange(change, text);
    }

    /** Links in the pending barrier, if there is one, and below it a new record leading to `text`. */
    method NewChange(offset: nat, del: nat, ins: nat, buf: seq<byte>, moveAfter: bool, ghost text: seq<byte>)
      requires Sound() && Here() == cur && (del > 0 || ins > 0) && (moveAfter ==> ins == 0)
      requires Terminated(text) && Edge(cur.text, text, offset, del, ins, buf)
      modifies this`cur, this`barrier, this`nodes, this`path, this`height, nodes, barrier
      ensures Sound() && Here() == cur && Grew() && inChain == old(inChain) && barrier == null
      ensures cur !in old(nodes) && fresh(cur) && cur.text == text && cur.prev == []
      ensures cur.next != null && cur.next.text == old(cur.text)
      ensures cur.next == if old(barrier) == null then old(cur) else old(barrier)
      ensures old(barrier) != null ==>
        old(barrier).next == old(cur) && old(barrier).prev == [cur] && old(barrier).IsBarrier()
      ensures old(cur).prev == old(cur.prev) + [if old(barrier) == null then cur else cur.next]
      ensures nodes == old(nodes) + {cur, cur.next}
      ensures (cur.offset, cur.delCount, cur.insCount, cur.buf, cur.moveAfter) == (offset, del, ins, buf, moveAfter)
    {
      hide Edge, Terminated, View.Valid, View.Text, Tree, OnPath, Recorded, Chained;
      if barrier != null {
        LinkBarrier(barrier);
      }
      var change := new Change.Of(offset, del, ins, buf, moveAfter);
      LinkRecord(change, text);
    }

    /** Only what is recorded in the current node, and its text, is different. */
    twostate predicate Extended(text: seq<byte>)
      reads this, nodes
    {
      && cur == old(cur) && nodes == old(nodes) && path == old(path) && height == old(height)
      && cur in nodes && cur.text == text
      && unchanged(cur`next, cur`prev, cur`depth, cur`open, cur`moveAfter)
      && forall n :: n in nodes && n != cur ==> unchanged(n)
    }

    twostate lemma ExtendedTree(text: seq<byte>)
      requires old(Tree()) && Extended(text) && cur.prev == [] && Terminated(text)
      ensures Tree()
      ensures forall n :: n in nodes && n != root ==> n.next != cur
    {
      hide Terminated, Shape;
      assert Shape();
      NoChildren(cur);
    }

    lemma NoChildren(leaf: Change)
      requires Shape() && leaf.prev == []
      ensures forall n :: n in nodes && n != root ==> n.next != leaf
    {
    }

    twostate lemma ExtendedRecorded(text: seq<byte>)
      requires old(Tree() && OnPath() && Recorded() && Here() == cur) && Extended(text)
      requires Tree() && forall n :: n in nodes && n != root ==> n.next != cur
      requires cur.next != null && cur.Connects(cur.next.text, text) && (cur.moveAfter ==> cur.insCount == 0)
      ensures OnPath() && Recorded()
    {
      hide Edge, Terminated;
      assert path[cur.depth] == cur;
      forall n | n in nodes && n != root
        ensures n.Stored(Applied(n))
      {
        assert old(n.Stored(Applied(n)));
      }
    }

    twostate lemma ExtendedChained(text: seq<byte>)
      requires old(Tree() && Chained()) && Extended(text)
      requires Tree() && cur.IsBarrier() == old(cur.IsBarrier())
      ensures Chained()
    {
      forall n | n in nodes && n != root
        ensures n.open == if n.IsBarrier() then !n.next.open else n.next.open
      {
        assert old(n.IsBarrier()) == n.IsBarrier();
      }
    }

    twostate lemma ExtendedIsSound(text: seq<byte>)
      requires old(Tree() && OnPath() && Recorded() && Chained() && Here() == cur) && Extended(text)
      requires cur.prev == [] && cur.next != null && Terminated(text)
      requires cur.Connects(cur.next.text, text) && (cur.moveAfter ==> cur.insCount == 0)
      requires !cur.IsBarrier() && old(!cur.IsBarrier())
      ensures Tree() && OnPath() && Recorded() && Chained()
    {
      hide Edge, Terminated, Tree, OnPath, Recorded, Chained;
      ExtendedTree(text);
      ExtendedRecorded(text);
      ExtendedChained(text);
    }

    predicate Merging(kind: Merge)
      reads `merge, `prevMerge
    {
      merge == prevMerge && merge == kind
    }

    /** The current node is a leaf that records an insertion reaching from before `at` to after it. */
    ghost predicate InsertionAround(at: nat)
      reads this, cur
    {
      && cur.next != null && cur.prev == [] && barrier == null
      && cur.insCount > 0 && cur.delCount == 0 && cur.buf == []
      && cur.offset <= at <= cur.offset + cur.insCount
    }

    /** The current node is a leaf that records a deletion at `at`. */
    ghost predicate DeletionAt(at: nat)
      reads this, cur
    {
      && cur.next != null && cur.prev == [] && barrier == null
      && cur.insCount == 0 && cur.delCount > 0 && cur.offset == at
    }

    /** What recording an edit does: the text it led to gets a node of its own, or the current node takes it in. */
    twostate predicate RecordedEdit(merged: bool)
      reads this, nodes, barrier, view, view.Repr
    {
      && Valid() && barrier == null && inChain == old(inChain)
      && cur.next != null && !cur.IsBarrier()
      && if merged then
           && cur == old(cur) && nodes == old(nodes) && cur.prev == [] && old(!cur.IsBarrier())
           && unchanged(cur`next, cur`prev, cur`depth, cur`open, cur`moveAfter)
           && forall n :: n in nodes && n != cur ==> unchanged(n)
         else
           && Grew() && cur !in old(nodes) && fresh(cur) && cur.prev == []
           && nodes == old(nodes) + {cur, cur.next}
           && cur.next.text == old(cur.text)
           && (if old(barrier) == null then cur.next == old(cur) && old(cur).prev == old(cur.prev) + [cur] else
                 && cur.next == old(barrier) && old(barrier).next == old(cur) && old(barrier).IsBarrier()
                 && old(barrier).prev == [cur] && old(cur).prev == old(cur.prev) + [old(barrier)])
    }

    /** What is recorded in the current node leads there from `at`. */
    ghost predicate RecordedAt(at: nat, moveAfter: bool)
      reads this, cur
    {
      cur.offset == at && cur.moveAfter == moveAfter
    }

    lemma NodeAbove(n: Change)
      requires Tree() && n in nodes && n.next != null
      ensures n.next in nodes
    {
    }

    /** An erasure leads to a shorter text. */
    lemma ErasureIsShorter()
      requires Sound() && Here() == cur && cur.next != null
      ensures cur.moveAfter ==> |cur.text| <= |cur.next.text|
      ensures cur.next in nodes && cur.next != cur
    {
      NodeAbove(cur);
      HereIsStored();
      EdgeBounds(cur.next.text, cur.text, cur.offset, cur.delCount, cur.insCount, cur.buf);
    }

    /** Merged edits are taken back to where the first of them began. */
    twostate lemma MergedBack()
      requires old(Sound() && Here() == cur && cur.next != null) && RecordedEdit(true)
      requires old(cur.moveAfter ==> |cur.text| <= |cur.next.text|)
      requires cur.moveAfter ==> cur.offset + |old(cur.text)| == old(cur.offset) + |cur.text|
      requires !cur.moveAfter ==> cur.offset == old(cur.offset)
      ensures cur.BackAt() == old(cur.BackAt())
    {
      hide Tree, OnPath, Recorded, Chained, Edge, View.Valid, View.Text;
      ErasureIsShorter();
    }

    lemma HereIsStored()
      requires Tree() && OnPath() && Recorded() && Here() == cur && cur.next != null
      ensures cur in nodes && cur.next != cur && cur.Connects(cur.next.text, cur.text)
      ensures cur.moveAfter ==> cur.insCount == 0
    {
      hide Edge;
      assert path[cur.depth] == cur;
      assert cur.Stored(Applied(cur));
    }

    /** Records that `len` bytes have come in at the cursor. */
    method RecordInsert(len: nat, ghost ins: seq<byte>)
      requires Sound() && Here() == cur && 0 < len == |ins|
      requires view.At() <= |cur.text| && view.Text() == Splice(cur.text, view.At(), 0, ins)
      requires Merging(MergeInsert) ==> InsertionAround(view.At())
      modifies this, nodes, barrier
      ensures merge == old(merge) && prevMerge == old(prevMerge)
      ensures RecordedEdit(old(Merging(MergeInsert)))
      ensures InsertionAround(view.At()) && InsertionAround(view.At() + len)
      ensures RecordedAt(if old(Merging(MergeInsert)) then old(cur.offset) else view.At(), false)
    {
      hide Edge, Terminated, Splice, View.Valid, View.Text, View.At, Tree, OnPath, Recorded, Chained;
      if merge == prevMerge && merge == MergeInsert {
        HereIsStored();
        InsertionExtends(cur.next.text, cur.text, cur.offset, cur.insCount, view.At(), ins);
        cur.insCount := cur.insCount + len;
        cur.text := view.Text();
        ExtendedIsSound(view.Text());
        return;
      }
      EdgeOfSplice(cur.text, view.At(), 0, ins);
      EmptySlice(cur.text, view.At());
      var offset := view.GetOffset();
      NewChange(offset, 0, len, [], false, view.Text());
    }

    /**
     * Records that the bytes `buf` have gone from the cursor. Consecutive
     * deletions or erasures go into one record, at its end or its beginning.
     */
    method RecordDelete(buf: seq<byte>, moveAfter: bool)
      requires Sound() && Here() == cur && buf != []
      requires view.At() + |buf| <= |cur.text| && buf == cur.text[view.At()..view.At() + |buf|]
      requires view.Text() == Splice(cur.text, view.At(), |buf|, [])
      requires Merging(MergeDelete) ==> DeletionAt(view.At())
      requires Merging(MergeErase) ==> DeletionAt(view.At() + |buf|)
      modifies this, nodes, barrier
      ensures merge == old(merge) && prevMerge == old(prevMerge)
      ensures RecordedEdit(old(Merging(MergeDelete) || Merging(MergeErase)))
      ensures DeletionAt(view.At())
      ensures old(Merging(MergeDelete) || Merging(MergeErase)) || RecordedAt(view.At(), moveAfter)
    {
      hide Edge, Terminated, Splice, View.Valid, View.Text, View.At, Tree, OnPath, Recorded, Chained;
      var del, erase := merge == MergeDelete, merge == MergeErase;
      ghost var t := cur.text;
      if merge == prevMerge && (del || erase) {
        ExtendDelete(buf, del);
        return;
      }
      EdgeOfSplice(t, view.At(), |buf|, []);
      var offset := view.GetOffset();
      NewChange(offset, |buf|, 0, buf, moveAfter, view.Text());
    }

    /** The current node takes a deletion, or an erasure, in. */
    method ExtendDelete(buf: seq<byte>, del: bool)
      requires Sound() && Here() == cur && buf != []
      requires view.At() + |buf| <= |cur.text| && buf == cur.text[view.At()..view.At() + |buf|]
      requires view.Text() == Splice(cur.text, view.At(), |buf|, [])
      requires DeletionAt(view.At() + if del then 0 else |buf|)
      modifies cur
      ensures RecordedEdit(true) && DeletionAt(view.At())
    {
      hide Edge, Terminated, Splice, View.Valid, View.Text, View.At, Tree, OnPath, Recorded, Chained;
      ghost var t := cur.text;
      HereIsStored();
      EdgeBounds(cur.next.text, t, cur.offset, cur.delCount, 0, cur.buf);
      if del {
        DeletionExtends(cur.next.text, t, cur.offset, cur.buf, |buf|);
      } else {
        ErasureExtends(cur.next.text, t, cur.offset, cur.buf, |buf|);
      }
      var left, right := if del then cur.buf else buf, if del then buf else cur.buf;
      cur.offset := cur.offset - if del then 0 else |buf|;
      cur.delCount := cur.delCount + |buf|;
      cur.buf := left + right;
      cur.text := view.Text();
      ExtendedIsSound(view.Text());
    }

    /** Records a replacement, which is never merged. */
    method RecordReplace(deleted: seq<byte>, ins: nat, ghost text: seq<byte>)
      requires Sound() && Here() == cur && deleted != [] && 0 < ins == |text|
      requires view.At() + |deleted| <= |cur.text|
      requires deleted == cur.text[view.At()..view.At() + |deleted|]
      requires view.Text() == Splice(cur.text, view.At(), |deleted|, text)
      modifies this, nodes, barrier
      ensures merge == old(merge) && prevMerge == old(prevMerge)
      ensures RecordedEdit(false) && RecordedAt(view.At(), false)
    {
      hide Edge, Terminated, Splice, View.Valid, View.Text, View.At, Tree, OnPath, Recorded, Chained;
      EdgeOfSplice(cur.text, view.At(), |deleted|, text);
      var offset := view.GetOffset();
      NewChange(offset, |deleted|, ins, deleted, false, view.Text());
    }

    method BeginChange(m: Merge)
      requires Valid() && (inChain ==> m == MergeNone)
      modifies `merge
      ensures Valid() && merge == m
    {
      hide Tree, OnPath, Recorded, Chained, View.Valid, View.Text, Terminated;
      merge := m;
    }

    method EndChange()
      requires Valid()
      modifies `prevMerge
      ensures Valid() && prevMerge == merge
    {
      hide Tree, OnPath, Recorded, Chained, View.Valid, View.Text, Terminated;
      prevMerge := merge;
    }

    /** The barrier joins the tree only once there is a real change. */
    method BeginChangeChain()
      requires Valid() && !inChain
      modifies `barrier, `merge, `inChain
      ensures Valid() && inChain && merge == MergeNone && fresh(barrier)
    {
      hide Tree, OnPath, Recorded, Chained, View.Valid, View.Text, Terminated;
      barrier := new Change();
      merge := MergeNone;
      inChain := true;
    }

    method EndChangeChain()
      requires Valid() && inChain
      modifies this, cur
      ensures Valid() && !inChain && barrier == null && Grew() && merge == old(merge) && prevMerge == old(prevMerge)
      ensures view.Text() == old(view.Text())
      ensures old(barrier) != null ==> cur == old(cur) && unchanged(cur) && nodes == old(nodes) && height == old(height)
      ensures old(barrier) == null ==>
        && cur.IsBarrier() && cur.next == old(cur) && nodes == old(nodes) + {cur}
        && cur !in old(nodes) && fresh(cur)
        && cur.prev == [] && !cur.open && old(cur).prev == old(cur.prev) + [cur]
    {
      hide Edge, Terminated, Tree, OnPath, Recorded, Chained, View.Valid, View.Text;
      inChain := false;
      if barrier != null {
        barrier := null;
      } else {
        EmptyEdge(cur.text, [], 0);
        NodeText(cur);
        var end := new Change();
        AddChange(end, cur.text);
      }
    }

    /** Nothing has happened to the tree. */
    twostate predicate TreeUntouched()
      reads this, nodes, barrier, view, view.Repr
    {
      && Valid()
      && cur == old(cur) && nodes == old(nodes) && path == old(path) && height == old(height) && barrier == old(barrier)
      && inChain == old(inChain)
      && (forall n :: n in nodes ==> unchanged(n))
    }

    /** Nothing has happened to the tree or to the text. */
    twostate predicate Untouched()
      reads this, nodes, barrier, view, view.Repr
    {
      && TreeUntouched() && prevMerge == old(prevMerge)
      && old(view.Valid()) && view.Text() == old(view.Text()) && view.At() == old(view.At())
    }

    /** Inserts bytes at the cursor and records that; at the end of the text a newline is forced. */
    method InsertBytes(buf: seq<byte>)
      requires Valid()
      requires Merging(MergeInsert) ==> InsertionAround(view.At())
      modifies this, nodes, barrier, view.Repr
      ensures Valid() && view.At() == old(view.At()) && fresh(view.Repr - old(view.Repr))
      ensures view.Text() == WithFinalNewline(Splice(old(view.Text()), old(view.At()), 0, buf))
      ensures merge == old(merge) && prevMerge == old(prevMerge)
      ensures buf == [] ==> Untouched()
      ensures buf != [] ==> RecordedEdit(old(Merging(MergeInsert)))
      ensures buf != [] ==> InsertionAround(view.At()) && InsertionAround(view.At() + |buf|)
      ensures buf != [] ==> RecordedAt(if old(Merging(MergeInsert)) then old(cur.offset) else view.At(), false)
    {
      hide Edge, Terminated, Splice, View.Valid, View.Text, View.At, Tree, OnPath, Recorded, Chained;
      ghost var t, p := view.Text(), view.At();
      if |buf| == 0 {
        NothingInserted(t, p, buf);
        return;
      }
      ghost var ins;
      var recLen;
      recLen, ins := InsertText(buf);
      RecordInsert(recLen, ins);
    }

    /** Puts bytes into the text, in front of a newline if they would be the end of it; returns how many came in. */
    method InsertText(buf: seq<byte>) returns (recLen: nat, ghost ins: seq<byte>)
      requires view.Valid() && Terminated(view.Text()) && buf != []
      modifies view.Repr
      ensures view.Valid() && view.At() == old(view.At()) && fresh(view.Repr - old(view.Repr))
      ensures view.Text() == WithFinalNewline(Splice(old(view.Text()), old(view.At()), 0, buf))
      ensures view.Text() == Splice(old(view.Text()), old(view.At()), 0, ins)
      ensures |buf| <= recLen == |ins|
    {
      hide Terminated, Splice, View.Valid, View.Text, View.At;
      InsertionEnds(view.Text(), view.At(), buf);
      recLen, ins := |buf|, buf;
      if buf[|buf| - 1] != NL && view.AtEof() {
        view.DoInsert([NL]);
        recLen := recLen + 1;
        ins := buf + [NL];
      }
      view.DoInsert(buf);
    }

    /** Deletes bytes at the cursor and records that; a line at the end of the text keeps its newline. */
    method DeleteBytes(len: nat, moveAfter: bool)
      requires Valid() && view.At() + len <= |view.Text()|
      requires Merging(MergeDelete) && len > 0 ==> DeletionAt(view.At())
      requires Merging(MergeErase) && len > 0 ==> DeletionAt(view.At() + len)
      requires Merging(MergeErase) && len > 1 ==> Terminated(Splice(view.Text(), view.At(), len, []))
      modifies this, nodes, barrier, view.Repr
      ensures Valid() && view.At() == old(view.At()) && fresh(view.Repr - old(view.Repr))
      ensures view.Text() == WithFinalNewline(Splice(old(view.Text()), old(view.At()), len, []))
      ensures len == 0 ==> view.Text() == old(view.Text())
      ensures view.Text() == old(view.Text()) ==> Untouched() && merge == if len == 0 then old(merge) else MergeNone
      ensures prevMerge == old(prevMerge)
      ensures view.Text() != old(view.Text()) ==>
        && merge == old(merge)
        && RecordedEdit(old(Merging(MergeDelete) || Merging(MergeErase)))
        && DeletionAt(view.At())
        && (old(Merging(MergeDelete) || Merging(MergeErase)) || RecordedAt(view.At(), moveAfter))
    {
      hide Edge, Terminated, Splice, View.Valid, View.Text, View.At, Tree, OnPath, Recorded, Chained, WithFinalNewline;
      ghost var t, p := view.Text(), view.At();
      if len == 0 {
        NothingInserted(t, p, []);
        return;
      }
      var n := ButLastNewline(len);
      if n == 0 {
        BeginChange(MergeNone);
        return;
      }
      DeletionShrinks(t, p, n);
      var deleted := view.DoDelete(n);
      RecordDelete(deleted, moveAfter);
    }

    /** How much is really deleted: not the final newline behind the rest of a line. */
    method ButLastNewline(len: nat) returns (n: nat)
      requires view.Valid() && Terminated(view.Text()) && 0 < len && view.At() + len <= |view.Text()|
      ensures n <= len && (Terminated(Splice(view.Text(), view.At(), len, [])) ==> n == len)
      ensures Splice(view.Text(), view.At(), n, []) == WithFinalNewline(Splice(view.Text(), view.At(), len, []))
      ensures n == 0 <==> WithFinalNewline(Splice(view.Text(), view.At(), len, [])) == view.Text()
    {
      hide Terminated, Splice, View.Valid, View.Text, View.At;
      ghost var t, p := view.Text(), view.At();
      n := len;
      DeletionEnds(t, p, len);
      DeletionShrinks(t, p, len);
      var last := view.WouldDeleteLastBytes(len);
      if last {
        var midLine := view.NoNewlineBefore();
        if midLine {
          n := n - 1;
          if n > 0 {
            DeletionShrinks(t, p, n);
          }
        }
      }
    }

    /** Replaces bytes at the cursor and records that. */
    method ReplaceBytes(del: nat, ins: seq<byte>)
      requires Valid() && view.At() + del <= |view.Text()|
      requires Merging(MergeInsert) ==> InsertionAround(view.At())
      requires Merging(MergeDelete) && del > 0 && ins == [] ==> DeletionAt(view.At())
      requires Merging(MergeErase) && del > 0 && ins == [] ==> DeletionAt(view.At() + del)
      requires Merging(MergeErase) && del > 1 && ins == [] ==> Terminated(Splice(view.Text(), view.At(), del, []))
      modifies this, nodes, barrier, view.Repr
      ensures Valid() && view.At() == old(view.At()) && fresh(view.Repr - old(view.Repr))
      ensures view.Text() == WithFinalNewline(Splice(old(view.Text()), old(view.At()), del, ins))
      ensures prevMerge == old(prevMerge)
      ensures ins == [] && view.Text() == old(view.Text()) ==> Untouched()
      ensures ins == [] && view.Text() != old(view.Text()) ==>
        && RecordedEdit(old(Merging(MergeDelete) || Merging(MergeErase)))
        && (old(Merging(MergeDelete) || Merging(MergeErase)) || RecordedAt(view.At(), false))
      ensures ins != [] ==>
        || (RecordedEdit(false) && RecordedAt(view.At(), false))
        || (old(Merging(MergeInsert)) && RecordedEdit(true) && RecordedAt(old(cur.offset), false))
      ensures del == 0 && ins != [] ==>
        && RecordedEdit(old(Merging(MergeInsert)))
        && RecordedAt(if old(Merging(MergeInsert)) then old(cur.offset) else view.At(), false)
      ensures merge == old(merge) || merge == MergeNone
      ensures del == 0 && ins != [] ==> merge == old(merge) && InsertionAround(view.At() + |ins|)
      ensures view.At() + |ins| <= |view.Text()|
    {
      hide Edge, Terminated, Splice, View.Valid, View.Text, View.At, Tree, OnPath, Recorded, Chained;
      ghost var t, p := view.Text(), view.At();
      var n := del;
      ReplacementSize(t, p, del, ins);
      if del == 0 {
        InsertBytes(ins);
        return;
      }
      if |ins| == 0 {
        DeleteBytes(del, false);
        return;
      }
      ReplacementEnds(t, p, del, ins);
      var last := view.WouldDeleteLastBytes(del);
      if last {
        if ins[|ins| - 1] != NL {
          n := n - 1;
          if n == 0 {
            InsertBytes(ins);
            return;
          }
        }
      }
      var deleted := view.DoReplace(n, ins);
      RecordReplace(deleted, |ins|, ins);
    }

    /** Only the stored form of `change` has been turned round. */
    twostate predicate Flipped(change: Change)
      reads this, nodes
    {
      && nodes == old(nodes) && height == old(height) && cur == old(cur)
      && change in nodes && change.next != null
      && unchanged(change`next, change`prev, change`text, change`depth, change`open)
      && change.IsBarrier() == old(change.IsBarrier())
      && forall n :: n in nodes && n != change ==> unchanged(n)
    }

    twostate lemma PoppedIsSound(change: Change)
      requires old(Tree() && OnPath() && Recorded() && Chained() && Here() == change) && Flipped(change)
      requires path == old(path)[..|old(path)| - 1] && change.Stored(false)
      ensures Tree() && OnPath() && Recorded() && Chained() && Here() == change.next
    {
      hide Edge, Terminated, OnPath;
      FlippedTree(change);
      PoppedPath(change);
      forall n | n in nodes && n != root
        ensures n.Stored(Applied(n))
      {
        assert old(n.Stored(Applied(n)));
      }
      ChainedStays(change);
    }

    twostate lemma PoppedPath(change: Change)
      requires old(OnPath() && Here() == change) && Flipped(change) && change.next != null
      requires path == old(path)[..|old(path)| - 1] && change.depth == old(change.next.depth) + 1
      ensures OnPath() && Here() == change.next
      ensures forall n :: n in nodes ==> (Applied(n) <==> n != change && old(Applied(n)))
    {
      assert old(path)[|old(path)| - 1] == change && change.depth == |old(path)| - 1;
    }

    twostate lemma FlippedTree(change: Change)
      requires old(Tree()) && Flipped(change)
      ensures Tree()
      ensures change != root && change.depth == change.next.depth + 1
    {
      hide Terminated;
      assert old(root.next) == null;
    }

    twostate lemma PushedPath(change: Change)
      requires old(OnPath() && Here() == change.next) && Flipped(change)
      requires path == old(path) + [change] && change.depth == old(change.next.depth) + 1
      ensures OnPath() && Here() == change
      ensures forall n :: n in nodes ==> (Applied(n) <==> n == change || old(Applied(n)))
    {
      assert change.depth == |old(path)|;
    }

    twostate lemma PushedIsSound(change: Change)
      requires old(Tree() && OnPath() && Recorded() && Chained() && Here() == change.next) && Flipped(change)
      requires path == old(path) + [change] && change.Stored(true)
      ensures Tree() && OnPath() && Recorded() && Chained() && Here() == change
    {
      hide Edge, Terminated, OnPath;
      FlippedTree(change);
      PushedPath(change);
      forall n | n in nodes && n != root
        ensures n.Stored(Applied(n))
      {
        assert old(n.Stored(Applied(n)));
      }
      ChainedStays(change);
    }

    twostate lemma ChainedStays(change: Change)
      requires old(Tree() && Chained()) && Flipped(change) && Tree()
      ensures Chained()
    {
      forall n | n in nodes && n != root
        ensures n.open == if n.IsBarrier() then !n.next.open else n.next.open
      {
        assert old(n.IsBarrier()) == n.IsBarrier();
      }
    }

    /** The tree has kept its shape and its texts. */
    twostate predicate SameNodes()
      reads this, nodes
    {
      && nodes == old(nodes) && height == old(height)
      && forall n :: n in nodes ==>
           && unchanged(n`next, n`prev, n`text, n`depth, n`open, n`offset, n`moveAfter)
           && n.IsBarrier() == old(n.IsBarrier())
    }

    /** Undoing and redoing move along the tree and leave it alone. */
    twostate predicate Walked()
      reads this, nodes
    {
      SameNodes() && barrier == old(barrier) && inChain == old(inChain)
    }

    lemma StoredForm(n: Change)
      requires Tree() && OnPath() && Recorded() && n in nodes && n.next != null
      ensures Here() == n ==> n.Stored(true)
      ensures Here() == n.next ==> n.Stored(false)
      ensures n.next in nodes && n.next != n
      ensures path != [] && (Here() == n ==> n.depth == |path| - 1) && (Here() == n.next ==> n.depth == |path|)
    {
      assert n.Stored(Applied(n));
    }

    /** Takes back the change that led to the current text. */
    method StepBack(change: Change)
      requires Sound() && Here() == change && change in nodes && change.next != null
      requires !change.IsBarrier() && view.Text() == change.text
      modifies this`path, nodes, view.Repr
      ensures Sound() && Walked() && cur == old(cur) && fresh(view.Repr - old(view.Repr))
      ensures path == old(path)[..|old(path)| - 1] && |path| < |old(path)|
      ensures Here() == change.next && view.Text() == change.next.text && view.At() == change.BackAt()
    {
      hide Edge, Terminated, View.Valid, View.Text, View.At, Tree, OnPath, Recorded, Chained;
      StoredForm(change);
      NodeText(change.next);
      EdgeBounds(change.next.text, change.text, change.offset, change.delCount, change.insCount, change.buf);
      change.Reverse(view, change.next.text);
      path := path[..|path| - 1];
      PoppedIsSound(change);
    }

    /** Makes a change again that leads on from the current text. */
    method StepForward(change: Change)
      requires Sound() && change in nodes && change.next != null && Here() == change.next
      requires !change.IsBarrier() && view.Text() == change.next.text
      modifies this`path, nodes, view.Repr
      ensures Sound() && Walked() && cur == old(cur) && fresh(view.Repr - old(view.Repr))
      ensures path == old(path) + [change] && Here() == change && view.Text() == change.text
      ensures view.At() == change.offset
    {
      hide Edge, Terminated, View.Valid, View.Text, View.At, Tree, OnPath, Recorded, Chained;
      StoredForm(change);
      NodeText(change);
      change.Reverse(view, change.text);
      path := path + [change];
      PushedIsSound(change);
    }

    /** Barriers are passed over in both directions: they have the text of the node above them. */
    ghost method PassBarrier(change: Change, back: bool)
      requires Sound() && change in nodes && change.next != null && change.IsBarrier()
      requires Here() == if back then change else change.next
      modifies this`path
      ensures Sound() && Walked() && cur == old(cur)
      ensures path == if back then old(path)[..|old(path)| - 1] else old(path) + [change]
      ensures back ==> |path| < |old(path)|
      ensures Here() == (if back then change.next else change) && change.text == change.next.text
    {
      hide Edge, Terminated, View.Valid, View.Text, View.At, Tree, OnPath, Recorded, Chained;
      StoredForm(change);
      BarrierText(change);
      if back {
        path := path[..|path| - 1];
        PoppedIsSound(change);
      } else {
        path := path + [change];
        PushedIsSound(change);
      }
    }

    lemma BarrierText(change: Change)
      requires change.IsBarrier() && change.next != null
      requires change.Stored(true) || change.Stored(false)
      ensures change.text == change.next.text && change.Stored(true) && change.Stored(false)
    {
      var t, u := change.text, change.next.text;
      assert change.buf == [];
    }

    /** From inside of a chain, up to the barrier it starts with. */
    ghost function ChainStart(n: Change): (b: Change)
      requires Tree() && Chained() && n in nodes && n.open
      reads `nodes, `height, `cur, nodes
      ensures b in nodes && b.IsBarrier() && b.open && b.next != null && b.next in nodes && !b.next.open
      decreases n.depth
    {
      if n.IsBarrier() then n else ChainStart(n.next)
    }

    /** From inside of a chain, down to the barrier it ends with. */
    ghost function ChainEnd(n: Change): (b: Change)
      requires Tree() && Chained() && n in nodes && n.open && !cur.open
      reads `nodes, `height, `cur, nodes, cur
      ensures b in nodes && b.IsBarrier() && !b.open && b.next != null && b.next in nodes && b.next.open
      decreases height - n.depth
    {
      var child := n.prev[|n.prev| - 1];
      assert child in n.prev;
      if child.IsBarrier() then child else ChainEnd(child)
    }

    /** The node an undo of what led to `n` goes to. */
    ghost function Above(n: Change): Change
      requires Tree() && Chained() && n in nodes && !n.open && n.next != null
      reads `nodes, `height, `cur, nodes
    {
      if n.IsBarrier() then ChainStart(n.next).next else n.next
    }

    /** The node an undo goes to. */
    ghost function UndoTarget(): Change
      requires Tree() && Chained() && cur in nodes && !cur.open && cur.next != null
      reads `nodes, `height, `cur, nodes, cur
    {
      Above(cur)
    }

    /** Where undoing what led to `n` leaves the cursor: a chain is undone down to its first change. */
    ghost function UndoPlace(n: Change): nat
      requires Tree() && Chained() && n in nodes && !n.open && n.next != null && !cur.open
      reads `nodes, `height, `cur, nodes, cur
    {
      if n.IsBarrier() then
        var first := ChainStart(n.next).prev[0];
        assert first in ChainStart(n.next).prev;
        first.BackAt()
      else
        n.BackAt()
    }

    /** Where redoing what leads to `n` leaves the cursor: a chain is redone up to its last change. */
    ghost function RedoPlace(n: Change): nat
      requires Shape() && n in nodes && n.next != null
      reads `nodes, `height, nodes
    {
      if n.IsBarrier() then n.next.offset else n.offset
    }

    /** The node a redo of the branch that begins with `child` goes to. */
    ghost function RedoTarget(child: Change): Change
      requires Tree() && Chained() && cur in nodes && !cur.open
      requires child in nodes && child.next != null && !child.next.open
      reads `nodes, `height, `cur, nodes, cur
    {
      if child.IsBarrier() then ChainEnd(child) else child
    }

    /** Chains begin where they began. */
    twostate predicate Framed()
      reads this, nodes
    {
      && old(nodes) <= nodes
      && forall n :: n in old(nodes) ==>
           n in nodes && unchanged(n`next, n`depth, n`open) && n.IsBarrier() == old(n.IsBarrier())
    }

    /** Finished chains are what they were. */
    twostate predicate ChainsKept()
      requires old(Tree()) && Tree()
      reads this, nodes
    {
      && Framed()
      && forall n :: n in old(nodes) && n.open ==>
           unchanged(n`prev, n`offset) && n.BackAt() == old(n.BackAt())
    }

    twostate lemma WalkKeepsChains()
      requires old(Tree()) && Tree() && Walked()
      ensures ChainsKept()
      ensures forall n :: n in nodes ==> n.BackAt() == old(n.BackAt())
    {
    }

    twostate lemma GrowthKeepsChains()
      requires old(Tree() && !cur.open) && Tree() && Grew()
      ensures ChainsKept()
      ensures forall n :: n in old(nodes) ==> n.BackAt() == old(n.BackAt())
    {
    }

    twostate lemma MergingKeepsChains()
      requires old(Tree() && cur in nodes && !cur.open) && Tree() && RecordedEdit(true)
      ensures ChainsKept()
      ensures forall n :: n in nodes && n != cur ==> n.BackAt() == old(n.BackAt())
    {
      hide Edge, Terminated, View.Valid, View.Text, OnPath, Recorded, Chained;
      NoChildren(cur);
    }

    twostate lemma FramedChainStart(n: Change)
      requires old(Tree() && Chained() && n in nodes && n.open) && Framed()
      requires Tree() && Chained()
      ensures ChainStart(n) == old(ChainStart(n))
      decreases n.depth
    {
      if !n.IsBarrier() {
        FramedChainStart(n.next);
      }
    }

    twostate lemma KeptChainEnd(n: Change)
      requires old(Tree() && Chained() && n in nodes && n.open && !cur.open)
      requires Tree() && Chained() && !cur.open && ChainsKept()
      ensures n in nodes && n.open && ChainEnd(n) == old(ChainEnd(n))
      decreases old(height) - old(n.depth)
    {
      hide Tree, Chained;
      WasAround(n);
      var child := old(n.prev[|n.prev| - 1]);
      WasAround(child);
      if !child.IsBarrier() {
        KeptChainEnd(child);
      }
    }

    /** The node that branch `i` of a node leads to. */
    ghost function BranchOf(n: Change, i: nat): Change
      requires Tree() && Chained() && cur in nodes && !cur.open && n in nodes && !n.open && i < |n.prev|
      reads `nodes, `height, `cur, nodes, cur
    {
      var child := n.prev[i];
      assert child in n.prev;
      RedoTarget(child)
    }

    /** As long as chains are kept, so are the neighbours of a node outside of them, and where undo and redo lead. */
    twostate lemma KeptPlaces(n: Change)
      requires old(Tree() && Chained() && cur in nodes && n in nodes && !n.open && !cur.open)
      requires Tree() && Chained() && cur in nodes && !cur.open && ChainsKept()
      ensures n in nodes && !n.open
      ensures n.next != null ==> Above(n) == old(Above(n))
      ensures n.next != null && n.BackAt() == old(n.BackAt()) ==> UndoPlace(n) == old(UndoPlace(n))
      ensures n.next != null && n.offset == old(n.offset) ==> RedoPlace(n) == old(RedoPlace(n))
      ensures forall k :: 0 <= k < |n.prev| && k < |old(n.prev)| && n.prev[k] == old(n.prev[k]) ==>
        BranchOf(n, k) == old(BranchOf(n, k))
    {
      hide Tree, Chained;
      AroundNode(n);
      WasAround(n);
      if n.next != null && n.IsBarrier() {
        FramedChainStart(n.next);
        var start := ChainStart(n.next);
        AroundNode(start);
        WasAround(start);
        AroundNode(start.prev[0]);
      }
      forall k | 0 <= k < |n.prev| && k < |old(n.prev)| && n.prev[k] == old(n.prev[k])
        ensures BranchOf(n, k) == old(BranchOf(n, k))
      {
        var child := n.prev[k];
        AroundNode(child);
        if child.IsBarrier() {
          KeptChainEnd(child);
        }
      }
    }

    twostate lemma WasAround(n: Change)
      requires old(Tree() && Chained() && n in nodes)
      ensures old(n.next != null ==> n.next in nodes && (n.IsBarrier() && !n.open ==> n.next.open))
      ensures old(n.next != null ==> n.depth == n.next.depth + 1 <= height)
      ensures forall k :: 0 <= k < |old(n.prev)| ==> old(n.prev[k]) in old(nodes) && old(n.prev[k].next == n)
      ensures old(n.open) ==> |old(n.prev)| == old(if n == cur then 0 else 1)
      ensures old(n.next != null ==> n.open == if n.IsBarrier() then !n.next.open else n.next.open)
    {
      forall k | 0 <= k < |old(n.prev)| ensures old(n.prev[k]) in old(nodes) && old(n.prev[k].next == n) {
        assert old(n.prev[k] in n.prev);
      }
    }

    ghost function RedoBranch(i: nat): Change
      requires Tree() && Chained() && cur in nodes && !cur.open && i < |cur.prev|
      reads `nodes, `height, `cur, nodes, cur
    {
      BranchOf(cur, i)
    }

    /** A chain has one end, whichever of its nodes one starts from. */
    lemma {:induction false} ChainEndFromStart(n: Change)
      requires Tree() && Chained() && n in nodes && n.open && !cur.open
      ensures ChainEnd(ChainStart(n)) == ChainEnd(n)
      decreases n.depth
    {
      if !n.IsBarrier() {
        AroundNode(n);
        AroundNode(n.next);
        assert n.next.prev == [n];
        ChainEndFromStart(n.next);
      }
    }

    /** Where undo goes to from a node, redo goes back from: one of the branches leads to the node. */
    lemma RedoRetraces(n: Change)
      requires Tree() && Chained() && cur in nodes && !cur.open
      requires n in nodes && !n.open && n.next != null && (n.IsBarrier() ==> n.next.open)
      requires cur == if n.IsBarrier() then ChainStart(n.next).next else n.next
      ensures exists i :: 0 <= i < |cur.prev| && RedoBranch(i) == n
    {
      AroundNode(n);
      var child := n;
      if n.IsBarrier() {
        child := ChainStart(n.next);
        ChainEndFromStart(n.next);
        AroundNode(n.next);
        assert n.next.prev == [n];
      }
      AroundNode(child);
      assert child in cur.prev && RedoTarget(child) == n;
      var i :| 0 <= i < |cur.prev| && cur.prev[i] == child;
      assert RedoBranch(i) == n;
    }

    lemma {:induction false} ChainStartFromEnd(n: Change)
      requires Tree() && Chained() && n in nodes && n.open && !cur.open
      ensures ChainStart(ChainEnd(n).next) == ChainStart(n)
      decreases height - n.depth
    {
      AroundNode(n);
      var child := n.prev[|n.prev| - 1];
      AroundNode(child);
      if !child.IsBarrier() {
        ChainStartFromEnd(child);
      }
    }

    /** Where redo goes to, undo goes back from. */
    lemma UndoRetraces(child: Change)
      requires Tree() && Chained() && cur in nodes && !cur.open && cur.next != null
      requires child in nodes && child.next != null && !child.next.open && (child.IsBarrier() ==> child.open)
      requires cur == RedoTarget(child)
      ensures UndoTarget() == child.next
    {
      AroundNode(child);
      if child.IsBarrier() {
        ChainStartFromEnd(child);
      }
    }

    /** What the invariant says around one node. */
    lemma AroundNode(n: Change)
      requires Tree() && Chained() && n in nodes
      ensures n == root <==> n.next == null
      ensures n == root ==> !n.open
      ensures n != root ==> n.next in nodes && n in n.next.prev && n.depth == n.next.depth + 1 <= height
      ensures n != root ==> n.open == if n.IsBarrier() then !n.next.open else n.next.open
      ensures n != root && n.IsBarrier() && !n.open ==> !n.next.IsBarrier()
      ensures n.open ==> |n.prev| == if n == cur then 0 else 1
      ensures forall c :: c in n.prev ==> c in nodes && c.next == n && c != root
    {
    }

    /** Outside of chains the current node can be any one outside of chains. */
    twostate lemma CurMoved()
      requires old(Tree() && Chained() && cur in nodes && !cur.open) && nodes == old(nodes) && height == old(height)
      requires cur in nodes && !cur.open
      requires forall n :: n in nodes ==> unchanged(n)
      ensures Chained()
    {
    }

    /** Undoes the last change, or the last chain of changes; at the root there is nothing to undo. */
    method Undo() returns (ok: bool)
      requires Valid() && !inChain
      modifies this`cur, this`path, nodes, view.Repr
      ensures Valid() && Walked() && fresh(view.Repr - old(view.Repr))
      ensures ok <==> old(cur) != root
      ensures !ok ==> cur == old(cur) && view.Text() == old(view.Text()) && view.At() == old(view.At())
      ensures ok ==> cur == old(UndoTarget()) && |path| < |old(path)|
      ensures ok ==> view.At() == old(UndoPlace(cur))
      ensures ok ==> exists i :: 0 <= i < |cur.prev| && RedoBranch(i) == old(cur)
    {
      hide Edge, Terminated, View.Valid, View.Text, View.At, Tree, OnPath, Recorded, Chained, ChainStart;
      hide UndoPlace;
      ghost var n := cur;
      AroundNode(n);
      var change := cur;
      if change.next == null {
        return false;
      }
      change := UndoFrom(change);
      AroundNode(change);
      label moved:
      cur := change.next;
      CurMoved@moved();
      if n.IsBarrier() {
        FramedChainStart(n.next);
      }
      RedoRetraces(n);
      return true;
    }

    /** Takes back what led to the current node; returns the first of the changes taken back. */
    method UndoFrom(start: Change) returns (change: Change)
      requires Valid() && !inChain && cur.next != null && start == cur
      modifies this`path, nodes, view.Repr
      ensures Sound() && Walked() && cur == old(cur) && fresh(view.Repr - old(view.Repr))
      ensures change in nodes && change.next == old(UndoTarget()) && !change.next.open
      ensures Here() == change.next && view.Text() == change.next.text && |path| < |old(path)|
      ensures view.At() == old(UndoPlace(cur))
    {
      hide Edge, Terminated, View.Valid, View.Text, View.At, Tree, OnPath, Recorded, Chained, ChainStart;
      AroundNode(cur);
      change := start;
      if change.IsBarrier() {
        PassBarrier(change, true);
        change := UndoChain(change);
      } else {
        StepBack(change);
      }
      AroundNode(change);
    }

    /** Makes the changes again that a branch begins with; returns the last of them. */
    method RedoFrom(child: Change) returns (change: Change)
      requires Valid() && !inChain && child in nodes && child.next == cur
      modifies this`path, nodes, view.Repr
      ensures Sound() && Walked() && cur == old(cur) && fresh(view.Repr - old(view.Repr))
      ensures change in nodes && change == old(RedoTarget(child)) && !change.open
      ensures Here() == change && view.Text() == change.text
      ensures change.next != null && view.At() == RedoPlace(change)
    {
      hide Edge, Terminated, View.Valid, View.Text, View.At, Tree, OnPath, Recorded, Chained, ChainEnd;
      AroundNode(child);
      change := child;
      if change.IsBarrier() {
        PassBarrier(change, false);
        change := RedoChain(change);
      } else {
        StepForward(change);
      }
      AroundNode(change);
    }

    /** Undoes everything between the two barriers of a chain; returns the first of them. */
    method UndoChain(end: Change) returns (change: Change)
      requires Sound() && end in nodes && end.next != null && end.next.open && !cur.open
      requires end.IsBarrier() && !end.open
      requires end.next in nodes && Here() == end.next && view.Text() == Here().text
      modifies this`path, nodes, view.Repr
      ensures Sound() && Walked() && cur == old(cur) && fresh(view.Repr - old(view.Repr))
      ensures change in nodes && change.next != null && Here() == change.next && view.Text() == Here().text
      ensures change == old(ChainStart(end.next)) && change.IsBarrier() && change.open
      ensures |change.prev| == 1 && change.prev[0].next != null && view.At() == change.prev[0].BackAt()
      ensures |path| < |old(path)|
    {
      hide Edge, Terminated, View.Valid, View.Text, View.At, Tree, OnPath, Recorded, Chained;
      AroundNode(end);
      change := end;
      ghost var above: Change := end.next;
      while true
        invariant Sound() && Walked() && cur == old(cur) && fresh(view.Repr - old(view.Repr))
        invariant change.next == above && above in nodes && above.open && old(above in nodes && above.open)
        invariant Here() == above && view.Text() == above.text
        invariant old(ChainStart(above)) == old(ChainStart(end.next)) && |path| <= |old(path)|
        invariant change in nodes && (change == end || view.At() == change.BackAt())
        decreases |path|
      {
        ghost var below := change;
        change := change.next;
        AroundNode(below);
        AroundNode(change);
        above := change.next;
        if change.IsBarrier() {
          PassBarrier(change, true);
          assert change.prev == [below];
          break;
        }
        StepBack(change);
      }
    }

    /**
     * Redoes the newest change on from the current one, or the one with the
     * given number, counted from 1; a chain is redone as a whole.
     */
    method Redo(changeId: nat) returns (ok: bool)
      requires Valid() && !inChain
      modifies this`cur, this`path, nodes, view.Repr
      ensures Valid() && Walked() && fresh(view.Repr - old(view.Repr))
      ensures ok <==> old(cur.prev != [] && changeId <= |cur.prev|)
      ensures !ok ==> cur == old(cur) && view.Text() == old(view.Text()) && view.At() == old(view.At())
      ensures ok ==> cur == old(RedoBranch(if changeId == 0 then |cur.prev| - 1 else changeId - 1))
      ensures ok ==> view.At() == RedoPlace(cur)
      ensures ok ==> cur.next != null && UndoTarget() == old(cur)
    {
      hide Edge, Terminated, View.Valid, View.Text, View.At, Tree, OnPath, Recorded, Chained, ChainEnd, ChainsKept;
      AroundNode(cur);
      var change := cur;
      if |change.prev| == 0 {
        return false;
      }
      var nrPrev := |change.prev|;
      var id := changeId;
      if id == 0 {
        id := nrPrev - 1;
      } else {
        id := id - 1;
        if id >= nrPrev {
          return false;
        }
      }
      AroundNode(change.prev[id]);
      RedoInto(change.prev[id]);
      return true;
    }

    /** Redoes the branch that begins with `child`; it becomes the current one. */
    method RedoInto(child: Change)
      requires Valid() && !inChain && child in nodes && child.next == cur
      modifies this`cur, this`path, nodes, view.Repr
      ensures Valid() && Walked() && fresh(view.Repr - old(view.Repr))
      ensures cur == old(RedoTarget(child)) && view.At() == RedoPlace(cur)
      ensures cur.next != null && UndoTarget() == old(cur)
    {
      hide Edge, Terminated, View.Valid, View.Text, View.At, Tree, OnPath, Recorded, Chained, ChainEnd, ChainsKept;
      AroundNode(child);
      var change := RedoFrom(child);
      AroundNode(change);
      label moved:
      cur := change;
      CurMoved@moved();
      if child.IsBarrier() {
        WalkKeepsChains();
        KeptChainEnd(child);
      }
      UndoRetraces(child);
    }

    /** Redoes everything between the two barriers of a chain; returns the last of them. */
    method RedoChain(start: Change) returns (change: Change)
      requires Sound() && start in nodes && start.open && start.IsBarrier() && !cur.open
      requires Here() == start && view.Text() == start.text
      modifies this`path, nodes, view.Repr
      ensures Sound() && Walked() && cur == old(cur) && fresh(view.Repr - old(view.Repr))
      ensures change in nodes && Here() == change && view.Text() == change.text
      ensures change == old(ChainEnd(start)) && change.IsBarrier() && !change.open
      ensures change.next != null && view.At() == change.next.offset
    {
      hide Edge, Terminated, View.Valid, View.Text, View.At, Tree, OnPath, Recorded, Chained;
      change := start;
      while true
        invariant Sound() && Walked() && cur == old(cur) && fresh(view.Repr - old(view.Repr))
        invariant change in nodes && change.open && old(change in nodes && change.open)
        invariant Here() == change && view.Text() == change.text
        invariant old(ChainEnd(change)) == old(ChainEnd(start))
        invariant change == start || view.At() == change.offset
        decreases height - change.depth
      {
        AroundNode(change);
        change := change.prev[|change.prev| - 1];
        AroundNode(change);
        if change.IsBarrier() {
          PassBarrier(change, false);
          break;
        }
        StepForward(change);
      }
    }
  }
}
