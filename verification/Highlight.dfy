/** The highlighter: an array of line start states, shifted by edits and repaired on demand. */
module Highlight {
  import opened Bytes
  import opened Layout
  import opened BlockIters
  import opened LineStates

  lemma ShiftedUp(e: seq<Entry>, m: seq<Entry>, r: seq<Entry>, first: nat, lines: nat)
    requires first + lines + 1 < |e| && m == e[..first + lines + 1] + e[first + 1..]
    requires |r| == |m|
    requires forall i {:trigger r[i]} :: 0 <= i < |r| ==>
      r[i] == if first < i <= first + lines + 1 then m[i].Mark() else m[i]
    ensures r == Inserted(e, first, lines)
  {
    forall i {:trigger m[i]} | 0 <= i < |m| ensures m[i] == e[if i <= first + lines then i else i - lines] {
      JoinedAt(e, first + lines + 1, first + 1, i);
    }
    MarkedUp(e, m, r, first, lines);
  }

  lemma JoinedAt(e: seq<Entry>, n: nat, k: nat, i: nat)
    requires n <= |e| && k <= |e| && i < n + |e| - k
    ensures (e[..n] + e[k..])[i] == if i < n then e[i] else e[k + i - n]
  {
  }

  lemma MarkedUp(e: seq<Entry>, m: seq<Entry>, r: seq<Entry>, first: nat, lines: nat)
    requires first + lines + 1 < |e| && |r| == |m| == |e| + lines
    requires forall i {:trigger m[i]} :: 0 <= i < |m| ==> m[i] == e[if i <= first + lines then i else i - lines]
    requires forall i {:trigger r[i]} :: 0 <= i < |r| ==>
      r[i] == if first < i <= first + lines + 1 then m[i].Mark() else m[i]
    ensures r == Inserted(e, first, lines)
  {
    assert |Inserted(e, first, lines)| == |r|;
    forall i {:trigger r[i]} | 0 <= i < |r| ensures r[i] == Inserted(e, first, lines)[i] {
      MarkedAt(e, m[i], r[i], first, lines, i);
    }
  }

  lemma MarkedAt(e: seq<Entry>, m: Entry, r: Entry, first: nat, lines: nat, i: nat)
    requires first + lines + 1 < |e| && i < |e| + lines && m == e[if i <= first + lines then i else i - lines]
    requires r == if first < i <= first + lines + 1 then m.Mark() else m
    ensures r == InsertedAt(e, first, lines, i)
  {
  }

  lemma ShiftedDown(e: seq<Entry>, m: seq<Entry>, first: nat, lines: nat)
    requires first + lines + 1 < |e| && m == e[..first + 1] + e[first + lines + 1..]
    ensures m[first + 1 := m[first + 1].Mark()] == Removed(e, first, lines)
  {
    assert forall i {:trigger m[i]} :: 0 <= i < |m| ==>
      m[i] == e[if i <= first then i else i + lines];
  }

  /** The line the iterator is at the start of; the iterator moves on to the next. */
  method ReadLine(bi: BlockIter, ghost k: nat) returns (line: seq<byte>)
    requires bi.Valid() && Terminated(bi.buffer.Text())
    requires bi.At() == LineStart(bi.buffer.Text(), k)
    modifies bi
    ensures bi.Valid() && bi.At() == LineStart(bi.buffer.Text(), k + 1)
    ensures line == Line(bi.buffer.Text(), k)
  {
    hide Line, LineStart, LineEnd, Flat;
    LineStartStep(bi.buffer.Text(), k);
    line := bi.GetLineWithNl();
    var _ := bi.EatLine();
  }

  /** Eats `n` lines; at the end of the text there is nothing left to eat. */
  method MoveDown(bi: BlockIter, n: nat, ghost k: nat)
    requires bi.Valid() && Terminated(bi.buffer.Text())
    requires bi.At() == LineStart(bi.buffer.Text(), k)
    modifies bi
    ensures bi.Valid() && bi.At() == LineStart(bi.buffer.Text(), k + n)
  {
    hide Line, LineStart, LineEnd, Flat;
    for i := 0 to n
      invariant bi.Valid() && bi.At() == LineStart(bi.buffer.Text(), k + i)
    {
      LineStartStep(bi.buffer.Text(), k + i);
      var _ := bi.EatLine();
    }
  }

  lemma StillUnmarked(e: seq<Entry>, e': seq<Entry>, k: nat)
    requires k < |e| && Unmarked(e, 0, k)
    requires k + 1 < |e'| && e'[..k + 1] == e[..k + 1] && !e'[k + 1].invalid
    ensures Unmarked(e', 0, k + 1)
  {
    assert forall i :: 0 <= i <= k ==> e'[i] == e'[..k + 1][i] == e[i];
  }

  class StateArray {
    var ptrs: array<Entry>
    var count: nat
    const step: Step
    const start: State

    ghost predicate Valid()
      reads this, ptrs
    {
      && 1 <= count <= ptrs.Length
      && ptrs[0] == Entry(start, false)
    }

    ghost function Entries(): (e: seq<Entry>)
      requires count <= ptrs.Length
      reads this, ptrs
      ensures |e| == count
    {
      ptrs[..count]
    }

    ghost predicate ConsistentWith(t: seq<byte>)
      reads this, ptrs
    {
      count <= ptrs.Length && Consistent(Entries(), step, start, t)
    }

    /** A fresh cache knows the start state of the first line, which is constant. */
    constructor (step: Step, start: State)
      ensures Valid() && fresh(ptrs)
      ensures this.step == step && this.start == start
      ensures forall t :: ConsistentWith(t)
    {
      this.step, this.start := step, start;
      ptrs := new Entry[64](_ => Entry(start, false));
      count := 1;
    }

    method Resize(n: nat)
      requires Valid()
      modifies this`ptrs
      ensures Valid() && n <= ptrs.Length && count == old(count) && Entries() == old(Entries())
      ensures ptrs == old(ptrs) || fresh(ptrs)
    {
      if ptrs.Length < n {
        var blank := Entry(start, false);
        var bigger := new Entry[(n + 63) / 64 * 64](_ => blank);
        forall i | 0 <= i < count {
          bigger[i] := ptrs[i];
        }
        ghost var e := Entries();
        assert bigger[..count] == e;
        ptrs := bigger;
      }
    }

    method MarkInvalid(idx: nat)
      requires idx < ptrs.Length
      modifies ptrs
      ensures ptrs[idx] == old(ptrs[idx]).Mark()
      ensures forall i :: 0 <= i < ptrs.Length && i != idx ==> ptrs[i] == old(ptrs[i])
    {
      ptrs[idx] := ptrs[idx].Mark();
    }

    predicate StatesEqual(idx: nat, st: State)
      requires idx < ptrs.Length
      reads this, ptrs
    {
      ptrs[idx].state == st
    }

    /** memmove of `n` entries. */
    method Move(to: nat, from: nat, n: nat)
      requires to + n <= ptrs.Length && from + n <= ptrs.Length
      modifies ptrs
      ensures ptrs[..] == old(ptrs[..to]) + old(ptrs[from..from + n]) + old(ptrs[to + n..])
    {
      forall i | 0 <= i < n {
        ptrs[to + i] := ptrs[from + i];
      }
      assert ptrs[to..to + n] == old(ptrs[from..from + n]);
      assert ptrs[..] == ptrs[..to] + ptrs[to..to + n] + ptrs[to + n..];
    }

    method MarkRange(lo: nat, hi: nat)
      requires lo <= hi <= ptrs.Length
      modifies ptrs
      ensures forall i :: 0 <= i < ptrs.Length ==>
        ptrs[i] == if lo <= i < hi then old(ptrs[i]).Mark() else old(ptrs[i])
    {
      for i := lo to hi
        invariant forall j :: 0 <= j < ptrs.Length ==>
          ptrs[j] == if lo <= j < i then old(ptrs[j]).Mark() else old(ptrs[j])
      {
        MarkInvalid(i);
      }
    }

    /** Called after `lines` newlines were inserted in line `first`. */
    method HlInsert(first: nat, lines: nat)
      requires Valid()
      modifies this, ptrs
      ensures Valid() && (ptrs == old(ptrs) || fresh(ptrs))
      ensures Entries() == Inserted(old(Entries()), first, lines)
    {
      if first >= count {
        return;
      }
      hide Inserted, Removed;
      var last := first + lines;
      if last + 1 >= count {
        count := first + 1;
        return;
      }
      ghost var e := Entries();
      if lines > 0 {
        MakeRoom(first, lines);
      }
      ghost var m := Entries();
      MarkRange(first + 1, last + 2);
      ShiftedUp(e, m, Entries(), first, lines);
    }

    /** Adds room for `lines` entries after entry `first`; what is in the room is stale. */
    method MakeRoom(first: nat, lines: nat)
      requires Valid() && first + lines + 1 < count
      modifies this, ptrs
      ensures Valid() && (ptrs == old(ptrs) || fresh(ptrs))
      ensures count == old(count) + lines
      ensures Entries() == old(Entries())[..first + lines + 1] + old(Entries())[first + 1..]
    {
      var to, from := first + lines + 1, first + 1;
      ghost var e := Entries();
      Resize(count + lines);
      Move(to, from, count - from);
      count := count + lines;
    }

    /** Called after `lines` newlines were deleted at line `first`. */
    method HlDelete(first: nat, lines: nat)
      requires Valid()
      modifies this, ptrs
      ensures Valid() && ptrs == old(ptrs)
      ensures Entries() == Removed(old(Entries()), first, lines)
    {
      if count == 1 {
        return;
      }
      if first >= count {
        return;
      }
      hide Inserted, Removed;
      var last := first + lines;
      if last + 1 >= count {
        count := first + 1;
        return;
      }
      ghost var e := Entries();
      if lines > 0 {
        CloseRoom(first, lines);
      }
      ghost var m := Entries();
      MarkInvalid(first + 1);
      ShiftedDown(e, m, first, lines);
    }

    /** Drops the `lines` entries after entry `first`. */
    method CloseRoom(first: nat, lines: nat)
      requires Valid() && first + lines + 1 < count
      modifies this`count, ptrs
      ensures Valid()
      ensures Entries() == old(Entries())[..first + 1] + old(Entries())[first + lines + 1..]
    {
      var to, from := first + 1, first + lines + 1;
      Move(to, from, count - from);
      count := count - lines;
    }

    /** Stores a recomputed state; at the end of the hole a change is passed on by marking the next entry. */
    method Settle(idx: nat, st: State, eidx: nat)
      requires Valid() && 0 < idx <= eidx < count && eidx + 1 < ptrs.Length
      modifies ptrs
      ensures Valid()
      ensures var e := old(Entries())[idx := Entry(st, false)];
        Entries() ==
          if old(ptrs[idx]).state != st && idx == eidx && idx + 1 < count
          then e[idx + 1 := e[idx + 1].Mark()] else e
    {
      ghost var e := Entries()[idx := Entry(st, false)];
      if StatesEqual(idx, st) {
        ptrs[idx] := Entry(st, false);
      } else {
        ptrs[idx] := Entry(st, false);
        if idx == eidx {
          MarkInvalid(idx + 1);
          if idx + 1 < count {
            assert Entries() == e[idx + 1 := e[idx + 1].Mark()];
          }
        }
      }
    }

    /**
     * Recomputes entries from `sidx` on until one turns out not to have
     * changed, or `eidx` is reached. Returns how many were settled.
     */
    method FillHole(bi: BlockIter, sidx: nat, eidx: nat) returns (n: nat)
      requires Valid() && bi.Valid() && ptrs !in bi.buffer.Repr
      requires Terminated(bi.buffer.Text()) && ConsistentWith(bi.buffer.Text())
      requires sidx < eidx < count && eidx + 1 < ptrs.Length
      requires bi.At() == LineStart(bi.buffer.Text(), sidx)
      requires !ptrs[sidx].invalid && ptrs[sidx + 1].invalid
      modifies ptrs, bi
      ensures Valid() && bi.Valid() && ConsistentWith(bi.buffer.Text())
      ensures 1 <= n <= eidx - sidx
      ensures Unmarked(Entries(), sidx, sidx + n)
      ensures Entries()[..sidx + 1] == old(Entries())[..sidx + 1] && Spared(old(Entries()), Entries(), sidx + n, eidx)
      ensures bi.At() == LineStart(bi.buffer.Text(), sidx + n)
    {
      hide Line, LineStart, LineEnd, CountNl, Flat, Consistent, ConsistentBut, FilledIn, Spared;
      NothingFilled(Entries(), sidx, eidx);
      ghost var t := bi.buffer.Text();
      var idx := sidx;
      ConsistentIsBut(Entries(), step, start, t, sidx);
      while idx < eidx
        invariant Valid() && bi.Valid() && bi.buffer.Text() == t
        invariant sidx <= idx <= eidx && bi.At() == LineStart(t, idx)
        invariant FilledIn(old(Entries()), Entries(), sidx, idx, eidx) && !ptrs[idx].invalid
        invariant idx < eidx ==> ConsistentBut(Entries(), step, start, t, idx)
        invariant idx == eidx ==> ConsistentWith(t)
        invariant idx == sidx ==> ptrs[sidx + 1].invalid
      {
        ghost var e := Entries();
        var same := FillNext(bi, idx, eidx);
        FilledOneMore(old(Entries()), e, Entries(), sidx, idx, eidx);
        idx := idx + 1;
        if same {
          break;
        }
      }
      HoleFilled(old(Entries()), Entries(), sidx, idx, eidx);
      return idx - sidx;
    }

    /** Recomputes the entry behind `idx`; tells whether it was right already. */
    method FillNext(bi: BlockIter, idx: nat, eidx: nat) returns (same: bool)
      requires Valid() && bi.Valid() && ptrs !in bi.buffer.Repr && Terminated(bi.buffer.Text())
      requires idx < eidx < count && eidx + 1 < ptrs.Length && !ptrs[idx].invalid
      requires bi.At() == LineStart(bi.buffer.Text(), idx)
      requires ConsistentBut(Entries(), step, start, bi.buffer.Text(), idx)
      modifies ptrs, bi
      ensures Valid() && bi.Valid() && bi.At() == LineStart(bi.buffer.Text(), idx + 1)
      ensures !Entries()[idx + 1].invalid && Entries()[..idx + 1] == old(Entries())[..idx + 1]
      ensures same <==> old(!ptrs[idx + 1].invalid) && Entries() == old(Entries())
      ensures Spared(old(Entries()), Entries(), idx + 1, eidx)
      ensures same || idx + 1 == eidx ==> ConsistentWith(bi.buffer.Text())
      ensures !same && idx + 1 < eidx ==> ConsistentBut(Entries(), step, start, bi.buffer.Text(), idx + 1)
    {
      hide Line, LineStart, LineEnd, CountNl, Flat, Consistent, ConsistentBut;
      ghost var e, t := Entries(), bi.buffer.Text();
      var line := ReadLine(bi, idx);
      var st := step(ptrs[idx].state, line);
      FillStep(e, step, start, t, idx + 1);
      same := ptrs[idx + 1] == Entry(st, false);
      if same {
        assert e == e[idx + 1 := Entry(st, false)];
        return;
      }
      Settle(idx + 1, st, eidx);
    }

    lemma FirstUnmarked(t: seq<byte>)
      requires Valid() && ConsistentWith(t)
      ensures count > 0 && Unmarked(Entries(), 0, 0)
    {
    }

    /** The first marked entry from `idx` on, if there is one up to `last`. */
    method FirstMarked(idx: nat, last: nat) returns (k: nat)
      requires Valid() && last < count && idx <= last && Unmarked(Entries(), 0, idx)
      ensures idx < k <= last + 1 && (k <= last ==> ptrs[k].invalid)
      ensures !ptrs[k - 1].invalid && Unmarked(Entries(), 0, k - 1)
    {
      k := idx;
      while k <= last && !ptrs[k].invalid
        invariant idx <= k <= last + 1
        invariant forall i :: 0 <= i < k || i == idx ==> !ptrs[i].invalid
      {
        k := k + 1;
      }
    }

    /**
     * Brings the start states of lines 0..lineNr up to date, reading the text
     * from its beginning.
     */
    method FillStartStates(bi: BlockIter, lineNr: nat)
      requires Valid() && bi.Valid() && ptrs !in bi.buffer.Repr && this !in bi.buffer.Repr
      requires Terminated(bi.buffer.Text()) && ConsistentWith(bi.buffer.Text())
      requires bi.At() == 0
      modifies this, ptrs, bi
      ensures Valid() && ConsistentWith(bi.buffer.Text())
      ensures ptrs == old(ptrs) || fresh(ptrs)
      ensures lineNr < count && count == if old(count) <= lineNr then lineNr + 1 else old(count)
      ensures forall k :: 0 <= k <= lineNr ==>
        Entries()[k] == Entry(StateAt(step, start, bi.buffer.Text(), k), false)
      ensures Spared(old(Entries()), Entries(), lineNr, lineNr)
    {
      hide Line, LineStart, LineEnd, CountNl, Flat;
      ghost var t := bi.buffer.Text();
      Resize(lineNr + 2);
      var last := if lineNr >= count then count - 1 else lineNr;
      LineStartStep(t, 0);
      var current := FillHoles(bi, last);
      MoveDown(bi, count - 1 - current, current);
      AddNew(bi, lineNr);
      forall k | 0 <= k <= lineNr
        ensures Entries()[k] == Entry(StateAt(step, start, t, k), false)
      {
        UnmarkedIsExact(Entries(), step, start, t, k);
      }
    }

    /** Extends the cache line by line up to `lineNr`. */
    method AddNew(bi: BlockIter, lineNr: nat)
      requires Valid() && bi.Valid() && ptrs !in bi.buffer.Repr && this !in bi.buffer.Repr
      requires Terminated(bi.buffer.Text()) && ConsistentWith(bi.buffer.Text())
      requires lineNr + 2 <= ptrs.Length
      requires Unmarked(Entries(), 0, if lineNr < count then lineNr else count - 1)
      requires bi.At() == LineStart(bi.buffer.Text(), count - 1)
      modifies this`count, ptrs, bi
      ensures Valid() && ConsistentWith(bi.buffer.Text())
      ensures count == if old(count) <= lineNr then lineNr + 1 else old(count)
      ensures Unmarked(Entries(), 0, lineNr) && (old(count) > lineNr ==> Entries() == old(Entries()))
    {
      hide Line, LineStart, LineEnd, CountNl, Flat, Consistent;
      ghost var t := bi.buffer.Text();
      while count - 1 < lineNr
        invariant Valid() && bi.Valid() && bi.buffer.Text() == t
        invariant Consistent(Entries(), step, start, t)
        invariant old(count) <= count && (count == old(count) || count - 1 <= lineNr)
        invariant count == old(count) ==> unchanged(ptrs)
        invariant Unmarked(Entries(), 0, if lineNr < count then lineNr else count - 1)
        invariant bi.At() == LineStart(t, count - 1)
      {
        ghost var e := Entries();
        AppendStep(e, step, start, t);
        var line := ReadLine(bi, count - 1);
        ptrs[count] := Entry(step(ptrs[count - 1].state, line), false);
        count := count + 1;
        assert Entries() == e + [ptrs[count - 1]];
      }
    }

    /** Repairs the marked entries up to `last`; returns the line the iterator was left at. */
    method FillHoles(bi: BlockIter, last: nat) returns (current: nat)
      requires Valid() && bi.Valid() && ptrs !in bi.buffer.Repr
      requires Terminated(bi.buffer.Text()) && ConsistentWith(bi.buffer.Text())
      requires last < count && last + 1 < ptrs.Length
      requires bi.At() == LineStart(bi.buffer.Text(), 0)
      modifies ptrs, bi
      ensures Valid() && bi.Valid() && ConsistentWith(bi.buffer.Text())
      ensures Unmarked(Entries(), 0, last) && Spared(old(Entries()), Entries(), last, last)
      ensures current <= last && bi.At() == LineStart(bi.buffer.Text(), current)
    {
      hide Line, LineStart, LineEnd, CountNl, Flat, Unmarked, Consistent, Terminated, Spared;
      var idx: nat := 0;
      current := 0;
      NothingMarked(Entries(), last, last);
      FirstUnmarked(bi.buffer.Text());
      while true
        invariant Valid() && bi.Valid() && ConsistentWith(bi.buffer.Text())
        invariant idx <= last && Unmarked(Entries(), 0, idx) && Spared(old(Entries()), Entries(), last, last)
        invariant current <= idx && bi.At() == LineStart(bi.buffer.Text(), current)
        decreases last - idx
      {
        idx := FirstMarked(idx, last);
        if idx > last {
          break;
        }
        idx := idx - 1;
        ghost var e := Entries();
        var n := GoAndFill(bi, current, idx, last);
        SparedTwice(old(Entries()), e, Entries(), last, last, last);
        idx := idx + n;
        current := idx;
      }
    }

    /** Reads on from line `from` to the hole behind entry `idx`, and fills it. */
    method GoAndFill(bi: BlockIter, from: nat, idx: nat, last: nat) returns (n: nat)
      requires Valid() && bi.Valid() && ptrs !in bi.buffer.Repr
      requires Terminated(bi.buffer.Text()) && ConsistentWith(bi.buffer.Text())
      requires from <= idx < last < count && last + 1 < ptrs.Length && ptrs[idx + 1].invalid
      requires Unmarked(Entries(), 0, idx) && bi.At() == LineStart(bi.buffer.Text(), from)
      modifies ptrs, bi
      ensures Valid() && bi.Valid() && ConsistentWith(bi.buffer.Text())
      ensures 1 <= n <= last - idx && Unmarked(Entries(), 0, idx + n) && Spared(old(Entries()), Entries(), last, last)
      ensures bi.At() == LineStart(bi.buffer.Text(), idx + n)
    {
      hide Line, LineStart, LineEnd, CountNl, Flat, Consistent, Terminated;
      MoveDown(bi, idx - from, from);
      ghost var e := Entries();
      n := FillHole(bi, idx, last);
      SparedLess(e, Entries(), idx + n, last, last);
      UnmarkedGrows(e, Entries(), idx, n);
    }

    /**
     * Highlights line `lineNr` of text `t` while drawing it and settles the
     * start state of the next line; tells whether that one has changed.
     */
    method HlLine(line: seq<byte>, lineNr: nat, ghost t: seq<byte>) returns (nextChanged: bool)
      requires Valid() && ConsistentWith(t) && line == Line(t, lineNr)
      requires lineNr < count && !ptrs[lineNr].invalid
      modifies this, ptrs
      ensures Valid() && ConsistentWith(t) && (ptrs == old(ptrs) || fresh(ptrs))
      ensures lineNr + 1 < count && !Entries()[lineNr + 1].invalid
      ensures Entries()[..lineNr + 1] == old(Entries())[..lineNr + 1]
      ensures count == if old(count) == lineNr + 1 then lineNr + 2 else old(count)
      ensures nextChanged <==>
        old(count) == lineNr + 1 || old(Entries())[lineNr + 1].state != Entries()[lineNr + 1].state
      ensures forall j :: lineNr + 1 < j < old(count) ==> var e := old(Entries())[j];
        Entries()[j] == if nextChanged && j == lineNr + 2 then e.Mark() else e
    {
      hide Line;
      var idx := lineNr + 1;
      ghost var e := Entries();
      nextChanged := false;
      var next := step(ptrs[lineNr].state, line);
      if idx == count {
        AppendStep(e, step, start, t);
        Resize(count + 1);
        ptrs[count] := Entry(next, false);
        count := count + 1;
        nextChanged := true;
        assert Entries() == e + [Entry(next, false)];
        return;
      }
      FillStep(e, step, start, t, idx);
      ghost var e' := e[idx := Entry(next, false)];
      if ptrs[idx] == Entry(next, false) {
        assert e == e';
      } else if StatesEqual(idx, next) {
        ptrs[idx] := Entry(next, false);
        assert Entries() == e';
      } else {
        ptrs[idx] := Entry(next, false);
        nextChanged := true;
        assert Entries() == e';
        if idx + 1 < count {
          MarkInvalid(idx + 1);
          assert Entries() == e'[idx + 1 := e'[idx + 1].Mark()];
        }
      }
    }

    /** Draws line `k`; all the entries up to the one for the next line are then settled. */
    method DrawLine(bi: BlockIter, k: nat) returns (state: State)
      requires Valid() && bi.Valid() && this !in bi.buffer.Repr && ptrs !in bi.buffer.Repr
      requires Terminated(bi.buffer.Text()) && ConsistentWith(bi.buffer.Text())
      requires k < count && Unmarked(Entries(), 0, k) && bi.At() == LineStart(bi.buffer.Text(), k)
      modifies this, ptrs, bi
      ensures Valid() && bi.Valid() && ConsistentWith(bi.buffer.Text()) && (ptrs == old(ptrs) || fresh(ptrs))
      ensures bi.blk <= |bi.buffer.texts| && count <= ptrs.Length
      ensures k + 1 < count && Unmarked(Entries(), 0, k + 1) && bi.At() == LineStart(bi.buffer.Text(), k + 1)
      ensures state == StateAt(step, start, bi.buffer.Text(), k)
    {
      hide CountNl, Flat, WholeLines, Terminated, Line, LineStart, LineEnd;
      ghost var t := bi.buffer.Text();
      UnmarkedIsExact(Entries(), step, start, t, k);
      state := ptrs[k].state;
      ghost var e := Entries();
      var line := ReadLine(bi, k);
      hide Consistent;
      var _ := HlLine(line, k, t);
      StillUnmarked(e, Entries(), k);
    }

    /** Draws `n` lines, or as many as there are; the first of them is line `first`, at which `bi` stands. */
    method DrawFrom(bi: BlockIter, first: nat, n: nat) returns (used: seq<State>)
      requires Valid() && bi.Valid() && this !in bi.buffer.Repr && ptrs !in bi.buffer.Repr
      requires Terminated(bi.buffer.Text()) && ConsistentWith(bi.buffer.Text())
      requires first < count && Unmarked(Entries(), 0, first) && bi.At() == LineStart(bi.buffer.Text(), first)
      modifies this, ptrs, bi
      ensures Valid() && ConsistentWith(bi.buffer.Text()) && (ptrs == old(ptrs) || fresh(ptrs))
      ensures |used| <= n
      ensures |used| == n || LineStart(bi.buffer.Text(), first + |used|) == |bi.buffer.Text()|
      ensures used != [] ==> LineStart(bi.buffer.Text(), first + |used| - 1) < |bi.buffer.Text()|
      ensures forall i :: 0 <= i < |used| ==> used[i] == StateAt(step, start, bi.buffer.Text(), first + i)
    {
      hide CountNl, Flat, WholeLines, Terminated, Line, LineStart, LineEnd, Consistent, Unmarked, StateAt;
      ghost var t := bi.buffer.Text();
      used := [];
      while |used| < n && !bi.IsEof()
        invariant bi.Valid() && |used| <= n && this !in bi.buffer.Repr && ptrs !in bi.buffer.Repr
        invariant bi.buffer.Text() == t
        invariant Valid() && ConsistentWith(t) && (ptrs == old(ptrs) || fresh(ptrs))
        invariant first + |used| < count && Unmarked(Entries(), 0, first + |used|)
        invariant bi.At() == LineStart(t, first + |used|)
        invariant used != [] ==> LineStart(t, first + |used| - 1) < |t|
        invariant forall i :: 0 <= i < |used| ==> used[i] == StateAt(step, start, t, first + i)
      {
        var state := DrawLine(bi, first + |used|);
        used := used + [state];
      }
    }

    /**
     * Draws `n` lines from line `first` on, or as many as there are, and
     * returns the states they were highlighted from.
     */
    method DrawLines(buffer: Buffer, first: nat, n: nat) returns (used: seq<State>)
      requires Valid() && buffer.Valid() && Terminated(buffer.Text()) && ConsistentWith(buffer.Text())
      requires this !in buffer.Repr && ptrs !in buffer.Repr
      modifies this, ptrs
      ensures Valid() && ConsistentWith(buffer.Text())
      ensures ptrs == old(ptrs) || fresh(ptrs)
      ensures |used| <= n
      ensures |used| == n || LineStart(buffer.Text(), first + |used|) == |buffer.Text()|
      ensures used != [] ==> LineStart(buffer.Text(), first + |used| - 1) < |buffer.Text()|
      ensures forall i :: 0 <= i < |used| ==> used[i] == StateAt(step, start, buffer.Text(), first + i)
    {
      hide CountNl, Flat, WholeLines, Terminated, Line, LineStart, LineEnd, Consistent;
      var tmp := new BlockIter(buffer);
      FillStartStates(tmp, first);
      var bi := new BlockIter(buffer);
      bi.GotoLine(first);
      used := DrawFrom(bi, first, n);
    }
  }
}
