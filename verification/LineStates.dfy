/**
 * The highlighter's cache of line start states as a value, and what the two
 * edit notifications do to it.
 */
module LineStates {
  import opened Bytes

  /** The identity of a syntax state. */
  type State = nat

  /** A cached pointer; its low bit says that the entry has been invalidated. */
  datatype Entry = Entry(state: State, invalid: bool) {
    function Mark(): Entry {
      this.(invalid := true)
    }
  }

  /** Highlighting a line from a state leads to the state at the start of the next line. */
  type Step = (State, seq<byte>) -> State

  /** The state at the start of line `k`, recomputed from the top. */
  function StateAt(step: Step, start: State, t: seq<byte>, k: nat): State {
    if k == 0 then start else step(StateAt(step, start, t, k - 1), Line(t, k - 1))
  }

  /** An entry that is not marked follows from the entry before it, marked or not. */
  ghost predicate Follows(e: seq<Entry>, step: Step, t: seq<byte>, i: nat)
    requires i + 1 < |e|
  {
    e[i + 1].invalid || e[i + 1].state == step(e[i].state, Line(t, i))
  }

  /** The cache invariant for text `t`. */
  ghost predicate Consistent(e: seq<Entry>, step: Step, start: State, t: seq<byte>) {
    && e != []
    && e[0] == Entry(start, false)
    && forall i :: 0 <= i < |e| - 1 ==> Follows(e, step, t, i)
  }

  /** Where nothing is marked, the cache agrees with recomputing every line. */
  lemma {:induction false} UnmarkedIsExact(e: seq<Entry>, step: Step, start: State, t: seq<byte>, k: nat)
    requires Consistent(e, step, start, t) && k < |e|
    requires forall i :: 0 <= i <= k ==> !e[i].invalid
    ensures e[k].state == StateAt(step, start, t, k)
  {
    if k > 0 {
      UnmarkedIsExact(e, step, start, t, k - 1);
      assert Follows(e, step, t, k - 1);
    }
  }

  /**
   * The cache after line `first` was edited so that `lines` more lines follow
   * it: the room made holds stale entries, and everything up to the first line
   * start past the edit is marked.
   */
  function Inserted(e: seq<Entry>, first: nat, lines: nat): seq<Entry> {
    if first >= |e| then e
    else if first + lines + 1 >= |e| then e[..first + 1]
    else
      seq(|e| + lines, i requires 0 <= i < |e| + lines => InsertedAt(e, first, lines, i))
  }

  function InsertedAt(e: seq<Entry>, first: nat, lines: nat, i: nat): Entry
    requires first + lines + 1 < |e| && i < |e| + lines
  {
    if i <= first then e[i]
    else if i <= first + lines then e[i].Mark()
    else if i == first + lines + 1 then e[i - lines].Mark()
    else e[i - lines]
  }

  /** The cache after line `first` swallowed the `lines` lines that followed it. */
  function Removed(e: seq<Entry>, first: nat, lines: nat): seq<Entry> {
    if |e| == 1 || first >= |e| then e
    else if first + lines + 1 >= |e| then e[..first + 1]
    else
      seq(|e| - lines, i requires 0 <= i < |e| - lines =>
        if i <= first then e[i]
        else if i == first + 1 then e[i + lines].Mark()
        else e[i + lines])
  }

  lemma InsertedEntry(e: seq<Entry>, first: nat, lines: nat, i: nat)
    requires i < |Inserted(e, first, lines)|
    ensures var r := Inserted(e, first, lines)[i];
      if i <= first then i < |e| && r == e[i]
      else first + lines + 1 < |e| && i < |e| + lines && r == InsertedAt(e, first, lines, i)
  {
  }

  /** Telling the cache about an insertion keeps it consistent with the new text. */
  lemma InsertionKeepsConsistent(e: seq<Entry>, step: Step, start: State, t: seq<byte>, p: nat, ins: seq<byte>)
    requires Consistent(e, step, start, t) && p <= |t|
    ensures Consistent(Inserted(e, CountNl(t[..p]), CountNl(ins)), step, start, Splice(t, p, 0, ins))
  {
    hide CountNl, Line, Splice;
    var first, lines, t' := CountNl(t[..p]), CountNl(ins), Splice(t, p, 0, ins);
    var r := Inserted(e, first, lines);
    hide Inserted;
    forall i | 0 <= i < |r| - 1
      ensures Follows(r, step, t', i)
    {
      assert t[p..p] == [] && CountNl([]) == 0 by { NoNewlines(); }
      InsertedEntry(e, first, lines, i);
      InsertedEntry(e, first, lines, i + 1);
      if i < first {
        SpliceLines(t, p, 0, ins, i);
        assert Follows(e, step, t, i);
      } else if first + lines < i {
        SpliceLines(t, p, 0, ins, i - lines);
        assert Follows(e, step, t, i - lines);
      }
    }
  }

  /** Telling the cache about a deletion keeps it consistent with the new text. */
  lemma DeletionKeepsConsistent(e: seq<Entry>, step: Step, start: State, t: seq<byte>, p: nat, del: nat)
    requires Consistent(e, step, start, t) && p + del <= |t|
    ensures Consistent(Removed(e, CountNl(t[..p]), CountNl(t[p..p + del])), step, start, Splice(t, p, del, []))
  {
    hide CountNl, Line, Splice;
    var first, lines, t' := CountNl(t[..p]), CountNl(t[p..p + del]), Splice(t, p, del, []);
    var r := Removed(e, first, lines);
    forall i | 0 <= i < |r| - 1
      ensures Follows(r, step, t', i)
    {
      assert CountNl([]) == 0 by { NoNewlines(); }
      if i < first {
        SpliceLines(t, p, del, [], i);
        assert Follows(e, step, t, i);
      } else if first < i {
        SpliceLines(t, p, del, [], i);
        assert Follows(e, step, t, i + lines);
      } else {
        assert r[first + 1] == e[first + 1 + lines].Mark();
      }
    }
  }

  /**
   * An insertion keeps the entries of all lines that begin in front of it or
   * behind the line it ends in, unless it brings in more lines than there are
   * entries behind it; all between are marked.
   */
  lemma InsertionKeepsEntries(e: seq<Entry>, first: nat, lines: nat)
    ensures var r := Inserted(e, first, lines);
      && (forall i :: 0 <= i <= first && i < |e| ==> i < |r| && r[i] == e[i])
      && (|e| <= first ==> r == e)
      && (first < |e| <= first + lines + 1 ==> |r| == first + 1)
      && (first + lines + 1 < |e| ==>
            && |r| == |e| + lines && r[first + lines + 1].state == e[first + 1].state
            && (forall i :: first + 1 < i < |e| ==> r[i + lines] == e[i])
            && forall i :: first < i <= first + lines + 1 ==> r[i].invalid)
  {
    if first + lines + 1 < |e| {
      var r := Inserted(e, first, lines);
      assert r[first + lines + 1] == InsertedAt(e, first, lines, first + lines + 1);
      forall i | first + 1 < i < |e| ensures r[i + lines] == e[i] {
        assert r[i + lines] == InsertedAt(e, first, lines, i + lines);
      }
    }
  }

  /** A deletion keeps the entries of all lines that are left but the one behind it, which is marked. */
  lemma DeletionKeepsEntries(e: seq<Entry>, first: nat, lines: nat)
    ensures var r := Removed(e, first, lines);
      && (forall i :: 0 <= i <= first && i < |e| ==> i < |r| && r[i] == e[i])
      && (first < |e| <= first + lines + 1 ==> |r| == first + 1)
      && (first + lines + 1 < |e| ==>
            && |r| == |e| - lines && r[first + 1].invalid && r[first + 1].state == e[first + 1 + lines].state
            && forall i :: first + 1 + lines < i < |e| ==> r[i - lines] == e[i])
  {
    if first + lines + 1 < |e| {
      assert Removed(e, first, lines)[first + 1] == e[first + 1 + lines].Mark();
    }
  }

  ghost predicate Unmarked(e: seq<Entry>, lo: nat, hi: nat)
    requires hi < |e|
  {
    forall i :: lo <= i <= hi ==> !e[i].invalid
  }

  lemma ConsistentIsBut(e: seq<Entry>, step: Step, start: State, t: seq<byte>, hole: nat)
    requires Consistent(e, step, start, t)
    ensures ConsistentBut(e, step, start, t, hole)
  {
  }

  /** What is filled in behind entry `k` changes nothing in front of it. */
  lemma StillBefore(e: seq<Entry>, f: seq<Entry>, lo: nat, k: nat)
    requires lo <= k && k + 1 < |e| && |f| == |e| && f[..k + 1] == e[..k + 1] && Unmarked(e, lo, k) && !f[k + 1].invalid
    ensures Unmarked(f, lo, k + 1) && f[..lo + 1] == e[..lo + 1]
  {
    assert forall i :: 0 <= i <= k ==> f[i] == f[..k + 1][i] == e[..k + 1][i];
  }

  lemma UnmarkedGrows(e: seq<Entry>, f: seq<Entry>, k: nat, n: nat)
    requires k < |e| && Unmarked(e, 0, k) && k + n < |f| && Unmarked(f, k, k + n) && f[..k + 1] == e[..k + 1]
    ensures Unmarked(f, 0, k + n)
  {
    assert forall i :: 0 <= i <= k ==> f[i] == f[..k + 1][i] == e[..k + 1][i];
  }

  /** The invariant while a hole is being filled: entry `hole` is right, but the next may not follow from it. */
  ghost predicate ConsistentBut(e: seq<Entry>, step: Step, start: State, t: seq<byte>, hole: nat) {
    && e != []
    && e[0] == Entry(start, false)
    && forall i :: 0 <= i < |e| - 1 && i != hole ==> Follows(e, step, t, i)
  }

  /** The entries behind `lo` are what they were, save that the one behind `hi` may have been marked. */
  ghost predicate Spared(e: seq<Entry>, f: seq<Entry>, lo: nat, hi: nat) {
    |e| <= |f| && forall j :: lo < j < |e| ==> f[j] == e[j] || (j == hi + 1 && f[j] == e[j].Mark())
  }

  /** What is filled in up to entry `k`, from `lo` on. */
  ghost predicate FilledIn(e: seq<Entry>, f: seq<Entry>, lo: nat, k: nat, hi: nat) {
    && lo <= k < |f| == |e| && Unmarked(f, lo, k) && f[..lo + 1] == e[..lo + 1] && Spared(e, f, k, hi)
  }

  lemma FilledOneMore(e: seq<Entry>, f: seq<Entry>, g: seq<Entry>, lo: nat, k: nat, hi: nat)
    requires FilledIn(e, f, lo, k, hi) && k + 1 < |f| == |g| && g[..k + 1] == f[..k + 1] && !g[k + 1].invalid
    requires Spared(f, g, k + 1, hi)
    ensures FilledIn(e, g, lo, k + 1, hi)
  {
    StillBefore(f, g, lo, k);
    SparedTwice(e, f, g, k, k + 1, hi);
  }

  lemma HoleFilled(e: seq<Entry>, f: seq<Entry>, lo: nat, k: nat, hi: nat)
    requires FilledIn(e, f, lo, k, hi)
    ensures Unmarked(f, lo, k) && f[..lo + 1] == e[..lo + 1] && Spared(e, f, k, hi)
  {
  }

  lemma NothingFilled(e: seq<Entry>, lo: nat, hi: nat)
    requires lo < |e| && !e[lo].invalid
    ensures FilledIn(e, e, lo, lo, hi)
  {
  }

  lemma NothingMarked(e: seq<Entry>, lo: nat, hi: nat)
    ensures Spared(e, e, lo, hi)
  {
  }

  lemma SparedLess(e: seq<Entry>, f: seq<Entry>, lo: nat, more: nat, hi: nat)
    requires Spared(e, f, lo, hi) && lo <= more
    ensures Spared(e, f, more, hi)
  {
  }

  lemma SparedTwice(e: seq<Entry>, f: seq<Entry>, g: seq<Entry>, lo: nat, mid: nat, hi: nat)
    requires Spared(e, f, lo, hi) && Spared(f, g, mid, hi) && lo <= mid
    ensures Spared(e, g, mid, hi)
  {
  }

  /** Recomputing entry `idx` moves the hole one line down; it closes if nothing changed or the next entry is marked. */
  lemma FillStep(e: seq<Entry>, step: Step, start: State, t: seq<byte>, idx: nat)
    requires 0 < idx < |e| && !e[idx - 1].invalid
    requires ConsistentBut(e, step, start, t, idx - 1)
    ensures var e' := e[idx := Entry(step(e[idx - 1].state, Line(t, idx - 1)), false)];
      && ConsistentBut(e', step, start, t, idx)
      && (e'[idx].state == e[idx].state ==> Consistent(e', step, start, t))
      && (if idx + 1 < |e| then Consistent(e'[idx + 1 := e'[idx + 1].Mark()], step, start, t)
          else Consistent(e', step, start, t))
  {
    var e' := e[idx := Entry(step(e[idx - 1].state, Line(t, idx - 1)), false)];
    forall i | 0 <= i < |e| - 1 && i != idx
      ensures Follows(e', step, t, i)
    {
      if i != idx - 1 {
        assert Follows(e, step, t, i);
      }
    }
    if e'[idx].state == e[idx].state && idx + 1 < |e| {
      assert Follows(e, step, t, idx);
    }
    if idx + 1 < |e| {
      var m := e'[idx + 1 := e'[idx + 1].Mark()];
      forall i | 0 <= i < |e| - 1
        ensures Follows(m, step, t, i)
      {
        if i != idx {
          assert Follows(e', step, t, i);
        }
      }
    }
  }

  /** Computing the first entry past the end extends the cache. */
  lemma AppendStep(e: seq<Entry>, step: Step, start: State, t: seq<byte>)
    requires Consistent(e, step, start, t) && !e[|e| - 1].invalid
    ensures Consistent(e + [Entry(step(e[|e| - 1].state, Line(t, |e| - 1)), false)], step, start, t)
  {
    var e' := e + [Entry(step(e[|e| - 1].state, Line(t, |e| - 1)), false)];
    forall i | 0 <= i < |e'| - 1
      ensures Follows(e', step, t, i)
    {
      if i < |e| - 1 {
        assert Follows(e, step, t, i);
      }
    }
  }
}
