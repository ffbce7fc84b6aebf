/** The block list as a value: the texts of its blocks, and the flat text they make up. */
module Layout {
  import opened Bytes

  type Layout = seq<seq<byte>>

  function Flat(ts: Layout): seq<byte> {
    if ts == [] then [] else ts[0] + Flat(ts[1..])
  }

  lemma {:induction false} FlatConcat(a: Layout, b: Layout)
    ensures Flat(a + b) == Flat(a) + Flat(b)
  {
    if a == [] {
      assert a + b == b;
    } else {
      assert (a + b)[1..] == a[1..] + b;
      FlatConcat(a[1..], b);
    }
  }

  lemma FlatSplit(ts: Layout, k: nat)
    requires k <= |ts|
    ensures Flat(ts) == Flat(ts[..k]) + Flat(ts[k..])
  {
    assert ts == ts[..k] + ts[k..];
    FlatConcat(ts[..k], ts[k..]);
  }

  lemma FlatOne(t: seq<byte>)
    ensures Flat([t]) == t
  {
    assert [t][1..] == [];
  }

  lemma FlatHead(ts: Layout, k: nat)
    requires k < |ts|
    ensures Flat(ts[..k + 1]) == Flat(ts[..k]) + ts[k]
  {
    hide Flat;
    assert ts[..k + 1] == ts[..k] + [ts[k]];
    FlatConcat(ts[..k], [ts[k]]);
    FlatOne(ts[k]);
  }

  /** The flat text seen from block `k`. */
  lemma FlatAt(ts: Layout, k: nat)
    requires k < |ts|
    ensures Flat(ts) == Flat(ts[..k]) + ts[k] + Flat(ts[k + 1..])
    ensures Flat(ts[..k + 1]) == Flat(ts[..k]) + ts[k]
  {
    hide Flat;
    FlatSplit(ts, k + 1);
    FlatHead(ts, k);
  }

  lemma FlatUpdate(ts: Layout, k: nat, t: seq<byte>)
    requires k < |ts|
    ensures Flat(ts[k := t]) == Flat(ts[..k]) + t + Flat(ts[k + 1..])
  {
    FlatAt(ts[k := t], k);
    assert ts[k := t][..k] == ts[..k];
    assert ts[k := t][k + 1..] == ts[k + 1..];
  }

  /** The flat offset of byte `off` of block `k`. */
  function Pos(ts: Layout, k: nat, off: nat): nat
    requires k <= |ts|
  {
    |Flat(ts[..k])| + off
  }

  lemma PosOrigin(ts: Layout)
    ensures Pos(ts, 0, 0) == 0
  {
    assert ts[..0] == [];
  }

  lemma PosBound(ts: Layout, k: nat, off: nat)
    requires k < |ts| && off <= |ts[k]|
    ensures Pos(ts, k, off) <= |Flat(ts)|
    ensures Pos(ts, k + 1, 0) == Pos(ts, k, |ts[k]|)
    ensures k == |ts| - 1 ==> Pos(ts, k, |ts[k]|) == |Flat(ts)|
  {
    FlatAt(ts, k);
    if k == |ts| - 1 {
      assert ts[k + 1..] == [];
    }
  }

  lemma {:induction false} PosMonotone(ts: Layout, j: nat, k: nat)
    requires j <= k <= |ts|
    ensures Pos(ts, j, 0) <= Pos(ts, k, 0)
  {
    assert ts[..k] == ts[..j] + ts[j..k];
    FlatConcat(ts[..j], ts[j..k]);
  }

  /** A position short of the end of the text lies in some block. */
  lemma EndOfList(ts: Layout, i: nat)
    requires i <= |ts| && Pos(ts, i, 0) < |Flat(ts)|
    ensures i < |ts|
  {
    assert ts[..|ts|] == ts;
  }

  /** What lies in block `k` is what lies at its place in the flat text. */
  lemma InBlock(ts: Layout, k: nat, p: nat, q: nat)
    requires k < |ts| && p <= q <= |ts[k]|
    ensures Pos(ts, k, q) <= |Flat(ts)|
    ensures Flat(ts)[Pos(ts, k, p)..Pos(ts, k, q)] == ts[k][p..q]
  {
    hide Flat;
    FlatAt(ts, k);
    var a, b, c := Flat(ts[..k]), ts[k], Flat(ts[k + 1..]);
    assert (a + b + c)[|a| + p..|a| + q] == b[p..q];
  }

  lemma ByteAt(ts: Layout, k: nat, i: nat)
    requires k < |ts| && i < |ts[k]|
    ensures Pos(ts, k, i) < |Flat(ts)|
    ensures Flat(ts)[Pos(ts, k, i)] == ts[k][i]
  {
    InBlock(ts, k, i, i + 1);
    assert Flat(ts)[Pos(ts, k, i)..Pos(ts, k, i + 1)][0] == ts[k][i..i + 1][0];
  }

  /** An edit inside one block is the flat edit at that block's place. */
  lemma SpliceInBlock(ts: Layout, k: nat, off: nat, del: nat, ins: seq<byte>)
    requires k < |ts| && off + del <= |ts[k]|
    ensures Pos(ts, k, off) + del <= |Flat(ts)|
    ensures Flat(ts[k := Splice(ts[k], off, del, ins)]) == Splice(Flat(ts), Pos(ts, k, off), del, ins)
  {
    hide Flat;
    FlatAt(ts, k);
    FlatUpdate(ts, k, Splice(ts[k], off, del, ins));
    var a, b, c := Flat(ts[..k]), ts[k], Flat(ts[k + 1..]);
    assert a + (b[..off] + ins + b[off + del..]) + c
        == (a + b + c)[..|a| + off] + ins + (a + b + c)[|a| + off + del..];
  }

  /**
   * The representation invariant: every block but the last is a run of whole
   * lines, and only the single block of an empty text may be empty.
   */
  predicate WholeLines(ts: Layout) {
    && ts != []
    && (forall i :: 0 <= i < |ts| - 1 ==> Terminated(ts[i]))
    && (|ts| > 1 ==> forall i :: 0 <= i < |ts| ==> ts[i] != [])
  }

  lemma {:induction false} FlatTerminated(ts: Layout)
    requires forall i :: 0 <= i < |ts| ==> Terminated(ts[i])
    ensures Terminated(Flat(ts))
  {
    if ts != [] {
      FlatTerminated(ts[1..]);
    }
  }

  /** The last block ends in a newline exactly when the text does. */
  lemma LastTerminated(ts: Layout)
    requires WholeLines(ts)
    ensures Terminated(Flat(ts)) <==> Terminated(ts[|ts| - 1])
  {
    var k := |ts| - 1;
    FlatAt(ts, k);
    assert ts[k + 1..] == [];
    if ts[k] == [] {
      assert ts[..k] == [];
    } else {
      assert Flat(ts)[|Flat(ts)| - 1] == ts[k][|ts[k]| - 1];
    }
  }

  /** A block starts where a line starts. */
  lemma BlockAtLineStart(ts: Layout, k: nat)
    requires WholeLines(ts) && k < |ts|
    ensures Pos(ts, k, 0) <= |Flat(ts)| && AtLineStart(Flat(ts), Pos(ts, k, 0))
  {
    PosBound(ts, k, 0);
    if k > 0 {
      PosBound(ts, k - 1, |ts[k - 1]|);
      ByteAt(ts, k - 1, |ts[k - 1]| - 1);
    }
  }

  /** The end of the text is the end of the last block, and of no other. */
  lemma EofIsLast(ts: Layout, k: nat, off: nat)
    requires WholeLines(ts) && k < |ts| && off <= |ts[k]|
    ensures Pos(ts, k, off) == |Flat(ts)| <==> k == |ts| - 1 && off == |ts[k]|
  {
    hide Flat;
    PosBound(ts, k, off);
    if k < |ts| - 1 {
      PosBound(ts, |ts| - 1, |ts[|ts| - 1]|);
      PosMonotone(ts, k + 1, |ts| - 1);
    }
  }

  lemma BofIsFirst(ts: Layout, k: nat, off: nat)
    requires WholeLines(ts) && k < |ts| && off <= |ts[k]|
    ensures Pos(ts, k, off) == 0 <==> k == 0 && off == 0
  {
    hide Flat;
    PosOrigin(ts);
    if 0 < k {
      PosBound(ts, 0, |ts[0]|);
      PosMonotone(ts, 1, k);
    }
  }

  /** Scanning back inside a block finds where the current line starts. */
  lemma BolInBlock(ts: Layout, k: nat, bol: nat, off: nat)
    requires WholeLines(ts) && k < |ts| && bol <= off <= |ts[k]|
    requires AtLineStart(ts[k], bol) && NL !in ts[k][bol..off]
    ensures Pos(ts, k, off) <= |Flat(ts)|
    ensures Pos(ts, k, bol) == LineStart(Flat(ts), CountNl(Flat(ts)[..Pos(ts, k, off)]))
  {
    hide Flat, CountNl, LineStart;
    var t, p, q := Flat(ts), Pos(ts, k, bol), Pos(ts, k, off);
    InBlock(ts, k, bol, off);
    if bol == 0 {
      BlockAtLineStart(ts, k);
    } else {
      ByteAt(ts, k, bol - 1);
    }
    assert AtLineStart(t, p);
    LineStartBefore(t, p, q);
  }

  /** Scanning forward inside a block finds where the current line ends. */
  lemma EolInBlock(ts: Layout, k: nat, off: nat, end: nat)
    requires k < |ts| && off < end <= |ts[k]|
    requires ts[k][end - 1] == NL && forall i :: off <= i < end - 1 ==> ts[k][i] != NL
    ensures Pos(ts, k, end) <= |Flat(ts)|
    ensures Pos(ts, k, end) == LineEnd(Flat(ts), Pos(ts, k, off))
    ensures Flat(ts)[Pos(ts, k, off)..Pos(ts, k, end)] == ts[k][off..end]
  {
    hide Flat, CountNl, LineEnd;
    InBlock(ts, k, off, end);
    var t, p, q := Flat(ts), Pos(ts, k, off), Pos(ts, k, end);
    assert forall i {:trigger t[i]} :: p <= i < q ==> t[i] == t[p..q][i - p] == ts[k][off..end][i - p];
    LineEndUnique(Flat(ts), Pos(ts, k, off), Pos(ts, k, end));
  }

  /** Skipping a whole block skips exactly the lines it counts. */
  lemma BlockLines(ts: Layout, k: nat, seen: nat)
    requires WholeLines(ts) && k + 1 < |ts|
    requires Pos(ts, k, 0) == LineStart(Flat(ts), seen)
    ensures Pos(ts, k + 1, 0) == LineStart(Flat(ts), seen + CountNl(ts[k]))
  {
    hide Flat, CountNl, LineStart;
    var t, p, q := Flat(ts), Pos(ts, k, 0), Pos(ts, k + 1, 0);
    PosBound(ts, k, |ts[k]|);
    InBlock(ts, k, 0, |ts[k]|);
    EofIsLast(ts, k, 0);
    assert t[p..q] == ts[k];
    CountNlSlice(t, p, q);
    BlockAtLineStart(ts, k + 1);
    LineStartUnique(t, q);
    LineStartCount(t, seen);
  }
}
