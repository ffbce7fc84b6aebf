/** Packing text into blocks of whole lines: the specification of a block split. */
module Packing {
  import opened Bytes
  import opened Layout

  const BLOCK_EDIT_SIZE: nat := 512

  /** Where the block that starts at `start` ends, given that it already reaches `pos`. */
  function BlockEnd(t: seq<byte>, start: nat, pos: nat): (e: nat)
    requires start <= pos < |t|
    ensures pos <= e <= |t| && start < e
    decreases |t| - pos
  {
    var e := LineEnd(t, pos);
    if e - start <= BLOCK_EDIT_SIZE then
      if e < |t| then BlockEnd(t, start, e) else e
    else if pos == start then e
    else pos
  }

  /** The blocks that the text from `start` on is packed into. */
  function Pack(t: seq<byte>, start: nat): Layout
    requires start <= |t|
    decreases |t| - start
  {
    if start == |t| then []
    else
      var e := BlockEnd(t, start, start);
      [t[start..e]] + Pack(t, e)
  }

  /** Packing loses nothing and adds nothing. */
  lemma {:induction false} PackIsFlat(t: seq<byte>, start: nat)
    requires start <= |t|
    ensures Flat(Pack(t, start)) == t[start..]
    ensures forall i :: 0 <= i < |Pack(t, start)| ==> Pack(t, start)[i] != []
    decreases |t| - start
  {
    if start < |t| {
      var e := BlockEnd(t, start, start);
      PackIsFlat(t, e);
      assert t[start..] == t[start..e] + t[e..];
    }
  }

  /** What one block looks like: whole lines, small unless a single line is long, and full. */
  ghost predicate GoodBlock(t: seq<byte>, start: nat, e: nat) {
    && start < e <= |t|
    && (e == |t| || t[e - 1] == NL)
    && (e - start <= BLOCK_EDIT_SIZE || e == LineEnd(t, start))
    && (e < |t| ==> BLOCK_EDIT_SIZE < LineEnd(t, e) - start)
  }

  lemma {:induction false} BlockEndIsGood(t: seq<byte>, start: nat, pos: nat)
    requires start <= pos < |t|
    requires start < pos ==> t[pos - 1] == NL && pos - start <= BLOCK_EDIT_SIZE
    ensures GoodBlock(t, start, BlockEnd(t, start, pos))
    decreases |t| - pos
  {
    var e := LineEnd(t, pos);
    if e - start <= BLOCK_EDIT_SIZE && e < |t| {
      BlockEndIsGood(t, start, e);
    }
  }

  /**
   * Every block made is a run of whole lines no longer than the preferred
   * size, or exactly one line, and the next line would not have fitted in.
   */
  lemma {:induction false} PackIsGood(t: seq<byte>, start: nat, i: nat)
    requires start <= |t| && i < |Pack(t, start)|
    ensures var p := start + |Flat(Pack(t, start)[..i])|;
      GoodBlock(t, p, p + |Pack(t, start)[i]|) && Pack(t, start)[i] == t[p..p + |Pack(t, start)[i]|]
    decreases |t| - start
  {
    var e := BlockEnd(t, start, start);
    var ps := Pack(t, start);
    BlockEndIsGood(t, start, start);
    if i > 0 {
      PackIsGood(t, e, i - 1);
      assert ps[..i] == [t[start..e]] + Pack(t, e)[..i - 1];
      FlatConcat([t[start..e]], Pack(t, e)[..i - 1]);
      FlatOne(t[start..e]);
    }
  }

  /** The blocks of a terminated text are terminated. */
  lemma {:induction false} PackTerminated(t: seq<byte>, start: nat)
    requires start <= |t| && Terminated(t)
    ensures forall i :: 0 <= i < |Pack(t, start)| ==> Terminated(Pack(t, start)[i])
    decreases |t| - start
  {
    if start < |t| {
      BlockEndIsGood(t, start, start);
      PackTerminated(t, BlockEnd(t, start, start));
    }
  }

  /** One decision of the packing: take the next line too, or close the block. */
  lemma BlockEndStep(t: seq<byte>, start: nat, pos: nat)
    requires start <= pos < |t|
    ensures var e := LineEnd(t, pos);
      BlockEnd(t, start, pos) ==
        if e - start <= BLOCK_EDIT_SIZE then
          if e < |t| then BlockEnd(t, start, e) else e
        else if pos == start then e else pos
  {
  }

  lemma PackStep(t: seq<byte>, start: nat, done: Layout)
    requires start < |t|
    ensures done + Pack(t, start)
         == done + [t[start..BlockEnd(t, start, start)]] + Pack(t, BlockEnd(t, start, start))
  {
  }

  /**
   * Just past the next newline of `a + b + c` at or after `pos`, looked for
   * in the three pieces in turn.
   */
  function FindLineEnd(a: seq<byte>, b: seq<byte>, c: seq<byte>, pos: nat): (e: nat)
    requires pos < |a| + |b| + |c|
    ensures e == LineEnd(a + b + c, pos)
  {
    var i := if pos < |a| then MemChr(a, NL, pos) else -1;
    var off2 := if pos > |a| then pos - |a| else 0;
    var j := if i < 0 && pos < |a| + |b| then MemChr(b, NL, off2) else -1;
    var off3 := if pos > |a| + |b| then pos - |a| - |b| else 0;
    var k := if i < 0 && j < 0 then MemChr(c, NL, off3) else -1;
    LineEndInPieces(a, b, c, pos, i, j, k);
    if i >= 0 then i + 1
    else if j >= 0 then |a| + j + 1
    else if k >= 0 then |a| + |b| + k + 1
    else |a| + |b| + |c|
  }

  lemma LineEndInPieces(a: seq<byte>, b: seq<byte>, c: seq<byte>, pos: nat, i: int, j: int, k: int)
    requires pos < |a| + |b| + |c|
    requires i == if pos < |a| then MemChr(a, NL, pos) else -1
    requires j == if i < 0 && pos < |a| + |b| then MemChr(b, NL, if pos > |a| then pos - |a| else 0) else -1
    requires k == if i < 0 && j < 0 then MemChr(c, NL, if pos > |a| + |b| then pos - |a| - |b| else 0) else -1
    ensures LineEnd(a + b + c, pos) ==
      if i >= 0 then i + 1 else if j >= 0 then |a| + j + 1
      else if k >= 0 then |a| + |b| + k + 1 else |a| + |b| + |c|
  {
    var t := a + b + c;
    assert forall x :: 0 <= x < |a| ==> t[x] == a[x];
    assert forall x {:trigger t[x]} :: |a| <= x < |a| + |b| ==> t[x] == b[x - |a|];
    assert forall x {:trigger t[x]} :: |a| + |b| <= x < |t| ==> t[x] == c[x - |a| - |b|];
    var e := if i >= 0 then i + 1 else if j >= 0 then |a| + j + 1
      else if k >= 0 then |a| + |b| + k + 1 else |t|;
    assert pos < e <= |t| && (e == |t| || t[e - 1] == NL);
    assert forall x :: pos <= x < e - 1 ==> t[x] != NL;
    LineEndUnique(t, pos, e);
  }

  /** Putting whole lines into a block leaves the block list well-formed. */
  lemma InsertedBlock(ts: Layout, k: nat, off: nat, del: nat, buf: seq<byte>)
    requires WholeLines(ts) && k < |ts| && off + del <= |ts[k]| && buf != []
    requires off + del < |ts[k]| || k == |ts| - 1
    requires Pos(ts, k, off) + del <= |Flat(ts)|
    requires Terminated(Splice(Flat(ts), Pos(ts, k, off), del, buf))
    ensures var t := Splice(ts[k], off, del, buf);
      && WholeLines(ts[k := t]) && Terminated(t)
      && Flat(ts[k := t]) == Splice(Flat(ts), Pos(ts, k, off), del, buf)
  {
    hide Flat;
    var t := Splice(ts[k], off, del, buf);
    SpliceInBlock(ts, k, off, del, buf);
    if k < |ts| - 1 {
      assert t[|t| - 1] == ts[k][|ts[k]| - 1];
    }
    LastTerminated(ts[k := t]);
  }

  /** Packing one block's text into several keeps the text and the invariant. */
  lemma PackedBlock(ts: Layout, k: nat, t: seq<byte>)
    requires k < |ts| && WholeLines(ts[k := t]) && Terminated(t) && t != []
    ensures var ps := ts[..k] + Pack(t, 0) + ts[k + 1..];
      WholeLines(ps) && Flat(ps) == Flat(ts[k := t])
  {
    hide Flat, Pack;
    var us := ts[k := t];
    var ps := ts[..k] + Pack(t, 0) + ts[k + 1..];
    PackIsFlat(t, 0);
    PackTerminated(t, 0);
    FlatUpdate(ts, k, t);
    FlatConcat(ts[..k] + Pack(t, 0), ts[k + 1..]);
    FlatConcat(ts[..k], Pack(t, 0));
    PackNonEmpty(t);
    forall i | 0 <= i < |ps|
      ensures ps[i] != [] && (i < |ps| - 1 ==> Terminated(ps[i]))
    {
      if i < k {
        assert ps[i] == us[i];
      } else if k + |Pack(t, 0)| <= i {
        assert ps[i] == us[i - |Pack(t, 0)| + 1];
      } else {
        assert ps[i] == Pack(t, 0)[i - k];
      }
    }
  }

  lemma PackNonEmpty(t: seq<byte>)
    requires t != []
    ensures Pack(t, 0) != []
  {
  }
}
