/** How a deletion leaves the block list while it runs, and what is left to repair at its end. */
module Trimming {
  import opened Bytes
  import opened Layout

  /**
   * A deletion that started at offset `off` of block `k` leaves whole blocks
   * around block `k`; block `k` keeps its first `off` bytes, and its own last
   * line may be cut short only if there are any.
   */
  ghost predicate Trimmed(ts: Layout, k: nat, off: nat) {
    && ts != [] && k <= |ts|
    && (off > 0 ==> k < |ts| && off <= |ts[k]|)
    && (forall j :: 0 <= j < |ts| && j != k ==> Terminated(ts[j]) && ts[j] != [])
    && (k < |ts| && off == 0 ==> Terminated(ts[k]) && (ts[k] != [] || |ts| == 1))
  }

  lemma StartTrimming(ts: Layout, k: nat, off: nat)
    requires WholeLines(ts) && Terminated(Flat(ts)) && k < |ts| && off <= |ts[k]|
    ensures Trimmed(ts, k, off)
  {
    LastTerminated(ts);
  }

  /** One round: `count` bytes leave block `i`, and the block goes if that empties it. */
  function Trim(ts: Layout, i: nat, off: nat, count: nat): Layout
    requires i < |ts| && off + count <= |ts[i]|
  {
    var rest := Splice(ts[i], off, count, []);
    if rest == [] && |ts| > 1 then ts[..i] + ts[i + 1..] else ts[i := rest]
  }

  lemma TrimStep(ts: Layout, k: nat, off: nat, i: nat, at: nat, count: nat)
    requires Trimmed(ts, k, off) && i < |ts| && at + count <= |ts[i]|
    requires (i == k && at == off) || (off > 0 && i == k + 1 && at == 0)
    ensures Trimmed(Trim(ts, i, at, count), k, off)
    ensures Trim(ts, i, at, count)[..k] == ts[..k]
  {
    var us := Trim(ts, i, at, count);
    var rest := Splice(ts[i], at, count, []);
    assert rest != [] && at + count < |ts[i]| ==> rest[|rest| - 1] == ts[i][|ts[i]| - 1];
    if rest == [] && |ts| > 1 {
      forall j | 0 <= j < |us| && j != k
        ensures Terminated(us[j]) && us[j] != []
      {
        assert us[j] == ts[if j < i then j else j + 1];
      }
      assert k < |us| ==> us[k] == ts[if k < i then k else k + 1];
    } else {
      assert forall j :: 0 <= j < |us| && j != i ==> us[j] == ts[j];
    }
  }

  /** The round takes its bytes out of the flat text, at the same place. */
  lemma TrimFlat(ts: Layout, i: nat, at: nat, count: nat)
    requires i < |ts| && at + count <= |ts[i]|
    ensures Pos(ts, i, at) + count <= |Flat(ts)|
    ensures Flat(Trim(ts, i, at, count)) == Splice(Flat(ts), Pos(ts, i, at), count, [])
    ensures Trim(ts, i, at, count)[..i] == ts[..i]
  {
    hide Flat;
    var rest := Splice(ts[i], at, count, []);
    SpliceInBlock(ts, i, at, count, []);
    if rest == [] && |ts| > 1 {
      FlatUpdate(ts, i, rest);
      FlatConcat(ts[..i], ts[i + 1..]);
    }
  }

  /** With nothing to repair, the invariant is back. */
  lemma TrimDone(ts: Layout, k: nat, off: nat)
    requires Trimmed(ts, k, off)
    requires off == 0 || k == |ts| - 1 || Terminated(ts[k])
    ensures WholeLines(ts)
  {
  }

  /** Joining the cut line with the block that follows restores the invariant. */
  lemma TrimMerged(ts: Layout, k: nat, off: nat)
    requires Trimmed(ts, k, off) && off > 0 && k + 1 < |ts|
    ensures var us := ts[..k] + [ts[k] + ts[k + 1]] + ts[k + 2..];
      WholeLines(us) && Flat(us) == Flat(ts) && us[..k] == ts[..k] && off <= |us[k]|
  {
    hide Flat;
    var us := ts[..k] + [ts[k] + ts[k + 1]] + ts[k + 2..];
    FlatAt(ts, k + 1);
    FlatHead(ts, k);
    assert us[..k] == ts[..k] && us[k + 1..] == ts[k + 2..];
    FlatAt(us, k);
    var a, b, c := Flat(ts[..k]), ts[k], ts[k + 1];
    assert a + b + c == a + (b + c);
    forall j | 0 <= j < |us|
      ensures us[j] != [] && Terminated(us[j])
    {
      if j != k {
        assert us[j] == ts[if j < k then j else j + 1];
      }
    }
  }

  /** Deleting in two goes from the same place. */
  lemma DeleteMore(t: seq<byte>, p: nat, n: nat, m: nat)
    requires p + n + m <= |t|
    ensures Splice(Splice(t, p, n, []), p, m, []) == Splice(t, p, n + m, [])
    ensures Splice(t, p, n, [])[p..p + m] == t[p + n..p + n + m]
  {
  }

  function NextBlock(ts: Layout, i: nat, at: nat, count: nat): nat
    requires i < |ts| && at + count <= |ts[i]|
  {
    if Splice(ts[i], at, count, []) == [] && |ts| > 1 then i else i + 1
  }

  /**
   * The deletion loop's invariant: after `pos` bytes, the list holds the text
   * without them, and (i, at) is where the deletion goes on.
   */
  ghost predicate Deleting(t: seq<byte>, p: nat, len: nat, pos: nat, ts: Layout, k: nat, off: nat, i: nat, at: nat) {
    && p + len <= |t| && pos <= len
    && Trimmed(ts, k, off)
    && Flat(ts) == Splice(t, p, pos, [])
    && (pos < len ==>
          && i < |ts| && at <= |ts[i]| && Pos(ts, i, at) == p
          && ((i == k && at == off) || (off > 0 && i == k + 1 && at == 0)))
  }

  lemma StartDeleting(t: seq<byte>, len: nat, ts: Layout, k: nat, off: nat)
    requires WholeLines(ts) && t == Flat(ts) && Terminated(t) && k < |ts| && off <= |ts[k]|
    requires Pos(ts, k, off) + len <= |t|
    ensures Deleting(t, Pos(ts, k, off), len, 0, ts, k, off, k, off)
  {
    StartTrimming(ts, k, off);
    assert Splice(t, Pos(ts, k, off), 0, []) == t;
  }

  /** One round of the deletion loop. */
  lemma DeleteRound(t: seq<byte>, p: nat, len: nat, pos: nat, ts: Layout, k: nat, off: nat, i: nat, at: nat, count: nat)
    requires Deleting(t, p, len, pos, ts, k, off, i, at) && pos < len
    requires count <= len - pos && at + count <= |ts[i]|
    requires count == len - pos || at + count == |ts[i]|
    ensures var us := Trim(ts, i, at, count);
      && Deleting(t, p, len, pos + count, us, k, off, NextBlock(ts, i, at, count), 0)
      && k <= |ts| && k <= |us| && us[..k] == ts[..k]
      && (count == 0 ==> |us| == |ts| && NextBlock(ts, i, at, count) == i + 1)
    ensures t[p..p + pos] + ts[i][at..at + count] == t[p..p + pos + count]
    ensures var n := CountNl(ts[i][at..at + count]);
      && n <= CountNl(Flat(ts)) && CountNl(Flat(Trim(ts, i, at, count))) == CountNl(Flat(ts)) - n
  {
    hide Flat, CountNl, Trimmed;
    var us := Trim(ts, i, at, count);
    TrimFlat(ts, i, at, count);
    TrimStep(ts, k, off, i, at, count);
    DeleteMore(t, p, pos, count);
    InBlock(ts, i, at, at + count);
    assert t[p..p + pos] + t[p + pos..p + pos + count] == t[p..p + pos + count];
    SpliceCount(Flat(ts), p, count, []);
    NoNewlines();
    TrimNext(t, p, len, pos, ts, k, off, i, at, count);
    BlockNotEmpty(t, p, len, pos, ts, k, off, i, at);
    assert count == 0 ==> Splice(ts[i], at, count, []) == ts[i];
  }

  lemma BlockNotEmpty(t: seq<byte>, p: nat, len: nat, pos: nat, ts: Layout, k: nat, off: nat, i: nat, at: nat)
    requires Deleting(t, p, len, pos, ts, k, off, i, at) && pos < len
    ensures ts[i] != [] && k <= |ts|
  {
    FlatOne(ts[i]);
    assert |ts| == 1 ==> ts == [ts[i]];
  }

  /** Where the next round goes on. */
  lemma TrimNext(t: seq<byte>, p: nat, len: nat, pos: nat, ts: Layout, k: nat, off: nat, i: nat, at: nat, count: nat)
    requires Deleting(t, p, len, pos, ts, k, off, i, at) && pos < len
    requires count <= len - pos && at + count <= |ts[i]|
    requires count == len - pos || at + count == |ts[i]|
    requires |Flat(Trim(ts, i, at, count))| == |t| - pos - count
    ensures var us, j := Trim(ts, i, at, count), NextBlock(ts, i, at, count);
      pos + count < len ==>
        && j < |us| && Pos(us, j, 0) == p
        && ((j == k && off == 0) || (off > 0 && j == k + 1))
  {
    hide Flat;
    var us, j := Trim(ts, i, at, count), NextBlock(ts, i, at, count);
    if pos + count < len {
      if j == i {
        assert at == 0 && us[..j] == ts[..i];
      } else {
        assert us[..i] == ts[..i];
        PosBound(us, i, 0);
      }
      EndOfList(us, j);
    }
  }
}
