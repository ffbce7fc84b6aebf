/** One block of text: a growable byte buffer with its newline count. */
module BlockStore {
  import opened Bytes

  const BLOCK_ALLOC_MULTIPLE: nat := 64

  /** `n` rounded up to a whole number of allocation units. */
  function NextMultiple(n: nat): (r: nat)
    ensures n <= r < n + BLOCK_ALLOC_MULTIPLE && r % BLOCK_ALLOC_MULTIPLE == 0
  {
    (n + BLOCK_ALLOC_MULTIPLE - 1) / BLOCK_ALLOC_MULTIPLE * BLOCK_ALLOC_MULTIPLE
  }

  /** Copies `src` into `dst` at `at`, counting the newlines on the way. */
  method CopyCountNl(dst: array<byte>, at: nat, src: seq<byte>) returns (nl: nat)
    requires at + |src| <= dst.Length
    modifies dst
    ensures dst[..] == old(dst[..at]) + src + old(dst[at + |src|..])
    ensures nl == CountNl(src)
  {
    nl := 0;
    for i := 0 to |src|
      invariant nl == CountNl(src[..i])
      invariant dst[..at] == old(dst[..at])
      invariant dst[at..at + i] == src[..i]
      invariant dst[at + |src|..] == old(dst[at + |src|..])
    {
      dst[at + i] := src[i];
      assert src[..i + 1][..i] == src[..i];
      if src[i] == NL {
        nl := nl + 1;
      }
    }
    assert src[..|src|] == src;
    assert dst[..] == dst[..at] + dst[at..at + |src|] + dst[at + |src|..];
  }

  /** memmove within one buffer. */
  method MoveBytes(a: array<byte>, to: nat, from: nat, count: nat)
    requires to + count <= a.Length && from + count <= a.Length
    modifies a
    ensures a[..] == old(a[..to]) + old(a[from..from + count]) + old(a[to + count..])
  {
    forall i | 0 <= i < count {
      a[to + i] := a[from + i];
    }
    assert a[to..to + count] == old(a[from..from + count]);
    assert a[..] == a[..to] + a[to..to + count] + a[to + count..];
  }

  /** Slides the tail after a gap of `del` bytes at `p` so that `ins` fits in, and fills it in. */
  method FillGap(a: array<byte>, size: nat, p: nat, del: nat, ins: seq<byte>) returns (nl: nat)
    requires p + del <= size <= a.Length && size + |ins| - del <= a.Length
    modifies a
    ensures a[..size + |ins| - del] == Splice(old(a[..size]), p, del, ins)
    ensures nl == CountNl(ins)
  {
    hide CountNl;
    ghost var d := a[..];
    if del != |ins| {
      MoveBytes(a, p + |ins|, p + del, size - p - del);
    }
    ghost var d1 := a[..];
    assert d1[..p] == d[..p];
    assert d1[p + |ins|..size + |ins| - del] == d[p + del..size];
    nl := CopyCountNl(a, p, ins);
    ghost var d2 := a[..];
    assert d2[..p] == d1[..p];
    assert d2[p + |ins|..] == d1[p + |ins|..];
    GapFilled(d, d1, d2, size, p, del, ins);
  }

  lemma GapFilled(d: seq<byte>, d1: seq<byte>, d2: seq<byte>, size: nat, p: nat, del: nat, ins: seq<byte>)
    requires p + del <= size <= |d| && size + |ins| - del <= |d| == |d1| == |d2|
    requires d1[p + |ins|..size + |ins| - del] == d[p + del..size]
    requires d2 == d[..p] + ins + d1[p + |ins|..]
    ensures d2[..size + |ins| - del] == Splice(d[..size], p, del, ins)
  {
    assert d2[..size + |ins| - del] == d[..p] + ins + d1[p + |ins|..size + |ins| - del];
    assert d[..size][p + del..] == d[p + del..size];
  }

  /** Slides the tail down over a gap of `count` bytes at `p`. */
  method CloseGap(a: array<byte>, size: nat, p: nat, count: nat)
    requires p + count <= size <= a.Length
    modifies a
    ensures a[..size - count] == Splice(old(a[..size]), p, count, [])
  {
    ghost var d := a[..];
    if count < size - p {
      MoveBytes(a, p, p + count, size - p - count);
    }
    assert a[..size - count] == d[..p] + d[p + count..size];
  }

  lemma SingleLineOrNl(t: seq<byte>, off: nat)
    requires Terminated(t) && off < |t|
    ensures CountNl(t) == 1 ==> forall i :: off <= i < |t| - 1 ==> t[i] != NL
    ensures NL in t[off..]
  {
    if CountNl(t) == 1 {
      SingleLine(t);
      assert forall i :: off <= i < |t| - 1 ==> t[i] == t[..|t| - 1][i];
    }
    assert t[off..][|t| - 1 - off] == NL;
  }

  class Block {
    var data: array<byte>
    var size: nat
    var nl: nat

    ghost predicate Valid()
      reads this, data
    {
      && size <= data.Length
      && BLOCK_ALLOC_MULTIPLE <= data.Length
      && nl == CountNl(data[..size])
    }

    ghost function Text(): (t: seq<byte>)
      requires size <= data.Length
      reads this, data
      ensures |t| == size
    {
      data[..size]
    }

    function Slice(p: nat, q: nat): (s: seq<byte>)
      requires size <= data.Length && p <= q <= size
      reads this, data
      ensures s == Text()[p..q]
    {
      data[p..q]
    }

    /** Just past the newline that ends the line at `off`; a one-line block needs no search. */
    function LineEndFrom(off: nat): (end: nat)
      requires Valid() && Terminated(Text()) && off < size
      reads this, data
      ensures off < end <= size && Text()[end - 1] == NL && forall i :: off <= i < end - 1 ==> Text()[i] != NL
    {
      SingleLineOrNl(Text(), off);
      if nl == 1 then size else MemChr(Slice(0, size), NL, off) + 1
    }

    constructor (alloc: nat)
      requires 0 < alloc
      ensures Valid() && fresh(data)
      ensures Text() == [] && alloc <= data.Length < alloc + 64 && data.Length % 64 == 0
    {
      var n := NextMultiple(alloc);
      data := new byte[n];
      size, nl := 0, 0;
    }

    /** Reallocates when the block cannot hold `alloc` bytes; the text stays. */
    method Grow(alloc: nat)
      requires Valid()
      modifies this`data
      ensures Valid() && Text() == old(Text())
      ensures alloc <= old(data.Length) ==> data == old(data)
      ensures alloc > old(data.Length) ==> fresh(data) && alloc <= data.Length < alloc + 64 && data.Length % 64 == 0
    {
      if alloc > data.Length {
        ghost var t := Text();
        var bigger := new byte[NextMultiple(alloc)];
        forall i | 0 <= i < size {
          bigger[i] := data[i];
        }
        assert bigger[..size] == t;
        data := bigger;
      }
    }

    /** Opens a gap of |buf| bytes at `offset` and fills it. */
    method Insert(offset: nat, buf: seq<byte>) returns (added: nat)
      requires Valid() && offset <= size
      modifies this, data
      ensures Valid() && (data == old(data) || fresh(data))
      ensures Text() == Splice(old(Text()), offset, 0, buf)
      ensures added == CountNl(buf)
    {
      hide CountNl, Splice;
      ghost var t := Text();
      Grow(size + |buf|);
      added := FillGap(data, size, offset, 0, buf);
      SpliceCount(t, offset, 0, buf);
      nl, size := nl + added, size + |buf|;
    }

    /** Takes over the text of another block, behind its own. */
    method Append(other: Block)
      requires Valid() && other.Valid() && other != this && other.data != data
      modifies this, data
      ensures Valid() && (data == old(data) || fresh(data))
      ensures Text() == old(Text()) + old(other.Text())
    {
      hide CountNl;
      ghost var t := Text();
      var newSize := size + other.size;
      Grow(newSize);
      forall i | 0 <= i < other.size {
        data[size + i] := other.data[i];
      }
      assert data[..newSize] == t + other.Text();
      CountNlConcat(t, other.Text());
      size, nl := newSize, nl + other.nl;
    }

    /** Moves `count` bytes at `offset` out to `dst` and closes the gap. */
    method Delete(offset: nat, count: nat, dst: array<byte>, at: nat) returns (removed: nat)
      requires Valid() && offset + count <= size
      requires dst != data && at + count <= dst.Length
      modifies this, data, dst
      ensures Valid() && data == old(data)
      ensures Text() == Splice(old(Text()), offset, count, [])
      ensures dst[..] == old(dst[..at]) + old(Text())[offset..offset + count] + old(dst[at + count..])
      ensures removed == CountNl(old(Text())[offset..offset + count])
    {
      hide CountNl, Splice;
      ghost var t := Text();
      var chunk := Slice(offset, offset + count);
      removed := CopyCountNl(dst, at, chunk);
      CloseGap(data, size, offset, count);
      SpliceCount(t, offset, count, []);
      nl, size := nl - removed, size - count;
    }

    /** Swaps `del` bytes at `offset` for `buf`, which the block has room for or grows to hold. */
    method Replace(offset: nat, del: nat, buf: seq<byte>)
      returns (deleted: seq<byte>, delNl: nat, insNl: nat)
      requires Valid() && offset + del <= size
      modifies this, data
      ensures Valid() && (data == old(data) || fresh(data))
      ensures Text() == Splice(old(Text()), offset, del, buf)
      ensures deleted == old(Text())[offset..offset + del]
      ensures delNl == CountNl(deleted) && insNl == CountNl(buf)
    {
      hide CountNl, Splice;
      ghost var t := Text();
      var newSize := size + |buf| - del;
      Grow(newSize);
      var out := new byte[del];
      var chunk := Slice(offset, offset + del);
      delNl := CopyCountNl(out, 0, chunk);
      deleted := out[..];
      insNl := FillGap(data, size, offset, del, buf);
      SpliceCount(t, offset, del, buf);
      nl, size := nl - delNl + insNl, newSize;
    }
  }
}
