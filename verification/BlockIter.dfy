/** The buffer's block list and the iterators that walk it. */
module BlockIters {
  import opened Bytes
  import opened BlockStore
  import opened Layout

  lemma Rejoin(ts: Layout, k: nat)
    requires k + 1 < |ts|
    ensures var us := ts[k := ts[k] + ts[k + 1]];
      us[..k + 1] + us[k + 2..] == ts[..k] + [ts[k] + ts[k + 1]] + ts[k + 2..]
  {
  }

  class Buffer {
    var blocks: seq<Block>
    var nl: nat
    ghost var texts: Layout
    ghost var Repr: set<object>

    /** The flat text. */
    ghost function Text(): seq<byte>
      reads this
    {
      Flat(texts)
    }

    /** Every block is sound, and no two share a header or a data area. */
    ghost predicate Sound()
      reads this, Repr
    {
      && this in Repr
      && (forall i :: 0 <= i < |blocks| ==>
            blocks[i] in Repr && blocks[i].data in Repr && blocks[i].Valid())
      && (forall i, j :: 0 <= i < j < |blocks| ==>
            blocks[i] != blocks[j] && blocks[i].data != blocks[j].data)
      && |texts| == |blocks|
      && (forall i :: 0 <= i < |blocks| ==> texts[i] == blocks[i].Text())
    }

    /** The block invariant; between the two halves of a replacement the last line may be cut short. */
    ghost predicate Valid()
      reads this, Repr
    {
      && Sound()
      && WholeLines(texts)
      && nl == CountNl(Text())
    }

    predicate HasNext(k: nat)
      reads this
    {
      k + 1 < |blocks|
    }

    predicate OnlyBlock()
      reads this
    {
      |blocks| == 1
    }

    /** insert_to_current on block `k`, without the buffer's own newline count. */
    method InsertInBlock(k: nat, offset: nat, buf: seq<byte>) returns (added: nat)
      requires Sound() && k < |blocks| && offset <= blocks[k].size
      modifies Repr
      ensures Sound() && fresh(Repr - old(Repr)) && blocks == old(blocks) && nl == old(nl)
      ensures texts == old(texts)[k := Splice(old(texts)[k], offset, 0, buf)]
      ensures added == CountNl(buf)
    {
      hide CountNl, Splice;
      added := blocks[k].Insert(offset, buf);
      Refresh(k);
    }

    /** Takes `count` bytes at `offset` out of block `k` and writes them to `dst`. */
    method DeleteInBlock(k: nat, offset: nat, count: nat, dst: array<byte>, at: nat) returns (removed: nat)
      requires Sound() && k < |blocks| && offset + count <= blocks[k].size
      requires dst !in Repr && at + count <= dst.Length
      modifies Repr, dst
      ensures Sound() && Repr == old(Repr) && blocks == old(blocks) && nl == old(nl)
      ensures texts == old(texts)[k := Splice(old(texts)[k], offset, count, [])]
      ensures dst[..] ==
        old(dst[..at]) + old(texts)[k][offset..offset + count] + old(dst[at + count..])
      ensures removed == CountNl(old(texts)[k][offset..offset + count])
    {
      hide CountNl, Splice;
      removed := blocks[k].Delete(offset, count, dst, at);
      Refresh(k);
    }

    /** The one-block replacement. */
    method ReplaceInBlock(k: nat, offset: nat, del: nat, buf: seq<byte>)
      returns (deleted: seq<byte>, delNl: nat, insNl: nat)
      requires Sound() && k < |blocks| && offset + del <= blocks[k].size
      modifies Repr
      ensures Sound() && fresh(Repr - old(Repr)) && blocks == old(blocks) && nl == old(nl)
      ensures texts == old(texts)[k := Splice(old(texts)[k], offset, del, buf)]
      ensures deleted == old(texts)[k][offset..offset + del]
      ensures delNl == CountNl(deleted) && insNl == CountNl(buf)
    {
      hide CountNl, Splice;
      deleted, delNl, insNl := blocks[k].Replace(offset, del, buf);
      Refresh(k);
    }

    /** Brings the ghost view of block `k` up to date. */
    ghost method Refresh(k: nat)
      requires k < |blocks| == |texts| && this in Repr
      requires forall i :: 0 <= i < |blocks| ==>
        && blocks[i] in Repr && blocks[i].Valid()
        && (i != k ==> blocks[i].data in Repr && texts[i] == blocks[i].Text())
      requires forall i, j :: 0 <= i < j < |blocks| ==>
        blocks[i] != blocks[j] && blocks[i].data != blocks[j].data
      modifies this`texts, this`Repr
      ensures Sound() && Repr == old(Repr) + {blocks[k].data}
      ensures texts == old(texts)[k := blocks[k].Text()]
    {
      texts := texts[k := blocks[k].Text()];
      Repr := Repr + {blocks[k].data};
    }

    /** block_free: block `k` leaves the list. */
    method Remove(k: nat)
      requires Sound() && k < |blocks|
      modifies this`blocks, this`texts
      ensures Sound() && blocks == old(blocks)[..k] + old(blocks)[k + 1..]
      ensures texts == old(texts)[..k] + old(texts)[k + 1..]
    {
      blocks := blocks[..k] + blocks[k + 1..];
      texts := texts[..k] + texts[k + 1..];
    }

    /** Joins block `k` and the next one. */
    method MergeNext(k: nat)
      requires Sound() && k + 1 < |blocks|
      modifies Repr
      ensures Sound() && fresh(Repr - old(Repr)) && nl == old(nl)
      ensures |blocks| == old(|blocks|) - 1
      ensures var ts := old(texts); texts == ts[..k] + [ts[k] + ts[k + 1]] + ts[k + 2..]
    {
      ghost var ts := texts;
      blocks[k].Append(blocks[k + 1]);
      Refresh(k);
      Remove(k + 1);
      Rejoin(ts, k);
    }

    /** list_insert_before: a new block joins the list in front of block `k`. */
    method InsertBefore(k: nat, b: Block)
      requires Sound() && k <= |blocks|
      requires b !in Repr && b.data !in Repr && b.Valid()
      modifies this`blocks, this`texts, this`Repr
      ensures Sound() && Repr == old(Repr) + {b, b.data}
      ensures blocks == old(blocks)[..k] + [b] + old(blocks)[k..]
      ensures texts == old(texts)[..k] + [b.Text()] + old(texts)[k..]
    {
      ghost var bs, ts := blocks, texts;
      blocks := blocks[..k] + [b] + blocks[k..];
      texts := texts[..k] + [b.Text()] + texts[k..];
      Repr := Repr + {b, b.data};
      OneMoreBlock(bs, ts, k, b, old(Repr));
    }
  }

  class BlockIter {
    const buffer: Buffer
    var blk: nat
    var offset: nat

    ghost predicate Valid()
      reads this, buffer, buffer.Repr
    {
      && buffer.Valid() && this !in buffer.Repr
      && blk < |buffer.blocks|
      && offset <= buffer.blocks[blk].size
    }

    /** The one integer this (block, offset) pair stands for. */
    ghost function At(): nat
      requires blk <= |buffer.texts|
      reads this, buffer
    {
      Pos(buffer.texts, blk, offset)
    }

    /** The first position of `buffer`. */
    constructor (buffer: Buffer)
      requires buffer.Valid()
      ensures Valid() && this.buffer == buffer && At() == 0
    {
      this.buffer := buffer;
      blk, offset := 0, 0;
      new;
      PosOrigin(buffer.texts);
    }

    predicate IsBof()
      requires Valid()
      reads this, buffer, buffer.Repr
      ensures IsBof() <==> At() == 0
    {
      BofIsFirst(buffer.texts, blk, offset);
      offset == 0 && blk == 0
    }

    predicate IsEof()
      requires Valid()
      reads this, buffer, buffer.Repr
      ensures IsEof() <==> At() == |buffer.Text()|
    {
      EofIsLast(buffer.texts, blk, offset);
      offset == buffer.blocks[blk].size && !buffer.HasNext(blk)
    }

    predicate IsBol()
      requires Valid()
      reads this, buffer, buffer.Repr
      ensures At() <= |buffer.Text()| && (IsBol() <==> AtLineStart(buffer.Text(), At()))
    {
      ghost var ts := buffer.texts;
      PosBound(ts, blk, offset);
      BlockAtLineStart(ts, blk);
      assert offset > 0 ==> Flat(ts)[Pos(ts, blk, offset) - 1] == ts[blk][offset - 1] by {
        if offset > 0 { ByteAt(ts, blk, offset - 1); }
      }
      offset == 0 || buffer.blocks[blk].data[offset - 1] == NL
    }

    predicate IsEol()
      requires Valid()
      reads this, buffer, buffer.Repr
      ensures At() <= |buffer.Text()|
      ensures IsEol() <==> At() == |buffer.Text()| || buffer.Text()[At()] == NL
    {
      ghost var ts := buffer.texts;
      PosBound(ts, blk, offset);
      EofIsLast(ts, blk, offset);
      if offset == buffer.blocks[blk].size then
        if !buffer.HasNext(blk) then true
        else
          ByteAt(ts, blk + 1, 0);
          buffer.blocks[blk + 1].data[0] == NL
      else
        ByteAt(ts, blk, offset);
        buffer.blocks[blk].data[offset] == NL
    }

    method NextBlock() returns (moved: bool)
      requires Valid()
      modifies this
      ensures Valid() && moved == (old(blk) + 1 < |buffer.blocks|)
      ensures moved ==> blk == old(blk) + 1 && offset == 0
      ensures !moved ==> blk == old(blk) && offset == old(offset)
      ensures moved ==> At() == old(At()) + buffer.blocks[old(blk)].size - old(offset)
    {
      if !buffer.HasNext(blk) {
        return false;
      }
      PosBound(buffer.texts, blk, offset);
      blk, offset := blk + 1, 0;
      return true;
    }

    method EndOfPrevBlock() returns (moved: bool)
      requires Valid()
      modifies this
      ensures Valid() && moved == (old(blk) > 0)
      ensures moved ==> blk == old(blk) - 1 && offset == buffer.blocks[blk].size
      ensures moved ==> At() == old(At()) - old(offset)
      ensures !moved ==> blk == old(blk) && offset == old(offset)
    {
      hide Flat, CountNl;
      if blk == 0 {
        return false;
      }
      PosBound(buffer.texts, blk - 1, 0);
      blk := blk - 1;
      offset := buffer.blocks[blk].size;
      return true;
    }

    /** The block and offset of the position, the start of a block being preferred to the end of another. */
    ghost function Spot(): (nat, nat)
      requires Valid()
      reads this, buffer, buffer.Repr
    {
      if offset == buffer.blocks[blk].size && blk + 1 < |buffer.blocks| then (blk + 1, 0) else (blk, offset)
    }

    /** Prefers the start of a block over the end of the one before it. */
    method Normalize()
      requires Valid()
      modifies this
      ensures Valid() && At() == old(At()) && (blk, offset) == old(Spot())
      ensures offset < buffer.blocks[blk].size || blk == |buffer.blocks| - 1
    {
      if offset == buffer.blocks[blk].size {
        var _ := NextBlock();
      }
    }

    method BackBytes(count: nat)
      requires Valid() && count <= At()
      modifies this
      ensures Valid() && At() == old(At()) - count
    {
      var n: nat := count;
      while n > offset
        invariant Valid() && n <= At() && At() - n == old(At()) - count
        decreases blk
      {
        BofIsFirst(buffer.texts, blk, offset);
        PosOrigin(buffer.texts);
        n := n - offset;
        var have := EndOfPrevBlock();
      }
      offset := offset - n;
    }

    method SkipBytes(count: nat)
      requires Valid() && At() + count <= |buffer.Text()|
      modifies this
      ensures Valid() && At() == old(At()) + count
    {
      var n: nat := count;
      var avail := buffer.blocks[blk].size - offset;
      while n > avail
        invariant Valid() && avail == buffer.blocks[blk].size - offset
        invariant At() + n == old(At()) + count
        decreases |buffer.blocks| - blk
      {
        PosBound(buffer.texts, blk, 0);
        n := n - avail;
        var have := NextBlock();
        avail := buffer.blocks[blk].size;
      }
      offset := offset + n;
    }

    /** Goes to flat offset `target`; an offset past the end leaves the iterator alone. */
    method GotoOffset(target: nat)
      requires Valid()
      modifies this
      ensures Valid()
      ensures target <= |buffer.Text()| ==> At() == target
      ensures |buffer.Text()| < target ==> blk == old(blk) && offset == old(offset)
    {
      hide Flat, CountNl;
      ghost var ts := buffer.texts;
      PosOrigin(ts);
      var left: nat := target;
      for k := 0 to |buffer.blocks|
        invariant Valid() && blk == old(blk) && offset == old(offset)
        invariant Pos(ts, k, 0) + left == target
        invariant k > 0 ==> left > 0
      {
        PosBound(ts, k, 0);
        if left <= buffer.blocks[k].size {
          PosBound(ts, k, left);
          blk, offset := k, left;
          return;
        }
        left := left - buffer.blocks[k].size;
      }
      assert ts[..|ts|] == ts;
    }

    method GetOffset() returns (n: nat)
      requires Valid()
      ensures n == At()
    {
      ghost var ts := buffer.texts;
      PosOrigin(ts);
      n := 0;
      for k := 0 to blk
        invariant n == Pos(ts, k, 0)
      {
        PosBound(ts, k, 0);
        n := n + buffer.blocks[k].size;
      }
      n := n + offset;
    }

    /** Moves back to the start of the current line. */
    method Bol() returns (moved: nat)
      requires Valid() && Terminated(buffer.Text())
      modifies this
      ensures Valid() && old(At()) <= |buffer.Text()| && At() + moved == old(At())
      ensures At() == LineStart(buffer.Text(), CountNl(buffer.Text()[..old(At())]))
    {
      hide Flat, CountNl, LineStart, LineEnd;
      Normalize();
      var off := offset;
      ghost var ts := buffer.texts;
      LastTerminated(ts);
      PosBound(ts, blk, off);
      if IsBol() {
        BolInBlock(ts, blk, offset, offset);
        return 0;
      }
      var b := buffer.blocks[blk];
      if b.nl == 1 {
        SingleLine(ts[blk]);
        offset := 0;
      } else {
        var i := MemRChr(b.Slice(0, b.size), NL, offset - 1);
        offset := i + 1;
      }
      moved := off - offset;
      BolInBlock(ts, blk, offset, off);
    }

    /** Moves forward onto the newline that ends the current line. */
    method Eol() returns (moved: nat)
      requires Valid() && Terminated(buffer.Text())
      modifies this
      ensures Valid() && At() == old(At()) + moved <= |buffer.Text()|
      ensures old(At()) < |buffer.Text()| ==> At() + 1 == LineEnd(buffer.Text(), old(At()))
      ensures old(At()) < |buffer.Text()| ==> offset < buffer.blocks[blk].size
    {
      hide Flat, CountNl, LineStart, LineEnd;
      Normalize();
      ghost var ts, off := buffer.texts, offset;
      var b := buffer.blocks[blk];
      LastTerminated(ts);
      EofIsLast(ts, blk, offset);
      PosBound(ts, blk, offset);
      if offset == b.size {
        return 0;
      }
      var end := b.LineEndFrom(offset);
      EolInBlock(ts, blk, off, end);
      moved := end - 1 - offset;
      offset := end - 1;
    }

    /** Steps over one byte, if there is one: block_iter_next_char on a one-byte character. */
    method NextByte() returns (n: nat)
      requires Valid()
      modifies this
      ensures Valid() && At() == old(At()) + n
      ensures n == if old(At()) == |buffer.Text()| then 0 else 1
    {
      hide Flat, CountNl;
      EofIsLast(buffer.texts, blk, offset);
      if offset == buffer.blocks[blk].size {
        var moved := NextBlock();
        if !moved {
          return 0;
        }
      }
      offset := offset + 1;
      return 1;
    }

    /** Moves to the start of the next line, or to the end of the text. */
    method EatLine() returns (moved: nat)
      requires Valid() && Terminated(buffer.Text())
      modifies this
      ensures Valid() && old(At()) <= |buffer.Text()| && At() == old(At()) + moved
      ensures At() == LineEnd(buffer.Text(), old(At()))
    {
      var n := Eol();
      var m := NextByte();
      moved := n + m;
    }

    /** The rest of the current line with its newline; nothing at the end of the text. */
    method GetLineWithNl() returns (line: seq<byte>)
      requires Valid() && Terminated(buffer.Text())
      modifies this
      ensures Valid() && At() == old(At()) <= |buffer.Text()|
      ensures line == buffer.Text()[At()..LineEnd(buffer.Text(), At())]
    {
      hide Flat, CountNl, LineStart, LineEnd;
      Normalize();
      ghost var ts := buffer.texts;
      var b := buffer.blocks[blk];
      LastTerminated(ts);
      EofIsLast(ts, blk, offset);
      PosBound(ts, blk, offset);
      if offset == b.size {
        return [];
      }
      var end := b.LineEndFrom(offset);
      EolInBlock(ts, blk, offset, end);
      line := b.Slice(offset, end);
    }

    /** The byte in front of the iterator, if there is one: block_iter_prev_char on its last byte. */
    method PrevByte() returns (ok: bool, ch: byte)
      requires Valid()
      modifies this
      ensures ok <==> old(At()) > 0
      ensures ok ==> old(At()) <= |buffer.Text()| && ch == buffer.Text()[old(At()) - 1]
      ensures Valid() && At() == old(At()) - if ok then 1 else 0
    {
      hide Flat, CountNl;
      PosBound(buffer.texts, blk, offset);
      BofIsFirst(buffer.texts, blk, offset);
      ch := 0;
      if offset == 0 {
        var moved := EndOfPrevBlock();
        if !moved {
          return false, ch;
        }
      }
      ByteAt(buffer.texts, blk, offset - 1);
      ch := buffer.blocks[blk].data[offset - 1];
      offset := offset - 1;
      return true, ch;
    }

    /** Whether `count` bytes from here on reach to the end of the text. */
    method ReachesEnd(count: nat) returns (r: bool)
      requires Valid()
      modifies this
      ensures r <==> |buffer.Text()| <= old(At()) + count
    {
      hide Flat, CountNl;
      var left: nat := count;
      while true
        invariant Valid() && At() + left == old(At()) + count
        decreases |buffer.blocks| - blk
      {
        PosBound(buffer.texts, blk, offset);
        PosBound(buffer.texts, blk, buffer.blocks[blk].size);
        EofIsLast(buffer.texts, blk, buffer.blocks[blk].size);
        var avail := buffer.blocks[blk].size - offset;
        if avail > left {
          return false;
        }
        var moved := NextBlock();
        if !moved {
          return true;
        }
        left := left - avail;
      }
    }

    /** A second iterator at the same place. */
    constructor Copy(other: BlockIter)
      requires other.Valid()
      ensures Valid() && buffer == other.buffer && At() == other.At()
    {
      buffer, blk, offset := other.buffer, other.blk, other.offset;
    }

    /** Goes to the start of line `line`, or to the end of the text when there are fewer lines. */
    method GotoLine(line: nat)
      requires Valid() && Terminated(buffer.Text())
      modifies this
      ensures Valid() && At() == LineStart(buffer.Text(), line)
    {
      hide Flat, CountNl, LineStart, LineEnd;
      ghost var t, ts := buffer.Text(), buffer.texts;
      LineStartStep(t, 0);
      var k: nat, seen: nat := 0, 0;
      PosOrigin(ts);
      while buffer.HasNext(k) && seen + buffer.blocks[k].nl < line
        invariant Valid() && k < |buffer.blocks|
        invariant seen <= line && Pos(ts, k, 0) == LineStart(t, seen)
        decreases |buffer.blocks| - k
      {
        BlockLines(ts, k, seen);
        seen := seen + buffer.blocks[k].nl;
        k := k + 1;
      }
      blk, offset := k, 0;
      while seen < line
        invariant Valid() && seen <= line && At() == LineStart(t, seen)
      {
        LineStartStep(t, seen);
        var n := EatLine();
        if n == 0 {
          EndOfLines(t, seen, line);
          break;
        }
        seen := seen + 1;
      }
    }

    /** Copies the next `len` bytes of text. */
    method GetBytes(len: nat) returns (buf: seq<byte>)
      requires Valid() && At() + len <= |buffer.Text()|
      ensures buf == buffer.Text()[At()..At() + len]
    {
      hide Flat, CountNl;
      ghost var t := buffer.Text();
      var bi := new BlockIter.Copy(this);
      ghost var p := At();
      buf := [];
      while |buf| < len
        invariant bi.Valid() && bi.buffer == buffer && fresh(bi)
        invariant |buf| <= len && buf == t[p..p + |buf|]
        invariant |buf| < len ==> bi.At() == p + |buf|
        decreases len - |buf|, |buffer.blocks| - bi.blk
      {
        var bytes := bi.GetFromBlock(len - |buf|);
        ghost var q := p + |buf|;
        SliceGrows(t, p, q, |bytes|);
        buf := buf + bytes;
      }
    }

    /** At most `max` of the bytes that the current block still has, and on to the next block. */
    method GetFromBlock(max: nat) returns (bytes: seq<byte>)
      requires Valid() && 0 < max && At() + max <= |buffer.Text()|
      modifies this
      ensures Valid() && |bytes| <= max && old(At()) + |bytes| <= |buffer.Text()|
      ensures bytes == buffer.Text()[old(At())..old(At()) + |bytes|]
      ensures |bytes| < max ==> At() == old(At()) + |bytes| && blk == old(blk) + 1
    {
      hide Flat, CountNl;
      ghost var ts := buffer.texts;
      var b := buffer.blocks[blk];
      var avail := b.size - offset;
      var count := if max < avail then max else avail;
      InBlock(ts, blk, offset, offset + count);
      PosBound(ts, blk, offset);
      bytes := b.Slice(offset, offset + count);
      AtLast(ts, blk, offset);
      var have := NextBlock();
    }
  }

  /** A new block shares nothing with the others. */
  lemma OneMoreBlock(bs: seq<Block>, ts: Layout, k: nat, b: Block, repr: set<object>)
    requires k <= |bs| == |ts| && b !in repr && b.data !in repr && b.Valid()
    requires forall i :: 0 <= i < |bs| ==> bs[i] in repr && bs[i].data in repr && bs[i].Valid() && ts[i] == bs[i].Text()
    requires forall i, j :: 0 <= i < j < |bs| ==> bs[i] != bs[j] && bs[i].data != bs[j].data
    ensures var cs, us := bs[..k] + [b] + bs[k..], ts[..k] + [b.Text()] + ts[k..];
      && |cs| == |us| == |bs| + 1
      && (forall i :: 0 <= i < |cs| ==>
            && cs[i] in repr + {b, b.data} && cs[i].data in repr + {b, b.data}
            && cs[i].Valid() && us[i] == cs[i].Text())
      && forall i, j :: 0 <= i < j < |cs| ==> cs[i] != cs[j] && cs[i].data != cs[j].data
  {
    var cs := bs[..k] + [b] + bs[k..];
    forall i, j | 0 <= i < j < |cs| ensures cs[i] != cs[j] && cs[i].data != cs[j].data {
      var a, c := if i < k then i else i - 1, if j < k then j else j - 1;
      if i == k {
        assert cs[j] == bs[c] && bs[c] in repr;
      } else if j == k {
        assert cs[i] == bs[a] && bs[a] in repr;
      } else {
        assert cs[i] == bs[a] && cs[j] == bs[c] && bs[a] != bs[c];
      }
    }
  }

  lemma SliceGrows(t: seq<byte>, p: nat, q: nat, n: nat)
    requires p <= q && q + n <= |t|
    ensures t[p..q + n] == t[p..q] + t[q..q + n]
  {
  }

  /** In the last block, what is behind a place in it is all there is. */
  lemma AtLast(ts: Layout, k: nat, off: nat)
    requires k < |ts| && off <= |ts[k]|
    ensures k == |ts| - 1 ==> Pos(ts, k, off) + (|ts[k]| - off) == |Flat(ts)|
  {
    FlatAt(ts, k);
    if k == |ts| - 1 {
      assert ts[k + 1..] == [];
    }
  }

  lemma {:induction false} EndOfLines(t: seq<byte>, k: nat, m: nat)
    requires k <= m && LineStart(t, k) == LineEnd(t, LineStart(t, k))
    ensures LineStart(t, m) == LineStart(t, k)
    decreases m - k
  {
    if k < m {
      EndOfLines(t, k + 1, m);
    }
  }
}
