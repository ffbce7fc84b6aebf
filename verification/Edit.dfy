/** The editing primitives: insertion, deletion and replacement of bytes at the cursor. */
module Edit {
  import opened Bytes
  import opened BlockStore
  import opened Layout
  import opened BlockIters
  import opened Packing
  import opened Trimming
  import opened LineStates
  import opened Highlight

  /**
   * Copies `size` bytes from position `from` of the three pieces, laid end to
   * end, into a new block.
   */
  method NewBlock(buf1: seq<byte>, buf2: seq<byte>, buf3: seq<byte>, from: nat, size: nat) returns (b: Block)
    requires 0 < size && from + size <= |buf1| + |buf2| + |buf3|
    ensures fresh(b) && fresh(b.data) && b.Valid()
    ensures b.Text() == (buf1 + buf2 + buf3)[from..from + size]
  {
    hide CountNl;
    ghost var t := buf1 + buf2 + buf3;
    b := new Block(size);
    NothingCopied(b.data[..0], t, from);
    PiecesAt(buf1, buf2, buf3);
    var start, nl := CopyPiece(b.data, buf1, 0, from, from, size, 0, t);
    start, nl := CopyPiece(b.data, buf2, |buf1|, from, start, size, nl, t);
    start, nl := CopyPiece(b.data, buf3, |buf1| + |buf2|, from, start, size, nl, t);
    b.size, b.nl := size, nl;
  }

  lemma PiecesAt(buf1: seq<byte>, buf2: seq<byte>, buf3: seq<byte>)
    ensures var t, n := buf1 + buf2 + buf3, |buf1| + |buf2|;
      |t| == n + |buf3| && t[0..|buf1|] == buf1 && t[|buf1|..n] == buf2 && t[n..n + |buf3|] == buf3
  {
  }

  lemma NothingCopied(d: seq<byte>, t: seq<byte>, from: nat)
    requires d == [] && from <= |t|
    ensures d == t[from..from] && CountNl(t[from..from]) == 0
  {
  }

  /**
   * Copies what the block starting at `from` still lacks from the piece that
   * lies at `base`, unless `start` is outside of that piece.
   */
  method CopyPiece(dst: array<byte>, piece: seq<byte>, base: nat, from: nat, start: nat, size: nat, nl: nat,
                   ghost t: seq<byte>)
    returns (start': nat, nl': nat)
    requires size <= dst.Length && from <= start <= from + size <= |t|
    requires base + |piece| <= |t| && t[base..base + |piece|] == piece
    requires dst[..start - from] == t[from..start] && nl == CountNl(t[from..start])
    modifies dst
    ensures start' ==
      if !(base <= start < base + |piece|) then start
      else if from + size <= base + |piece| then from + size
      else base + |piece|
    ensures dst[..start' - from] == t[from..start'] && nl' == CountNl(t[from..start'])
  {
    hide CountNl;
    start', nl' := start, nl;
    if base <= start < base + |piece| {
      var copied, offset := start - from, start - base;
      var avail := |piece| - offset;
      var count := if size - copied < avail then size - copied else avail;
      var chunk := piece[offset..offset + count];
      ghost var d := dst[..];
      var n := CopyCountNl(dst, copied, chunk);
      start', nl' := start + count, nl + n;
      HeadCopied(d, dst[..], copied, chunk);
      PieceAppended(t, from, start, base, piece, count);
    }
  }

  lemma HeadCopied(d: seq<byte>, e: seq<byte>, at: nat, src: seq<byte>)
    requires at + |src| <= |d| && e == d[..at] + src + d[at + |src|..]
    ensures e[..at + |src|] == d[..at] + src
  {
  }

  lemma PieceAppended(t: seq<byte>, from: nat, start: nat, base: nat, piece: seq<byte>, count: nat)
    requires from <= start && base <= start && start + count <= base + |piece| <= |t|
    requires t[base..base + |piece|] == piece
    ensures var chunk := piece[start - base..start - base + count];
      && t[from..start] + chunk == t[from..start + count]
      && CountNl(t[from..start + count]) == CountNl(t[from..start]) + CountNl(chunk)
  {
    hide CountNl;
    var chunk := piece[start - base..start - base + count];
    forall i | 0 <= i < count ensures chunk[i] == t[start..start + count][i] {
      assert chunk[i] == piece[start - base + i] == t[base..base + |piece|][start - base + i];
    }
    assert chunk == t[start..start + count];
    assert t[from..start] + t[start..start + count] == t[from..start + count];
    CountNlConcat(t[from..start], chunk);
  }

  lemma SpliceIsPieces(t: seq<byte>, off: nat, buf: seq<byte>)
    requires off <= |t|
    ensures Splice(t, off, 0, buf) == t[0..off] + buf + t[off..|t|]
  {
  }

  lemma NothingPacked(ts: Layout, k: nat, t: seq<byte>)
    requires k <= |ts|
    ensures ts == ts[..k] + [] + ts[k..]
    ensures [] + Pack(t, 0) == Pack(t, 0)
    ensures CountNl(t[..0]) == 0
  {
  }

  lemma AllPacked(t: seq<byte>, done: Layout)
    ensures done + Pack(t, |t|) == done
    ensures t[..|t|] == t
  {
  }

  lemma InsertMiddle(a: Layout, m: Layout, b: Layout, x: seq<byte>)
    ensures (a + m + b)[..|a| + |m|] + [x] + (a + m + b)[|a| + |m|..] == a + (m + [x]) + b
  {
  }

  lemma PackCovers(t: seq<byte>, off: nat, buf: seq<byte>)
    requires off <= |t| && buf != []
    ensures var u := Splice(t, off, 0, buf); Pack(u, 0) != [] && |Flat(Pack(u, 0))| >= off && Flat(Pack(u, 0)) == u
  {
    var u := Splice(t, off, 0, buf);
    PackIsFlat(u, 0);
    PackNonEmpty(u);
  }

  /** A position in the middle part of a block list, seen from the whole list. */
  lemma PosInside(a: Layout, m: Layout, b: Layout, j: nat, off: nat)
    requires j < |m|
    ensures Pos(a + m + b, |a| + j, off) == |Flat(a)| + Pos(m, j, off)
  {
    hide Flat;
    assert (a + m + b)[..|a| + j] == a + m[..j];
    FlatConcat(a, m[..j]);
  }

  lemma SpliceNonEmpty(t: seq<byte>, off: nat, buf: seq<byte>)
    requires off <= |t| && buf != []
    ensures Splice(t, off, 0, buf) != [] && off <= |Splice(t, off, 0, buf)| == |t| + |buf|
  {
  }

  /** Changing block `k` moves no position at or before it. */
  lemma PosOfUpdate(ts: Layout, k: nat, t: seq<byte>, off: nat)
    requires k < |ts|
    ensures Pos(ts[k := t], k, off) == Pos(ts, k, off)
  {
    assert ts[k := t][..k] == ts[..k];
  }

  lemma NoLinesBefore(ts: Layout)
    ensures CountNl(Flat(ts[..0])) == 0
  {
  }

  lemma PrefixAt(ts: Layout, k: nat, off: nat)
    requires k < |ts| && off <= |ts[k]|
    ensures Pos(ts, k, off) <= |Flat(ts)|
    ensures CountNl(Flat(ts)[..Pos(ts, k, off)]) == CountNl(Flat(ts[..k])) + CountNl(ts[k][0..off])
  {
    hide CountNl, Flat;
    FlatAt(ts, k);
    assert Flat(ts)[..Pos(ts, k, off)] == Flat(ts[..k]) + ts[k][0..off];
    CountNlConcat(Flat(ts[..k]), ts[k][0..off]);
  }

  lemma NoNewlineInNothing(t: seq<byte>, p: nat)
    requires p <= |t|
    ensures CountNl(t[p..p + 0]) == 0
  {
  }

  lemma SplicePrefix(t: seq<byte>, p: nat, del: nat, ins: seq<byte>)
    requires p + del <= |t|
    ensures p <= |Splice(t, p, del, ins)| && Splice(t, p, del, ins)[..p] == t[..p]
  {
  }

  lemma SpliceNothing(t: seq<byte>, p: nat)
    requires p <= |t|
    ensures Splice(t, p, 0, []) == t && t[p..p + 0] == []
  {
  }

  lemma TrimmedBound(ts: Layout, k: nat, off: nat)
    requires Trimmed(ts, k, off)
    ensures k <= |ts|
  {
  }

  /** The same blocks in front of it give a position the same place. */
  lemma PosOfPrefix(ts: Layout, us: Layout, k: nat, off: nat)
    requires k <= |ts| && k <= |us| && ts[..k] == us[..k]
    ensures Pos(us, k, off) == Pos(ts, k, off)
  {
  }

  /** A replacement is a deletion followed by an insertion. */
  lemma SpliceTwice(t: seq<byte>, p: nat, del: nat, ins: seq<byte>)
    requires p + del <= |t|
    ensures |Splice(t, p, del, [])| == |t| - del
    ensures Splice(Splice(t, p, del, []), p, 0, ins) == Splice(t, p, del, ins)
  {
  }

  lemma SpliceSize(t: seq<byte>, p: nat, del: nat, ins: seq<byte>)
    requires p + del <= |t|
    ensures p <= |Splice(t, p, del, ins)|
  {
  }

  /**
   * Bytes come into a block that has room for them, is small or stays one line;
   * any other is split.
   */
  predicate TakenIn(ts: Layout, us: Layout, spot: (nat, nat), room: nat, buf: seq<byte>) {
    var (k, off) := spot;
    && k < |ts| && off <= |ts[k]|
    && var t := Splice(ts[k], off, 0, buf);
       us ==
         if |t| <= room || |t| <= BLOCK_EDIT_SIZE || (CountNl(ts[k]) <= 1 && MemChr(buf, NL, 0) < 0) then ts[k := t]
         else ts[..k] + Pack(t, 0) + ts[k + 1..]
  }

  class View {
    const buffer: Buffer
    const cursor: BlockIter
    /** The cached line start states; null when the buffer has no syntax. */
    const states: StateArray?
    var cy: nat
    ghost var Repr: set<object>

    ghost function Cache(): set<object>
      reads states
    {
      if states == null then {} else var s: StateArray := states; {s, s.ptrs}
    }

    ghost function Text(): seq<byte>
      reads buffer
    {
      buffer.Text()
    }

    /** Nothing the view writes to lies inside the block list. */
    ghost predicate Apart()
      reads this, buffer, states
    {
      && cursor.buffer == buffer
      && cursor !in buffer.Repr && this !in buffer.Repr
      && (states != null ==> states !in buffer.Repr && states.ptrs !in buffer.Repr)
    }

    ghost predicate CacheValid()
      reads this, buffer, states, Cache()
    {
      states != null ==> states.Valid() && states.ConsistentWith(Text())
    }

    ghost predicate Valid()
      reads this, Repr
    {
      && this in Repr && cursor in Repr && buffer in Repr && buffer.Repr <= Repr
      && (states != null ==> states in Repr && states.ptrs in Repr)
      && Apart()
      && cursor.Valid() && cursor.At() <= |Text()|
      && CacheValid()
    }

    /** The flat offset of the cursor. */
    ghost function At(): (p: nat)
      requires Valid()
      reads this, Repr
      ensures p <= |Text()|
    {
      cursor.At()
    }

    /** Takes in what the block list and the cache have grown by. */
    ghost method GrowRepr()
      modifies this`Repr
      ensures Repr == old(Repr) + {this, cursor, buffer} + buffer.Repr + Cache()
    {
      var own: set<object> := {this, cursor, buffer};
      Repr := Repr + own + buffer.Repr + Cache();
    }

    /** Opens a view at the beginning of `buffer`. */
    constructor (buffer: Buffer, states: StateArray?)
      requires buffer.Valid()
      requires states != null ==>
        && states.Valid() && states.ConsistentWith(buffer.Text())
        && states !in buffer.Repr && states.ptrs !in buffer.Repr
      ensures Valid() && fresh(cursor) && At() == 0 && cy == 0
      ensures this.buffer == buffer && this.states == states
    {
      hide CountNl, Flat, WholeLines, StateArray.Valid, StateArray.ConsistentWith;
      this.buffer, this.states := buffer, states;
      cursor := new BlockIter(buffer);
      cy := 0;
      new;
      PosBound(buffer.texts, 0, 0);
      GrowRepr();
    }

    /** Makes a block of `size` bytes of the three pieces and links it in as block `k`. */
    method LinkBlock(buf1: seq<byte>, buf2: seq<byte>, buf3: seq<byte>, start: nat, size: nat, k: nat)
      returns (nl: nat)
      requires Apart() && buffer.Sound() && k <= |buffer.blocks|
      requires 0 < size && start + size <= |buf1| + |buf2| + |buf3|
      modifies buffer`blocks, buffer`texts, buffer`Repr
      ensures Apart() && buffer.Sound() && fresh(buffer.Repr - old(buffer.Repr))
      ensures var text := (buf1 + buf2 + buf3)[start..start + size];
        && nl == CountNl(text)
        && buffer.texts == old(buffer.texts)[..k] + [text] + old(buffer.texts)[k..]
    {
      hide CountNl;
      var b := NewBlock(buf1, buf2, buf3, start, size);
      buffer.InsertBefore(k, b);
      nl := b.nl;
    }

    /** One more of the blocks that a text is packed into. */
    method LinkNext(buf1: seq<byte>, buf2: seq<byte>, buf3: seq<byte>, start: nat, size: nat, at: nat,
                    ghost ts: Layout, ghost k: nat, ghost mt: Layout)
      returns (nl: nat)
      requires Apart() && buffer.Sound() && k <= |ts| && at == k + |mt|
      requires buffer.texts == ts[..k] + mt + ts[k..]
      requires var t := buf1 + buf2 + buf3;
        && start < |t| && 0 < size && start + size == BlockEnd(t, start, start)
        && mt + Pack(t, start) == Pack(t, 0)
      modifies buffer`blocks, buffer`texts, buffer`Repr
      ensures Apart() && buffer.Sound() && fresh(buffer.Repr - old(buffer.Repr))
      ensures var t := buf1 + buf2 + buf3; var next := mt + [t[start..start + size]];
        && buffer.texts == ts[..k] + next + ts[k..] && next + Pack(t, start + size) == Pack(t, 0)
        && CountNl(t[..start + size]) == CountNl(t[..start]) + nl
    {
      hide CountNl, LineEnd, Pack, BlockEnd;
      ghost var t := buf1 + buf2 + buf3;
      nl := LinkBlock(buf1, buf2, buf3, start, size, at);
      InsertMiddle(ts[..k], mt, ts[k..], t[start..start + size]);
      PackStep(t, start, mt);
      CountNlSlice(t, start, start + size);
    }

    /**
     * Combines the current block and `buf` into blocks of whole lines, which
     * are linked in before the current block; returns how many there are.
     */
    method SplitBlock(buf: seq<byte>) returns (made: nat, added: nat)
      requires Apart() && cursor.Valid() && buf != []
      modifies buffer.Repr
      ensures Apart() && buffer.Sound() && fresh(buffer.Repr - old(buffer.Repr)) && buffer.nl == old(buffer.nl)
      ensures var k, ts := cursor.blk, old(buffer.texts);
        var t := Splice(ts[k], cursor.offset, 0, buf);
        && made == |Pack(t, 0)| && added == CountNl(t)
        && buffer.texts == ts[..k] + Pack(t, 0) + ts[k..]
    {
      hide CountNl, LineEnd, Flat, WholeLines, Pack, BlockEnd, Splice;
      ghost var ts := buffer.texts;
      var k := cursor.blk;
      var blk := buffer.blocks[k];
      var buf1, buf3 := blk.Slice(0, cursor.offset), blk.Slice(cursor.offset, blk.size);
      SpliceIsPieces(ts[k], cursor.offset, buf);
      made, added := SplitPieces(buf1, buf, buf3, k);
    }

    /** Links the blocks that three pieces of text are packed into in before block `k`. */
    method SplitPieces(buf1: seq<byte>, buf2: seq<byte>, buf3: seq<byte>, k: nat) returns (made: nat, added: nat)
      requires Apart() && buffer.Sound() && k <= |buffer.blocks|
      modifies buffer`blocks, buffer`texts, buffer`Repr
      ensures Apart() && buffer.Sound() && fresh(buffer.Repr - old(buffer.Repr))
      ensures var t := buf1 + buf2 + buf3;
        && made == |Pack(t, 0)| && added == CountNl(t)
        && buffer.texts == old(buffer.texts)[..k] + Pack(t, 0) + old(buffer.texts)[k..]
    {
      hide CountNl, LineEnd, Pack, BlockEnd;
      ghost var ts := buffer.texts;
      var total := |buf1| + |buf2| + |buf3|;
      ghost var t := buf1 + buf2 + buf3;
      var start: nat, size: nat, pos: nat := 0, 0, 0;
      made, added := 0, 0;
      ghost var mt: Layout := [];
      NothingPacked(ts, k, t);
      while start < total
        invariant Apart() && buffer.Sound() && fresh(buffer.Repr - old(buffer.Repr))
        invariant start <= pos <= total && size == pos - start && (start < total ==> pos < total)
        invariant |mt| == made && buffer.texts == ts[..k] + mt + ts[k..]
        invariant mt + Pack(t, start) == Pack(t, 0)
        invariant start < total ==> BlockEnd(t, start, pos) == BlockEnd(t, start, start)
        invariant added == CountNl(t[..start])
        decreases total - start, total - pos
      {
        BlockEndStep(t, start, pos);
        var newSize := FindLineEnd(buf1, buf2, buf3, pos) - start;
        if newSize <= BLOCK_EDIT_SIZE {
          size := newSize;
          pos := start + newSize;
          if pos < total {
            continue;
          }
        } else if size == 0 {
          size := newSize;
          pos := start + newSize;
        }
        var nl := LinkNext(buf1, buf2, buf3, start, size, k + made, ts, k, mt);
        mt := mt + [t[start..start + size]];
        made, added, start, size := made + 1, added + nl, start + size, 0;
      }
      AllPacked(t, mt);
    }

    /** Replaces the current block by the packed blocks; the cursor keeps its place in the text. */
    method SplitAndInsert(buf: seq<byte>) returns (added: nat)
      requires Apart() && cursor.Valid() && buf != []
      modifies buffer.Repr, cursor
      ensures Apart() && buffer.Sound() && fresh(buffer.Repr - old(buffer.Repr)) && buffer.nl == old(buffer.nl)
      ensures var k, ts := old(cursor.blk), old(buffer.texts);
        var t := Splice(ts[k], old(cursor.offset), 0, buf);
        buffer.texts == ts[..k] + Pack(t, 0) + ts[k + 1..]
      ensures cursor.blk < |buffer.blocks| && cursor.offset <= buffer.blocks[cursor.blk].size
      ensures cursor.At() == old(cursor.At())
      ensures added == CountNl(buf)
    {
      hide CountNl, Flat, WholeLines, Pack, Splice;
      ghost var ts := buffer.texts;
      ghost var k, off := cursor.blk, cursor.offset;
      var blkNl := buffer.blocks[cursor.blk].nl;
      ghost var t := Splice(ts[k], off, 0, buf);
      ghost var ps := Pack(t, 0);
      var made, total := SplitBlock(buf);
      var last := cursor.blk + made;
      PackCovers(ts[k], off, buf);
      SpliceCount(ts[k], off, 0, buf);
      FindPlace(ts, k, ps);
      added := total - blkNl;
      buffer.Remove(last);
      PosInside(ts[..k], ps, ts[k + 1..], cursor.blk - k, cursor.offset);
    }

    /** Moves the cursor on until its offset lies in its block. */
    method FindPlace(ghost ts: Layout, ghost k: nat, ghost ps: Layout)
      requires Apart() && buffer.Sound() && k <= |ts| && cursor.blk == k && ps != []
      requires buffer.texts == ts[..k] + ps + ts[k..] && cursor.offset <= |Flat(ps)|
      modifies cursor
      ensures Apart() && buffer.Sound()
      ensures k <= cursor.blk < k + |ps| && cursor.offset <= buffer.blocks[cursor.blk].size
      ensures Pos(ps, cursor.blk - k, cursor.offset) == old(cursor.offset)
    {
      hide Flat;
      PosOrigin(ps);
      ghost var off := cursor.offset;
      while cursor.offset > buffer.blocks[cursor.blk].size
        invariant k <= cursor.blk < k + |ps|
        invariant Pos(ps, cursor.blk - k, cursor.offset) == off
        invariant Apart() && buffer.Sound() && buffer.texts == ts[..k] + ps + ts[k..]
        decreases k + |ps| - cursor.blk
        modifies cursor
      {
        PosBound(ps, cursor.blk - k, 0);
        cursor.offset := cursor.offset - buffer.blocks[cursor.blk].size;
        cursor.blk := cursor.blk + 1;
      }
    }

    /** insert_to_current: the text goes into the current block. */
    method InsertToCurrent(buf: seq<byte>) returns (added: nat)
      requires Apart() && buffer.Sound()
      requires cursor.blk < |buffer.blocks| && cursor.offset <= buffer.blocks[cursor.blk].size
      modifies buffer.Repr
      ensures Apart() && buffer.Sound() && fresh(buffer.Repr - old(buffer.Repr))
      ensures buffer.blocks == old(buffer.blocks) && buffer.nl == old(buffer.nl)
      ensures var ts, k := old(buffer.texts), cursor.blk;
        buffer.texts == ts[k := Splice(ts[k], cursor.offset, 0, buf)]
      ensures added == CountNl(buf)
    {
      added := buffer.InsertInBlock(cursor.blk, cursor.offset, buf);
    }

    /** Inserts `buf` into the block list; the buffer's own newline count is left to the caller. */
    method InsertBytes(buf: seq<byte>) returns (added: nat)
      requires Apart() && cursor.Valid() && buf != []
      requires cursor.At() <= |Text()| && Terminated(Splice(Text(), cursor.At(), 0, buf))
      modifies buffer.Repr, cursor
      ensures Apart() && buffer.Sound() && fresh(buffer.Repr - old(buffer.Repr)) && buffer.nl == old(buffer.nl)
      ensures WholeLines(buffer.texts)
      ensures cursor.blk < |buffer.blocks| && cursor.offset <= buffer.blocks[cursor.blk].size
      ensures Text() == Splice(old(Text()), old(cursor.At()), 0, buf) && cursor.At() == old(cursor.At())
      ensures added == CountNl(buf)
      ensures TakenIn(old(buffer.texts), buffer.texts, old(cursor.Spot()),
        old(buffer.blocks[cursor.Spot().0].data.Length), buf)
    {
      hide CountNl, Flat, WholeLines, Terminated, Pack, Splice;
      cursor.Normalize();
      ghost var ts, k, off := buffer.texts, cursor.blk, cursor.offset;
      ghost var t := Splice(ts[k], off, 0, buf);
      InsertedBlock(ts, k, off, 0, buf);
      SpliceNonEmpty(ts[k], off, buf);
      PackedBlock(ts, k, t);
      PosOfUpdate(ts, k, t, off);
      var blk := buffer.blocks[cursor.blk];
      var newSize := blk.size + |buf|;
      assert blk.Text() == ts[k] && blk.nl == CountNl(ts[k]) && |t| == newSize;
      if newSize <= blk.data.Length || newSize <= BLOCK_EDIT_SIZE {
        added := InsertToCurrent(buf);
      } else if blk.nl <= 1 && MemChr(buf, NL, 0) < 0 {
        added := InsertToCurrent(buf);
      } else {
        added := SplitAndInsert(buf);
      }
    }

    method UpdateCursorY()
      requires cursor.buffer == buffer && cursor.Valid() && this !in buffer.Repr
      modifies this`cy
      ensures cursor.At() <= |Text()| && cy == CountNl(Text()[..cursor.At()])
    {
      hide CountNl, Flat;
      ghost var ts := buffer.texts;
      var nl := 0;
      NoLinesBefore(ts);
      for k := 0 to cursor.blk
        invariant cursor.Valid() && nl == CountNl(Flat(ts[..k]))
      {
        FlatHead(ts, k);
        CountNlConcat(Flat(ts[..k]), ts[k]);
        nl := nl + buffer.blocks[k].nl;
      }
      PrefixAt(ts, cursor.blk, cursor.offset);
      cy := nl + CountNl(buffer.blocks[cursor.blk].Slice(0, cursor.offset));
    }

    /** Tells the cache that `nl` newlines came in at the cursor line. */
    method NotifyInsert(nl: nat, ghost t: seq<byte>, ghost p: nat, ghost ins: seq<byte>)
      requires Apart() && p <= |t| && cy == CountNl(t[..p]) && nl == CountNl(ins)
      requires Text() == Splice(t, p, 0, ins)
      requires states != null ==> states.Valid() && states.ConsistentWith(t)
      modifies Cache()
      ensures Apart() && CacheValid() && fresh(Cache() - old(Cache()))
    {
      hide CountNl, Splice;
      if states != null {
        ghost var e := states.Entries();
        states.HlInsert(cy, nl);
        InsertionKeepsConsistent(e, states.step, states.start, t, p, ins);
      }
    }

    /** Tells the cache that `nl` newlines went away at the cursor line. */
    method NotifyDelete(nl: nat, ghost t: seq<byte>, ghost p: nat, ghost del: nat)
      requires Apart() && p + del <= |t| && cy == CountNl(t[..p]) && nl == CountNl(t[p..p + del])
      requires states != null ==> states.Valid() && states.ConsistentWith(t)
      modifies Cache()
      ensures Apart() && fresh(Cache() - old(Cache()))
      ensures states != null ==> states.Valid() && states.ConsistentWith(Splice(t, p, del, []))
    {
      hide CountNl, Splice;
      if states != null {
        ghost var e := states.Entries();
        states.HlDelete(cy, nl);
        DeletionKeepsConsistent(e, states.step, states.start, t, p, del);
      }
    }

    /** Brings the buffer's own newline count up to date. */
    method SetNl(nl: nat)
      requires buffer.Sound() && WholeLines(buffer.texts) && nl == CountNl(Text())
      requires cursor.buffer == buffer && cursor !in buffer.Repr
      requires cursor.blk < |buffer.blocks| && cursor.offset <= buffer.blocks[cursor.blk].size
      modifies buffer`nl
      ensures cursor.Valid() && Text() == old(Text()) && cursor.At() == old(cursor.At())
    {
      buffer.nl := nl;
    }

    /** Inserts `buf` at the cursor, which stays in front of it. */
    method DoInsert(buf: seq<byte>)
      requires Valid() && buf != [] && Terminated(Splice(Text(), At(), 0, buf))
      modifies Repr
      ensures Valid() && fresh(Repr - old(Repr))
      ensures Text() == Splice(old(Text()), old(At()), 0, buf)
      ensures At() == old(At())
    {
      hide CountNl, Flat, WholeLines, Terminated, Splice, BlockIter.Spot, TakenIn;
      hide StateArray.Valid, StateArray.ConsistentWith;
      ghost var t, p := Text(), At();
      var nl := InsertBytes(buf);
      FinishInsert(nl, t, p, buf);
    }

    /** Brings everything else up to date with an insertion into the block list. */
    method FinishInsert(nl: nat, ghost t: seq<byte>, ghost p: nat, ghost buf: seq<byte>)
      requires Apart() && buffer.Sound() && WholeLines(buffer.texts)
      requires cursor.blk < |buffer.blocks| && cursor.offset <= buffer.blocks[cursor.blk].size
      requires p <= |t| && Text() == Splice(t, p, 0, buf) && cursor.At() == p
      requires nl == CountNl(buf) && buffer.nl == CountNl(t)
      requires states != null ==> states.Valid() && states.ConsistentWith(t)
      modifies buffer`nl, this`cy, this`Repr, Cache()
      ensures Valid() && Text() == old(Text()) && At() == p && buffer.Repr == old(buffer.Repr)
      ensures Repr == old(Repr) + {this, cursor, buffer} + buffer.Repr + Cache() && fresh(Cache() - old(Cache()))
    {
      hide CountNl, Flat, WholeLines, Terminated, Splice;
      hide Buffer.Sound, Buffer.Valid, BlockIter.Valid, StateArray.Valid, StateArray.ConsistentWith;
      SpliceCount(t, p, 0, buf);
      NoNewlineInNothing(t, p);
      SetNl(buffer.nl + nl);
      UpdateCursorY();
      SplicePrefix(t, p, 0, buf);
      NotifyInsert(nl, t, p, buf);
      GrowRepr();
    }

    /**
     * Takes `count` bytes at offset `off` out of block `i`, freeing the block
     * if that empties it and it is not the only one.
     */
    method TrimBlock(i: nat, off: nat, count: nat, dst: array<byte>, pos: nat) returns (next: nat, nl: nat)
      requires Apart() && buffer.Sound() && i < |buffer.blocks| && off + count <= buffer.blocks[i].size
      requires dst !in buffer.Repr && pos + count <= dst.Length
      requires CountNl(buffer.texts[i][off..off + count]) <= buffer.nl
      modifies buffer.Repr, dst
      ensures Apart() && buffer.Sound() && buffer.Repr == old(buffer.Repr)
      ensures buffer.texts == Trim(old(buffer.texts), i, off, count)
      ensures next == NextBlock(old(buffer.texts), i, off, count)
      ensures dst[..pos + count] == old(dst[..pos]) + old(buffer.texts)[i][off..off + count]
      ensures nl == CountNl(old(buffer.texts)[i][off..off + count]) && buffer.nl == old(buffer.nl) - nl
    {
      hide CountNl, Splice;
      var b := buffer.blocks[i];
      nl := buffer.DeleteInBlock(i, off, count, dst, pos);
      buffer.nl := buffer.nl - nl;
      next := i + 1;
      if b.size == 0 && !buffer.OnlyBlock() {
        buffer.Remove(i);
        next := i;
      }
    }

    /** Deletes `len` bytes block by block, starting at the cursor. */
    method TrimBlocks(len: nat) returns (deleted: seq<byte>, deletedNl: nat)
      requires Apart() && cursor.Valid() && Terminated(Text()) && 0 < len && cursor.At() + len <= |Text()|
      modifies buffer.Repr
      ensures Apart() && buffer.Sound() && buffer.Repr == old(buffer.Repr)
      ensures Trimmed(buffer.texts, cursor.blk, cursor.offset)
      ensures buffer.texts[..cursor.blk] == old(buffer.texts)[..cursor.blk]
      ensures Text() == Splice(old(Text()), old(cursor.At()), len, [])
      ensures deleted == old(Text())[old(cursor.At())..old(cursor.At()) + len]
      ensures deletedNl == CountNl(deleted) && buffer.nl == CountNl(Text())
    {
      hide CountNl, Splice, Flat, WholeLines, Terminated, Trim, Trimmed, NextBlock;
      ghost var t, p, k, off0 := Text(), cursor.At(), cursor.blk, cursor.offset;
      StartDeleting(t, len, buffer.texts, k, off0);
      var i, off := cursor.blk, cursor.offset;
      var out := new byte[len];
      var pos: nat := 0;
      deletedNl := 0;
      while pos < len
        invariant Apart() && buffer.Sound() && buffer.Repr == old(buffer.Repr) && out !in buffer.Repr
        invariant Deleting(t, p, len, pos, buffer.texts, k, off0, i, off)
        invariant k <= |buffer.texts| && buffer.texts[..k] == old(buffer.texts)[..k]
        invariant out[..pos] == t[p..p + pos]
        invariant buffer.nl == CountNl(Text()) && deletedNl == CountNl(t) - buffer.nl
        decreases len - pos, |buffer.texts| - i
      {
        var b := buffer.blocks[i];
        var avail := b.size - off;
        var count := if len - pos < avail then len - pos else avail;
        DeleteRound(t, p, len, pos, buffer.texts, k, off0, i, off, count);
        var nl := 0;
        i, nl := TrimBlock(i, off, count, out, pos);
        off, pos, deletedNl := 0, pos + count, deletedNl + nl;
      }
      assert out[..len] == out[..];
      deleted := out[..];
      SpliceCount(t, p, len, []);
      NoNewlines();
    }

    /** Puts the cursor back on a block and mends the line the deletion has cut. */
    method Mend()
      requires Apart() && buffer.Sound() && cursor.blk <= |buffer.texts|
      requires Trimmed(buffer.texts, cursor.blk, cursor.offset)
      modifies buffer.Repr, cursor
      ensures Apart() && buffer.Sound() && fresh(buffer.Repr - old(buffer.Repr)) && buffer.nl == old(buffer.nl)
      ensures WholeLines(buffer.texts) && Text() == old(Text())
      ensures cursor.blk < |buffer.blocks| && cursor.offset <= buffer.blocks[cursor.blk].size
      ensures cursor.At() == old(cursor.At())
    {
      hide Flat, CountNl;
      ghost var ts, k, off := buffer.texts, cursor.blk, cursor.offset;
      if cursor.offset == 0 && cursor.blk == |buffer.blocks| {
        PosBound(ts, k - 1, 0);
        cursor.blk := cursor.blk - 1;
        cursor.offset := buffer.blocks[cursor.blk].size;
        TrimDone(ts, k, off);
        return;
      }
      var b := buffer.blocks[cursor.blk];
      if b.size > 0 && b.data[b.size - 1] != NL && buffer.HasNext(cursor.blk) {
        TrimMerged(ts, k, off);
        buffer.MergeNext(cursor.blk);
      } else {
        TrimDone(ts, k, off);
      }
    }

    /** The text and the cursor without the deleted bytes. */
    method CutOut(len: nat) returns (deleted: seq<byte>, deletedNl: nat)
      requires Apart() && cursor.Valid() && Terminated(Text()) && 0 < len && cursor.At() + len <= |Text()|
      modifies buffer.Repr, cursor
      ensures Apart() && buffer.Sound() && WholeLines(buffer.texts) && fresh(buffer.Repr - old(buffer.Repr))
      ensures cursor.blk < |buffer.blocks| && cursor.offset <= buffer.blocks[cursor.blk].size
      ensures Text() == Splice(old(Text()), old(cursor.At()), len, []) && cursor.At() == old(cursor.At())
      ensures deleted == old(Text())[old(cursor.At())..old(cursor.At()) + len]
      ensures deletedNl == CountNl(deleted) && buffer.nl == CountNl(Text())
    {
      hide CountNl, Flat, WholeLines, Terminated, Splice, Trimmed, StateArray.Valid, StateArray.ConsistentWith;
      deleted, deletedNl := TrimBlocks(len);
      TrimmedBound(buffer.texts, cursor.blk, cursor.offset);
      PosOfPrefix(old(buffer.texts), buffer.texts, cursor.blk, cursor.offset);
      Mend();
    }

    /** Deletes the `len` bytes at the cursor and returns them. */
    method DoDelete(len: nat) returns (deleted: seq<byte>)
      requires Valid() && Terminated(Text()) && At() + len <= |Text()|
      modifies Repr
      ensures Valid() && fresh(Repr - old(Repr))
      ensures Text() == Splice(old(Text()), old(At()), len, [])
      ensures At() == old(At())
      ensures deleted == old(Text())[old(At())..old(At()) + len]
    {
      hide CountNl, Flat, WholeLines, Terminated, Splice, StateArray.Valid, StateArray.ConsistentWith;
      ghost var t, p := Text(), At();
      if len == 0 {
        SpliceNothing(t, p);
        return [];
      }
      var nl;
      deleted, nl := CutOut(len);
      FinishDelete(nl, t, p, len);
    }

    /** Brings everything else up to date with a deletion from the block list. */
    method FinishDelete(nl: nat, ghost t: seq<byte>, ghost p: nat, ghost len: nat)
      requires Apart() && cursor.Valid() && p + len <= |t|
      requires Text() == Splice(t, p, len, []) && cursor.At() == p && nl == CountNl(t[p..p + len])
      requires states != null ==> states.Valid() && states.ConsistentWith(t)
      modifies this`cy, this`Repr, Cache()
      ensures Valid() && Text() == old(Text()) && At() == p && buffer.Repr == old(buffer.Repr)
      ensures Repr == old(Repr) + {this, cursor, buffer} + buffer.Repr + Cache() && fresh(Cache() - old(Cache()))
    {
      hide CountNl, Flat, WholeLines, Terminated, Splice;
      hide Buffer.Sound, Buffer.Valid, BlockIter.Valid, StateArray.Valid, StateArray.ConsistentWith;
      UpdateCursorY();
      SplicePrefix(t, p, len, []);
      NotifyDelete(nl, t, p, len);
      GrowRepr();
    }

    /** Replaces the `del` bytes at the cursor by `buf`, in one block if that is enough. */
    method DoReplace(del: nat, buf: seq<byte>) returns (deleted: seq<byte>)
      requires Valid() && Terminated(Text()) && 0 < del && buf != [] && At() + del <= |Text()|
      requires Terminated(Splice(Text(), At(), del, buf))
      modifies Repr
      ensures Valid() && fresh(Repr - old(Repr))
      ensures Text() == Splice(old(Text()), old(At()), del, buf)
      ensures At() == old(At())
      ensures deleted == old(Text())[old(At())..old(At()) + del]
    {
      hide CountNl, Flat, WholeLines, Terminated, Splice;
      cursor.Normalize();
      var b, offset := buffer.blocks[cursor.blk], cursor.offset;
      var avail := b.size - offset;
      SpliceTwice(Text(), At(), del, buf);
      if del < avail {
        var newSize := b.size + |buf| - del;
        if newSize <= BLOCK_EDIT_SIZE || !(b.nl > 1 || MemChr(buf, NL, 0) >= 0) {
          deleted := ReplaceInCurrent(del, buf);
          return;
        }
      }
      deleted := DoDelete(del);
      DoInsert(buf);
    }

    /** Replaces bytes inside the current block; the buffer's own newline count is left to the caller. */
    method ReplaceBytes(del: nat, buf: seq<byte>) returns (deleted: seq<byte>, delNl: nat, insNl: nat)
      requires Apart() && cursor.Valid() && buf != [] && cursor.offset + del < buffer.blocks[cursor.blk].size
      requires cursor.At() + del <= |Text()| && Terminated(Splice(Text(), cursor.At(), del, buf))
      modifies buffer.Repr
      ensures Apart() && buffer.Sound() && fresh(buffer.Repr - old(buffer.Repr)) && buffer.nl == old(buffer.nl)
      ensures WholeLines(buffer.texts)
      ensures cursor.blk < |buffer.blocks| && cursor.offset <= buffer.blocks[cursor.blk].size
      ensures Text() == Splice(old(Text()), old(cursor.At()), del, buf) && cursor.At() == old(cursor.At())
      ensures deleted == old(Text())[old(cursor.At())..old(cursor.At()) + del]
      ensures delNl == CountNl(deleted) && insNl == CountNl(buf)
    {
      hide CountNl, Flat, WholeLines, Terminated, Splice;
      ghost var ts, k, off := buffer.texts, cursor.blk, cursor.offset;
      InsertedBlock(ts, k, off, del, buf);
      PosOfUpdate(ts, k, Splice(ts[k], off, del, buf), off);
      InBlock(ts, k, off, off + del);
      SpliceSize(ts[k], off, del, buf);
      deleted, delNl, insNl := buffer.ReplaceInBlock(cursor.blk, cursor.offset, del, buf);
    }

    /** The modification is limited to one block. */
    method ReplaceInCurrent(del: nat, buf: seq<byte>) returns (deleted: seq<byte>)
      requires Valid() && buf != [] && cursor.offset + del < buffer.blocks[cursor.blk].size
      requires At() + del <= |Text()| && Terminated(Splice(Text(), At(), del, buf))
      modifies Repr
      ensures Valid() && fresh(Repr - old(Repr))
      ensures Text() == Splice(old(Text()), old(At()), del, buf)
      ensures At() == old(At())
      ensures deleted == old(Text())[old(At())..old(At()) + del]
    {
      hide CountNl, Flat, WholeLines, Terminated, Splice;
      ghost var t, p := Text(), At();
      var delNl, insNl;
      deleted, delNl, insNl := ReplaceBytes(del, buf);
      FinishReplace(delNl, insNl, t, p, del, buf);
    }

    /** Brings everything else up to date with a replacement in the block list. */
    method FinishReplace(delNl: nat, insNl: nat, ghost t: seq<byte>, ghost p: nat, ghost del: nat, ghost buf: seq<byte>)
      requires Apart() && buffer.Sound() && WholeLines(buffer.texts)
      requires cursor.blk < |buffer.blocks| && cursor.offset <= buffer.blocks[cursor.blk].size
      requires p + del <= |t| && Text() == Splice(t, p, del, buf) && cursor.At() == p
      requires delNl == CountNl(t[p..p + del]) && insNl == CountNl(buf) && buffer.nl == CountNl(t)
      requires states != null ==> states.Valid() && states.ConsistentWith(t)
      modifies buffer`nl, this`cy, this`Repr, Cache()
      ensures Valid() && Text() == old(Text()) && At() == p && buffer.Repr == old(buffer.Repr)
      ensures Repr == old(Repr) + {this, cursor, buffer} + buffer.Repr + Cache() && fresh(Cache() - old(Cache()))
    {
      hide CountNl, Flat, WholeLines, Terminated, Splice;
      hide Buffer.Sound, Buffer.Valid, BlockIter.Valid, StateArray.Valid, StateArray.ConsistentWith;
      SpliceCount(t, p, del, buf);
      SetNl(buffer.nl - delNl + insNl);
      UpdateCursorY();
      SplicePrefix(t, p, del, buf);
      NotifyReplace(delNl, insNl, t, p, del, buf);
      GrowRepr();
    }

    /** A replacement is told to the cache as a deletion followed by an insertion. */
    method NotifyReplace(delNl: nat, insNl: nat, ghost t: seq<byte>, ghost p: nat, ghost del: nat, ghost ins: seq<byte>)
      requires Apart() && p + del <= |t| && cy == CountNl(t[..p])
      requires delNl == CountNl(t[p..p + del]) && insNl == CountNl(ins)
      requires Text() == Splice(t, p, del, ins)
      requires states != null ==> states.Valid() && states.ConsistentWith(t)
      modifies Cache()
      ensures Apart() && CacheValid() && fresh(Cache() - old(Cache()))
    {
      hide CountNl, Splice;
      SplicePrefix(t, p, del, []);
      SpliceTwice(t, p, del, ins);
      NotifyDelete(delNl, t, p, del);
      NotifyInsert(insNl, Splice(t, p, del, []), p, ins);
    }

    /** Moves the cursor forward. */
    method MoveCursor(count: nat)
      requires Valid() && At() + count <= |Text()|
      modifies Repr
      ensures Valid() && Repr == old(Repr)
      ensures Text() == old(Text()) && At() == old(At()) + count
    {
      hide CountNl, Flat, WholeLines;
      cursor.SkipBytes(count);
    }

    /** Moves the cursor to a flat offset. */
    method Goto(offset: nat)
      requires Valid() && offset <= |Text()|
      modifies Repr
      ensures Valid() && Repr == old(Repr)
      ensures Text() == old(Text()) && At() == offset
    {
      hide CountNl, Flat, WholeLines;
      cursor.GotoOffset(offset);
    }

    method GetOffset() returns (offset: nat)
      requires Valid()
      ensures offset == At()
    {
      offset := cursor.GetOffset();
    }

    predicate AtEof()
      requires Valid()
      reads this, Repr
      ensures AtEof() <==> At() == |Text()|
    {
      cursor.IsEof()
    }

    /** Whether deleting `count` bytes would take the text's last bytes. */
    method WouldDeleteLastBytes(count: nat) returns (r: bool)
      requires Valid()
      ensures r <==> |Text()| <= At() + count
    {
      var bi := new BlockIter.Copy(cursor);
      r := bi.ReachesEnd(count);
    }

    /** Whether there is a byte before the cursor that is not a newline. */
    method NoNewlineBefore() returns (r: bool)
      requires Valid()
      ensures r <==> At() > 0 && Text()[At() - 1] != NL
    {
      var bi := new BlockIter.Copy(cursor);
      var ok, ch := bi.PrevByte();
      r := ok && ch != NL;
    }

    /** Moves the cursor back. */
    method BackCursor(count: nat)
      requires Valid() && count <= At()
      modifies Repr
      ensures Valid() && Repr == old(Repr)
      ensures Text() == old(Text()) && At() == old(At()) - count
    {
      hide CountNl, Flat, WholeLines;
      cursor.BackBytes(count);
    }

    /** The number of bytes in the buffer. */
    method TextSize() returns (n: nat)
      requires Valid()
      ensures n == |Text()|
    {
      hide Flat, CountNl;
      ghost var ts := buffer.texts;
      PosOrigin(ts);
      n := 0;
      for k := 0 to |buffer.blocks|
        invariant n == Pos(ts, k, 0)
      {
        PosBound(ts, k, 0);
        n := n + buffer.blocks[k].size;
      }
      assert ts[..|ts|] == ts;
    }

    /** The `n` bytes in front of the cursor. */
    method BytesBefore(n: nat) returns (bytes: seq<byte>)
      requires Valid() && n <= At()
      ensures bytes == Text()[At() - n..At()]
    {
      var bi := new BlockIter.Copy(cursor);
      bi.BackBytes(n);
      bytes := bi.GetBytes(n);
    }

    /**
     * Draws `count` lines from line `first` on, or as many as there are, and
     * returns the syntax state each of them was highlighted from: the one
     * that recomputing the text from its beginning gives.
     */
    method DrawLines(first: nat, count: nat) returns (used: seq<State>)
      requires Valid() && Terminated(Text()) && states != null
      modifies Repr
      ensures Valid() && fresh(Repr - old(Repr))
      ensures Text() == old(Text()) && At() == old(At())
      ensures |used| <= count
      ensures |used| == count || LineStart(Text(), first + |used|) == |Text()|
      ensures used != [] ==> LineStart(Text(), first + |used| - 1) < |Text()|
      ensures forall i :: 0 <= i < |used| ==>
        used[i] == StateAt(states.step, states.start, Text(), first + i)
    {
      used := states.DrawLines(buffer, first, count);
      GrowRepr();
    }
  }
}
