/** What an undo record says about two texts, and how consecutive records merge. */
module Records {
  import opened Bytes

  /** The kind of typed edits that go into one record. */
  datatype Merge = MergeNone | MergeInsert | MergeDelete | MergeErase

  /**
   * `from` becomes `to` by replacing `del` bytes at `offset`, which were
   * `buf`, by `ins` bytes, which need not be saved.
   */
  predicate Edge(from: seq<byte>, to: seq<byte>, offset: nat, del: nat, ins: nat, buf: seq<byte>) {
    && |buf| == del
    && offset + del <= |from| && from[offset..offset + del] == buf
    && offset + ins <= |to| && to == Splice(from, offset, del, to[offset..offset + ins])
  }

  /** A record read backwards is a record: this is what makes undo and redo one operation. */
  lemma EdgeReverse(from: seq<byte>, to: seq<byte>, offset: nat, del: nat, ins: nat, buf: seq<byte>)
    requires Edge(from, to, offset, del, ins, buf)
    ensures from == Splice(to, offset, ins, buf)
    ensures Edge(to, from, offset, ins, del, to[offset..offset + ins])
  {
    assert from == from[..offset] + buf + from[offset + del..];
    assert to[..offset] == from[..offset];
    assert to[offset + ins..] == from[offset + del..];
  }

  lemma EdgeBounds(from: seq<byte>, to: seq<byte>, offset: nat, del: nat, ins: nat, buf: seq<byte>)
    requires Edge(from, to, offset, del, ins, buf)
    ensures offset <= |to| && offset + ins <= |to| && |buf| == del
    ensures |from| == |to| - ins + del
    ensures ins == 0 ==> to[offset..offset + ins] == []
    ensures buf == [] <==> del == 0
  {
  }

  /** A record without any bytes in it leaves the text as it is. */
  lemma EmptyEdge(t: seq<byte>, u: seq<byte>, offset: nat)
    ensures Edge(t, t, 0, 0, 0, [])
    ensures Edge(t, u, offset, 0, 0, []) ==> t == u
  {
    assert t == t[..0] + t[0..0] + t[0 + 0..];
  }

  lemma EmptySlice(t: seq<byte>, p: nat)
    requires p <= |t|
    ensures t[p..p + 0] == []
  {
  }

  lemma EdgeOfSplice(t: seq<byte>, p: nat, del: nat, ins: seq<byte>)
    requires p + del <= |t|
    ensures Edge(t, Splice(t, p, del, ins), p, del, |ins|, t[p..p + del])
  {
    assert Splice(t, p, del, ins)[p..p + |ins|] == ins;
  }

  /** An insertion inside of what the record inserted extends the record. */
  lemma InsertionExtends(from: seq<byte>, to: seq<byte>, offset: nat, n: nat, p: nat, s: seq<byte>)
    requires Edge(from, to, offset, 0, n, []) && offset <= p <= offset + n
    ensures Edge(from, Splice(to, p, 0, s), offset, 0, n + |s|, [])
  {
    var to' := Splice(to, p, 0, s);
    assert to[..offset] == from[..offset] && to[offset + n..] == from[offset..];
    assert to'[..offset] == from[..offset];
    assert to'[offset + n + |s|..] == to[offset + n..];
    assert to' == to'[..offset] + to'[offset..offset + n + |s|] + to'[offset + n + |s|..];
  }

  /** A deletion at the place of a deletion record extends the record at its end. */
  lemma DeletionExtends(from: seq<byte>, to: seq<byte>, offset: nat, buf: seq<byte>, n: nat)
    requires Edge(from, to, offset, |buf|, 0, buf) && offset + n <= |to|
    ensures Edge(from, Splice(to, offset, n, []), offset, |buf| + n, 0, buf + to[offset..offset + n])
  {
    assert to[..offset] == from[..offset] && to[offset..] == from[offset + |buf|..];
    var more := to[offset..offset + n];
    assert more == from[offset + |buf|..offset + |buf| + n];
    assert from[offset..offset + |buf| + n] == buf + more;
    var to' := Splice(to, offset, n, []);
    assert to[offset + n..] == from[offset + |buf| + n..];
    assert to' == Splice(from, offset, |buf| + n, []);
    assert to'[offset..offset + 0] == [];
  }

  /** A deletion just in front of a deletion record extends the record at its beginning. */
  lemma ErasureExtends(from: seq<byte>, to: seq<byte>, offset: nat, buf: seq<byte>, n: nat)
    requires Edge(from, to, offset, |buf|, 0, buf) && n <= offset <= |to|
    ensures Edge(from, Splice(to, offset - n, n, []), offset - n, |buf| + n, 0, to[offset - n..offset] + buf)
  {
    assert to[..offset] == from[..offset] && to[offset..] == from[offset + |buf|..];
    var p, more := offset - n, to[offset - n..offset];
    assert more == from[p..offset];
    assert from[p..offset + |buf|] == more + buf;
    var to' := Splice(to, p, n, []);
    assert to[..p] == from[..p];
    assert to' == Splice(from, p, |buf| + n, []);
    assert to'[p..p + 0] == [];
  }

  /** Every buffer text is empty or ends in a newline; a final newline is added where one is missing. */
  function WithFinalNewline(t: seq<byte>): (r: seq<byte>)
    ensures Terminated(r)
  {
    if Terminated(t) then t else t + [NL]
  }

  /** Replacing all but the final newline is replacing everything and putting a newline back. */
  lemma KeepFinalNewline(t: seq<byte>, p: nat, del: nat, ins: seq<byte>)
    requires Terminated(t) && 0 < del && p + del == |t|
    requires !Terminated(Splice(t, p, del, ins))
    ensures Splice(t, p, del - 1, ins) == WithFinalNewline(Splice(t, p, del, ins))
  {
    assert t[p + del - 1..] == [NL];
  }

  /** An edit that stops short of the end keeps the final newline. */
  lemma EditShortOfEnd(t: seq<byte>, p: nat, del: nat, ins: seq<byte>)
    requires Terminated(t) && p + del < |t|
    ensures Terminated(Splice(t, p, del, ins))
  {
    var u := Splice(t, p, del, ins);
    assert u[|u| - 1] == t[|t| - 1];
  }

  /** An insertion needs a newline of its own exactly at the end of the text. */
  lemma InsertionEnds(t: seq<byte>, p: nat, ins: seq<byte>)
    requires Terminated(t) && p <= |t| && ins != []
    ensures Terminated(Splice(t, p, 0, ins)) <==> p < |t| || ins[|ins| - 1] == NL
    ensures p == |t| ==> Terminated(Splice(t, p, 0, [NL])) && Splice(t, p, 0, [NL]) == t + [NL]
    ensures p == |t| ==> Terminated(Splice(t + [NL], p, 0, ins))
    ensures p == |t| ==> Splice(t + [NL], p, 0, ins) == Splice(t, p, 0, ins) + [NL] == Splice(t, p, 0, ins + [NL])
  {
    var u := Splice(t, p, 0, ins);
    assert p < |t| ==> u[|u| - 1] == t[|t| - 1];
    if p == |t| {
      assert u == t + ins;
      assert (t + [NL])[p..] == [NL];
    }
  }

  /** A deletion cuts a line short exactly when it reaches the end from inside of a line. */
  lemma DeletionEnds(t: seq<byte>, p: nat, n: nat)
    requires Terminated(t) && 0 < n && p + n <= |t|
    ensures !Terminated(Splice(t, p, n, [])) <==> p + n == |t| && p > 0 && t[p - 1] != NL
    ensures !Terminated(Splice(t, p, n, [])) ==>
      Splice(t, p, n - 1, []) == WithFinalNewline(Splice(t, p, n, []))
    ensures !Terminated(Splice(t, p, n, [])) && n == 1 ==> WithFinalNewline(Splice(t, p, n, [])) == t
  {
    if p + n < |t| {
      EditShortOfEnd(t, p, n, []);
    } else {
      assert Splice(t, p, n, []) == t[..p];
      if !Terminated(t[..p]) {
        KeepFinalNewline(t, p, n, []);
        assert n == 1 ==> Splice(t, p, 0, []) == t;
      }
    }
  }

  /**
   * An erasure of several bytes that has to leave the final newline, taken into
   * a record of an erasure behind it, is recorded a byte too late; that is
   * still right only if nothing but newlines is erased.
   */
  lemma ErasureFallsShort(from: seq<byte>, t: seq<byte>, p: nat, n: nat, buf: seq<byte>)
    requires Terminated(t) && 0 < p && p + n + 1 == |t| && t[p - 1] != NL && Edge(from, t, |t|, |buf|, 0, buf)
    ensures Edge(from, Splice(t, p, n, []), |t| - n, |buf| + n, 0, t[p..p + n] + buf)
      <==> forall i :: p <= i < p + n ==> t[i] == NL
  {
    var x, u := t[p..p + n], Splice(t, p, n, []);
    assert u == t[..p] + [NL];
    assert from == t + buf;
    var gone := from[p + 1..p + 1 + |buf| + n];
    assert gone == t[p + 1..] + buf;
    if forall i :: p <= i < p + n ==> t[i] == NL {
      assert t[p + 1..] == x;
      assert from[..p + 1] == u;
      assert u == Splice(from, p + 1, |buf| + n, []);
    } else if Edge(from, u, p + 1, |buf| + n, 0, x + buf) {
      SameRest(t[p + 1..], x, buf);
      assert u[p] == from[p] == t[p];
      AllNewlines(t, p, n);
    }
  }

  lemma SameRest(a: seq<byte>, b: seq<byte>, c: seq<byte>)
    requires a + c == b + c && |a| == |b|
    ensures a == b
  {
    assert a == (a + c)[..|a|] && b == (b + c)[..|b|];
  }

  lemma {:induction false} AllNewlines(t: seq<byte>, p: nat, n: nat)
    requires p + n < |t| && t[p] == NL && t[p + 1..p + 1 + n] == t[p..p + n]
    ensures forall i :: p <= i < p + n ==> t[i] == NL
    decreases n
  {
    if n > 0 {
      assert t[p + 1..p + 1 + n][0] == t[p..p + n][0];
      assert t[p + 1..p + 1 + n][1..] == t[p + 2..p + 1 + n] && t[p..p + n][1..] == t[p + 1..p + n];
      AllNewlines(t, p + 1, n - 1);
    }
  }

  /** A replacement does when it reaches the end and does not end in a newline itself. */
  lemma ReplacementEnds(t: seq<byte>, p: nat, del: nat, ins: seq<byte>)
    requires Terminated(t) && 0 < del && p + del <= |t| && ins != []
    ensures !Terminated(Splice(t, p, del, ins)) <==> p + del == |t| && ins[|ins| - 1] != NL
    ensures !Terminated(Splice(t, p, del, ins)) ==>
      Splice(t, p, del - 1, ins) == WithFinalNewline(Splice(t, p, del, ins))
    ensures !Terminated(Splice(t, p, del, ins)) ==> Terminated(Splice(t, p, del - 1, ins))
  {
    if p + del < |t| {
      EditShortOfEnd(t, p, del, ins);
    } else {
      assert Splice(t, p, del, ins) == t[..p] + ins;
      if ins[|ins| - 1] != NL {
        KeepFinalNewline(t, p, del, ins);
      }
    }
  }

  lemma NothingInserted(t: seq<byte>, p: nat, s: seq<byte>)
    requires Terminated(t) && p <= |t| && s == []
    ensures WithFinalNewline(Splice(t, p, 0, s)) == t
  {
    assert Splice(t, p, 0, s) == t;
  }

  lemma DeletionShrinks(t: seq<byte>, p: nat, n: nat)
    requires p + n <= |t| && 0 < n
    ensures |Splice(t, p, n, [])| == |t| - n && |t[p..p + n]| == n
  {
  }

  lemma ReplacementSize(t: seq<byte>, p: nat, del: nat, ins: seq<byte>)
    requires p + del <= |t|
    ensures p + |ins| <= |WithFinalNewline(Splice(t, p, del, ins))|
  {
  }
}
