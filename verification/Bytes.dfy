/** Bytes, newlines and lines: the vocabulary every other module speaks in. */
module Bytes {
  newtype byte = x: int | 0 <= x < 256

  const NL: byte := 10

  /** How many newline bytes `s` holds. */
  function CountNl(s: seq<byte>): (n: nat)
    ensures n <= |s|
  {
    if s == [] then 0
    else CountNl(s[..|s| - 1]) + if s[|s| - 1] == NL then 1 else 0
  }

  lemma NoNewlines()
    ensures CountNl([]) == 0
  {
  }

  lemma {:induction false} CountNlConcat(a: seq<byte>, b: seq<byte>)
    ensures CountNl(a + b) == CountNl(a) + CountNl(b)
  {
    if b == [] {
      assert a + b == a;
    } else {
      var k := |b| - 1;
      assert (a + b)[..|a + b| - 1] == a + b[..k];
      CountNlConcat(a, b[..k]);
    }
  }

  lemma CountNlSplit(t: seq<byte>, p: nat)
    requires p <= |t|
    ensures CountNl(t) == CountNl(t[..p]) + CountNl(t[p..])
  {
    assert t == t[..p] + t[p..];
    CountNlConcat(t[..p], t[p..]);
  }

  lemma CountNlSlice(t: seq<byte>, p: nat, q: nat)
    requires p <= q <= |t|
    ensures CountNl(t[..q]) == CountNl(t[..p]) + CountNl(t[p..q])
  {
    assert t[..q] == t[..p] + t[p..q];
    CountNlConcat(t[..p], t[p..q]);
  }

  lemma {:induction false} CountNlZero(s: seq<byte>)
    ensures CountNl(s) == 0 <==> NL !in s
  {
    if s != [] {
      CountNlZero(s[..|s| - 1]);
      assert s == s[..|s| - 1] + [s[|s| - 1]];
    }
  }

  lemma CountNlEndsWith(t: seq<byte>, p: nat, q: nat)
    requires p <= q <= |t|
    ensures p < q && t[q - 1] == NL ==> CountNl(t[p..q]) > 0
  {
  }

  /** A run of whole lines: empty, or ending in a newline. */
  predicate Terminated(s: seq<byte>) {
    s == [] || s[|s| - 1] == NL
  }

  /** The flat edit: at `p`, `del` bytes give way to `ins`. */
  function Splice(t: seq<byte>, p: nat, del: nat, ins: seq<byte>): seq<byte>
    requires p + del <= |t|
  {
    t[..p] + ins + t[p + del..]
  }

  lemma SpliceCount(t: seq<byte>, p: nat, del: nat, ins: seq<byte>)
    requires p + del <= |t|
    ensures CountNl(t[p..p + del]) <= CountNl(t)
    ensures CountNl(Splice(t, p, del, ins)) == CountNl(t) - CountNl(t[p..p + del]) + CountNl(ins)
  {
    CountNlSplit(t, p + del);
    CountNlSlice(t, p, p + del);
    CountNlConcat(t[..p] + ins, t[p + del..]);
    CountNlConcat(t[..p], ins);
  }

  /** The position just past the first newline at or after `from`, or the end. */
  function LineEnd(t: seq<byte>, from: nat): (e: nat)
    requires from <= |t|
    ensures from <= e <= |t|
    ensures from < |t| ==> from < e
    ensures e == |t| || (from < e && t[e - 1] == NL)
    decreases |t| - from
  {
    if from == |t| then from
    else if t[from] == NL then from + 1
    else LineEnd(t, from + 1)
  }

  /** Where line `k` starts; the end of the text once the lines have run out. */
  function LineStart(t: seq<byte>, k: nat): (p: nat)
    ensures p <= |t|
  {
    if k == 0 then 0 else LineEnd(t, LineStart(t, k - 1))
  }

  /** Line `k` with its newline; empty once the lines have run out. */
  function Line(t: seq<byte>, k: nat): seq<byte> {
    var p := LineStart(t, k);
    t[p..LineEnd(t, p)]
  }

  lemma LineStartStep(t: seq<byte>, k: nat)
    ensures LineStart(t, 0) == 0
    ensures LineStart(t, k + 1) == LineEnd(t, LineStart(t, k))
    ensures Line(t, k) == t[LineStart(t, k)..LineStart(t, k + 1)]
  {
  }

  predicate AtLineStart(t: seq<byte>, p: nat)
    requires p <= |t|
  {
    p == 0 || t[p - 1] == NL
  }

  lemma {:induction false} LineEndIsFirst(t: seq<byte>, from: nat)
    requires from <= |t|
    ensures forall i :: from <= i < LineEnd(t, from) - 1 ==> t[i] != NL
    decreases |t| - from
  {
    if from < |t| && t[from] != NL {
      LineEndIsFirst(t, from + 1);
    }
  }

  /** The segment from a line's start to its end holds one newline, or none at the end of the text. */
  lemma LineEndCount(t: seq<byte>, from: nat)
    requires from <= |t|
    ensures var e := LineEnd(t, from);
      CountNl(t[from..e]) == if from < e && t[e - 1] == NL then 1 else 0
    ensures var e := LineEnd(t, from);
      from < e && t[e - 1] == NL <==> CountNl(t[from..]) > 0
  {
    var e := LineEnd(t, from);
    var rest := t[from..];
    LineEndIsFirst(t, from);
    CountNlSplit(rest, e - from);
    assert rest[..e - from] == t[from..e];
    assert rest[e - from..] == t[e..];
    if from < e {
      LineBodyCount(t, from, e);
    }
    if e == |t| {
      assert t[e..] == [];
    }
  }

  lemma LineBodyCount(t: seq<byte>, from: nat, e: nat)
    requires from < e <= |t|
    requires forall i :: from <= i < e - 1 ==> t[i] != NL
    ensures CountNl(t[from..e]) == if t[e - 1] == NL then 1 else 0
  {
    var line := t[from..e];
    assert line[..|line| - 1] == t[from..e - 1];
    assert NL !in t[from..e - 1];
    CountNlZero(t[from..e - 1]);
  }

  /** Line starts are exactly the positions after newlines, counted. */
  lemma {:induction false} LineStartCount(t: seq<byte>, k: nat)
    ensures k <= CountNl(t) ==>
      CountNl(t[..LineStart(t, k)]) == k && AtLineStart(t, LineStart(t, k))
    ensures CountNl(t) < k ==> LineStart(t, k) == |t|
    ensures k == CountNl(t) && Terminated(t) ==> LineStart(t, k) == |t|
  {
    if k > 0 {
      LineStartCount(t, k - 1);
      var p, e := LineStart(t, k - 1), LineStart(t, k);
      LineEndCount(t, p);
      CountNlSplit(t, p);
      CountNlSlice(t, p, e);
    }
    if k == CountNl(t) && Terminated(t) {
      var p := LineStart(t, k);
      CountNlSplit(t, p);
      assert t[p..] == t[p..|t|];
      CountNlEndsWith(t, p, |t|);
    }
  }

  /** A position after a newline is the start of the line its newline count names. */
  lemma {:induction false} LineStartUnique(t: seq<byte>, p: nat)
    requires p <= |t| && AtLineStart(t, p)
    ensures LineStart(t, CountNl(t[..p])) == p
  {
    var k := CountNl(t[..p]);
    CountNlSplit(t, p);
    LineStartCount(t, k);
    var q := LineStart(t, k);
    if q < p {
      CountNlSlice(t, q, p);
      CountNlEndsWith(t, q, p);
    } else if p < q {
      CountNlSlice(t, p, q);
      CountNlEndsWith(t, p, q);
    }
  }

  /** A line's end only depends on the text up to the newline that ends it. */
  lemma {:induction false} LineEndPrefix(a: seq<byte>, b: seq<byte>, from: nat)
    requires from <= |a| && CountNl(a[from..]) > 0
    ensures LineEnd(a + b, from) == LineEnd(a, from)
  {
    LineEndCount(a, from);
    LineEndCount(a + b, from);
    var e, e' := LineEnd(a, from), LineEnd(a + b, from);
    assert (a + b)[e - 1] == NL;
    LineEndIsFirst(a, from);
    LineEndIsFirst(a + b, from);
  }

  lemma LineEndUnique(t: seq<byte>, from: nat, e: nat)
    requires from < e <= |t| && (e == |t| || t[e - 1] == NL)
    requires forall i :: from <= i < e - 1 ==> t[i] != NL
    ensures LineEnd(t, from) == e
  {
    LineEndIsFirst(t, from);
  }

  /** With no newline in between, `p` is where the line holding `q` starts. */
  lemma LineStartBefore(t: seq<byte>, p: nat, q: nat)
    requires p <= q <= |t| && AtLineStart(t, p) && NL !in t[p..q]
    ensures LineStart(t, CountNl(t[..q])) == p
  {
    CountNlZero(t[p..q]);
    CountNlSlice(t, p, q);
    LineStartUnique(t, p);
  }

  /** A single line has its only newline at its end. */
  lemma SingleLine(t: seq<byte>)
    requires CountNl(t) == 1 && Terminated(t)
    ensures NL !in t[..|t| - 1]
  {
    CountNlZero(t[..|t| - 1]);
  }

  /** memchr: the first `c` at or after `from`, or -1. */
  function MemChr(s: seq<byte>, c: byte, from: nat): (i: int)
    requires from <= |s|
    ensures i == -1 || (from <= i < |s| && s[i] == c)
    ensures forall k :: from <= k < (if i == -1 then |s| else i) ==> s[k] != c
    decreases |s| - from
  {
    if from == |s| then -1
    else if s[from] == c then from
    else MemChr(s, c, from + 1)
  }

  /** memrchr: the last `c` before `to`, or -1. */
  function MemRChr(s: seq<byte>, c: byte, to: nat): (i: int)
    requires to <= |s|
    ensures -1 <= i < to && (i >= 0 ==> s[i] == c)
    ensures forall k :: i < k < to ==> s[k] != c
  {
    if to == 0 then -1
    else if s[to - 1] == c then to - 1
    else MemRChr(s, c, to - 1)
  }

  /** Lines that end inside `a` are unaffected by what follows it. */
  lemma {:induction false} LineStartPrefix(a: seq<byte>, b: seq<byte>, k: nat)
    requires k <= CountNl(a)
    ensures LineStart(a + b, k) == LineStart(a, k) <= |a|
  {
    if k > 0 {
      LineStartPrefix(a, b, k - 1);
      LineStartCount(a, k - 1);
      var p := LineStart(a, k - 1);
      CountNlSplit(a, p);
      LineEndPrefix(a, b, p);
    }
  }

  lemma {:induction false} LineEndShift(a: seq<byte>, b: seq<byte>, from: nat)
    requires from <= |b|
    ensures LineEnd(a + b, |a| + from) == |a| + LineEnd(b, from)
    decreases |b| - from
  {
    if from < |b| && b[from] != NL {
      LineEndShift(a, b, from + 1);
    }
  }

  /** Inside a piece with no newline left, the line runs on into the next piece. */
  lemma {:induction false} LineEndAcross(a: seq<byte>, b: seq<byte>, from: nat)
    requires from <= |a| && CountNl(a[from..]) == 0
    ensures LineEnd(a + b, from) == |a| + LineEnd(b, 0)
    decreases |a| - from
  {
    if from == |a| {
      LineEndShift(a, b, 0);
    } else {
      CountNlZero(a[from..]);
      assert a[from] == a[from..][0];
      CountNlZero(a[from + 1..]);
      assert forall x :: x in a[from + 1..] ==> x in a[from..];
      LineEndAcross(a, b, from + 1);
    }
  }

  /** Past the line that straddles the seam, the lines of `a + b` are those of `b`, shifted. */
  lemma {:induction false} LineStartSuffix(a: seq<byte>, b: seq<byte>, j: nat)
    requires 1 <= j
    ensures LineStart(a + b, CountNl(a) + j) == |a| + LineStart(b, j)
  {
    hide CountNl, LineEnd;
    if j == 1 {
      var k := CountNl(a);
      LineStartPrefix(a, b, k);
      LineStartCount(a, k);
      var p := LineStart(a, k);
      CountNlSplit(a, p);
      LineEndAcross(a, b, p);
    } else {
      LineStartSuffix(a, b, j - 1);
      LineEndShift(a, b, LineStart(b, j - 1));
    }
  }

  /**
   * What an edit at `p` does to the sequence of lines: those before the
   * edited line stay, those after it move by the change in newlines.
   */
  lemma SpliceLines(t: seq<byte>, p: nat, del: nat, ins: seq<byte>, k: nat)
    requires p + del <= |t|
    ensures k < CountNl(t[..p]) ==> Line(Splice(t, p, del, ins), k) == Line(t, k)
    ensures CountNl(t[..p]) < k ==>
      Line(Splice(t, p, del, ins), k + CountNl(ins)) == Line(t, k + CountNl(t[p..p + del]))
  {
    hide CountNl, Line, LineStart, LineEnd;
    var a, x, b := t[..p], t[p..p + del], t[p + del..];
    assert t == a + (x + b) == (a + x) + b;
    assert Splice(t, p, del, ins) == a + (ins + b) == (a + ins) + b;
    if k < CountNl(a) {
      LineInPrefix(a, x + b, k);
      LineInPrefix(a, ins + b, k);
    } else if CountNl(a) < k {
      var j := k - CountNl(a);
      LineAfter(a, x, b, j);
      LineAfter(a, ins, b, j);
    }
  }

  lemma LineAfter(a: seq<byte>, x: seq<byte>, b: seq<byte>, j: nat)
    requires 1 <= j
    ensures Line((a + x) + b, CountNl(a) + j + CountNl(x)) == Line(b, j)
  {
    hide *;
    CountNlConcat(a, x);
    LineInSuffix(a + x, b, j);
  }

  lemma LineInPrefix(a: seq<byte>, b: seq<byte>, k: nat)
    requires k < CountNl(a)
    ensures Line(a + b, k) == Line(a, k)
  {
    LineStartPrefix(a, b, k);
    LineStartPrefix(a, b, k + 1);
  }

  lemma LineInSuffix(a: seq<byte>, b: seq<byte>, j: nat)
    requires 1 <= j
    ensures Line(a + b, CountNl(a) + j) == Line(b, j)
  {
    hide CountNl, LineStart, LineEnd;
    LineStartSuffix(a, b, j);
    var p := LineStart(b, j);
    LineEndShift(a, b, p);
    SliceShift(a, b, p, LineEnd(b, p));
  }

  lemma SliceShift(a: seq<byte>, b: seq<byte>, p: nat, q: nat)
    requires p <= q <= |b|
    ensures (a + b)[|a| + p..|a| + q] == b[p..q]
  {
  }
}
