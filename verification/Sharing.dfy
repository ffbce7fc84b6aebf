/** Dividing the size of a window frame among the frames in it. */
module Sharing {
  function Sum(a: seq<int>): int {
    if a == [] then 0 else Sum(a[..|a| - 1]) + a[|a| - 1]
  }

  lemma {:induction false} SumUpdate(a: seq<int>, i: nat, x: int)
    requires i < |a|
    ensures Sum(a[i := x]) == Sum(a) - a[i] + x
  {
    var n := |a| - 1;
    if i == n {
      assert a[i := x][..n] == a[..n];
    } else {
      SumUpdate(a[..n], i, x);
      assert a[i := x][..n] == a[..n][i := x];
    }
  }

  lemma {:induction false} SumMonotone(a: seq<int>, b: seq<int>)
    requires |a| == |b| && forall i :: 0 <= i < |a| ==> a[i] <= b[i]
    ensures Sum(a) <= Sum(b)
  {
    if a != [] {
      SumMonotone(a[..|a| - 1], b[..|a| - 1]);
    }
  }

  /** What the children without a size of their own still need at least. */
  function Needed(min: seq<int>, size: seq<int>): int
    requires |min| == |size|
  {
    if min == [] then 0
    else Needed(min[..|min| - 1], size[..|min| - 1]) + if size[|min| - 1] == 0 then min[|min| - 1] else 0
  }

  function Unsized(size: seq<int>): nat {
    if size == [] then 0
    else Unsized(size[..|size| - 1]) + if size[|size| - 1] == 0 then 1 else 0
  }

  lemma {:induction false} GiveSize(min: seq<int>, size: seq<int>, i: nat, x: int)
    requires |min| == |size| && i < |size| && size[i] == 0 && x != 0
    ensures var after := size[i := x];
      Needed(min, after) == Needed(min, size) - min[i]
      && Unsized(after) == Unsized(size) - 1 && Sum(after) == Sum(size) + x
  {
    var n := |size| - 1;
    SumUpdate(size, i, x);
    if i == n {
      assert size[i := x][..n] == size[..n];
    } else {
      GiveSize(min[..n], size[..n], i, x);
      assert size[i := x][..n] == size[..n][i := x];
    }
  }

  /** Children that all need more than `q` need more than `q` each together. */
  lemma {:induction false} NeededAbove(min: seq<int>, size: seq<int>, q: int)
    requires |min| == |size| && forall i :: 0 <= i < |size| && size[i] == 0 ==> min[i] > q
    ensures Needed(min, size) >= Unsized(size) * (q + 1)
  {
    if size != [] {
      var n := |size| - 1;
      NeededAbove(min[..n], size[..n], q);
      assert (Unsized(size[..n]) + 1) * (q + 1) == Unsized(size[..n]) * (q + 1) + (q + 1);
    }
  }

  lemma {:induction false} NothingSized(min: seq<int>, size: seq<int>)
    requires |min| == |size| && forall i :: 0 <= i < |size| ==> size[i] == 0
    ensures Needed(min, size) == Sum(min) && Unsized(size) == |size| && Sum(size) == 0
  {
    if size != [] {
      NothingSized(min[..|size| - 1], size[..|size| - 1]);
    }
  }

  lemma Quotient(s: int, n: int)
    requires n > 0
    ensures s == n * (s / n) + s % n && 0 <= s % n < n && s < n * (s / n + 1)
  {
    assert n * (s / n + 1) == n * (s / n) + n;
  }

  /** Taking away `k` parts larger than `q` does not make the share larger. */
  lemma ShareShrinks(s: int, n: int, q: int, k: nat, used: int)
    requires k < n && s < n * (q + 1) && used >= k * (q + 1)
    ensures (s - used) / (n - k) <= q
  {
    assert n * (q + 1) - k * (q + 1) == (n - k) * (q + 1);
    Quotient(s - used, n - k);
    ProductGrows(n - k, (s - used) / (n - k), q + 1);
  }

  lemma ProductGrows(n: int, a: int, b: int)
    ensures n >= 0 && a >= b ==> n * a >= n * b
  {
    if n >= 0 && a >= b {
      assert n * (a - b) >= 0;
    }
  }

  /** How many of the children share. */
  function Sharers(min: seq<int>, q: int): (n: nat)
    ensures n <= |min|
  {
    if min == [] then 0
    else Sharers(min[..|min| - 1], q) + if min[|min| - 1] > q then 0 else 1
  }

  /** The size of one child: its minimum if that is more than the share, or the share. */
  function FairSize(min: seq<int>, q: int, r: int, i: nat): int
    requires i < |min|
  {
    if min[i] > q then min[i] else if Sharers(min[..i], q) < r then q + 1 else q
  }

  /** The first `r` children that share have one more than the others. */
  ghost predicate Fair(min: seq<int>, size: seq<int>, q: int, r: int) {
    |min| == |size| && forall i :: 0 <= i < |size| ==> size[i] == FairSize(min, q, r, i)
  }

  lemma {:induction false} SharersAreUnsized(min: seq<int>, size: seq<int>, q: int)
    requires |min| == |size| && forall i :: 0 <= i < |size| ==> (size[i] == 0 <==> min[i] <= q)
    ensures Sharers(min, q) == Unsized(size)
  {
    if min != [] {
      SharersAreUnsized(min[..|min| - 1], size[..|min| - 1], q);
    }
  }

  lemma {:induction false} NeededNonNegative(min: seq<int>, size: seq<int>)
    requires |min| == |size| && forall i :: 0 <= i < |min| ==> min[i] > 0
    ensures Needed(min, size) >= 0
  {
    if min != [] {
      NeededNonNegative(min[..|min| - 1], size[..|min| - 1]);
    }
  }

  /** A child has either no size yet or its minimum, and that only if it is more than `q`. */
  ghost predicate Sized(min: seq<int>, size: seq<int>, q: int) {
    |min| == |size| && forall i :: 0 <= i < |size| ==> size[i] == 0 || (size[i] == min[i] && min[i] > q)
  }

  lemma NothingSizedYet(min: seq<int>, size: seq<int>, q: int)
    requires |min| == |size| && forall i :: 0 <= i < |size| ==> size[i] == 0
    ensures Sized(min, size, q)
  {
  }

  lemma SizedForLess(min: seq<int>, size: seq<int>, q: int, share: int)
    requires Sized(min, size, q) && share <= q
    ensures Sized(min, size, share)
  {
  }

  lemma RoundsDone(min: seq<int>, size: seq<int>, q: int)
    requires Sized(min, size, q) && forall i :: 0 <= i < |size| && size[i] == 0 ==> min[i] <= q
    requires forall i :: 0 <= i < |min| ==> min[i] > 0
    ensures forall i :: 0 <= i < |size| ==> (size[i] == 0 <==> min[i] <= q) && (size[i] != 0 ==> size[i] == min[i])
    ensures Sharers(min, q) == Unsized(size)
  {
    SharersAreUnsized(min, size, q);
  }

  /** Of two children that share, the first has no less. */
  lemma FirstGetMore(min: seq<int>, size: seq<int>, q: int, r: nat, i: nat, j: nat)
    requires Fair(min, size, q, r) && i < j < |min| && min[i] <= q && min[j] <= q
    ensures size[i] >= size[j]
  {
    SharersGrow(min, q, i, j);
  }

  lemma {:induction false} SharersGrow(min: seq<int>, q: int, i: nat, j: nat)
    requires i <= j <= |min|
    ensures Sharers(min[..i], q) <= Sharers(min[..j], q)
    decreases j
  {
    if i < j {
      assert min[..j][..j - 1] == min[..j - 1];
      SharersGrow(min, q, i, j - 1);
    }
  }

  /** One round of giving every child that needs more than the share its minimum. */
  method Round(min: array<int>, size: array<int>, q: int, unsized: nat) returns (used: int, n: nat)
    requires min.Length == size.Length && min != size && unsized == Unsized(size[..])
    requires forall i :: 0 <= i < min.Length ==> min[i] > 0
    requires q >= 0 && Sized(min[..], size[..], q)
    modifies size
    ensures Sized(min[..], size[..], q) && n == Unsized(size[..]) <= unsized
    ensures forall i :: 0 <= i < size.Length && size[i] == 0 ==> min[i] <= q
    ensures used == Sum(size[..]) - old(Sum(size[..]))
    ensures used == old(Needed(min[..], size[..])) - Needed(min[..], size[..])
    ensures used >= (unsized - n) * (q + 1)
    ensures used >= 0 && if used == 0 then size[..] == old(size[..]) else n < unsized
  {
    hide Sum, Unsized, Needed;
    used, n := 0, unsized;
    for i := 0 to size.Length
      invariant Sized(min[..], size[..], q) && n == Unsized(size[..]) <= unsized
      invariant forall j :: 0 <= j < i && size[j] == 0 ==> min[j] <= q
      invariant used == Sum(size[..]) - old(Sum(size[..]))
      invariant used == old(Needed(min[..], size[..])) - Needed(min[..], size[..])
      invariant used >= (unsized - n) * (q + 1)
      invariant used >= 0 && if used == 0 then size[..] == old(size[..]) else n < unsized
    {
      if size[i] == 0 && min[i] > q {
        ghost var before := size[..];
        GiveSize(min[..], before, i, min[i]);
        size[i] := min[i];
        assert size[..] == before[i := min[i]];
        OneLess(unsized - n, q + 1);
        used, n := used + min[i], n - 1;
      }
    }
  }

  lemma OneLess(k: int, q: int)
    ensures (k + 1) * q == k * q + q
  {
  }

  /** The rounds end with somebody left to share what is left. */
  lemma SomebodyShares(s: int, n0: nat, n: nat, q: int, needed0: int, needed: int, used: int)
    requires n <= n0 && 0 <= needed && needed0 <= s && s < n0 * (q + 1)
    requires used == needed0 - needed && used >= (n0 - n) * (q + 1)
    ensures n > 0
  {
    if n == 0 {
      assert false;
    }
  }

  lemma {:induction false} SumIs(size: seq<int>, before: seq<int>, min: seq<int>, q: int, r: int)
    requires |size| == |before| == |min| && Fair(min, size, q, r)
    requires forall i :: 0 <= i < |min| ==> before[i] == if min[i] > q then min[i] else 0
    ensures var k := Sharers(min, q); Sum(size) == Sum(before) + k * q + if r < 0 then 0 else if k < r then k else r
  {
    if min != [] {
      var n := |min| - 1;
      FairPrefix(min, size, q, r, n);
      SumIs(size[..n], before[..n], min[..n], q, r);
      OneLess(Sharers(min[..n], q), q);
    }
  }

  lemma FairPrefix(min: seq<int>, size: seq<int>, q: int, r: int, n: nat)
    requires n <= |min| && Fair(min, size, q, r)
    ensures Fair(min[..n], size[..n], q, r)
  {
    forall i | 0 <= i < n ensures size[i] == FairSize(min[..n], q, r, i) {
      assert min[..n][..i] == min[..i];
    }
  }

  /** Gives the children without a size the share, and the first `over` of them one more. */
  method Spread(min: array<int>, size: array<int>, q: int, over: nat)
    requires min.Length == size.Length && min != size
    requires forall i :: 0 <= i < min.Length ==> min[i] > 0
    requires forall i :: 0 <= i < size.Length ==> size[i] == if min[i] > q then min[i] else 0
    modifies size
    ensures Fair(min[..], size[..], q, over)
  {
    var r: int := over;
    for i := 0 to size.Length
      invariant r == over - Sharers(min[..i], q)
      invariant forall j :: i <= j < size.Length ==> size[j] == if min[j] > q then min[j] else 0
      invariant forall j {:trigger size[j]} :: 0 <= j < i ==> size[j] == FairSize(min[..], q, over, j)
    {
      assert min[..][..i] == min[..i];
      assert min[..i + 1][..i] == min[..i];
      if size[i] == 0 {
        size[i] := q + if r > 0 then 1 else 0;
        r := r - 1;
      }
    }
  }

  /** Divides `total` fairly. */
  method Divide(min: array<int>, total: int) returns (size: array<int>, ghost q: int, ghost r: nat)
    requires min.Length > 0 && Sum(min[..]) <= total
    requires forall i :: 0 <= i < min.Length ==> min[i] > 0
    ensures fresh(size) && Sum(size[..]) == total
    ensures Fair(min[..], size[..], q, r) && r < Sharers(min[..], q)
  {
    hide Unsized, Needed, Sum, Sharers, FairSize, Sized, Fair;
    size := new int[min.Length](_ => 0);
    NothingSized(min[..], size[..]);
    NeededNonNegative(min[..], size[..]);
    var s, n := total, min.Length;
    var share, over, used := s / n, s % n, 1;
    Quotient(s, n);
    NothingSizedYet(min[..], size[..], share);
    while used != 0 && n > 0
      invariant Sized(min[..], size[..], share) && share >= 0
      invariant 0 < n == Unsized(size[..])
      invariant Sum(size[..]) + s == total && 0 <= Needed(min[..], size[..]) <= s
      invariant s / n <= share
      invariant used == 0 ==> share == s / n && over == s % n
      invariant used == 0 ==> forall i :: 0 <= i < size.Length && size[i] == 0 ==> min[i] <= share
      decreases n, if used == 0 then 0 else 1
    {
      SizedForLess(min[..], size[..], share, s / n);
      share, over := s / n, s % n;
      Quotient(s, n);
      ghost var before, unsized := size[..], n;
      used, n := Round(min, size, share, n);
      NeededNonNegative(min[..], size[..]);
      SomebodyShares(s, unsized, n, share, Needed(min[..], before), Needed(min[..], size[..]), used);
      ShareShrinks(s, unsized, share, unsized - n, used);
      s := s - used;
    }
    q, r := share, over;
    Quotient(s, n);
    RoundsDone(min[..], size[..], share);
    ghost var before := size[..];
    Spread(min, size, share, over);
    SumIs(size[..], before, min[..], share, over);
  }

  lemma {:induction false} SomeoneLoses(a: seq<int>, b: seq<int>, i: nat) returns (j: nat)
    requires |a| == |b| && i < |a| && b[i] > a[i] && Sum(b) <= Sum(a)
    ensures j < |a| && b[j] < a[j]
  {
    j := 0;
    while j < |a|
      invariant j <= |a| && forall k :: 0 <= k < j ==> b[k] >= a[k]
    {
      if b[j] < a[j] {
        return;
      }
      j := j + 1;
    }
    SumMonotone(a, b[i := a[i]]);
    SumUpdate(b, i, a[i]);
  }

  /**
   * The fair sizes cannot be made fairer: whatever other way there is to
   * divide the same total, a child that gets more there gets it from one that
   * is above its minimum and no more than one larger.
   */
  lemma NobodyGains(min: seq<int>, size: seq<int>, q: int, r: int, other: seq<int>, i: nat) returns (j: nat)
    requires Fair(min, size, q, r) && |other| == |size| && i < |size|
    requires Sum(other) == Sum(size) && other[i] > size[i]
    requires forall k :: 0 <= k < |min| ==> other[k] >= min[k]
    ensures j < |size| && other[j] < size[j] && min[j] < size[j] <= size[i] + 1
  {
    j := SomeoneLoses(size, other, i);
  }

  lemma {:induction false} AllMinimal(min: seq<int>, size: seq<int>)
    requires |min| == |size| && forall i :: 0 <= i < |min| ==> size[i] == min[i]
    ensures Sum(size) == Sum(min)
  {
    assert size == min;
  }

  /**
   * The sizes nearest to the wanted ones that add up to `total`: what is left
   * over goes to the last child; what is too much is taken from the last ones,
   * down to their minimum.
   */
  ghost predicate Fixed(min: seq<int>, want: seq<int>, size: seq<int>, total: int, k: nat) {
    && |min| == |want| == |size| && k < |size| && Sum(size) == total
    && (forall i :: 0 <= i < k ==> size[i] == want[i])
    && if Sum(want) <= total then k == |size| - 1
       else min[k] <= size[k] < want[k] && forall i :: k < i < |size| ==> size[i] == min[i]
  }

  /** If the sizes wanted are not too much together, all are kept, and the last child gets what is left over. */
  lemma FixKeepsAll(min: seq<int>, want: seq<int>, size: seq<int>, total: int, k: nat)
    requires Fixed(min, want, size, total, k) && Sum(want) <= total
    ensures var n := |want| - 1; size == want[n := want[n] + total - Sum(want)]
  {
    var n := |want| - 1;
    SumUpdate(want, n, size[n]);
    assert size == want[n := size[n]];
  }

  /** If they are, no other division that respects the minimums keeps as many of them from the first child on. */
  lemma FixKeepsMost(min: seq<int>, want: seq<int>, size: seq<int>, total: int, k: nat, other: seq<int>)
    requires Fixed(min, want, size, total, k) && Sum(want) > total
    requires |other| == |min| && Sum(other) == total && forall i :: 0 <= i < |other| ==> other[i] >= min[i]
    ensures forall i :: 0 <= i < k ==> size[i] == want[i]
    ensures exists i :: 0 <= i <= k && other[i] < want[i]
  {
    if forall i :: 0 <= i <= k ==> other[i] >= want[i] {
      var more := size[k := size[k] + 1];
      SumUpdate(size, k, size[k] + 1);
      SumMonotone(more, other);
      assert false;
    }
  }

  method Fix(min: array<int>, size: array<int>, total: int) returns (ghost k: nat)
    requires min.Length == size.Length > 0 && min != size
    requires forall i :: 0 <= i < min.Length ==> 0 < min[i] <= size[i]
    requires Sum(min[..]) <= total
    modifies size
    ensures Fixed(min[..], old(size[..]), size[..], total, k)
    ensures forall i :: 0 <= i < size.Length ==> size[i] >= min[i]
  {
    var sum := Total(size);
    var last := size.Length - 1;
    k := last;
    if sum > total {
      var n := sum - total;
      var i := last;
      while n > 0 && i >= 0
        invariant -1 <= i <= last && 0 <= k <= last && n >= 0
        invariant Sum(size[..]) == total + n
        invariant n > 0 ==> forall j :: i < j <= last ==> size[j] == min[j]
        invariant forall j :: 0 <= j <= i ==> size[j] == old(size[j])
        invariant forall j :: 0 <= j <= last ==> size[j] >= min[j]
        invariant n == 0 ==> k == i + 1 && size[k] < old(size[k]) && forall j :: k < j <= last ==> size[j] == min[j]
      {
        ghost var before := size[..];
        var smaller := if size[i] - n > min[i] then size[i] - n else min[i];
        SumUpdate(before, i, smaller);
        n := n - (size[i] - smaller);
        size[i] := smaller;
        assert size[..] == before[i := smaller];
        k := i;
        i := i - 1;
      }
      if n > 0 {
        AllMinimal(min[..], size[..]);
      }
    } else {
      SumUpdate(size[..], last, size[last] + (total - sum));
      ghost var before := size[..];
      size[last] := size[last] + (total - sum);
      assert size[..] == before[last := size[last]];
    }
  }

  method Total(a: array<int>) returns (sum: int)
    ensures sum == Sum(a[..])
  {
    sum := 0;
    for i := 0 to a.Length
      invariant sum == Sum(a[..i])
    {
      assert a[..i + 1][..i] == a[..i];
      sum := sum + a[i];
    }
    assert a[..a.Length] == a[..];
  }
}
