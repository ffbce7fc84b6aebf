/** The history of what was entered: bounded, without repetition, newest last. */
module Histories {
  import opened Bytes

  type Text = seq<byte>

  function Without(texts: seq<Text>, t: Text): (r: seq<Text>)
    ensures t !in r && |r| <= |texts|
    ensures forall x :: x in r <==> x in texts && x != t
  {
    if texts == [] then []
    else
      var n := |texts| - 1;
      Without(texts[..n], t) + if texts[n] == t then [] else [texts[n]]
  }

  function LastOf(texts: seq<Text>, max: nat): seq<Text> {
    if |texts| <= max then texts else texts[|texts| - max..]
  }

  /** A history with one more text. */
  function Appended(texts: seq<Text>, t: Text, max: nat): seq<Text> {
    if t == [] then texts else LastOf(Without(texts, t) + [t], max)
  }

  predicate Distinct(texts: seq<Text>) {
    forall i, j :: 0 <= i < j < |texts| ==> texts[i] != texts[j]
  }

  lemma {:induction false} WithoutNothing(texts: seq<Text>, t: Text)
    requires t !in texts
    ensures Without(texts, t) == texts
  {
    if texts != [] {
      hide Without;
      var n := |texts| - 1;
      WithoutEnd(texts, t);
      assert texts[n] in texts;
      WithoutNothing(texts[..n], t);
      assert texts == texts[..n] + [texts[n]];
    } else {
      assert Without([], t) == [];
    }
  }

  lemma {:induction false} WithoutOne(texts: seq<Text>, i: nat)
    requires Distinct(texts) && i < |texts|
    ensures Without(texts, texts[i]) == texts[..i] + texts[i + 1..]
  {
    var n := |texts| - 1;
    if i == n {
      WithoutNothing(texts[..n], texts[i]);
      assert texts[..i] + texts[i + 1..] == texts[..n];
    } else {
      WithoutOne(texts[..n], i);
      assert texts[..n][..i] + texts[..n][i + 1..] + [texts[n]] == texts[..i] + texts[i + 1..];
    }
  }

  lemma AppendOld(texts: seq<Text>, i: nat, max: nat)
    requires Distinct(texts) && i < |texts| <= max && texts[i] != []
    ensures Appended(texts, texts[i], max) == texts[..i] + texts[i + 1..] + [texts[i]]
  {
    WithoutOne(texts, i);
  }

  lemma AppendNew(texts: seq<Text>, t: Text, max: nat)
    requires t !in texts && t != [] && |texts| <= max
    ensures Appended(texts, t, max) ==
      (if |texts| == max && max > 0 then texts[1..] else texts) + if max > 0 then [t] else []
  {
    WithoutNothing(texts, t);
    var all := texts + [t];
    if |texts| == max && max > 0 {
      assert all[1..] == texts[1..] + [t];
    }
  }

  // What a history holds after any number of texts.

  /** The texts in the order in which they came last, however many. */
  function Recent(texts: seq<Text>): (r: seq<Text>)
    ensures Distinct(r)
    ensures forall x :: x in r <==> x in texts && x != []
  {
    if texts == [] then []
    else
      var n := |texts| - 1;
      WithoutKeepsDistinct(Recent(texts[..n]), texts[n]);
      if texts[n] == [] then Recent(texts[..n]) else Without(Recent(texts[..n]), texts[n]) + [texts[n]]
  }

  lemma {:induction false} WithoutKeepsDistinct(texts: seq<Text>, t: Text)
    requires Distinct(texts)
    ensures Distinct(Without(texts, t))
  {
    if texts != [] {
      var n := |texts| - 1;
      WithoutKeepsDistinct(texts[..n], t);
      assert forall x :: x in texts[..n] ==> x != texts[n];
      var r := Without(texts[..n], t);
      assert forall i :: 0 <= i < |r| ==> r[i] in texts[..n];
    }
  }

  function AppendedAll(texts: seq<Text>, max: nat): seq<Text> {
    if texts == [] then [] else Appended(AppendedAll(texts[..|texts| - 1], max), texts[|texts| - 1], max)
  }

  /** A history is the end of what an unbounded one would be. */
  lemma {:induction false} HoldsMostRecent(texts: seq<Text>, max: nat)
    requires max >= 1
    ensures AppendedAll(texts, max) == LastOf(Recent(texts), max)
  {
    if texts != [] {
      var n := |texts| - 1;
      HoldsMostRecent(texts[..n], max);
      if texts[n] != [] {
        WithoutOfLast(Recent(texts[..n]), texts[n], max);
      }
    }
  }

  lemma {:induction false} WithoutSplit(a: seq<Text>, b: seq<Text>, t: Text)
    ensures Without(a + b, t) == Without(a, t) + Without(b, t)
  {
    if b == [] {
      assert a + b == a;
    } else {
      var n := |b| - 1;
      var c := a + b;
      assert c != [] && c[|c| - 1] == b[n] && c[..|c| - 1] == a + b[..n];
      WithoutSplit(a, b[..n], t);
      WithoutEnd(c, t);
      WithoutEnd(b, t);
      hide Without;
      var x := if b[n] == t then [] else [b[n]];
      assert Without(a, t) + (Without(b[..n], t) + x) == Without(a, t) + Without(b[..n], t) + x;
    }
  }

  lemma WithoutEnd(b: seq<Text>, t: Text)
    requires b != []
    ensures var n := |b| - 1; Without(b, t) == Without(b[..n], t) + if b[n] == t then [] else [b[n]]
  {
  }

  lemma WithoutSize(texts: seq<Text>, t: Text)
    requires Distinct(texts)
    ensures |Without(texts, t)| >= |texts| - 1
  {
    if t in texts {
      var i :| 0 <= i < |texts| && texts[i] == t;
      WithoutOne(texts, i);
    } else {
      WithoutNothing(texts, t);
    }
  }

  lemma WithoutOfLast(all: seq<Text>, t: Text, max: nat)
    requires Distinct(all) && max >= 1
    ensures LastOf(Without(LastOf(all, max), t) + [t], max) == LastOf(Without(all, t) + [t], max)
  {
    hide Without;
    if |all| > max {
      var k := |all| - max;
      assert all == all[..k] + all[k..];
      WithoutSplit(all[..k], all[k..], t);
      WithoutSize(all[k..], t);
      var front, rest := Without(all[..k], t), Without(all[k..], t);
      EndOf(front, rest + [t], max);
      assert front + rest + [t] == front + (rest + [t]);
    }
  }

  /** What is kept of a list is at its end, once there is enough of it. */
  lemma EndOf(front: seq<Text>, rest: seq<Text>, max: nat)
    requires |rest| >= max
    ensures LastOf(front + rest, max) == LastOf(rest, max)
  {
    var k := |rest| - max;
    assert (front + rest)[|front| + k..] == rest[k..];
  }

  class HistoryEntry {
    var text: Text
    var next: HistoryEntry?
    var prev: HistoryEntry?

    constructor (text: Text)
      ensures this.text == text
    {
      this.text := text;
    }
  }

  ghost predicate Maps(entries: map<Text, HistoryEntry>, list: seq<HistoryEntry>, texts: seq<Text>) {
    && |texts| == |list| == |entries|
    && (forall i :: 0 <= i < |list| ==> texts[i] in entries && entries[texts[i]] == list[i])
    && (forall t <- entries :: t in texts)
  }

  lemma MapsAreDistinct(entries: map<Text, HistoryEntry>, list: seq<HistoryEntry>, texts: seq<Text>)
    requires Maps(entries, list, texts)
    requires forall i, j :: 0 <= i < j < |list| ==> list[i] != list[j]
    ensures Distinct(texts) && forall t :: t in texts <==> t in entries
  {
  }

  lemma MapsMoved(entries: map<Text, HistoryEntry>, list: seq<HistoryEntry>, texts: seq<Text>, i: nat)
    requires Maps(entries, list, texts) && i < |list|
    ensures Maps(entries, list[..i] + list[i + 1..] + [list[i]], texts[..i] + texts[i + 1..] + [texts[i]])
  {
    assert texts == texts[..i] + [texts[i]] + texts[i + 1..];
  }

  lemma MapsWithoutFirst(entries: map<Text, HistoryEntry>, list: seq<HistoryEntry>, texts: seq<Text>)
    requires Maps(entries, list, texts) && list != [] && Distinct(texts)
    ensures Maps(entries - {texts[0]}, list[1..], texts[1..])
  {
    assert texts == [texts[0]] + texts[1..];
    assert (entries - {texts[0]}).Keys == entries.Keys - {texts[0]};
  }

  lemma MapsOneMore(entries: map<Text, HistoryEntry>, list: seq<HistoryEntry>, texts: seq<Text>, t: Text,
                    e: HistoryEntry)
    requires Maps(entries, list, texts) && t !in entries
    ensures Maps(entries[t := e], list + [e], texts + [t])
  {
  }

  class History {
    var entries: map<Text, HistoryEntry>
    var first: HistoryEntry?
    var last: HistoryEntry?
    const maxEntries: nat
    /** The entries and their texts, oldest first. */
    ghost var list: seq<HistoryEntry>
    ghost var texts: seq<Text>
    ghost var nodes: set<HistoryEntry>

    /** The entries are linked to one another in order. */
    ghost predicate Linked()
      reads `first, `last, `list, `nodes, nodes`next, nodes`prev
    {
      && (forall i :: 0 <= i < |list| ==> list[i] in nodes)
      && (forall i, j :: 0 <= i < j < |list| ==> list[i] != list[j])
      && first == (if list == [] then null else list[0])
      && last == (if list == [] then null else list[|list| - 1])
      && (forall i {:trigger list[i].prev} :: 0 <= i < |list| ==> list[i].prev == if i == 0 then null else list[i - 1])
      && (forall i {:trigger list[i].next} :: 0 <= i < |list| ==>
            list[i].next == if i == |list| - 1 then null else list[i + 1])
    }

    ghost predicate Labelled()
      reads `list, `texts, `nodes, nodes`text
    {
      |texts| == |list| && forall i :: 0 <= i < |list| ==> list[i] in nodes && list[i].text == texts[i]
    }

    ghost predicate Valid()
      reads this, nodes
    {
      && 2 <= maxEntries && |list| <= maxEntries
      && Linked() && Labelled() && Maps(entries, list, texts)
      && [] !in entries
    }

    constructor (maxEntries: nat)
      requires maxEntries >= 2
      ensures Valid() && texts == [] && this.maxEntries == maxEntries && nodes == {}
    {
      entries, first, last, list, texts, nodes := map[], null, null, [], [], {};
      this.maxEntries := maxEntries;
    }

    /** Takes an entry out of the middle of the list. */
    method Unlink(e: HistoryEntry, ghost i: nat)
      requires Linked() && Labelled() && i < |list| - 1 && list[i] == e
      modifies `first, `list, `texts, nodes`next, nodes`prev
      ensures Linked() && Labelled() && e !in list
      ensures list == old(list)[..i] + old(list)[i + 1..] && texts == old(texts)[..i] + old(texts)[i + 1..]
    {
      e.next.prev := e.prev;
      if e == first {
        first := e.next;
      } else {
        e.prev.next := e.next;
      }
      ghost var l := list;
      list, texts := list[..i] + list[i + 1..], texts[..i] + texts[i + 1..];
      assert forall k {:trigger list[k]} :: 0 <= k < |list| ==> list[k] == if k < i then l[k] else l[k + 1];
    }

    /** Puts an entry at the end of the list. */
    method Push(e: HistoryEntry)
      requires Linked() && Labelled() && e !in list && e in nodes
      modifies `first, `last, `list, `texts, nodes`next, nodes`prev
      ensures Linked() && Labelled() && list == old(list) + [e] && texts == old(texts) + [e.text]
    {
      var oldLast := last;
      e.next := null;
      e.prev := oldLast;
      last := e;
      if oldLast != null {
        oldLast.next := e;
      } else {
        first := e;
      }
      list, texts := list + [e], texts + [e.text];
    }

    /** Takes the oldest entry out, to be used again. */
    method Recycle() returns (e: HistoryEntry)
      requires Valid() && |list| == maxEntries
      modifies `first, `list, `texts, `entries, nodes`prev
      ensures Linked() && Labelled() && e == old(list)[0] && e !in list && e in nodes
      ensures list == old(list)[1..] && texts == old(texts)[1..] && entries == old(entries) - {old(texts)[0]}
    {
      e := first;
      var newFirst := e.next;
      newFirst.prev := null;
      first := newFirst;
      entries := entries - {e.text};
      list, texts := list[1..], texts[1..];
    }

    method Create(text: Text) returns (e: HistoryEntry)
      requires Linked() && Labelled()
      modifies `nodes
      ensures Linked() && Labelled() && e.text == text && e !in list
      ensures nodes == old(nodes) + {e} && fresh(e)
    {
      e := new HistoryEntry(text);
      nodes := nodes + {e};
    }

    /** Gives an entry that is not in the list another text. */
    method Relabel(e: HistoryEntry, text: Text)
      requires Labelled() && e !in list
      modifies e`text
      ensures Labelled() && e.text == text
    {
      e.text := text;
    }

    /** Appends a text, unless it is empty. */
    method Append(text: Text)
      requires Valid()
      modifies this, nodes
      ensures Valid() && texts == Appended(old(texts), text, maxEntries) && fresh(nodes - old(nodes))
    {
      if text == [] {
        return;
      }
      MapsAreDistinct(entries, list, texts);
      hide Without, Appended, Maps, Linked, Labelled;
      if text in entries {
        MoveToEnd(text);
      } else {
        AppendNew(texts, text, maxEntries);
        AddNew(text);
      }
    }

    /** What becomes of the texts when one of them is entered again. */
    lemma Again(text: Text) returns (i: nat)
      requires Valid() && text in entries
      ensures i < |list| == |texts| && list[i] == entries[text] && list[i] in nodes && list[i].text == text
      ensures list[i] == last <==> i == |list| - 1
      ensures Appended(texts, text, maxEntries) == texts[..i] + texts[i + 1..] + [text] && texts[i] == text
      ensures Maps(entries, list[..i] + list[i + 1..] + [list[i]], texts[..i] + texts[i + 1..] + [text])
      ensures i == |list| - 1 ==> texts[..i] + texts[i + 1..] + [text] == texts
    {
      MapsAreDistinct(entries, list, texts);
      i :| 0 <= i < |texts| && texts[i] == text;
      hide Without, Appended;
      AppendOld(texts, i, maxEntries);
      MapsMoved(entries, list, texts, i);
    }

    /** Makes an entry the last one. */
    method MoveToEnd(text: Text)
      requires Valid() && text in entries
      modifies this, nodes
      ensures Valid() && texts == Appended(old(texts), text, maxEntries) && fresh(nodes - old(nodes))
    {
      hide Without, Appended, Linked, Labelled, Maps, Distinct;
      ghost var i := Again(text);
      var e := entries[text];
      if e == last {
        return;
      }
      Unlink(e, i);
      Push(e);
    }

    /** What becomes of the texts when the oldest one has to go. */
    lemma Full()
      requires Valid()
      ensures |entries| == |list| == |texts|
      ensures list != [] ==> Maps(entries - {texts[0]}, list[1..], texts[1..])
    {
      MapsAreDistinct(entries, list, texts);
      if list != [] {
        MapsWithoutFirst(entries, list, texts);
      }
    }

    /** Adds an entry, in place of the oldest one if there is no room. */
    method AddNew(text: Text)
      requires Valid() && text !in entries && text != []
      modifies this, nodes
      ensures Valid() && fresh(nodes - old(nodes))
      ensures texts == (if |old(list)| == maxEntries then old(texts)[1..] else old(texts)) + [text]
    {
      hide Maps, Linked, Labelled, Distinct;
      var e := TakeEntry(text);
      MapsOneMore(entries, list, texts, text, e);
      entries := entries[text := e];
      Push(e);
    }

    /** An entry for a new text: the oldest one if the history is full. */
    method TakeEntry(text: Text) returns (e: HistoryEntry)
      requires Valid() && text !in entries && text != []
      modifies this, nodes
      ensures Linked() && Labelled() && Maps(entries, list, texts) && 2 <= maxEntries && |list| < maxEntries
      ensures e.text == text && e !in list && e in nodes && text !in entries && fresh(nodes - old(nodes))
      ensures texts == if |old(list)| == maxEntries then old(texts)[1..] else old(texts)
      ensures [] !in entries
    {
      hide Maps, Linked, Labelled, Distinct;
      Full();
      if |entries| == maxEntries {
        e := Recycle();
        Relabel(e, text);
      } else {
        e := Create(text);
      }
    }

    /** The next older entry that begins with the text, from entry `at` or from the newest. */
    method SearchForward(pos: HistoryEntry?, text: Text, ghost at: nat) returns (found: bool, e: HistoryEntry?)
      requires Valid() && at <= |list| && pos == (if at == |list| then null else list[at])
      ensures found <==> exists k :: 0 <= k < at && text <= texts[k]
      ensures !found ==> e == pos
      ensures found ==> exists j ::
        0 <= j < at && e == list[j] && text <= texts[j] && forall k :: j < k < at ==> !(text <= texts[k])
    {
      var it := if pos != null then pos.prev else last;
      ghost var j := at;
      while it != null
        invariant 0 <= j <= at && it == (if j == 0 then null else list[j - 1])
        invariant forall k :: j <= k < at ==> !(text <= texts[k])
        decreases j
      {
        j := j - 1;
        if text <= it.text {
          assert text <= texts[j];
          return true, it;
        }
        it := it.prev;
      }
      return false, pos;
    }

    /** The next newer entry that begins with the text, from entry `at - 1` or from the oldest. */
    method SearchBackward(pos: HistoryEntry?, text: Text, ghost at: nat) returns (found: bool, e: HistoryEntry?)
      requires Valid() && at <= |list| && pos == (if at == 0 then null else list[at - 1])
      ensures found <==> exists k :: at <= k < |list| && text <= texts[k]
      ensures !found ==> e == pos
      ensures found ==> exists j ::
        at <= j < |list| && e == list[j] && text <= texts[j] && forall k :: at <= k < j ==> !(text <= texts[k])
    {
      var it := if pos != null then pos.next else first;
      ghost var j := at;
      while it != null
        invariant at <= j <= |list| && it == (if j == |list| then null else list[j])
        invariant forall k :: at <= k < j ==> !(text <= texts[k])
        decreases |list| - j
      {
        if text <= it.text {
          assert text <= texts[j];
          return true, it;
        }
        it := it.next;
        j := j + 1;
      }
      return false, pos;
    }
  }

  /** A history after any texts holds the most recent different ones, in order. */
  method EnterAll(ts: seq<Text>, max: nat) returns (history: History)
    requires max >= 2
    ensures history.Valid() && history.texts == LastOf(Recent(ts), max)
  {
    history := new History(max);
    for i := 0 to |ts|
      invariant history.Valid() && history.maxEntries == max && fresh(history) && fresh(history.nodes)
      invariant history.texts == AppendedAll(ts[..i], max)
    {
      history.Append(ts[i]);
      assert ts[..i + 1][..i] == ts[..i];
    }
    assert ts[..|ts|] == ts;
    HoldsMostRecent(ts, max);
  }
}
