/** What the commands do to a buffer, told in whole texts: the editor that the undo tree implements. */
module Editors {
  import opened Bytes
  import opened Records

  /** A text the buffer had; undoing and redoing what led to it leaves the cursor at these places. */
  datatype Version = Version(text: seq<byte>, parent: nat, branches: seq<nat>, undoAt: nat, redoAt: nat)

  /** One replacement of a series; places outside of the text mean its end. */
  datatype Replacement = Replacement(at: nat, del: nat, ins: seq<byte>) {
    function At(size: nat): (p: nat)
      ensures p <= size
    {
      if at < size then at else size
    }

    function Del(size: nat): (n: nat)
      ensures At(size) + n <= size
    {
      if At(size) + del < size then del else size - At(size)
    }

    function Apply(t: seq<byte>): seq<byte> {
      Edited(t, At(|t|), Del(|t|), ins)
    }

    predicate Records(t: seq<byte>) {
      ins != [] || Apply(t) != t
    }
  }

  datatype Command =
    | Type(ch: seq<byte>)
    | Delete(size: nat)
    | Erase(size: nat)
    | EraseAt(at: nat, size: nat)
    | Replace(r: Replacement)
    | ReplaceAll(rs: seq<Replacement>)
    | Move(to: nat)
    | Undo
    | Redo(changeId: nat)
    | Draw(first: nat, count: nat)

  /** A flat edit; the text stays empty or ends in a newline. */
  function Edited(t: seq<byte>, p: nat, del: nat, ins: seq<byte>): (u: seq<byte>)
    requires p + del <= |t|
    ensures Terminated(u) && p + |ins| <= |u|
  {
    WithFinalNewline(Splice(t, p, del, ins))
  }

  /** At least one byte, if there is one. */
  function Clamp(n: nat, max: nat): (r: nat)
    ensures r <= max && (r == 0 <==> max == 0)
  {
    if n == 0 && max > 0 then 1 else if n < max then n else max
  }

  predicate Erasable(t: seq<byte>, at: nat, len: nat) {
    && len <= at <= |t| && (len == 0 <==> at == 0)
    && (len > 1 ==> NL !in t[at - len..at])
  }

  /** How much is erased in front of `at`; a newline is a character of its own. */
  function EraseSize(t: seq<byte>, at: nat, n: nat): (r: nat)
    requires at <= |t|
    ensures Erasable(t, at, r)
  {
    var r := Clamp(n, at);
    if r > 1 && NL in t[at - r..at] then 1 else r
  }

  /** What a series of replacements amounts to. */
  datatype Series = Series(text: seq<byte>, at: nat, recorded: bool, undoAt: nat, redoAt: nat) {
    function Then(r: Replacement): Series {
      var p := r.At(|text|);
      if r.Records(text) then
        Series(r.Apply(text), p + |r.ins|, true, if recorded then undoAt else p, p)
      else
        this.(at := p)
    }
  }

  function AfterAll(t: seq<byte>, at: nat, rs: seq<Replacement>): (s: Series)
    requires at <= |t| && Terminated(t)
    ensures s.at <= |s.text| && Terminated(s.text) && s.redoAt <= |s.text| && s.undoAt <= |t|
    ensures !s.recorded ==> s.text == t
  {
    if rs == [] then Series(t, at, false, 0, 0) else AfterAll(t, at, rs[..|rs| - 1]).Then(rs[|rs| - 1])
  }

  function WithBranch(versions: seq<Version>, cur: nat, text: seq<byte>, undoAt: nat, redoAt: nat): seq<Version>
    requires cur < |versions|
  {
    versions[cur := versions[cur].(branches := versions[cur].branches + [|versions|])]
      + [Version(text, cur, [], undoAt, redoAt)]
  }

  function WithText(versions: seq<Version>, cur: nat, text: seq<byte>, redoAt: nat): seq<Version>
    requires cur < |versions|
  {
    versions[cur := versions[cur].(text := text, redoAt := redoAt)]
  }

  datatype Editor = Editor(versions: seq<Version>, cur: nat, at: nat, merge: Merge) {
    /** Every version but the first is a branch of an earlier one. */
    predicate Linked(v: nat)
      requires v < |versions|
    {
      && (v == 0 ==> versions[v].parent == 0)
      && (v > 0 ==> versions[v].parent < v && v in versions[versions[v].parent].branches)
      && forall b <- versions[v].branches :: v < b < |versions| && versions[b].parent == v
    }

    predicate Placed(v: nat)
      requires v < |versions| && versions[v].parent < |versions|
    {
      && Terminated(versions[v].text) && versions[v].redoAt <= |versions[v].text|
      && versions[v].undoAt <= |versions[versions[v].parent].text|
    }

    /** The next typed edit of the same kind goes into the current version. */
    predicate MayMerge()
      requires cur < |versions|
    {
      || merge == MergeInsert
      || (merge == MergeDelete && at < |versions[cur].text|)
      || (merge == MergeErase && at > 0)
    }

    predicate Valid() {
      && cur < |versions| && at <= |versions[cur].text|
      && (forall v :: 0 <= v < |versions| ==> Linked(v) && Placed(v))
      && (MayMerge() ==> cur > 0 && versions[cur].branches == [])
    }

    function Text(): (t: seq<byte>)
      requires Valid()
      ensures Terminated(t) && at <= |t|
    {
      assert Linked(cur) && Placed(cur);
      versions[cur].text
    }

    /** A new version, made from the current one. */
    function Branch(text: seq<byte>, undoAt: nat, redoAt: nat, at: nat, merge: Merge): (e: Editor)
      requires Valid() && Terminated(text) && redoAt <= |text| && at <= |text| && undoAt <= |Text()|
      ensures e.Valid() && e.Text() == text
    {
      var e := Editor(WithBranch(versions, cur, text, undoAt, redoAt), |versions|, at, merge);
      BranchIsValid(e, text, undoAt, redoAt);
      e
    }

    lemma BranchIsValid(e: Editor, text: seq<byte>, undoAt: nat, redoAt: nat)
      requires Valid() && Terminated(text) && redoAt <= |text| && e.at <= |text| && undoAt <= |Text()|
      requires e.versions == WithBranch(versions, cur, text, undoAt, redoAt) && e.cur == |versions|
      ensures e.Valid() && e.Text() == text
    {
      hide Terminated;
      forall v | 0 <= v < |e.versions| ensures e.Linked(v) && e.Placed(v) {
        if v < |versions| {
          assert Linked(v) && Placed(v);
        }
      }
    }

    /** The current version takes more in. */
    function Amend(text: seq<byte>, redoAt: nat, at: nat, merge: Merge): (e: Editor)
      requires Valid() && MayMerge() && Terminated(text) && redoAt <= |text| && at <= |text|
      ensures e.Valid() && e.Text() == text
    {
      var e := Editor(WithText(versions, cur, text, redoAt), cur, at, merge);
      AmendIsValid(e, text, redoAt);
      e
    }

    lemma AmendIsValid(e: Editor, text: seq<byte>, redoAt: nat)
      requires Valid() && MayMerge() && Terminated(text) && redoAt <= |text| && e.at <= |text|
      requires e.versions == WithText(versions, cur, text, redoAt) && e.cur == cur
      ensures e.Valid() && e.Text() == text
    {
      hide Terminated;
      forall v | 0 <= v < |e.versions| ensures e.Linked(v) && e.Placed(v) {
        assert Linked(v) && Placed(v);
        assert Linked(versions[v].parent);
      }
    }

    /** Another version becomes the current one. */
    function Visit(v: nat, at: nat, merge: Merge): (e: Editor)
      requires Valid() && v < |versions| && at <= |versions[v].text|
      requires !Editor(versions, v, at, merge).MayMerge()
      ensures e.Valid()
    {
      var e := Editor(versions, v, at, merge);
      assert forall v :: 0 <= v < |versions| ==> Linked(v) && Placed(v) ==> e.Linked(v) && e.Placed(v);
      e
    }

    function Typed(ch: seq<byte>): (e: Editor)
      requires Valid()
      ensures e.Valid()
    {
      var text := Edited(Text(), at, 0, ch);
      assert Linked(cur) && Placed(cur);
      if ch == [] then this
      else if merge == MergeInsert then Amend(text, versions[cur].redoAt, at + |ch|, MergeInsert)
      else Branch(text, at, at, at + |ch|, MergeInsert)
    }

    /** `size` bytes go at `p`; the cursor was there, or behind them if that is erasing. */
    function Removed(p: nat, size: nat, kind: Merge): (e: Editor)
      requires Valid() && p + size <= |Text()| && (kind == MergeDelete || kind == MergeErase)
      requires at == (if kind == MergeErase then p + size else p)
      requires size == 0 <==> at == (if kind == MergeErase then 0 else |Text()|)
      ensures e.Valid()
    {
      var text := Edited(Text(), p, size, []);
      if text == Text() then Visit(cur, p, if size == 0 then kind else MergeNone)
      else if merge == kind then Amend(text, p, p, kind)
      else Branch(text, at, p, p, kind)
    }

    lemma RemovedIs(p: nat, size: nat, kind: Merge)
      requires Valid() && p + size <= |Text()| && (kind == MergeDelete || kind == MergeErase)
      requires at == (if kind == MergeErase then p + size else p)
      requires size == 0 <==> at == (if kind == MergeErase then 0 else |Text()|)
      ensures var e, text := Removed(p, size, kind), Edited(Text(), p, size, []);
        && e.at == p
        && e.merge == (if text == Text() && size > 0 then MergeNone else kind)
        && e.cur == (if text == Text() || merge == kind then cur else |versions|)
        && e.versions == if text == Text() then versions
             else if merge == kind then WithText(versions, cur, text, p)
             else WithBranch(versions, cur, text, at, p)
      ensures size == 0 ==> Edited(Text(), p, size, []) == Text()
    {
      if size == 0 {
        NothingInserted(Text(), p, []);
      }
    }

    /** Part of one line, or one newline, in front of the cursor. */
    predicate MayErase(len: nat)
      requires Valid()
    {
      Erasable(Text(), at, len)
    }

    function Erased(len: nat): (e: Editor)
      requires Valid() && MayErase(len)
      ensures e.Valid()
    {
      Removed(at - len, len, MergeErase)
    }

    /** What an erasure does, and how much goes. */
    lemma ErasedIs(len: nat)
      requires Valid() && MayErase(len)
      ensures len <= at <= |Text()|
      ensures var e, text := Erased(len), Edited(Text(), at - len, len, []);
        && e.at == at - len
        && e.merge == (if text == Text() && len > 0 then MergeNone else MergeErase)
        && e.cur == (if text == Text() || merge == MergeErase then cur else |versions|)
        && e.versions == (if text == Text() then versions
             else if merge == MergeErase then WithText(versions, cur, text, at - len)
             else WithBranch(versions, cur, text, at, at - len))
        && (text != Text() ==> |text| == |Text()| - len)
        && (len == 0 ==> text == Text() && at == 0)
    {
      RemovedIs(at - len, len, MergeErase);
      if Edited(Text(), at - len, len, []) != Text() {
        RemovedSlice(Text(), at - len, len);
      }
    }

    /** A selection, or what is in front of the cursor, goes; undoing that leaves the cursor behind what comes back. */
    function ErasedAt(p: nat, len: nat): (e: Editor)
      requires Valid() && p + len <= |Text()|
      ensures e.Valid()
    {
      var text := Edited(Text(), p, len, []);
      if text == Text() then Visit(cur, p, MergeNone)
      else
        RemovedSlice(Text(), p, len);
        Branch(text, p + |Text()| - |text|, p, p, MergeNone)
    }

    lemma ErasedAtIs(p: nat, len: nat)
      requires Valid() && p + len <= |Text()|
      ensures var e, text := ErasedAt(p, len), Edited(Text(), p, len, []);
        && e.at == p && e.merge == MergeNone && |text| <= |Text()|
        && e.cur == (if text == Text() then cur else |versions|)
        && e.versions == if text == Text() then versions
             else WithBranch(versions, cur, text, p + |Text()| - |text|, p)
    {
      if Edited(Text(), p, len, []) != Text() {
        RemovedSlice(Text(), p, len);
      }
    }

    function Replaced(r: Replacement): (e: Editor)
      requires Valid()
      ensures e.Valid()
    {
      var p, text := r.At(|Text()|), r.Apply(Text());
      if r.Records(Text()) then Branch(text, p, p, p + |r.ins|, MergeNone) else Visit(cur, p, MergeNone)
    }

    function ReplacedAll(rs: seq<Replacement>): (e: Editor)
      requires Valid()
      ensures e.Valid()
    {
      var s := AfterAll(Text(), at, rs);
      if s.recorded then Branch(s.text, s.undoAt, s.redoAt, s.at, MergeNone) else Visit(cur, s.at, MergeNone)
    }

    function Undone(): (e: Editor)
      requires Valid()
      ensures e.Valid()
    {
      assert Linked(cur) && Placed(cur);
      if cur == 0 then Visit(0, at, MergeNone) else Visit(versions[cur].parent, versions[cur].undoAt, MergeNone)
    }

    /** Which branch is redone: the newest one, or the one with the given number, counted from 1. */
    function Choice(changeId: nat): (k: int)
      requires Valid()
      ensures -1 <= k < |versions[cur].branches|
    {
      var n := |versions[cur].branches|;
      if changeId == 0 then n - 1 else if changeId <= n then changeId - 1 else -1
    }

    function Redone(changeId: nat): (e: Editor)
      requires Valid()
      ensures e.Valid()
    {
      var k := Choice(changeId);
      if k < 0 then Visit(cur, at, MergeNone) else
        var b := versions[cur].branches[k];
        assert Linked(cur) && b in versions[cur].branches && Placed(b);
        Visit(b, versions[b].redoAt, MergeNone)
    }

    /** What one command does; sizes and places are cut down to what there is. */
    function Step(c: Command): (e: Editor)
      requires Valid()
      ensures e.Valid()
    {
      var size := |Text()|;
      match c
      case Type(ch) => Typed(ch)
      case Delete(n) => Removed(at, Clamp(n, size - at), MergeDelete)
      case Erase(n) => Erased(EraseSize(Text(), at, n))
      case EraseAt(to, n) => var r := Replacement(to, n, []); ErasedAt(r.At(size), r.Del(size))
      case Replace(r) => Replaced(r)
      case ReplaceAll(rs) => ReplacedAll(rs)
      case Move(to) => Visit(cur, if to < size then to else size, MergeNone)
      case Undo => Undone()
      case Redo(id) => Redone(id)
      case Draw(_, _) => this
    }

    /** What a script of commands does. */
    function Run(script: seq<Command>): (e: Editor)
      requires Valid()
      ensures e.Valid()
    {
      if script == [] then this else Run(script[..|script| - 1]).Step(script[|script| - 1])
    }

    /** Undoing until there is nothing left to undo. */
    function UndoneAll(): (e: Editor)
      requires Valid()
      ensures e.Valid() && e.cur == 0 && e.versions == versions && e.merge == MergeNone
      decreases cur
    {
      assert Linked(cur);
      if cur == 0 then Undone() else Undone().UndoneAll()
    }
  }

  // What each command does to the text and the cursor.

  /** A replacement takes out the bytes it names and puts its own in their place; the cursor ends behind them. */
  lemma ReplaceDoes(e: Editor, at: nat, del: nat, ins: seq<byte>)
    requires e.Valid() && at + del <= |e.Text()|
    ensures var f := e.Step(Replace(Replacement(at, del, ins)));
      f.Text() == Edited(e.Text(), at, del, ins) && f.at == at + |ins| && f.merge == MergeNone
  {
    hide Terminated, WithFinalNewline, Splice;
    PlaceWithin(Replacement(at, del, ins), |e.Text()|);
  }

  lemma PlaceWithin(r: Replacement, size: nat)
    requires r.at + r.del <= size
    ensures r.At(size) == r.at && r.Del(size) == r.del
  {
  }

  /** What lies outside of the text is cut off: a replacement behind the end is one at the end. */
  lemma ReplaceCutsOff(e: Editor, at: nat, del: nat, ins: seq<byte>)
    requires e.Valid()
    ensures var size := |e.Text()|;
      && (at <= size <= at + del ==>
            e.Step(Replace(Replacement(at, del, ins))) == e.Step(Replace(Replacement(at, size - at, ins))))
      && (at >= size ==> e.Step(Replace(Replacement(at, del, ins))) == e.Step(Replace(Replacement(size, 0, ins))))
  {
  }

  /** An erasure takes out the bytes it names. */
  lemma EraseAtDoes(e: Editor, at: nat, n: nat)
    requires e.Valid() && at + n <= |e.Text()|
    ensures var f := e.Step(EraseAt(at, n));
      f.Text() == Edited(e.Text(), at, n, []) && f.at == at && f.merge == MergeNone
  {
    hide Terminated, WithFinalNewline, Splice;
    PlaceWithin(Replacement(at, n, []), |e.Text()|);
  }

  lemma EraseAtCutsOff(e: Editor, at: nat, n: nat)
    requires e.Valid()
    ensures var size := |e.Text()|;
      && (at <= size <= at + n ==> e.Step(EraseAt(at, n)) == e.Step(EraseAt(at, size - at)))
      && (at >= size ==> e.Step(EraseAt(at, n)) == e.Step(EraseAt(size, 0)))
  {
  }

  /** A series without replacements leaves the text and the cursor alone; one more replacement is made on top. */
  lemma ReplaceAllDoes(e: Editor, rs: seq<Replacement>, at: nat, del: nat, ins: seq<byte>)
    requires e.Valid()
    ensures e.Step(ReplaceAll([])).Text() == e.Text() && e.Step(ReplaceAll([])).at == e.at
    ensures var u, f := e.Step(ReplaceAll(rs)).Text(), e.Step(ReplaceAll(rs + [Replacement(at, del, ins)]));
      at + del <= |u| ==> f.Text() == Edited(u, at, del, ins) && f.at == at + |ins|
  {
    hide Terminated, WithFinalNewline, Splice;
    var r := Replacement(at, del, ins);
    var s := AfterAll(e.Text(), e.at, rs);
    assert (rs + [r])[..|rs|] == rs;
    if at + del <= |s.text| {
      PlaceWithin(r, |s.text|);
    }
  }

  /** Deleting takes the bytes behind the cursor, as far as there are any, and at least one. */
  lemma DeleteDoes(e: Editor, n: nat)
    requires e.Valid()
    ensures e.Step(Delete(n)).at == e.at
    ensures 0 < n <= |e.Text()| - e.at ==> e.Step(Delete(n)).Text() == Edited(e.Text(), e.at, n, [])
    ensures n > |e.Text()| - e.at ==> e.Step(Delete(n)) == e.Step(Delete(|e.Text()| - e.at))
    ensures e.at < |e.Text()| ==> e.Step(Delete(0)) == e.Step(Delete(1))
    ensures e.at == |e.Text()| ==> e.Step(Delete(n)).Text() == e.Text()
  {
    hide Terminated, WithFinalNewline, Splice, Editor.Removed;
    var len := Clamp(n, |e.Text()| - e.at);
    e.RemovedIs(e.at, len, MergeDelete);
    e.RemovedIs(e.at, Clamp(0, |e.Text()| - e.at), MergeDelete);
  }

  /** Erasing takes the bytes in front of the cursor that are on its line, or else the newline there. */
  lemma EraseDoes(e: Editor, n: nat)
    requires e.Valid()
    ensures 0 < n <= e.at && (n == 1 || NL !in e.Text()[e.at - n..e.at]) ==>
      var f := e.Step(Erase(n)); f.Text() == Edited(e.Text(), e.at - n, n, []) && f.at == e.at - n
    ensures n > e.at ==> e.Step(Erase(n)) == e.Step(Erase(e.at))
    ensures e.at > 0 ==> e.Step(Erase(0)) == e.Step(Erase(1))
    ensures 0 < n <= e.at && NL in e.Text()[e.at - n..e.at] ==> e.Step(Erase(n)) == e.Step(Erase(1))
    ensures e.at == 0 ==> e.Step(Erase(n)).Text() == e.Text() && e.Step(Erase(n)).at == 0
  {
    hide Terminated, WithFinalNewline, Splice, Editor.Removed;
    var len := EraseSize(e.Text(), e.at, n);
    e.ErasedIs(len);
  }

  /** Moving leaves the text alone. */
  lemma MoveDoes(e: Editor, to: nat)
    requires e.Valid()
    ensures var f := e.Step(Move(to));
      && f.versions == e.versions && f.cur == e.cur && f.merge == MergeNone
      && f.at == if to <= |e.Text()| then to else |e.Text()|
  {
  }

  /** What a replacement is undone and redone to. */
  lemma ReplaceIsUndone(e: Editor, at: nat, del: nat, ins: seq<byte>)
    requires e.Valid() && at + del <= |e.Text()|
    requires ins != [] || Edited(e.Text(), at, del, ins) != e.Text()
    ensures var f := e.Step(Replace(Replacement(at, del, ins)));
      && f.cur == |e.versions| && f.Undone().cur == e.cur && f.Undone().Text() == e.Text()
      && f.Undone().Redone(0).cur == f.cur && f.Undone().Redone(0).Text() == f.Text()
      && f.Undone().at == f.Undone().Redone(0).at == at
  {
    hide Terminated, WithFinalNewline, Splice;
    PlaceWithin(Replacement(at, del, ins), |e.Text()|);
    BranchIsUndone(e, Edited(e.Text(), at, del, ins), at, at, at + |ins|, MergeNone);
  }

  /** A series is undone to the place of its first change, and redone to that of its last one. */
  lemma ReplaceAllIsUndone(e: Editor, rs: seq<Replacement>, at: nat, del: nat, ins: seq<byte>)
    requires e.Valid()
    ensures var g, f := e.Step(ReplaceAll(rs)), e.Step(ReplaceAll(rs + [Replacement(at, del, ins)]));
      at + del <= |g.Text()| && (ins != [] || Edited(g.Text(), at, del, ins) != g.Text()) ==>
        && f.cur == |e.versions| && f.Undone().cur == e.cur && f.Undone().Text() == e.Text()
        && f.Undone().at == (if g.cur == e.cur then at else g.Undone().at)
        && f.Undone().Redone(0).cur == f.cur && f.Undone().Redone(0).at == at
  {
    hide Terminated, WithFinalNewline, Splice;
    var r := Replacement(at, del, ins);
    var s, t := AfterAll(e.Text(), e.at, rs), AfterAll(e.Text(), e.at, rs + [r]);
    assert (rs + [r])[..|rs|] == rs;
    if at + del <= |s.text| && (ins != [] || Edited(s.text, at, del, ins) != s.text) {
      PlaceWithin(r, |s.text|);
      BranchIsUndone(e, t.text, t.undoAt, t.redoAt, t.at, MergeNone);
      if s.recorded {
        BranchIsUndone(e, s.text, s.undoAt, s.redoAt, s.at, MergeNone);
      }
    }
  }

  /** The branches of a version are numbered from 1, oldest first; without a number, the newest one is redone. */
  lemma RedoDoes(e: Editor, id: nat)
    requires e.Valid()
    ensures var f, bs := e.Step(Redo(id)), e.versions[e.cur].branches;
      && f.versions == e.versions && f.merge == MergeNone
      && (id == 0 && bs != [] ==> f.cur == bs[|bs| - 1])
      && (1 <= id <= |bs| ==> f.cur == bs[id - 1])
      && (id > |bs| || bs == [] ==> f.cur == e.cur && f.at == e.at)
  {
  }

  /** A new version is the newest branch of the one it was made from, behind all others. */
  lemma BranchIsNewest(e: Editor, text: seq<byte>, undoAt: nat, redoAt: nat, at: nat, merge: Merge)
    requires e.Valid() && Terminated(text) && redoAt <= |text| && at <= |text| && undoAt <= |e.Text()|
    ensures var f := e.Branch(text, undoAt, redoAt, at, merge);
      && f.cur == |e.versions| && |f.versions| == |e.versions| + 1
      && f.versions[e.cur].branches == e.versions[e.cur].branches + [f.cur]
      && (forall v :: 0 <= v < |e.versions| && v != e.cur ==> f.versions[v] == e.versions[v])
      && f.versions[e.cur].text == e.Text() && f.versions[f.cur].branches == []
  {
  }

  /** Typing puts the character in at the cursor, which ends behind it. */
  lemma TypeDoes(e: Editor, ch: seq<byte>)
    requires e.Valid()
    ensures var f := e.Step(Type(ch)); f.Text() == Edited(e.Text(), e.at, 0, ch) && f.at == e.at + |ch|
  {
    hide Terminated, WithFinalNewline, Splice;
    if ch == [] {
      NothingInserted(e.Text(), e.at, ch);
    }
  }

  /** An editor that has just been opened. */
  function Opened(text: seq<byte>, at: nat): (e: Editor)
    requires Terminated(text) && at <= |text|
    ensures e.Valid() && e.Text() == text
  {
    Editor([Version(text, 0, [], 0, 0)], 0, at, MergeNone)
  }

  lemma RunMore(e: Editor, script: seq<Command>, c: Command)
    requires e.Valid()
    ensures e.Run(script + [c]) == e.Run(script).Step(c)
  {
    assert (script + [c])[..|script|] == script;
  }

  lemma RunNone(e: Editor)
    requires e.Valid()
    ensures e.Run([]) == e
  {
  }

  /**
   * No version is ever lost or moved, and none gets another text but the one
   * that typed edits are going into.
   */
  ghost predicate Keeps(e: Editor, f: Editor)
    requires e.Valid() && f.Valid()
  {
    && |e.versions| <= |f.versions|
    && (forall v :: 0 <= v < |e.versions| ==>
          && e.versions[v].parent == f.versions[v].parent && e.versions[v].undoAt == f.versions[v].undoAt
          && e.versions[v].branches <= f.versions[v].branches
          && (e.versions[v].text == f.versions[v].text || (v == e.cur && e.MayMerge())))
    && (f.MayMerge() ==> f.cur >= |e.versions| || (f.cur == e.cur && e.MayMerge()))
  }

  lemma StepKeeps(e: Editor, c: Command)
    requires e.Valid()
    ensures Keeps(e, e.Step(c))
  {
    hide Terminated, WithFinalNewline, EraseSize, AfterAll, Edited, Editor.Removed;
    match c {
      case Delete(n) => RemovedKeeps(e, e.at, Clamp(n, |e.Text()| - e.at), MergeDelete);
      case Erase(n) =>
        var len := EraseSize(e.Text(), e.at, n);
        RemovedKeeps(e, e.at - len, len, MergeErase);
      case _ =>
    }
  }

  lemma RemovedKeeps(e: Editor, p: nat, size: nat, kind: Merge)
    requires e.Valid() && p + size <= |e.Text()| && (kind == MergeDelete || kind == MergeErase)
    requires e.at == (if kind == MergeErase then p + size else p)
    requires size == 0 <==> e.at == (if kind == MergeErase then 0 else |e.Text()|)
    ensures Keeps(e, e.Removed(p, size, kind))
  {
    hide Edited, Editor.Removed;
    e.RemovedIs(p, size, kind);
  }

  lemma {:induction false} RunKeeps(e: Editor, script: seq<Command>)
    requires e.Valid()
    ensures Keeps(e, e.Run(script))
  {
    if script != [] {
      hide Editor.Step;
      RunKeeps(e, script[..|script| - 1]);
      StepKeeps(e.Run(script[..|script| - 1]), script[|script| - 1]);
    }
  }

  // Every version can be gone back to.

  predicate IsWalk(script: seq<Command>) {
    forall c <- script :: c.Undo? || c.Redo?
  }

  function Undos(n: nat): (script: seq<Command>)
    ensures IsWalk(script)
  {
    if n == 0 then [] else Undos(n - 1) + [Undo]
  }

  lemma UndoneIsEarlier(e: Editor)
    requires e.Valid()
    ensures e.Step(Undo) == e.Undone() && e.Undone().versions == e.versions
    ensures if e.cur > 0 then e.Undone().cur < e.cur else e.Undone().cur == 0
  {
    assert e.Linked(e.cur);
  }

  lemma {:induction false} UndosLeadBack(e: Editor, n: nat)
    requires e.Valid()
    ensures var f := e.Run(Undos(n)); f.versions == e.versions && (f.cur == 0 || f.cur + n <= e.cur)
  {
    hide Editor.Valid, Editor.Step, Editor.Undone;
    if n > 0 {
      UndosLeadBack(e, n - 1);
      RunMore(e, Undos(n - 1), Undo);
      UndoneIsEarlier(e.Run(Undos(n - 1)));
    }
  }

  /** From every state, undoing and redoing lead to every version there is, and so to its text. */
  lemma {:induction false} EveryVersionIsReached(e: Editor, v: nat) returns (script: seq<Command>)
    requires e.Valid() && v < |e.versions|
    ensures IsWalk(script)
    ensures e.Run(script).versions == e.versions && e.Run(script).cur == v
    ensures e.Run(script).Text() == e.versions[v].text
    decreases v
  {
    if v == 0 {
      script := Undos(e.cur);
      UndosLeadBack(e, e.cur);
    } else {
      assert e.Linked(v);
      var u := e.versions[v].parent;
      var walk := EveryVersionIsReached(e, u);
      var k :| 0 <= k < |e.versions[u].branches| && e.versions[u].branches[k] == v;
      script := walk + [Redo(k + 1)];
      RunMore(e, walk, Redo(k + 1));
    }
  }

  /** An edit is undone to the text there was, and redoing the newest branch makes it again. */
  lemma BranchIsUndone(e: Editor, text: seq<byte>, undoAt: nat, redoAt: nat, at: nat, merge: Merge)
    requires e.Valid() && Terminated(text) && redoAt <= |text| && at <= |text| && undoAt <= |e.Text()|
    ensures var f := e.Branch(text, undoAt, redoAt, at, merge);
      && f.Undone().versions == f.versions
      && f.Undone().cur == e.cur && f.Undone().Text() == e.Text() && f.Undone().at == undoAt
      && f.Undone().Redone(0).cur == f.cur && f.Undone().Redone(0).Text() == text && f.Undone().Redone(0).at == redoAt
  {
  }

  /** Undoing an erasure leaves the cursor behind what was erased, which a final newline that stayed was not. */
  lemma ErasureIsUndone(e: Editor, p: nat, len: nat)
    requires e.Valid() && p + len <= |e.Text()| && e.ErasedAt(p, len).Text() != e.Text()
    ensures var f, stays := e.ErasedAt(p, len), p + len == |e.Text()| && p > 0 && e.Text()[p - 1] != NL;
      && f.cur == |e.versions| && f.Undone().cur == e.cur && f.Undone().Text() == e.Text()
      && f.Undone().at == p + len - (if stays then 1 else 0)
      && f.Undone().Redone(0).cur == f.cur && f.Undone().Redone(0).at == f.at == p
  {
    hide Terminated, WithFinalNewline, Splice;
    var text := Edited(e.Text(), p, len, []);
    RemovedSlice(e.Text(), p, len);
    BranchIsUndone(e, text, p + |e.Text()| - |text|, p, p, MergeNone);
    KeptNewline(e.Text(), p, len);
  }

  lemma KeptNewline(t: seq<byte>, p: nat, len: nat)
    requires Terminated(t) && p + len <= |t| && 0 < len
    ensures var stays := p + len == |t| && p > 0 && t[p - 1] != NL;
      |Edited(t, p, len, [])| == |t| - len + if stays then 1 else 0
  {
    hide Terminated, Splice;
    DeletionEnds(t, p, len);
    DeletionShrinks(t, p, len);
  }

  /** Whatever version an undo leads away from, one of the redos there leads back to it. */
  lemma UndoIsRedone(e: Editor) returns (changeId: nat)
    requires e.Valid() && e.cur > 0
    ensures e.Undone().Redone(changeId).cur == e.cur && e.Undone().Redone(changeId).Text() == e.Text()
  {
    assert e.Linked(e.cur);
    var u := e.versions[e.cur].parent;
    var k :| 0 <= k < |e.versions[u].branches| && e.versions[u].branches[k] == e.cur;
    changeId := k + 1;
  }

  /** Wherever a redo leads, one undo leads back. */
  lemma RedoIsUndone(e: Editor, changeId: nat)
    requires e.Valid() && e.Choice(changeId) >= 0
    ensures e.Redone(changeId).Undone().cur == e.cur && e.Redone(changeId).Undone().Text() == e.Text()
  {
    assert e.Linked(e.cur) && e.versions[e.cur].branches[e.Choice(changeId)] in e.versions[e.cur].branches;
  }

  // Typed edits in a row are one version.

  function Concat(chars: seq<seq<byte>>): seq<byte> {
    if chars == [] then [] else Concat(chars[..|chars| - 1]) + chars[|chars| - 1]
  }

  /** The text after typing `chars` one after the other at `at`. */
  function TypedText(t: seq<byte>, at: nat, chars: seq<seq<byte>>): (u: seq<byte>)
    requires at <= |t| && Terminated(t)
    ensures Terminated(u) && at + |Concat(chars)| <= |u|
  {
    if chars == [] then t else
      var init := chars[..|chars| - 1];
      Edited(TypedText(t, at, init), at + |Concat(init)|, 0, chars[|chars| - 1])
  }

  function Typing(chars: seq<seq<byte>>): seq<Command> {
    seq(|chars|, i requires 0 <= i < |chars| => Type(chars[i]))
  }

  lemma TypingMore(chars: seq<seq<byte>>, ch: seq<byte>)
    ensures Typing(chars + [ch]) == Typing(chars) + [Type(ch)]
    ensures Typing([]) == []
  {
  }

  lemma TypedMerges(e: Editor, ch: seq<byte>)
    requires e.Valid() && ch != []
    ensures e.Step(Type(ch)) == e.Typed(ch) && e.Typed(ch).merge == MergeInsert
  {
  }

  /** A new version that takes more in is a new version with more in it. */
  lemma BranchThenText(e: Editor, f: Editor, text: seq<byte>, more: seq<byte>, undoAt: nat, redoAt: nat, again: nat)
    requires e.cur < |e.versions| && f.cur == |e.versions|
    requires f.versions == WithBranch(e.versions, e.cur, text, undoAt, redoAt)
    ensures WithText(f.versions, f.cur, more, again) == WithBranch(e.versions, e.cur, more, undoAt, again)
  {
  }

  lemma TypingGoesOn(e: Editor, f: Editor, text: seq<byte>, at: nat, ch: seq<byte>)
    requires e.Valid() && Terminated(text) && e.at <= at <= |text| && ch != []
    requires f == e.Branch(text, e.at, e.at, at, MergeInsert)
    ensures e.at <= |Edited(text, at, 0, ch)|
    ensures f.Typed(ch) == e.Branch(Edited(text, at, 0, ch), e.at, e.at, at + |ch|, MergeInsert)
  {
    BranchThenText(e, f, text, Edited(text, at, 0, ch), e.at, e.at, e.at);
  }

  lemma {:induction false} TypingIsOneVersion(e: Editor, chars: seq<seq<byte>>)
    requires e.Valid() && e.merge != MergeInsert
    requires chars != [] && forall i :: 0 <= i < |chars| ==> chars[i] != []
    ensures e.Run(Typing(chars)) ==
      e.Branch(TypedText(e.Text(), e.at, chars), e.at, e.at, e.at + |Concat(chars)|, MergeInsert)
    decreases |chars|
  {
    hide Editor.Valid, Terminated, WithFinalNewline, Splice;
    var n := |chars| - 1;
    var init, script := chars[..n], Typing(chars);
    assert script[..n] == Typing(init) && script[n] == Type(chars[n]);
    var text, at := TypedText(e.Text(), e.at, init), e.at + |Concat(init)|;
    if n == 0 {
      assert text == e.Text() && at == e.at && e.Run(Typing(init)) == e;
    } else {
      TypingIsOneVersion(e, init);
      TypingGoesOn(e, e.Run(Typing(init)), text, at, chars[n]);
    }
  }

  /** Typing characters one by one is inserting them all at once, even where a final newline is forced. */
  lemma {:induction false} TypedIsInserted(t: seq<byte>, at: nat, chars: seq<seq<byte>>)
    requires at <= |t| && Terminated(t) && chars != []
    requires at < |t| || NL !in Concat(chars)
    ensures TypedText(t, at, chars) == Edited(t, at, 0, Concat(chars))
    decreases |chars|
  {
    hide Splice, WithFinalNewline, Terminated, Edited;
    var n := |chars| - 1;
    var init, ch := chars[..n], chars[n];
    var c := Concat(init);
    assert Concat(chars) == c + ch;
    if n == 0 {
      assert c == [] && Concat(chars) == ch && at + |c| == at;
    } else {
      TypedIsInserted(t, at, init);
      InsertTwice(t, at, c, ch);
    }
  }

  lemma InsertTwice(t: seq<byte>, at: nat, a: seq<byte>, b: seq<byte>)
    requires at <= |t| && Terminated(t) && (at < |t| || NL !in a + b)
    ensures Edited(Edited(t, at, 0, a), at + |a|, 0, b) == Edited(t, at, 0, a + b)
  {
    if at < |t| {
      EditShortOfEnd(t, at, 0, a);
      assert Splice(Splice(t, at, 0, a), at + |a|, 0, b) == Splice(t, at, 0, a + b);
    } else {
      AppendTwice(t, a, b);
    }
  }

  lemma AppendTwice(t: seq<byte>, a: seq<byte>, b: seq<byte>)
    requires Terminated(t) && NL !in a + b
    ensures Edited(Edited(t, |t|, 0, a), |t| + |a|, 0, b) == Edited(t, |t|, 0, a + b)
  {
    hide Edited, Terminated;
    AppendedLine(t, a);
    AppendedLine(t, a + b);
    if a == [] {
      assert a + b == b;
    } else {
      assert t + a + b == t + (a + b);
      PutBeforeNewline(t + a, b);
    }
  }

  lemma PutBeforeNewline(t: seq<byte>, s: seq<byte>)
    ensures Edited(t + [NL], |t|, 0, s) == t + s + [NL]
  {
    assert Splice(t + [NL], |t|, 0, s) == t + s + [NL];
  }

  lemma AppendedLine(t: seq<byte>, a: seq<byte>)
    requires Terminated(t) && NL !in a
    ensures Edited(t, |t|, 0, a) == if a == [] then t else t + a + [NL]
  {
    assert Splice(t, |t|, 0, a) == t + a;
    if a != [] {
      assert a[|a| - 1] in a && (t + a)[|t + a| - 1] == a[|a| - 1];
    }
  }

  /** A deletion that changes the text takes away one slice of it, but maybe not the final newline. */
  lemma RemovedSlice(t: seq<byte>, p: nat, size: nat)
    requires Terminated(t) && p + size <= |t| && Edited(t, p, size, []) != t
    ensures 0 < |t| - |Edited(t, p, size, [])| <= size
    ensures Edited(t, p, size, []) == Splice(t, p, |t| - |Edited(t, p, size, [])|, [])
    ensures (size > 1 ==> NL !in t[p..p + size]) ==> |Edited(t, p, size, [])| == |t| - size
  {
    if size == 0 {
      NothingInserted(t, p, []);
    } else {
      DeletionEnds(t, p, size);
      DeletionShrinks(t, p, size);
      if size > 1 && NL !in t[p..p + size] {
        assert t[p..p + size][size - 1] != NL;
      }
    }
  }

  function Removal(size: nat, erase: bool): Command {
    if erase then Erase(size) else Delete(size)
  }

  function Removing(sizes: seq<nat>, erase: bool): seq<Command> {
    seq(|sizes|, i requires 0 <= i < |sizes| => Removal(sizes[i], erase))
  }

  /** Every one of these removals changes the text. */
  predicate AllRemove(e: Editor, sizes: seq<nat>, erase: bool)
    requires e.Valid()
  {
    sizes == [] || (
      var init := sizes[..|sizes| - 1];
      && AllRemove(e, init, erase)
      && e.Run(Removing(sizes, erase)).Text() != e.Run(Removing(init, erase)).Text())
  }

  /** `f` is `e` with one slice of the text gone: behind the cursor, or in front of it if that was erased. */
  predicate Shorter(e: Editor, f: Editor, erase: bool)
    requires e.Valid() && f.Valid()
  {
    var gone := |e.Text()| - |f.Text()|;
    && 0 < gone && e.at == (if erase then f.at + gone else f.at) && f.at + gone <= |e.Text()|
    && f.Text() == Splice(e.Text(), f.at, gone, [])
    && f == e.Branch(f.Text(), e.at, f.at, f.at, if erase then MergeErase else MergeDelete)
  }

  /** Deletions, or erasures, in a row that all change the text are one version, with one slice of the text gone. */
  lemma {:induction false} RemovingIsOneVersion(e: Editor, sizes: seq<nat>, erase: bool)
    requires e.Valid() && e.merge != (if erase then MergeErase else MergeDelete)
    requires sizes != [] && AllRemove(e, sizes, erase)
    ensures Shorter(e, e.Run(Removing(sizes, erase)), erase)
    decreases |sizes|
  {
    hide Editor.Valid, Terminated, WithFinalNewline, Splice, Shorter, Editor.Step;
    var n := |sizes| - 1;
    var init := sizes[..n];
    var f := e.Run(Removing(init, erase));
    RemovingMore(init, sizes[n], erase);
    assert sizes == init + [sizes[n]];
    RunMore(e, Removing(init, erase), Removal(sizes[n], erase));
    if n == 0 {
      assert f == e;
      FirstRemoved(e, sizes[n], erase);
    } else {
      RemovingIsOneVersion(e, init, erase);
      RemovingGoesOn(e, f, sizes[n], erase);
    }
  }

  /** What one removal that changes the text does. */
  lemma RemovalIs(e: Editor, size: nat, erase: bool)
    requires e.Valid() && e.Step(Removal(size, erase)).Text() != e.Text()
    ensures var f, kind := e.Step(Removal(size, erase)), if erase then MergeErase else MergeDelete;
      var gone := |e.Text()| - |f.Text()|;
      && 0 < gone && f.at + gone <= |e.Text()| && e.at == (if erase then f.at + gone else f.at)
      && f.Text() == Splice(e.Text(), f.at, gone, []) && f.merge == kind
      && f.cur == (if e.merge == kind then e.cur else |e.versions|)
      && f.versions == if e.merge == kind then WithText(e.versions, e.cur, f.Text(), f.at)
           else WithBranch(e.versions, e.cur, f.Text(), e.at, f.at)
  {
    hide Terminated, WithFinalNewline, Splice, Editor.Removed, EraseSize;
    var len := if erase then EraseSize(e.Text(), e.at, size) else Clamp(size, |e.Text()| - e.at);
    var p := if erase then e.at - len else e.at;
    e.RemovedIs(p, len, if erase then MergeErase else MergeDelete);
    RemovedSlice(e.Text(), p, len);
  }

  lemma NoneRemoved(e: Editor, erase: bool)
    requires e.Valid()
    ensures forall sizes: seq<nat> :: sizes == [] ==> AllRemove(e, sizes, erase) && e.Run(Removing(sizes, erase)) == e
  {
  }

  /** Whether anything was removed can be seen from the size of the text. */
  lemma RemovalShows(e: Editor, size: nat, erase: bool)
    requires e.Valid()
    ensures var f := e.Step(Removal(size, erase)); |f.Text()| == |e.Text()| <==> f.Text() == e.Text()
  {
    hide Editor.Step, Editor.Valid, Splice;
    if e.Step(Removal(size, erase)).Text() != e.Text() {
      RemovalIs(e, size, erase);
    }
  }

  lemma NothingRemoved(e: Editor, size: nat, erase: bool)
    requires e.Valid() && e.Step(Removal(size, erase)).Text() == e.Text()
    ensures e.Step(Removal(size, erase)).versions == e.versions && e.Step(Removal(size, erase)).cur == e.cur
  {
    hide Terminated, WithFinalNewline, Splice, Editor.Removed, EraseSize;
    var len := if erase then EraseSize(e.Text(), e.at, size) else Clamp(size, |e.Text()| - e.at);
    e.RemovedIs(if erase then e.at - len else e.at, len, if erase then MergeErase else MergeDelete);
  }

  lemma OneMoreRemoved(e: Editor, sizes: seq<nat>, n: nat, erase: bool)
    requires e.Valid() && AllRemove(e, sizes, erase)
    ensures e.Run(Removing(sizes + [n], erase)) == e.Run(Removing(sizes, erase)).Step(Removal(n, erase))
    ensures var f := e.Run(Removing(sizes, erase));
      AllRemove(e, sizes + [n], erase) <==> f.Step(Removal(n, erase)).Text() != f.Text()
  {
    hide Editor.Valid, Editor.Step, Removing;
    assert (sizes + [n])[..|sizes|] == sizes;
    RemovingMore(sizes, n, erase);
    RunMore(e, Removing(sizes, erase), Removal(n, erase));
  }

  /** A row of removals is undone as a whole. */
  lemma RemovedIsUndone(e: Editor, f: Editor, g: Editor, erase: bool)
    requires e.Valid() && f.Valid() && g.Valid() && Shorter(e, f, erase)
    requires g.versions == f.versions && g.cur == f.cur
    ensures g.Undone().versions == f.versions && g.Undone().cur == e.cur && g.Undone().Text() == e.Text()
    ensures g.Undone().at == e.at && g.Undone().Redone(0).cur == f.cur && g.Undone().Redone(0).Text() == f.Text()
  {
    hide Terminated, Splice;
    BranchIsUndone(e, f.Text(), e.at, f.at, f.at, f.merge);
  }

  lemma FirstRemoved(e: Editor, size: nat, erase: bool)
    requires e.Valid() && e.merge != (if erase then MergeErase else MergeDelete)
    requires e.Step(Removal(size, erase)).Text() != e.Text()
    ensures Shorter(e, e.Step(Removal(size, erase)), erase)
  {
    hide Terminated, WithFinalNewline, Splice, Editor.Step;
    RemovalIs(e, size, erase);
  }

  lemma RemovingGoesOn(e: Editor, f: Editor, size: nat, erase: bool)
    requires e.Valid() && f.Valid() && Shorter(e, f, erase)
    requires f.Step(Removal(size, erase)).Text() != f.Text()
    ensures Shorter(e, f.Step(Removal(size, erase)), erase)
  {
    hide Terminated, WithFinalNewline, Splice, Editor.Step;
    RemovalIs(f, size, erase);
    var g, gone := f.Step(Removal(size, erase)), |e.Text()| - |f.Text()|;
    BranchThenText(e, f, f.Text(), g.Text(), e.at, f.at, g.at);
    SpliceAgain(e.Text(), f.at, gone, g.at, |f.Text()| - |g.Text()|);
  }

  lemma SpliceAgain(t: seq<byte>, p: nat, gone: nat, q: nat, n: nat)
    requires p + gone <= |t| && q <= p <= q + n <= |t| - gone
    ensures Splice(Splice(t, p, gone, []), q, n, []) == Splice(t, q, gone + n, [])
  {
  }

  lemma RemovingMore(sizes: seq<nat>, n: nat, erase: bool)
    ensures Removing(sizes + [n], erase) == Removing(sizes, erase) + [Removal(n, erase)]
    ensures Removing([], erase) == []
  {
  }
}
