/** Searching, and what recorded searches do when they are replayed. */
module Searching {
  import opened Bytes
  import opened CommandSyntax
  import M = Macro

  function Code(c: char): byte
    requires c as int < 128
  {
    c as int as byte
  }

  function Ascii(t: string): (s: seq<byte>)
    requires forall i :: 0 <= i < |t| ==> t[i] as int < 128
    ensures |s| == |t| && forall i :: 0 <= i < |s| ==> s[i] as int == t[i] as int
  {
    seq(|t|, i requires 0 <= i < |t| => Code(t[i]))
  }

  // Flags

  const MAX_FLAGS: nat := 14
  const SEARCH_FLAGS: seq<byte> := Ascii("Haceilnprswx")
  const PLAIN_FLAGS: seq<byte> := Ascii("nprHx")

  /** The flags of a command in the order given, and its other arguments. */
  datatype Parsed = Parsed(flags: seq<byte>, args: seq<seq<byte>>) {
    predicate Has(c: char)
      requires c as int < 128
    {
      Code(c) in flags
    }
  }

  predicate IsFlags(arg: seq<byte>) {
    |arg| > 1 && arg[0] == Code('-')
  }

  predicate AllIn(s: seq<byte>, all: seq<byte>) {
    forall c :: c in s ==> c in all
  }

  /** Flags may stand anywhere in front of an argument `--`, which goes; no flag here has an argument. */
  function ParseFlags(desc: seq<byte>, args: seq<seq<byte>>): Option<Parsed> {
    if args == [] then Some(Parsed([], []))
    else if args[0] == Ascii("--") then Some(Parsed([], args[1..]))
    else if !IsFlags(args[0]) then
      match ParseFlags(desc, args[1..])
      case None => None
      case Some(p) => Some(Parsed(p.flags, [args[0]] + p.args))
    else if !AllIn(args[0][1..], desc) then None
    else
      match ParseFlags(desc, args[1..])
      case None => None
      case Some(p) => Some(Parsed(args[0][1..] + p.flags, p.args))
  }

  predicate FewFlags(p: Parsed) {
    |p.flags| < MAX_FLAGS
  }

  /** The last of two flags that is given, or 0. */
  function Winning(flags: seq<byte>, a: byte, b: byte): (w: byte)
    ensures w == 0 || w == a || w == b
  {
    if flags == [] then 0
    else if flags[|flags| - 1] == a || flags[|flags| - 1] == b then flags[|flags| - 1]
    else Winning(flags[..|flags| - 1], a, b)
  }

  // What is searched for

  /** A search that was carried out: for which pattern, if there was one, and in which direction. */
  datatype Move = Move(pattern: Option<seq<byte>>, backwards: bool)

  /** The state of searching, the patterns reported to the history, and the searches made. */
  datatype Search = Search(
    pattern: Option<seq<byte>>,
    reverse: bool,
    history: seq<seq<byte>>,
    moves: seq<Move>)
  {
    function Toggled(): Search {
      this.(reverse := !reverse)
    }

    function Next(): Search {
      this.(moves := moves + [Move(pattern, reverse)])
    }

    function Previous(): Search {
      Toggled().Next().Toggled()
    }

    function For(text: seq<byte>, addToHistory: bool): Search {
      this.(pattern := Some(text), history := if addToHistory then history + [text] else history)
    }

    /** The search mode is left with some text, or none to search again. */
    function Accepted(text: seq<byte>, addToHistory: bool): Search {
      (if text == [] then this else For(text, addToHistory)).Next()
    }

    /** What is recorded when it is. */
    function Event(text: seq<byte>, addToHistory: bool): M.Event {
      if text == [] then M.SearchAgain(reverse) else M.Search(text, reverse, addToHistory)
    }

    /** The command `search`, as far as it does not take its pattern or its options from somewhere else. */
    function Command(p: Parsed): Option<Search> {
      var np := Winning(p.flags, Code('n'), Code('p'));
      if |p.args| > 1 || (np != 0 && p.args != []) || !AllIn(p.flags, PLAIN_FLAGS) then None else
        var s := this.(reverse := p.Has('r'));
        if np == Code('n') then Some(s.Next())
        else if np == Code('p') then Some(s.Previous())
        else if p.args == [] then Some(s)
        else
          var t := s.For(p.args[0], !p.Has('H'));
          Some(if p.Has('x') then t else t.Next())
    }

    /** A line of a macro: a search, if it is one. */
    function Performed(words: seq<seq<byte>>): Option<Search> {
      if words == [] || words[0] != Ascii("search") then None else
        match ParseFlags(SEARCH_FLAGS, words[1..])
        case None => None
        case Some(p) => if FewFlags(p) then Command(p) else None
    }

    /** All but the direction. */
    predicate SameBut(s: Search) {
      s.(reverse := reverse) == this
    }
  }

  /** The command `insert`: text put in as if it was typed, or as it is, with the cursor moving behind it or not. */
  datatype Insertion = Keys(text: seq<byte>) | Text(text: seq<byte>, moveAfter: bool)

  function InsertionOf(words: seq<seq<byte>>): Option<Insertion> {
    if words == [] || words[0] != Ascii("insert") then None else
      match ParseFlags(Ascii("km"), words[1..])
      case None => None
      case Some(p) =>
        if |p.args| != 1 || !FewFlags(p) then None
        else if p.Has('k') then Some(Keys(p.args[0]))
        else Some(Text(p.args[0], p.Has('m')))
  }

  // What is recorded does the same when it is replayed.

  lemma Names()
    ensures M.SEARCH == Ascii("search") && M.INSERT == Ascii("insert") && M.NO_FLAGS == Ascii("--")
    ensures M.FLAG_R == [Code('-'), Code('r')] && M.FLAG_H == [Code('-'), Code('H')]
    ensures M.FLAG_N == [Code('-'), Code('n')] && M.FLAG_P == [Code('-'), Code('p')]
    ensures M.FLAG_K == [Code('-'), Code('k')] && M.FLAG_M == [Code('-'), Code('m')]
  {
  }

  /** Text behind its guard is not taken for a flag. */
  lemma GuardedText(desc: seq<byte>, text: seq<byte>)
    ensures ParseFlags(desc, M.Guard(text) + [text]) == Some(Parsed([], [text]))
  {
    Names();
    var args := M.Guard(text) + [text];
    if text != [] && text[0] == 45 {
      assert args[0] == Ascii("--") && args[1..] == [text];
    } else {
      assert args == [text] && args[1..] == [];
      assert [text] + [] == [text];
      assert text != Ascii("--");
    }
  }

  /** A flag in front of other arguments. */
  lemma OneFlag(desc: seq<byte>, c: byte, args: seq<seq<byte>>)
    requires c in desc && c != Code('-') && ParseFlags(desc, args).Some?
    ensures ParseFlags(desc, [[Code('-'), c]] + args)
      == Some(Parsed([c] + ParseFlags(desc, args).value.flags, ParseFlags(desc, args).value.args))
  {
    var all := [[Code('-'), c]] + args;
    assert all[1..] == args && all[0][1..] == [c];
    assert Ascii("--")[1] == Code('-') && all[0][1] == c;
  }

  lemma InsertionIsReplayed(text: seq<byte>)
    ensures InsertionOf(M.Typed(text).Args()) == Some(Keys(text))
    ensures InsertionOf(M.Inserted(text).Args()) == Some(Text(text, true))
  {
    Names();
    var desc, rest := Ascii("km"), M.Guard(text) + [text];
    assert desc[0] == Code('k') && desc[1] == Code('m');
    InsertArgs(text);
    GuardedText(desc, text);
    hide ParseFlags, M.Guard, M.Event.Args, Ascii;
    OneFlag(desc, Code('k'), rest);
    OneFlag(desc, Code('m'), rest);
    assert [Code('k')] + [] == [Code('k')] && [Code('m')] + [] == [Code('m')];
  }

  lemma InsertArgs(text: seq<byte>)
    ensures var a, b, rest := M.Typed(text).Args(), M.Inserted(text).Args(), M.Guard(text) + [text];
      && a != [] && a[0] == M.INSERT && a[1..] == [M.FLAG_K] + rest
      && b != [] && b[0] == M.INSERT && b[1..] == [M.FLAG_M] + rest
  {
  }

  lemma SearchFlags()
    ensures Code('H') in SEARCH_FLAGS && Code('n') in SEARCH_FLAGS
    ensures Code('p') in SEARCH_FLAGS && Code('r') in SEARCH_FLAGS
    ensures var a := PLAIN_FLAGS; Code('n') in a && Code('p') in a && Code('r') in a && Code('H') in a
  {
    var a := PLAIN_FLAGS;
    assert SEARCH_FLAGS[0] == Code('H') && SEARCH_FLAGS[6] == Code('n') && SEARCH_FLAGS[7] == Code('p');
    assert SEARCH_FLAGS[8] == Code('r');
    assert a[0] == Code('n') && a[1] == Code('p') && a[2] == Code('r') && a[3] == Code('H');
  }

  lemma MaybeFlag(desc: seq<byte>, given: bool, c: byte, args: seq<seq<byte>>, p: Parsed)
    requires c in desc && c != Code('-') && ParseFlags(desc, args) == Some(p)
    ensures ParseFlags(desc, (if given then [[Code('-'), c]] else []) + args)
      == Some(Parsed((if given then [c] else []) + p.flags, p.args))
  {
    if given {
      OneFlag(desc, c, args);
    } else {
      assert [] + args == args && [] + p.flags == p.flags;
    }
  }

  lemma SearchArgs(text: seq<byte>, reverse: bool, addToHistory: bool)
    ensures var args := M.Search(text, reverse, addToHistory).Args();
      && args != [] && args[0] == M.SEARCH
      && args[1..] == (if reverse then [M.FLAG_R] else [])
           + ((if addToHistory then [] else [M.FLAG_H]) + (M.Guard(text) + [text]))
  {
  }

  /** What the recorded line of a search for some text is taken for. */
  lemma SearchFlagsOf(text: seq<byte>, reverse: bool, addToHistory: bool)
    ensures var args := M.Search(text, reverse, addToHistory).Args();
      && args != [] && args[0] == Ascii("search")
      && ParseFlags(SEARCH_FLAGS, args[1..])
           == Some(Parsed((if reverse then [Code('r')] else []) + (if addToHistory then [] else [Code('H')]), [text]))
  {
    Names();
    SearchFlags();
    SearchArgs(text, reverse, addToHistory);
    hide SEARCH_FLAGS, ParseFlags, M.Event.Args, M.Guard, Ascii;
    GuardedText(SEARCH_FLAGS, text);
    var rest, p := M.Guard(text) + [text], Parsed([], [text]);
    MaybeFlag(SEARCH_FLAGS, !addToHistory, Code('H'), rest, p);
    var h := if addToHistory then [] else [Code('H')];
    assert h + [] == h;
    MaybeFlag(SEARCH_FLAGS, reverse, Code('r'), (if addToHistory then [] else [M.FLAG_H]) + rest, Parsed(h, [text]));
  }

  lemma AgainFlagsOf(reverse: bool)
    ensures M.SearchAgain(reverse).Args() != [] && M.SearchAgain(reverse).Args()[0] == Ascii("search")
    ensures ParseFlags(SEARCH_FLAGS, M.SearchAgain(reverse).Args()[1..])
      == Some(Parsed([if reverse then Code('p') else Code('n')], []))
  {
    Names();
    SearchFlags();
    hide SEARCH_FLAGS;
    var c := if reverse then Code('p') else Code('n');
    OneFlag(SEARCH_FLAGS, c, []);
    assert M.SearchAgain(reverse).Args()[1..] == [[Code('-'), c]] + [];
    assert [c] + [] == [c];
  }

  lemma {:induction false} NothingWins(flags: seq<byte>, a: byte, b: byte)
    requires a !in flags && b !in flags
    ensures Winning(flags, a, b) == 0
  {
    if flags != [] {
      assert flags[|flags| - 1] in flags && forall c :: c in flags[..|flags| - 1] ==> c in flags;
      NothingWins(flags[..|flags| - 1], a, b);
    }
  }

  /** The command with the flags of a recorded search. */
  lemma SearchCommand(t: Search, text: seq<byte>, reverse: bool, addToHistory: bool)
    ensures var flags := (if reverse then [Code('r')] else []) + (if addToHistory then [] else [Code('H')]);
      && FewFlags(Parsed(flags, [text]))
      && t.Command(Parsed(flags, [text])) == Some(t.(reverse := reverse).For(text, addToHistory).Next())
  {
    SearchFlags();
    hide PLAIN_FLAGS, Ascii, SEARCH_FLAGS;
    var flags := (if reverse then [Code('r')] else []) + (if addToHistory then [] else [Code('H')]);
    assert forall c :: c in flags <==> (reverse && c == Code('r')) || (!addToHistory && c == Code('H'));
    assert Code('x') !in flags;
    NothingWins(flags, Code('n'), Code('p'));
    hide Winning;
  }

  lemma AgainCommand(t: Search, reverse: bool)
    ensures var p := Parsed([if reverse then Code('p') else Code('n')], []);
      && FewFlags(p)
      && t.Command(p) == Some(t.(reverse := false, moves := t.moves + [Move(t.pattern, reverse)]))
  {
    SearchFlags();
  }

  // Whole runs

  /** What the user does that has to do with searching. */
  datatype Step =
    | Toggle
    | Accept(text: seq<byte>, addToHistory: bool)
    | Run(args: seq<seq<byte>>)

  /** What a step does; a command line that is no search is left out. */
  function Done(s: Search, step: Step): Search {
    match step
    case Toggle => s.Toggled()
    case Accept(text, add) => s.Accepted(text, add)
    case Run(args) => var t := s.Performed([Ascii("search")] + args); if t.Some? then t.value else s
  }

  function AllDone(s: Search, steps: seq<Step>): Search {
    if steps == [] then s else Done(AllDone(s, steps[..|steps| - 1]), steps[|steps| - 1])
  }

  /** A search without a pattern and without -n, -p and -w only begins the search mode, and is not recorded. */
  predicate Recordable(args: seq<seq<byte>>) {
    match ParseFlags(SEARCH_FLAGS, args)
    case None => true
    case Some(p) => !FewFlags(p) || p.args != [] || p.Has('n') || p.Has('p') || p.Has('w')
  }

  function Recorded(s: Search, step: Step): seq<M.Event> {
    match step
    case Toggle => []
    case Accept(text, add) => [s.Event(text, add)]
    case Run(args) => if Recordable(args) then [M.Command(Ascii("search"), args)] else []
  }

  function AllRecorded(s: Search, steps: seq<Step>): seq<M.Event> {
    if steps == [] then []
    else
      var init := steps[..|steps| - 1];
      AllRecorded(s, init) + Recorded(AllDone(s, init), steps[|steps| - 1])
  }

  /** Replaying the words of each line. */
  function Replayed(s: Search, events: seq<M.Event>): Search {
    if events == [] then s else
      var t := Replayed(s, events[..|events| - 1]);
      var u := t.Performed(events[|events| - 1].Args());
      if u.Some? then u.value else t
  }

  lemma ReplayedOneMore(s: Search, events: seq<M.Event>, e: M.Event)
    ensures Replayed(s, events + [e]) ==
      var u := Replayed(s, events).Performed(e.Args()); if u.Some? then u.value else Replayed(s, events)
  {
    assert (events + [e])[..|events|] == events;
  }

  lemma NotRecordedIsNoMove(s: Search, args: seq<seq<byte>>)
    requires !Recordable(args)
    ensures Done(s, Run(args)).SameBut(s)
  {
    assert ([Ascii("search")] + args)[1..] == args;
    var p := ParseFlags(SEARCH_FLAGS, args).value;
    NothingWins(p.flags, Code('n'), Code('p'));
  }

  /** A command does the same whatever direction there was before. */
  lemma CommandsAgree(s: Search, t: Search, args: seq<seq<byte>>)
    requires t.SameBut(s)
    ensures Done(t, Run(args)).SameBut(Done(s, Run(args)))
  {
    hide ParseFlags, Winning;
  }

  lemma StepIsReplayed(s: Search, t: Search, events: seq<M.Event>, step: Step)
    requires Replayed(t, events).SameBut(s)
    ensures Replayed(t, events + Recorded(s, step)).SameBut(Done(s, step))
  {
    hide ParseFlags, Search.Performed, Recordable, M.Event.Args, Ascii;
    match step {
      case Toggle =>
        assert events + [] == events;
      case Accept(text, add) =>
        ReplayedOneMore(t, events, s.Event(text, add));
        SearchIsReplayed(s, Replayed(t, events), text, add);
      case Run(args) =>
        if Recordable(args) {
          ReplayedOneMore(t, events, M.Command(Ascii("search"), args));
          CommandArgs(args);
          CommandsAgree(s, Replayed(t, events), args);
        } else {
          NotRecordedIsNoMove(s, args);
          assert events + [] == events;
        }
    }
  }

  /**
   * Whatever is searched for while a macro is recorded, replaying it makes the
   * same searches in the same order; only the direction can be another one.
   */
  lemma {:induction false} SearchesAreReplayed(s: Search, t: Search, steps: seq<Step>)
    requires t.SameBut(s)
    ensures Replayed(t, AllRecorded(s, steps)).SameBut(AllDone(s, steps))
    ensures Replayed(t, AllRecorded(s, steps)).moves == AllDone(s, steps).moves
    decreases |steps|
  {
    hide Recorded, Done;
    if steps != [] {
      var init := steps[..|steps| - 1];
      SearchesAreReplayed(s, t, init);
      StepIsReplayed(AllDone(s, init), t, AllRecorded(s, init), steps[|steps| - 1]);
    }
  }

  lemma CommandArgs(args: seq<seq<byte>>)
    ensures M.Command(Ascii("search"), args).Args() == [Ascii("search")] + args
  {
  }

  /**
   * A recorded search does what was done, whatever direction there is before;
   * but searching again backwards leaves the direction forwards.
   */
  lemma SearchIsReplayed(s: Search, t: Search, text: seq<byte>, addToHistory: bool)
    requires t.SameBut(s)
    ensures var u := t.Performed(s.Event(text, addToHistory).Args());
      && u.Some? && u.value.SameBut(s.Accepted(text, addToHistory))
      && u.value.reverse == (text != [] && s.reverse)
      && (u.value == s.Accepted(text, addToHistory) <==> text != [] || !s.reverse)
  {
    hide ParseFlags, SEARCH_FLAGS, Ascii, Search.Command, FewFlags, M.Event.Args;
    if text == [] {
      AgainFlagsOf(s.reverse);
      AgainCommand(t, s.reverse);
    } else {
      SearchFlagsOf(text, s.reverse, addToHistory);
      SearchCommand(t, text, s.reverse, addToHistory);
    }
  }

  class SearchState {
    var pattern: Option<seq<byte>>
    var reverse: bool
    var history: seq<seq<byte>>
    var moves: seq<Move>

    ghost function Value(): Search
      reads this
    {
      Search(pattern, reverse, history, moves)
    }

    constructor ()
      ensures Value() == Search(None, false, [], [])
    {
      pattern, reverse, history, moves := None, false, [], [];
    }

    method ToggleDirection()
      modifies `reverse
      ensures Value() == old(Value()).Toggled()
    {
      reverse := !reverse;
    }

    method SearchNext()
      modifies `moves
      ensures Value() == old(Value()).Next()
    {
      moves := moves + [Move(pattern, reverse)];
    }

    method SearchPrev()
      modifies `moves, `reverse
      ensures Value() == old(Value()).Previous()
    {
      ToggleDirection();
      SearchNext();
      ToggleDirection();
    }

    method SetRegexp(text: seq<byte>, addToHistory: bool)
      modifies `pattern, `history
      ensures Value() == old(Value()).For(text, addToHistory)
    {
      if addToHistory {
        history := history + [text];
      }
      pattern := Some(text);
    }

    /** Leaves the search mode; returns what is recorded. */
    method Accept(text: seq<byte>, addToHistory: bool) returns (e: M.Event)
      modifies this
      ensures Value() == old(Value()).Accepted(text, addToHistory) && e == old(Value()).Event(text, addToHistory)
    {
      e := M.SearchAgain(reverse);
      if text != [] {
        e := M.Search(text, reverse, addToHistory);
        SetRegexp(text, addToHistory);
      }
      SearchNext();
    }

    method CmdSearch(p: Parsed) returns (ok: bool)
      modifies this
      ensures var s := old(Value()).Command(p); ok == s.Some? && Value() == if ok then s.value else old(Value())
    {
      var np := Winning(p.flags, Code('n'), Code('p'));
      if |p.args| > 1 || (np != 0 && p.args != []) || !AllIn(p.flags, PLAIN_FLAGS) {
        return false;
      }
      reverse := p.Has('r');
      if np == Code('n') {
        SearchNext();
      } else if np == Code('p') {
        SearchPrev();
      } else if p.args != [] {
        SetRegexp(p.args[0], !p.Has('H'));
        if !p.Has('x') {
          SearchNext();
        }
      }
      return true;
    }
  }
}
