/** Recording what is done as commands that do it again. */
module Macro {
  import opened Bytes
  import opened CommandSyntax
  import opened Quoting
  import opened Strings
  import Serialize

  const INSERT: seq<byte> := [105, 110, 115, 101, 114, 116]
  const SEARCH: seq<byte> := [115, 101, 97, 114, 99, 104]
  const FLAG_H: seq<byte> := [45, 72]
  const FLAG_K: seq<byte> := [45, 107]
  const FLAG_M: seq<byte> := [45, 109]
  const FLAG_N: seq<byte> := [45, 110]
  const FLAG_P: seq<byte> := [45, 112]
  const FLAG_R: seq<byte> := [45, 114]
  const NO_FLAGS: seq<byte> := [45, 45]

  /** What is recorded. */
  datatype Event =
    | Command(name: seq<byte>, args: seq<seq<byte>>)
    | Typed(text: seq<byte>)
    | Inserted(text: seq<byte>)
    | Search(pattern: seq<byte>, reverse: bool, addToHistory: bool)
    | SearchAgain(reverse: bool)
  {
    predicate Valid() {
      (Command? ==> PlainWord(name)) && (Typed? ==> text != [])
    }

    /** The words of the command in front of its last part. */
    function Words(): (ws: seq<seq<byte>>)
      requires !Command?
      ensures forall w :: w in ws ==> PlainWord(w)
    {
      match this
      case Typed(t) => [INSERT, FLAG_K] + Guard(t)
      case Inserted(t) => [INSERT, FLAG_M] + Guard(t)
      case Search(p, r, a) =>
        [SEARCH] + (if r then [FLAG_R] else []) + (if a then [] else [FLAG_H]) + Guard(p)
      case SearchAgain(r) => [SEARCH]
    }

    /** The words of the command that does this again. */
    function Args(): seq<seq<byte>> {
      match this
      case Command(name, args) => [name] + args
      case Typed(t) => Words() + [t]
      case Inserted(t) => Words() + [t]
      case Search(p, r, a) => Words() + [p]
      case SearchAgain(r) => Words() + [if r then FLAG_P else FLAG_N]
    }
  }

  /** Written as it is. */
  predicate PlainWord(w: seq<byte>) {
    w != [] && Plain(w) && !HasTildeSlash(w)
  }

  /** Text that could be taken for a flag is kept apart from the flags. */
  function Guard(text: seq<byte>): seq<seq<byte>> {
    if text != [] && text[0] == 45 then [NO_FLAGS] else []
  }

  function Spaced(words: seq<seq<byte>>): seq<byte> {
    if words == [] then [] else words[0] + [SPACE] + Spaced(words[1..])
  }

  lemma {:induction false} SpacedOneMore(words: seq<seq<byte>>, w: seq<byte>)
    ensures Spaced(words + [w]) == Spaced(words) + w + [SPACE]
  {
    var all := words + [w];
    if words == [] {
      assert all[1..] == [];
    } else {
      assert all[0] == words[0] && all[1..] == words[1..] + [w];
      SpacedOneMore(words[1..], w);
    }
  }

  lemma FlaggedWords(flag: seq<byte>, text: seq<byte>)
    ensures Spaced([INSERT, flag] + Guard(text))
      == INSERT + [SPACE] + flag + [SPACE] + if text != [] && text[0] == 45 then NO_FLAGS + [SPACE] else []
  {
    SpacedOneMore([], INSERT);
    SpacedOneMore([INSERT], flag);
    assert [] + [INSERT] == [INSERT] && [INSERT] + [flag] == [INSERT, flag];
    SpacedOneMore([INSERT, flag], NO_FLAGS);
    assert [INSERT, flag] + [] == [INSERT, flag];
  }

  lemma SearchWords(p: seq<byte>, reverse: bool, addToHistory: bool)
    ensures Spaced(Search(p, reverse, addToHistory).Words())
      == SEARCH + [SPACE] + (if reverse then FLAG_R + [SPACE] else [])
         + (if addToHistory then [] else FLAG_H + [SPACE])
         + (if p != [] && p[0] == 45 then NO_FLAGS + [SPACE] else [])
  {
    hide Spaced;
    var a := [SEARCH];
    var b := a + if reverse then [FLAG_R] else [];
    var c := b + if addToHistory then [] else [FLAG_H];
    SpacedMaybe([], true, SEARCH);
    SpacedMaybe(a, reverse, FLAG_R);
    SpacedMaybe(b, !addToHistory, FLAG_H);
    SpacedMaybe(c, p != [] && p[0] == 45, NO_FLAGS);
    assert [] + a == a && [] + (SEARCH + [SPACE]) == SEARCH + [SPACE] && Spaced([]) == [];
  }

  lemma SpacedMaybe(words: seq<seq<byte>>, given: bool, w: seq<byte>)
    ensures Spaced(words + if given then [w] else []) == Spaced(words) + if given then w + [SPACE] else []
    ensures Spaced([]) == []
  {
    if given {
      SpacedOneMore(words, w);
      assert Spaced(words) + w + [SPACE] == Spaced(words) + (w + [SPACE]);
    } else {
      assert words + [] == words && Spaced(words) + [] == Spaced(words);
    }
  }

  lemma {:induction false} JoinedWords(words: seq<seq<byte>>, args: seq<seq<byte>>)
    requires args != [] && forall w :: w in words ==> PlainWord(w)
    ensures Joined(words + args) == Spaced(words) + Joined(args)
  {
    hide Escaped;
    if words == [] {
      assert words + args == args;
    } else {
      var all := words + args;
      assert all[0] == words[0] && all[1..] == words[1..] + args;
      JoinedWords(words[1..], args);
      assert words[0] in words;
      EscapedPlain(words[0]);
    }
  }

  lemma EscapedPlain(w: seq<byte>)
    requires PlainWord(w)
    ensures Escaped(w, true) == w
  {
  }

  function LastOf(e: Event): seq<byte>
    requires !e.Command?
  {
    var args := e.Args();
    args[|args| - 1]
  }

  lemma LineOfWords(e: Event)
    requires !e.Command?
    ensures Joined(e.Args()) == Spaced(e.Words()) + Escaped(LastOf(e), true)
  {
    hide Escaped;
    JoinedWords(e.Words(), [LastOf(e)]);
  }

  lemma TypedLine(e: Event)
    requires e.Typed? || e.Inserted?
    ensures Joined(e.Args())
      == INSERT + [SPACE] + (if e.Typed? then FLAG_K else FLAG_M) + [SPACE]
         + (if e.text != [] && e.text[0] == 45 then NO_FLAGS + [SPACE] else [])
         + Escaped(e.text, true)
  {
    hide Escaped, Joined;
    FlaggedWords(if e.Typed? then FLAG_K else FLAG_M, e.text);
    LineOfWords(e);
  }

  lemma SearchLine(e: Event)
    requires e.Search?
    ensures Joined(e.Args())
      == SEARCH + [SPACE] + (if e.reverse then FLAG_R + [SPACE] else [])
         + (if e.addToHistory then [] else FLAG_H + [SPACE])
         + (if e.pattern != [] && e.pattern[0] == 45 then NO_FLAGS + [SPACE] else [])
         + Escaped(e.pattern, true)
  {
    hide Escaped, Joined;
    SearchWords(e.pattern, e.reverse, e.addToHistory);
    LineOfWords(e);
  }

  lemma SearchAgainLine(e: Event)
    requires e.SearchAgain?
    ensures Joined(e.Args()) == SEARCH + [SPACE] + if e.reverse then FLAG_P else FLAG_N
  {
    SpacedOneMore([], SEARCH);
    assert [] + [SEARCH] == [SEARCH];
    EscapedPlain(LastOf(e));
    LineOfWords(e);
  }

  /** A recorded line, parsed, is the command it was recorded for. */
  lemma LineReads(r: Runner, e: Event)
    ensures ParseCommands(r, Joined(e.Args())) == Ok(AsGiven(e.Args()))
  {
    JoinedReads(r, e.Args());
  }

  /** A log with one more event: what is typed in a row is one event. */
  function With(log: seq<Event>, e: Event): seq<Event> {
    if e.Typed? && log != [] && log[|log| - 1].Typed?
    then log[..|log| - 1] + [Typed(log[|log| - 1].text + e.text)]
    else log + [e]
  }

  function WithAll(log: seq<Event>, events: seq<Event>): seq<Event>
    decreases |events|
  {
    if events == [] then log else WithAll(With(log, events[0]), events[1..])
  }

  function Replayed<S>(perform: (S, Event) -> S, s: S, events: seq<Event>): S {
    if events == [] then s
    else perform(Replayed(perform, s, events[..|events| - 1]), events[|events| - 1])
  }

  lemma WithMeansSame<S>(perform: (S, Event) -> S, s: S, log: seq<Event>, e: Event)
    requires forall t, a, b :: perform(perform(t, Typed(a)), Typed(b)) == perform(t, Typed(a + b))
    ensures Replayed(perform, s, With(log, e)) == perform(Replayed(perform, s, log), e)
  {
    var w := With(log, e);
    if e.Typed? && log != [] && log[|log| - 1].Typed? {
      assert w[..|w| - 1] == log[..|log| - 1];
    } else {
      assert w[..|w| - 1] == log;
    }
  }

  /**
   * Typing in a row being one event changes nothing about the effect, for any
   * effect of events in which typing twice is typing both texts.
   */
  lemma {:induction false} WithAllMeansSame<S>(perform: (S, Event) -> S, s: S, log: seq<Event>, events: seq<Event>)
    requires forall t, a, b :: perform(perform(t, Typed(a)), Typed(b)) == perform(t, Typed(a + b))
    ensures Replayed(perform, s, WithAll(log, events)) == Replayed(perform, s, log + events)
    decreases |events|
  {
    if events == [] {
      assert log + events == log;
    } else {
      var w := With(log, events[0]);
      WithAllMeansSame(perform, s, w, events[1..]);
      WithMeansSame(perform, s, log, events[0]);
      var one := log + [events[0]];
      assert one[..|one| - 1] == log;
      ReplayedFrom(perform, s, w, one, events[1..]);
      assert one + events[1..] == log + events;
    }
  }

  lemma {:induction false} ReplayedFrom<S>(perform: (S, Event) -> S, s: S, a: seq<Event>, b: seq<Event>,
                                           events: seq<Event>)
    requires Replayed(perform, s, a) == Replayed(perform, s, b)
    ensures Replayed(perform, s, a + events) == Replayed(perform, s, b + events)
    decreases |events|
  {
    if events == [] {
      assert a + events == a && b + events == b;
    } else {
      var n := |events| - 1;
      ReplayedFrom(perform, s, a, b, events[..n]);
      assert (a + events)[..|a + events| - 1] == a + events[..n];
      assert (b + events)[..|b + events| - 1] == b + events[..n];
    }
  }

  ghost predicate Lines(macro: seq<seq<byte>>, log: seq<Event>) {
    |macro| == |log| && forall i :: 0 <= i < |log| ==> macro[i] == Joined(log[i].Args())
  }

  function Pending(text: seq<byte>): seq<Event> {
    if text == [] then [] else [Typed(text)]
  }

  /** Typing once more changes only what is pending. */
  lemma TypedMore(log: seq<Event>, pending: seq<byte>, text: seq<byte>)
    requires text != [] && (log != [] ==> !log[|log| - 1].Typed?)
    ensures With(log + Pending(pending), Typed(text)) == log + Pending(pending + text)
  {
    if pending == [] {
      assert log + Pending([]) == log && pending + text == text;
    } else {
      assert (log + Pending(pending))[..|log|] == log;
    }
  }

  /** How much is typed. */
  function TypedBytes(n: nat, e: Event): nat {
    n + if e.Typed? then |e.text| else 0
  }

  lemma {:induction false} TypedBytesFrom(log: seq<Event>, events: seq<Event>)
    ensures Replayed(TypedBytes, 0, log + events) == Replayed(TypedBytes, 0, log) + Replayed(TypedBytes, 0, events)
    decreases |events|
  {
    if events == [] {
      assert log + events == log;
    } else {
      var all, n := log + events, |events| - 1;
      assert all[..|all| - 1] == log + events[..n] && all[|all| - 1] == events[n];
      TypedBytesFrom(log, events[..n]);
    }
  }

  /** Text left behind by a cancelled recording is always seen in the next one. */
  lemma LeftoverShows(text: seq<byte>, events: seq<Event>)
    ensures WithAll(Pending(text), events) == WithAll([], events) <==> text == []
  {
    WithAllMeansSame(TypedBytes, 0, Pending(text), events);
    WithAllMeansSame(TypedBytes, 0, [], events);
    TypedBytesFrom(Pending(text), events);
    TypedBytesFrom([], events);
    if text != [] {
      assert Pending(text)[..0] == [];
      assert Replayed(TypedBytes, 0, Pending(text)) == |text|;
    }
  }

  method WriteSearch(pattern: seq<byte>, reverse: bool, addToHistory: bool) returns (line: seq<byte>)
    ensures line == Joined(Search(pattern, reverse, addToHistory).Args())
  {
    hide Event.Args, Event.Words, Escaped, Joined;
    var buf := new String();
    buf.Append(SEARCH + [SPACE]);
    buf.Append(if reverse then FLAG_R + [SPACE] else []);
    buf.Append(if addToHistory then [] else FLAG_H + [SPACE]);
    buf.Append(if pattern != [] && pattern[0] == 45 then NO_FLAGS + [SPACE] else []);
    Serialize.AppendEscapedArg(buf, pattern, true);
    SearchLine(Search(pattern, reverse, addToHistory));
    return buf.bytes;
  }

  method WriteTyped(flag: seq<byte>, text: seq<byte>, ghost e: Event) returns (line: seq<byte>)
    requires (e == Typed(text) && flag == FLAG_K) || (e == Inserted(text) && flag == FLAG_M)
    ensures line == Joined(e.Args())
  {
    hide Event.Args, Event.Words, Escaped, Joined;
    var buf := new String();
    buf.Append(INSERT + [SPACE] + flag + [SPACE]);
    buf.Append(if text != [] && text[0] == 45 then NO_FLAGS + [SPACE] else []);
    Serialize.AppendEscapedArg(buf, text, true);
    TypedLine(e);
    return buf.bytes;
  }

  class MacroRecorder {
    var macro: seq<seq<byte>>
    var prevMacro: seq<seq<byte>>
    var insertBuffer: seq<byte>
    var recording: bool
    ghost var log: seq<Event>
    ghost var prevLog: seq<Event>

    ghost predicate Valid()
      reads this
    {
      && Lines(macro, log) && Lines(prevMacro, prevLog)
      && (recording && log != [] ==> !log[|log| - 1].Typed?)
    }

    /** Everything recorded so far. */
    ghost function History(): seq<Event>
      reads this
    {
      log + Pending(insertBuffer)
    }

    constructor ()
      ensures Valid() && !recording && insertBuffer == [] && macro == [] == prevMacro && log == []
    {
      macro, prevMacro, insertBuffer, recording := [], [], [], false;
      log, prevLog := [], [];
    }

    method Append(line: seq<byte>, ghost e: Event)
      requires Lines(macro, log) && line == Joined(e.Args())
      modifies `macro, `log
      ensures Lines(macro, log) && log == old(log) + [e]
    {
      macro := macro + [line];
      log := log + [e];
    }

    method MergeInsertBuffer()
      requires Lines(macro, log)
      modifies this
      ensures Lines(macro, log) && log == old(History()) && insertBuffer == []
      ensures unchanged(`recording, `prevMacro, `prevLog)
    {
      if insertBuffer == [] {
        return;
      }
      hide Joined, Event.Args;
      var line := WriteTyped(FLAG_K, insertBuffer, Typed(insertBuffer));
      Append(line, Typed(insertBuffer));
      insertBuffer := [];
    }

    method Record() returns (ok: bool)
      requires Valid()
      modifies this
      ensures Valid() && ok == !old(recording) && recording
      ensures !ok ==> unchanged(this)
      ensures ok ==> log == [] && prevLog == old(log) && insertBuffer == old(insertBuffer)
    {
      if recording {
        return false;
      }
      prevMacro, prevLog := macro, log;
      macro, log := [], [];
      recording := true;
      return true;
    }

    method Stop() returns (ok: bool)
      requires Valid()
      modifies this
      ensures Valid() && ok == old(recording) && !recording
      ensures !ok ==> unchanged(this)
      ensures ok ==> log == old(History()) && insertBuffer == [] && unchanged(`prevMacro, `prevLog)
    {
      if !recording {
        return false;
      }
      MergeInsertBuffer();
      recording := false;
      return true;
    }

    /** Back to the macro there was before. What was typed last stays behind. */
    method Cancel() returns (ok: bool)
      requires Valid()
      modifies this
      ensures Valid() && ok == old(recording) && !recording
      ensures !ok ==> unchanged(this)
      ensures ok ==> macro == old(prevMacro) && log == old(prevLog)
      ensures ok ==> prevMacro == [] && prevLog == [] && insertBuffer == old(insertBuffer)
    {
      if !recording {
        return false;
      }
      macro, log := prevMacro, prevLog;
      prevMacro, prevLog := [], [];
      recording := false;
      return true;
    }

    method CommandHook(name: seq<byte>, args: seq<seq<byte>>)
      requires Valid() && PlainWord(name)
      modifies this
      ensures Valid() && unchanged(`recording, `prevMacro, `prevLog)
      ensures !recording ==> unchanged(this)
      ensures recording ==> insertBuffer == [] && log == With(old(History()), Command(name, args))
    {
      hide Escaped, Joined;
      if !recording {
        return;
      }
      var buf := new String();
      buf.Append(name);
      for i := 0 to |args|
        invariant buf.bytes == name + Following(args[..i])
        invariant unchanged(this) && Valid()
      {
        buf.Append([SPACE]);
        Serialize.AppendEscapedArg(buf, args[i], true);
        FollowingOneMore(args[..i], args[i]);
        assert args[..i + 1] == args[..i] + [args[i]];
      }
      assert args[..|args|] == args;
      FollowingIsJoined(name, args);
      MergeInsertBuffer();
      Append(buf.bytes, Command(name, args));
    }

    method InsertCharHook(encoded: seq<byte>)
      requires Valid() && encoded != []
      modifies this
      ensures Valid() && unchanged(`recording, `prevMacro, `prevLog, `log, `macro)
      ensures !recording ==> unchanged(this)
      ensures recording ==> insertBuffer == old(insertBuffer) + encoded
      ensures recording ==> History() == With(old(History()), Typed(encoded))
    {
      if recording {
        TypedMore(log, insertBuffer, encoded);
        insertBuffer := insertBuffer + encoded;
      }
    }

    method SearchHook(pattern: Option<seq<byte>>, reverse: bool, addToHistory: bool)
      requires Valid()
      modifies this
      ensures Valid() && unchanged(`recording, `prevMacro, `prevLog)
      ensures !recording ==> unchanged(this)
      ensures recording ==> insertBuffer == [] && log == With(old(History()),
        if pattern.Some? then Search(pattern.value, reverse, addToHistory) else SearchAgain(reverse))
    {
      if !recording {
        return;
      }
      hide Event.Args, Event.Words, Joined;
      ghost var e := if pattern.Some? then Search(pattern.value, reverse, addToHistory) else SearchAgain(reverse);
      var line: seq<byte>;
      if pattern.Some? {
        line := WriteSearch(pattern.value, reverse, addToHistory);
      } else {
        line := SEARCH + [SPACE] + if reverse then FLAG_P else FLAG_N;
        SearchAgainLine(e);
      }
      MergeInsertBuffer();
      Append(line, e);
    }

    method InsertTextHook(text: seq<byte>)
      requires Valid()
      modifies this
      ensures Valid() && unchanged(`recording, `prevMacro, `prevLog)
      ensures !recording ==> unchanged(this)
      ensures recording ==> insertBuffer == [] && log == With(old(History()), Inserted(text))
    {
      if !recording {
        return;
      }
      hide Joined, Event.Args;
      var line := WriteTyped(FLAG_M, text, Inserted(text));
      MergeInsertBuffer();
      Append(line, Inserted(text));
    }
  }

  function Following(args: seq<seq<byte>>): seq<byte> {
    if args == [] then [] else [SPACE] + Escaped(args[0], true) + Following(args[1..])
  }

  lemma {:induction false} FollowingOneMore(args: seq<seq<byte>>, arg: seq<byte>)
    ensures Following(args + [arg]) == Following(args) + [SPACE] + Escaped(arg, true)
  {
    hide Escaped;
    var all := args + [arg];
    if args == [] {
      assert all[1..] == [];
    } else {
      assert all[0] == args[0] && all[1..] == args[1..] + [arg];
      FollowingOneMore(args[1..], arg);
    }
  }

  lemma {:induction false} FollowingIsJoined(name: seq<byte>, args: seq<seq<byte>>)
    requires PlainWord(name)
    ensures name + Following(args) == Joined([name] + args)
  {
    hide Escaped;
    EscapedPlain(name);
    var all := [name] + args;
    if args == [] {
      assert all[1..] == [];
    } else {
      assert all[1..] == args;
      FollowingIsRest(args);
    }
  }

  lemma {:induction false} FollowingIsRest(args: seq<seq<byte>>)
    requires args != []
    ensures Following(args) == [SPACE] + Joined(args)
  {
    hide Escaped;
    if |args| > 1 {
      FollowingIsRest(args[1..]);
    } else {
      assert args[1..] == [];
    }
  }

  /** One event, as the editor reports it. */
  method Report(m: MacroRecorder, e: Event)
    requires m.Valid() && m.recording && e.Valid()
    modifies m
    ensures m.Valid() && m.recording && m.History() == With(old(m.History()), e)
  {
    match e
    case Command(name, args) => m.CommandHook(name, args);
    case Typed(text) => m.InsertCharHook(text);
    case Inserted(text) => m.InsertTextHook(text);
    case Search(p, r, a) => m.SearchHook(Some(p), r, a);
    case SearchAgain(r) => m.SearchHook(None, r, false);
  }

  /**
   * A whole recording: its lines are the commands for everything reported,
   * behind the text that a cancelled recording may have left.
   */
  method RecordAll(m: MacroRecorder, events: seq<Event>)
    requires m.Valid() && !m.recording
    requires forall i :: 0 <= i < |events| ==> events[i].Valid()
    modifies m
    ensures m.Valid() && !m.recording && m.insertBuffer == []
    ensures Lines(m.macro, WithAll(Pending(old(m.insertBuffer)), events))
  {
    hide Joined, Event.Args, With, WithAll, Event.Valid, Lines;
    var ok := m.Record();
    ghost var start := m.History();
    assert start == Pending(m.insertBuffer);
    assert WithAll(start, []) == start by { WithAllNone(start); }
    for i := 0 to |events|
      invariant m.Valid() && m.recording
      invariant m.History() == WithAll(start, events[..i])
    {
      Report(m, events[i]);
      WithAllOneMore(start, events[..i], events[i]);
      assert events[..i + 1] == events[..i] + [events[i]];
    }
    assert events[..|events|] == events;
    ok := m.Stop();
  }

  lemma WithAllNone(log: seq<Event>)
    ensures WithAll(log, []) == log
  {
  }

  lemma {:induction false} WithAllOneMore(log: seq<Event>, events: seq<Event>, e: Event)
    ensures WithAll(log, events + [e]) == With(WithAll(log, events), e)
    decreases |events|
  {
    var all := events + [e];
    if events == [] {
      assert all[1..] == [];
    } else {
      assert all[0] == events[0] && all[1..] == events[1..] + [e];
      WithAllOneMore(With(log, events[0]), events[1..], e);
    }
  }

  // Recordings as a state machine

  datatype Recording = Recording(on: bool, log: seq<Event>, prevLog: seq<Event>, pending: seq<byte>)

  datatype Action = Start | Finish | Abandon | Reported(e: Event)

  function After(s: Recording, a: Action): Recording {
    match a
    case Start => if s.on then s else Recording(true, [], s.log, s.pending)
    case Finish => if s.on then Recording(false, s.log + Pending(s.pending), s.prevLog, []) else s
    case Abandon => if s.on then Recording(false, s.prevLog, [], s.pending) else s
    case Reported(e) =>
      if !s.on then s
      else if e.Typed? then s.(pending := s.pending + e.text)
      else s.(log := s.log + Pending(s.pending) + [e], pending := [])
  }

  function AfterAll(s: Recording, actions: seq<Action>): Recording {
    if actions == [] then s else After(AfterAll(s, actions[..|actions| - 1]), actions[|actions| - 1])
  }

  ghost function State(m: MacroRecorder): Recording
    reads m
  {
    Recording(m.recording, m.log, m.prevLog, m.insertBuffer)
  }

  method Act(m: MacroRecorder, a: Action)
    requires m.Valid() && (a.Reported? ==> a.e.Valid())
    modifies m
    ensures m.Valid() && State(m) == After(old(State(m)), a)
  {
    hide Joined, Event.Args;
    match a {
      case Start => var ok := m.Record();
      case Finish => var ok := m.Stop();
      case Abandon => var ok := m.Cancel();
      case Reported(e) =>
        match e {
          case Command(name, args) => m.CommandHook(name, args);
          case Typed(text) => m.InsertCharHook(text);
          case Inserted(text) => m.InsertTextHook(text);
          case Search(p, r, h) => m.SearchHook(Some(p), r, h);
          case SearchAgain(r) => m.SearchHook(None, r, false);
        }
    }
  }

  /** Over any run of starts, ends, cancels and reports, the recorder is where the state machine is. */
  method ActAll(m: MacroRecorder, actions: seq<Action>)
    requires m.Valid() && forall i :: 0 <= i < |actions| && actions[i].Reported? ==> actions[i].e.Valid()
    modifies m
    ensures m.Valid() && State(m) == AfterAll(old(State(m)), actions)
    ensures Lines(m.macro, AfterAll(old(State(m)), actions).log)
  {
    hide Joined, Event.Args, After, Event.Valid;
    for i := 0 to |actions|
      invariant m.Valid() && State(m) == AfterAll(old(State(m)), actions[..i])
    {
      Act(m, actions[i]);
      assert actions[..i + 1][..i] == actions[..i];
    }
    assert actions[..|actions|] == actions;
  }

  /** Typing while recording, cancelling, and then recording nothing. */
  function CancelledActions(text: seq<byte>): seq<Action> {
    [Start, Reported(Typed(text)), Abandon, Start, Finish]
  }

  /** The second recording is not empty. */
  lemma CancelledText(text: seq<byte>)
    requires text != []
    ensures AfterAll(Recording(false, [], [], []), CancelledActions(text))
      == Recording(false, [Typed(text)], [], [])
  {
    var actions := CancelledActions(text);
    assert actions[..4] == [Start, Reported(Typed(text)), Abandon, Start];
    assert actions[..4][..3] == [Start, Reported(Typed(text)), Abandon];
    assert actions[..4][..3][..2] == [Start, Reported(Typed(text))];
    assert actions[..4][..3][..2][..1] == [Start];
    assert actions[..4][..3][..2][..1][..0] == [];
    var none := Recording(false, [], [], []);
    assert AfterAll(none, actions[..4][..3][..2][..1]) == Recording(true, [], [], []);
    assert AfterAll(none, actions[..4][..3][..2]) == Recording(true, [], [], text) by {
      assert [] + text == text;
    }
    assert AfterAll(none, actions[..4]) == Recording(true, [], [], text);
    assert [] + Pending(text) == [Typed(text)];
  }
}
