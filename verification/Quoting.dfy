/** Reading back what was written: quoting and parsing undo each other. */
module Quoting {
  import opened Bytes
  import opened CommandSyntax

  /** What may stand behind an argument without becoming part of it. */
  predicate Stops(tail: seq<byte>) {
    AtNul(tail) || EndsArg(tail[0])
  }

  predicate Plain(s: seq<byte>) {
    forall c :: c in s ==> !NeedsDouble(c) && !NeedsSingle(c)
  }

  lemma {:induction false} PlainReads(r: Runner, s: seq<byte>, tail: seq<byte>)
    requires Plain(s) && Stops(tail)
    ensures FindEnd(s + tail) == Ok(|s|)
    ensures ParseRest(r, s) == Piece(s, |s|)
  {
    if s == [] {
      assert s + tail == tail;
    } else {
      assert (s + tail)[0] == s[0] && (s + tail)[1..] == s[1..] + tail;
      assert s[0] in s && forall c :: c in s[1..] ==> c in s;
      PlainReads(r, s[1..], tail);
      assert [s[0]] + s[1..] == s;
    }
  }

  lemma {:induction false} SkipSqReads(s: seq<byte>, tail: seq<byte>)
    requires SQUOTE !in s && 0 !in s
    ensures SkipSq(s + [SQUOTE] + tail) == Ok(|s| + 1)
  {
    var t := s + [SQUOTE] + tail;
    if s == [] {
      assert t[0] == SQUOTE;
    } else {
      assert t[0] == s[0] && t[1..] == s[1..] + [SQUOTE] + tail;
      SkipSqReads(s[1..], tail);
    }
  }

  lemma SqReads(r: Runner, s: seq<byte>, tail: seq<byte>)
    requires SQUOTE !in s && 0 !in s && Stops(tail)
    ensures var q := [SQUOTE] + s + [SQUOTE];
      FindEnd(q + tail) == Ok(|q|) && ParseRest(r, q) == Piece(s, |q|)
  {
    var q := [SQUOTE] + s + [SQUOTE];
    var t := q + tail;
    assert t[1..] == s + [SQUOTE] + tail;
    SkipSqReads(s, tail);
    assert t[1 + (|s| + 1)..] == tail;
    assert FindEnd(tail) == Ok(0);
    var u := q[1..];
    assert u == s + [SQUOTE];
    assert u[|s|] == SQUOTE && forall k :: 0 <= k < |s| ==> u[k] == s[k];
    assert MemChr(u, SQUOTE, 0) == |s|;
    assert u[..|s|] == s;
    assert q[1 + (|s| + 1)..] == [];
    assert s + [] == s;
  }

  /** What the parser makes of an escape sequence, from behind the backslash. */
  lemma EscapeIsRead(r: Runner, c: byte, tail: seq<byte>)
    requires EscMap(c) != 0 || IsCntrl(c)
    ensures var e := EscapeByte(c);
      e[0] == BACKSLASH && |e| > 1 && ParseEscape(r, e[1..] + tail) == Piece([c], |e| - 1)
  {
    hide HexRun, HexNumber, HexByte, HexDigit, HexValue;
    var t := EscapeByte(c)[1..] + tail;
    if EscMap(c) != 0 {
      assert t[0] == EscMap(c);
    } else {
      HexReads(c, tail);
      assert t[0] == 120 && t[1..] == [HexDigit(c / 16), HexDigit(c % 16)] + tail;
    }
  }

  /** One escaped byte is one step of the scanner and one byte of the parser. */
  lemma EscapeReads(r: Runner, c: byte, tail: seq<byte>)
    ensures ParseDq(r, EscapeByte(c) + tail) == ParseDq(r, tail).After([c], |EscapeByte(c)|)
  {
    var e := EscapeByte(c);
    if EscMap(c) != 0 || IsCntrl(c) {
      EscapeIsRead(r, c, tail);
      hide EscapeByte, ParseEscape;
      assert (e + tail)[1..] == e[1..] + tail && (e + tail)[|e|..] == tail;
    } else {
      assert (e + tail)[0] == c && (e + tail)[1..] == tail;
    }
  }

  lemma HexReads(c: byte, tail: seq<byte>)
    ensures var h := [HexDigit(c / 16), HexDigit(c % 16)];
      HexRun(h + tail, 2) == 2 && (h + tail)[..2] == h
      && HexValue(h[0]) >= 0 && HexValue(h[1]) >= 0 && HexByte(HexNumber(h)) == c
  {
    var h := [HexDigit(c / 16), HexDigit(c % 16)];
    var t := h + tail;
    assert t[0] == h[0] && t[1..][0] == h[1];
    assert HexValue(h[0]) == (c / 16) as int && HexValue(h[1]) == (c % 16) as int;
    assert t[..2] == h;
    assert h[..1] == [h[0]] && h[..1][..0] == [];
    assert HexNumber(h[..1]) == HexValue(h[0]);
  }

  lemma EscapeSkips(c: byte, tail: seq<byte>)
    ensures SkipDq(tail).Ok? ==> SkipDq(EscapeByte(c) + tail) == Ok(|EscapeByte(c)| + SkipDq(tail).value)
  {
    hide SkipDq;
    var e := EscapeByte(c);
    var t := e + tail;
    if EscMap(c) != 0 {
      assert e == [BACKSLASH, EscMap(c)];
      SkipDqPair(EscMap(c), tail);
    } else if IsCntrl(c) {
      HexIsPlain(c / 16);
      HexIsPlain(c % 16);
      SkipDqHex(HexDigit(c / 16), HexDigit(c % 16), tail);
    } else {
      assert t == [c] + tail;
      SkipDqPlain(c, tail);
    }
  }

  lemma SkipDqHex(h: byte, l: byte, tail: seq<byte>)
    requires h != DQUOTE && h != BACKSLASH && h != 0 && l != DQUOTE && l != BACKSLASH && l != 0
    ensures SkipDq(tail).Ok? ==> SkipDq([BACKSLASH, 120, h, l] + tail) == Ok(4 + SkipDq(tail).value)
  {
    hide SkipDq;
    assert [BACKSLASH, 120, h, l] + tail == [BACKSLASH, 120] + ([h] + ([l] + tail));
    SkipDqPair(120, [h] + ([l] + tail));
    SkipDqPlain(l, tail);
    SkipDqPlain(h, [l] + tail);
  }

  lemma HexIsPlain(n: byte)
    requires n < 16
    ensures HexDigit(n) != DQUOTE && HexDigit(n) != BACKSLASH && HexDigit(n) != 0
  {
  }

  lemma SkipDqPair(c: byte, tail: seq<byte>)
    requires c != 0
    ensures SkipDq(tail).Ok? ==> SkipDq([BACKSLASH, c] + tail) == Ok(2 + SkipDq(tail).value)
  {
    var t := [BACKSLASH, c] + tail;
    assert t[0] == BACKSLASH && t[1..][0] == c && t[2..] == tail;
  }

  lemma SkipDqPlain(c: byte, tail: seq<byte>)
    requires c != DQUOTE && c != BACKSLASH && c != 0
    ensures SkipDq(tail).Ok? ==> SkipDq([c] + tail) == Ok(1 + SkipDq(tail).value)
  {
    assert ([c] + tail)[0] == c && ([c] + tail)[1..] == tail;
  }

  lemma DqCloses(r: Runner, tail: seq<byte>)
    ensures SkipDq([DQUOTE] + tail) == Ok(1)
    ensures ParseDq(r, [DQUOTE]) == Piece([], 1)
  {
    assert ([DQUOTE] + tail)[0] == DQUOTE;
  }

  lemma {:induction false} DqBodyReads(r: Runner, s: seq<byte>, tail: seq<byte>)
    ensures SkipDq(DquotedBody(s) + [DQUOTE] + tail) == Ok(|DquotedBody(s)| + 1)
    ensures ParseDq(r, DquotedBody(s) + [DQUOTE]) == Piece(s, |DquotedBody(s)| + 1)
  {
    hide SkipDq, ParseDq, EscapeByte;
    if s == [] {
      DqCloses(r, tail);
      assert DquotedBody(s) + [DQUOTE] == [DQUOTE];
    } else {
      var e, b := EscapeByte(s[0]), DquotedBody(s[1..]);
      DqBodyReads(r, s[1..], tail);
      assert e + b + [DQUOTE] + tail == e + (b + [DQUOTE] + tail);
      EscapeSkips(s[0], b + [DQUOTE] + tail);
      assert e + b + [DQUOTE] == e + (b + [DQUOTE]);
      EscapeReads(r, s[0], b + [DQUOTE]);
      assert [s[0]] + s[1..] == s;
    }
  }

  lemma DqReads(r: Runner, s: seq<byte>, tail: seq<byte>)
    requires Stops(tail)
    ensures FindEnd(Dquoted(s) + tail) == Ok(|Dquoted(s)|)
    ensures ParseRest(r, Dquoted(s)) == Piece(s, |Dquoted(s)|)
  {
    hide ParseDq, SkipDq, DquotedBody;
    var b, q := DquotedBody(s), Dquoted(s);
    var t := q + tail;
    DqBodyReads(r, s, tail);
    assert t[1..] == b + [DQUOTE] + tail;
    assert t[1 + (|b| + 1)..] == tail;
    DquoteEnds(t, |b| + 1);
    assert q[1..] == b + [DQUOTE];
    DquoteParses(r, q, s);
  }

  lemma DquoteEnds(t: seq<byte>, q: nat)
    requires t != [] && t[0] == DQUOTE && SkipDq(t[1..]) == Ok(q) && q < |t| && Stops(t[1 + q..])
    ensures FindEnd(t) == Ok(1 + q)
  {
    assert FindEnd(t[1 + q..]) == Ok(0);
  }

  lemma DquoteParses(r: Runner, q: seq<byte>, v: seq<byte>)
    requires q != [] && q[0] == DQUOTE && ParseDq(r, q[1..]) == Piece(v, |q| - 1)
    ensures ParseRest(r, q) == Piece(v, |q|)
  {
    assert q[|q|..] == [];
    assert ParseRest(r, []) == Piece([], 0);
    assert v + [] == v;
  }

  /** A byte without any meaning of its own in front of the rest of an argument. */
  lemma PlainByte(r: Runner, c: byte, t: seq<byte>)
    requires !NeedsDouble(c) && !NeedsSingle(c)
    ensures FindEnd(t).Ok? ==> FindEnd([c] + t) == Ok(1 + FindEnd(t).value)
    ensures ParseRest(r, [c] + t) == ParseRest(r, t).After([c], 1)
  {
    assert ([c] + t)[0] == c && ([c] + t)[1..] == t;
  }

  lemma QuotedReads(r: Runner, s: seq<byte>, tail: seq<byte>)
    requires Stops(tail)
    ensures FindEnd(Quoted(s) + tail) == Ok(|Quoted(s)|)
    ensures ParseRest(r, Quoted(s)) == Piece(s, |Quoted(s)|)
  {
    match TypeOf(s)
    case NoQuote => PlainReads(r, s, tail);
    case SingleQuote => SqReads(r, s, tail);
    case DoubleQuote => DqReads(r, s, tail);
  }

  /** An escaped argument is read back as what it was, whatever the reader does with tildes. */
  lemma EscapedReads(r: Runner, arg: seq<byte>, tail: seq<byte>)
    requires Stops(tail)
    ensures FindEnd(Escaped(arg, true) + tail) == Ok(|Escaped(arg, true)|)
    ensures ParseArg(r, Escaped(arg, true)) == Piece(arg, |Escaped(arg, true)|)
  {
    hide FindEnd, ParseRest, DquotedBody;
    if arg == [] {
      SqReads(r, [], tail);
      assert [SQUOTE] + [] + [SQUOTE] == [SQUOTE, SQUOTE];
    } else if HasTildeSlash(arg) && TypeOf(arg) == NoQuote {
      EscapedTildeReads(r, arg, tail);
    } else {
      QuotedReads(r, arg, tail);
    }
  }

  lemma EscapedTildeReads(r: Runner, arg: seq<byte>, tail: seq<byte>)
    requires Stops(tail) && Plain(arg) && HasTildeSlash(arg)
    ensures FindEnd([BACKSLASH] + arg + tail) == Ok(1 + |arg|)
    ensures ParseRest(r, [BACKSLASH] + arg) == Piece(arg, 1 + |arg|)
  {
    hide FindEnd, ParseRest, Plain;
    PlainTail(arg);
    PlainReads(r, arg[1..], tail);
    BackslashByte(r, TILDE, arg[1..]);
    BackslashByte(r, TILDE, arg[1..] + tail);
    assert [BACKSLASH, TILDE] + arg[1..] == [BACKSLASH] + arg;
    assert [BACKSLASH, TILDE] + (arg[1..] + tail) == [BACKSLASH] + arg + tail;
    assert [arg[0]] + arg[1..] == arg;
  }

  lemma PlainTail(arg: seq<byte>)
    requires Plain(arg) && arg != []
    ensures Plain(arg[1..])
  {
  }

  lemma BackslashByte(r: Runner, c: byte, rest: seq<byte>)
    requires c != 0
    ensures FindEnd(rest).Ok? ==> FindEnd([BACKSLASH, c] + rest) == Ok(2 + FindEnd(rest).value)
    ensures ParseRest(r, [BACKSLASH, c] + rest) == ParseRest(r, rest).After([c], 2)
  {
    var s := [BACKSLASH, c] + rest;
    assert s[0] == BACKSLASH && s[1] == c && s[1..][0] == c && s[2..] == rest;
  }

  /** A leading ~/ left unescaped is read as the home directory, if the reader expands it. */
  lemma UnescapedTildeReads(r: Runner, arg: seq<byte>, tail: seq<byte>)
    requires Stops(tail) && HasTildeSlash(arg)
    ensures FindEnd(Escaped(arg, false) + tail) == Ok(|Escaped(arg, false)|)
    ensures ParseArg(r, Escaped(arg, false)).value == if r.expandTilde then r.home + arg[1..] else arg
    ensures ParseArg(r, Escaped(arg, false)).value == arg <==> !r.expandTilde || r.home == [TILDE]
  {
    hide FindEnd, ParseRest, Quoted;
    var q := Quoted(arg[2..]);
    QuotedReads(r, arg[2..], tail);
    PlainByte(r, SLASH, q + tail);
    PlainByte(r, TILDE, [SLASH] + (q + tail));
    assert [TILDE, SLASH] + q + tail == [TILDE] + ([SLASH] + (q + tail));
    PlainByte(r, SLASH, q);
    PlainByte(r, TILDE, [SLASH] + q);
    assert [TILDE, SLASH] + q == [TILDE] + ([SLASH] + q);
    assert ([TILDE, SLASH] + q)[1..] == [SLASH] + q;
    assert [SLASH] + arg[2..] == arg[1..] && [TILDE] + arg[1..] == arg;
    SameFront(r.home, [TILDE], arg[1..]);
  }

  lemma SameFront(a: seq<byte>, b: seq<byte>, c: seq<byte>)
    ensures a + c == b + c <==> a == b
  {
    if a + c == b + c {
      assert |a| == |b|;
      assert a == (a + c)[..|a|] && b == (b + c)[..|b|];
    }
  }

  /** So it is not always read as it was: with a home directory `/`, the argument `~/` becomes `//`. */
  lemma UnescapedTildeExpands(r: Runner)
    requires r.expandTilde && r.home == [SLASH]
    ensures var arg := [TILDE, SLASH]; ParseArg(r, Escaped(arg, false)).value == [SLASH, SLASH] != arg
  {
    UnescapedTildeReads(r, [TILDE, SLASH], []);
  }

  /** An escaped argument is recognised as the beginning of one. */
  lemma EscapedBegins(arg: seq<byte>)
    ensures var e := Escaped(arg, true); e != [] && !AtNul(e) && !IsSpace(e[0]) && e[0] != SEMICOLON
  {
    if arg != [] && TypeOf(arg) == NoQuote {
      assert arg[0] in arg;
    }
  }

  function AsGiven(args: seq<seq<byte>>): seq<Option<seq<byte>>> {
    if args == [] then [None] else [Some(args[0])] + AsGiven(args[1..])
  }

  /**
   * Writing any list of arguments into a command line and parsing that gives
   * back the list.
   */
  lemma {:induction false} JoinedReads(r: Runner, args: seq<seq<byte>>)
    ensures ParseCommands(r, Joined(args)) == Ok(AsGiven(args))
  {
    hide FindEnd, ParseArg, Escaped;
    if args != [] {
      var e := Escaped(args[0], true);
      var tail := if |args| == 1 then [] else [SPACE] + Joined(args[1..]);
      assert Joined(args) == e + tail;
      if |args| > 1 {
        assert tail[0] == SPACE && tail[1..] == Joined(args[1..]);
        JoinedReads(r, args[1..]);
      }
      FirstArgReads(r, args[0], tail, AsGiven(args[1..]));
    }
  }

  lemma FirstArgReads(r: Runner, arg: seq<byte>, tail: seq<byte>, rest: seq<Option<seq<byte>>>)
    requires Stops(tail) && ParseCommands(r, tail) == Ok(rest)
    ensures ParseCommands(r, Escaped(arg, true) + tail) == Ok([Some(arg)] + rest)
  {
    hide FindEnd, ParseArg, Escaped;
    var e := Escaped(arg, true);
    var s := e + tail;
    EscapedBegins(arg);
    EscapedReads(r, arg, tail);
    assert s[0] == e[0] && s[..|e|] == e && s[|e|..] == tail;
  }

  /** Cutting a line after the end of its argument does not move that end. */
  lemma {:induction false} SkipSqCut(s: seq<byte>, n: nat)
    requires SkipSq(s).Ok? && SkipSq(s).value <= n <= |s|
    ensures SkipSq(s[..n]) == SkipSq(s)
  {
    if s[0] != SQUOTE {
      SkipSqCut(s[1..], n - 1);
      assert s[..n][1..] == s[1..][..n - 1];
    }
  }

  lemma {:induction false} SkipDqCut(s: seq<byte>, n: nat)
    requires SkipDq(s).Ok? && SkipDq(s).value <= n <= |s|
    ensures SkipDq(s[..n]) == SkipDq(s)
    decreases |s|
  {
    if s[0] == BACKSLASH {
      SkipDqCut(s[2..], n - 2);
      assert s[..n][2..] == s[2..][..n - 2];
      assert s[..n][1..][0] == s[1..][0];
    } else if s[0] != DQUOTE {
      SkipDqCut(s[1..], n - 1);
      assert s[..n][1..] == s[1..][..n - 1];
    }
  }

  /** A quoted string at the beginning of the cut text. */
  lemma CutBehindSq(s: seq<byte>, n: nat, q: nat)
    requires n <= |s| && s != [] && s[0] == SQUOTE && SkipSq(s[1..]) == Ok(q) && 1 + q <= n
    requires FindEnd(s[1 + q..n]) == Ok(n - 1 - q)
    ensures FindEnd(s[..n]) == Ok(n)
  {
    hide SkipSq;
    var t := s[..n];
    SkipSqCut(s[1..], n - 1);
    assert t[0] == s[0] && t[1..] == s[1..][..n - 1] && t[1 + q..] == s[1 + q..n];
  }

  lemma CutBehindDq(s: seq<byte>, n: nat, q: nat)
    requires n <= |s| && s != [] && s[0] == DQUOTE && SkipDq(s[1..]) == Ok(q) && 1 + q <= n
    requires FindEnd(s[1 + q..n]) == Ok(n - 1 - q)
    ensures FindEnd(s[..n]) == Ok(n)
  {
    hide SkipDq;
    var t := s[..n];
    SkipDqCut(s[1..], n - 1);
    assert t[0] == s[0] && t[1..] == s[1..][..n - 1] && t[1 + q..] == s[1 + q..n];
  }

  lemma CutBehindBackslash(s: seq<byte>, n: nat)
    requires 2 <= n <= |s| && s[0] == BACKSLASH && s[1] != 0
    requires FindEnd(s[2..n]) == Ok(n - 2)
    ensures FindEnd(s[..n]) == Ok(n)
  {
    var t := s[..n];
    assert t[0] == s[0] && t[1..][0] == s[1] && t[2..] == s[2..n];
  }

  lemma CutBehindByte(s: seq<byte>, n: nat)
    requires 1 <= n <= |s| && s[0] !in {0, SQUOTE, DQUOTE, BACKSLASH} && !EndsArg(s[0])
    requires FindEnd(s[1..n]) == Ok(n - 1)
    ensures FindEnd(s[..n]) == Ok(n)
  {
    var t := s[..n];
    assert t[0] == s[0] && t[1..] == s[1..n];
  }

  lemma CutStep(s: seq<byte>) returns (q: nat)
    requires FindEnd(s).Ok? && !AtNul(s) && !EndsArg(s[0])
    ensures var n := FindEnd(s).value;
      1 <= q <= n && FindEnd(s[q..]) == Ok(n - q) && (FindEnd(s[q..n]) == Ok(n - q) ==> FindEnd(s[..n]) == Ok(n))
  {
    hide SkipSq, SkipDq;
    var n := FindEnd(s).value;
    if s[0] == SQUOTE {
      q := 1 + SkipSq(s[1..]).value;
      if FindEnd(s[q..n]) == Ok(n - q) { CutBehindSq(s, n, q - 1); }
    } else if s[0] == DQUOTE {
      q := 1 + SkipDq(s[1..]).value;
      if FindEnd(s[q..n]) == Ok(n - q) { CutBehindDq(s, n, q - 1); }
    } else if s[0] == BACKSLASH {
      q := 2;
      if FindEnd(s[q..n]) == Ok(n - q) { CutBehindBackslash(s, n); }
    } else {
      q := 1;
      if FindEnd(s[q..n]) == Ok(n - q) { CutBehindByte(s, n); }
    }
  }

  lemma {:induction false} FindEndCut(s: seq<byte>)
    requires FindEnd(s).Ok?
    ensures var n := FindEnd(s).value; FindEnd(s[..n]) == Ok(n)
    decreases |s|
  {
    if !AtNul(s) && !EndsArg(s[0]) {
      hide FindEnd;
      var n := FindEnd(s).value;
      var q := CutStep(s);
      FindEndCut(s[q..]);
      assert s[q..][..n - q] == s[q..n];
    }
  }

  /** The parser reads a single-quoted string to the quote that the scanner found. */
  lemma {:induction false} SqAgrees(s: seq<byte>)
    requires SkipSq(s).Ok?
    ensures ParseSq(s).used == SkipSq(s).value
  {
    if s[0] != SQUOTE {
      SqAgrees(s[1..]);
      MemChrStep(s);
    }
  }

  lemma MemChrStep(s: seq<byte>)
    requires s != [] && s[0] != SQUOTE
    ensures MemChr(s, SQUOTE, 0) == if MemChr(s[1..], SQUOTE, 0) < 0 then -1 else 1 + MemChr(s[1..], SQUOTE, 0)
  {
    var i, j := MemChr(s, SQUOTE, 0), MemChr(s[1..], SQUOTE, 0);
    assert forall k :: 1 <= k < |s| ==> s[k] == s[1..][k - 1];
    if j >= 0 {
      assert s[j + 1] == SQUOTE;
    }
  }

  /** Bytes that the scanner steps over one by one. */
  lemma {:induction false} SkipDqOver(s: seq<byte>, n: nat)
    requires n <= |s| && forall i :: 0 <= i < n ==> HexValue(s[i]) >= 0
    requires SkipDq(s).Ok?
    ensures SkipDq(s[n..]) == Ok(SkipDq(s).value - n)
  {
    if n > 0 {
      SkipDqOver(s[1..], n - 1);
      assert s[1..][n - 1..] == s[n..];
    } else {
      assert s[0..] == s;
    }
  }

  /** So does the parser read a double-quoted one, although it takes escape sequences whole. */
  lemma {:induction false} DqAgrees(r: Runner, s: seq<byte>)
    requires SkipDq(s).Ok?
    ensures ParseDq(r, s).used == SkipDq(s).value
    decreases |s|
  {
    if s[0] == BACKSLASH {
      var e := ParseEscape(r, s[1..]);
      assert s[1..][1..] == s[2..];
      SkipDqOver(s[2..], e.used - 1);
      assert s[2..][e.used - 1..] == s[1 + e.used..];
      DqAgrees(r, s[1 + e.used..]);
    } else if s[0] != DQUOTE {
      DqAgrees(r, s[1..]);
    }
  }

  // Where the expander ends

  /**
   * The scanner, save that it steps over a variable in braces as one piece,
   * whatever stands between them; what is not closed reaches to the end.
   */
  function BraceEnd(s: seq<byte>): (n: nat)
    ensures n <= |s|
    decreases |s|
  {
    if s == [] || EndsArg(s[0]) then 0
    else if s[0] == SQUOTE then
      var q := SkipSq(s[1..]);
      if q.Ok? then 1 + q.value + BraceEnd(s[1 + q.value..]) else |s|
    else if s[0] == DQUOTE then
      var q := SkipDq(s[1..]);
      if q.Ok? then 1 + q.value + BraceEnd(s[1 + q.value..]) else |s|
    else if s[0] == BACKSLASH then
      if |s| == 1 then 1 else 2 + BraceEnd(s[2..])
    else if s[0] == DOLLAR && |s| > 1 && s[1] == LBRACE then
      var i := MemChr(s[1..], RBRACE, 1);
      if i < 0 then |s| else i + 2 + BraceEnd(s[i + 2..])
    else 1 + BraceEnd(s[1..])
  }

  /** A string that is not closed is read to the end. */
  lemma {:induction false} SqReachesEnd(s: seq<byte>)
    requires 0 !in s && SkipSq(s).Err?
    ensures ParseSq(s).used == |s|
  {
    if s != [] {
      assert s[0] in s;
      SuffixHas(s, 1, 0);
      SqReachesEnd(s[1..]);
      MemChrStep(s);
    }
  }

  lemma {:induction false} SkipDqFails(s: seq<byte>, n: nat)
    requires n <= |s| && forall i :: 0 <= i < n ==> HexValue(s[i]) >= 0
    requires SkipDq(s).Err?
    ensures SkipDq(s[n..]).Err?
  {
    if n > 0 {
      SkipDqFails(s[1..], n - 1);
      assert s[1..][n - 1..] == s[n..];
    } else {
      assert s[0..] == s;
    }
  }

  lemma {:induction false} DqReachesEnd(r: Runner, s: seq<byte>)
    requires 0 !in s && SkipDq(s).Err?
    ensures ParseDq(r, s).used == |s|
    decreases |s|
  {
    if s != [] {
      assert s[0] in s;
      if s[0] == BACKSLASH && |s| > 1 {
        var e := ParseEscape(r, s[1..]);
        assert s[1] in s && s[1..][1..] == s[2..];
        SkipDqFails(s[2..], e.used - 1);
        assert s[2..][e.used - 1..] == s[1 + e.used..];
        SuffixHas(s, 1 + e.used, 0);
        DqReachesEnd(r, s[1 + e.used..]);
      } else if s[0] == BACKSLASH {
        assert s[1..] == [];
      } else {
        SuffixHas(s, 1, 0);
        DqReachesEnd(r, s[1..]);
      }
    }
  }

  lemma SuffixHas(s: seq<byte>, n: nat, c: byte)
    requires n <= |s| && c !in s
    ensures c !in s[n..]
  {
  }

  /** A name is stepped over byte by byte. */
  lemma {:induction false} NameOver(s: seq<byte>)
    ensures BraceEnd(s) == NameLength(s) + BraceEnd(s[NameLength(s)..])
  {
    if NameLength(s) > 0 {
      NameOver(s[1..]);
      assert s[1..][NameLength(s[1..])..] == s[NameLength(s)..];
    } else {
      assert s[0..] == s;
    }
  }

  /** One round of the expander: it takes `q` bytes, as does the scanner that heeds braces. */
  lemma ReadStep(r: Runner, s: seq<byte>) returns (q: nat)
    requires 0 !in s && s != [] && !EndsArg(s[0])
    ensures 1 <= q <= |s|
    ensures ParseRest(r, s).used == q + ParseRest(r, s[q..]).used && BraceEnd(s) == q + BraceEnd(s[q..])
  {
    if s[0] == SQUOTE {
      q := SqStep(r, s);
    } else if s[0] == DQUOTE {
      q := DqStep(r, s);
    } else if s[0] == DOLLAR {
      q := DollarStep(r, s);
    } else {
      q := if s[0] == BACKSLASH && |s| > 1 then 2 else 1;
      assert s[0] == BACKSLASH && |s| == 1 ==> s[1..] == [];
    }
  }

  lemma QuoteRead(r: Runner, s: seq<byte>)
    requires s != []
    ensures s[0] == SQUOTE ==>
      var v := ParseSq(s[1..]).used; ParseRest(r, s).used == 1 + v + ParseRest(r, s[1 + v..]).used
    ensures s[0] == DQUOTE ==>
      var v := ParseDq(r, s[1..]).used; ParseRest(r, s).used == 1 + v + ParseRest(r, s[1 + v..]).used
    ensures ParseRest(r, []).used == 0 && BraceEnd([]) == 0
  {
  }

  lemma SqStep(r: Runner, s: seq<byte>) returns (q: nat)
    requires 0 !in s && s != [] && s[0] == SQUOTE
    ensures 1 <= q <= |s|
    ensures ParseRest(r, s).used == q + ParseRest(r, s[q..]).used && BraceEnd(s) == q + BraceEnd(s[q..])
  {
    QuoteRead(r, s);
    hide SkipSq, ParseSq, ParseRest;
    SuffixHas(s, 1, 0);
    q := 1 + ParseSq(s[1..]).used;
    if SkipSq(s[1..]).Ok? {
      SqAgrees(s[1..]);
    } else {
      SqReachesEnd(s[1..]);
      assert s[|s|..] == [];
    }
  }

  lemma DqStep(r: Runner, s: seq<byte>) returns (q: nat)
    requires 0 !in s && s != [] && s[0] == DQUOTE
    ensures 1 <= q <= |s|
    ensures ParseRest(r, s).used == q + ParseRest(r, s[q..]).used && BraceEnd(s) == q + BraceEnd(s[q..])
  {
    QuoteRead(r, s);
    hide SkipDq, ParseDq, ParseRest;
    SuffixHas(s, 1, 0);
    q := 1 + ParseDq(r, s[1..]).used;
    if SkipDq(s[1..]).Ok? {
      DqAgrees(r, s[1..]);
    } else {
      DqReachesEnd(r, s[1..]);
      assert s[|s|..] == [];
    }
  }

  lemma DollarRead(r: Runner, s: seq<byte>)
    requires s != [] && s[0] == DOLLAR
    ensures var v := ParseVar(r, s[1..]).used; ParseRest(r, s).used == 1 + v + ParseRest(r, s[1 + v..]).used
  {
  }

  lemma DollarScanned(s: seq<byte>)
    requires s != [] && s[0] == DOLLAR
    ensures BraceEnd(s) ==
      if |s| > 1 && s[1] == LBRACE then
        var i := MemChr(s[1..], RBRACE, 1); if i < 0 then |s| else i + 2 + BraceEnd(s[i + 2..])
      else 1 + BraceEnd(s[1..])
  {
  }

  lemma DollarStep(r: Runner, s: seq<byte>) returns (q: nat)
    requires s != [] && s[0] == DOLLAR
    ensures 1 <= q <= |s|
    ensures ParseRest(r, s).used == q + ParseRest(r, s[q..]).used && BraceEnd(s) == q + BraceEnd(s[q..])
  {
    DollarRead(r, s);
    DollarScanned(s);
    assert s[|s|..] == [] && BraceEnd([]) == 0 && ParseRest(r, []).used == 0;
    hide NameLength, ParseRest, BraceEnd;
    q := 1 + ParseVar(r, s[1..]).used;
    if |s| > 1 && IsNameStart(s[1]) {
      NameOver(s[1..]);
      assert s[1..][q - 1..] == s[q..];
    }
  }

  /** The expander ends where the scanner that heeds braces does. */
  lemma {:induction false} RestEnds(r: Runner, s: seq<byte>)
    requires 0 !in s
    ensures ParseRest(r, s).used == BraceEnd(s)
    decreases |s|
  {
    if s != [] && !EndsArg(s[0]) {
      hide ParseRest, BraceEnd;
      var q := ReadStep(r, s);
      SuffixHas(s, q, 0);
      RestEnds(r, s[q..]);
    }
  }

  /** An argument that the scanner sets apart holds no 0 byte. */
  lemma {:induction false} SqHasNoNul(s: seq<byte>)
    requires SkipSq(s).Ok?
    ensures 0 !in s[..SkipSq(s).value]
  {
    if s[0] != SQUOTE {
      SqHasNoNul(s[1..]);
      assert s[..SkipSq(s).value] == [s[0]] + s[1..][..SkipSq(s[1..]).value];
    }
  }

  lemma {:induction false} DqHasNoNul(s: seq<byte>)
    requires SkipDq(s).Ok?
    ensures 0 !in s[..SkipDq(s).value]
    decreases |s|
  {
    if s[0] == BACKSLASH {
      DqHasNoNul(s[2..]);
      assert s[..SkipDq(s).value] == [s[0], s[1..][0]] + s[2..][..SkipDq(s[2..]).value];
    } else if s[0] != DQUOTE {
      DqHasNoNul(s[1..]);
      assert s[..SkipDq(s).value] == [s[0]] + s[1..][..SkipDq(s[1..]).value];
    }
  }

  /** One round of the scanner. */
  lemma ScanStep(s: seq<byte>) returns (q: nat)
    requires FindEnd(s) == Ok(|s|) && s != []
    ensures 1 <= q <= |s| && FindEnd(s[q..]) == Ok(|s| - q) && 0 !in s[..q]
  {
    hide SkipSq, SkipDq;
    if s[0] == SQUOTE {
      q := 1 + SkipSq(s[1..]).value;
      SqHasNoNul(s[1..]);
      assert s[..q] == [s[0]] + s[1..][..q - 1];
    } else if s[0] == DQUOTE {
      q := 1 + SkipDq(s[1..]).value;
      DqHasNoNul(s[1..]);
      assert s[..q] == [s[0]] + s[1..][..q - 1];
    } else if s[0] == BACKSLASH {
      q := 2;
      assert s[1..][0] != 0;
    } else {
      q := 1;
    }
  }

  lemma {:induction false} SpanHasNoNul(s: seq<byte>)
    requires FindEnd(s) == Ok(|s|)
    ensures 0 !in s
    decreases |s|
  {
    if s != [] {
      hide FindEnd;
      var q := ScanStep(s);
      SpanHasNoNul(s[q..]);
      assert s == s[..q] + s[q..];
    }
  }

  /**
   * The argument that the scanner sets apart is read up to where heeding braces
   * ends it: so it is read to its end exactly if that is where it ends.
   */
  lemma ArgumentIsRead(r: Runner, s: seq<byte>)
    requires FindEnd(s).Ok?
    ensures var n := FindEnd(s).value;
      && ParseArg(r, s[..n]).used == BraceEnd(s[..n])
      && (ParseArg(r, s[..n]).used == n <==> BraceEnd(s[..n]) == n)
  {
    var t := s[..FindEnd(s).value];
    FindEndCut(s);
    SpanHasNoNul(t);
    RestEnds(r, t);
    if HasTildeSlash(t) {
      SuffixHas(t, 1, 0);
      RestEnds(r, t[1..]);
    }
  }

  /** No quote among the first `n` bytes, unless behind a backslash. */
  predicate Unquoted(s: seq<byte>, n: nat)
    requires n <= |s|
    decreases n
  {
    if n == 0 then true
    else if s[0] == SQUOTE || s[0] == DQUOTE then false
    else if s[0] == BACKSLASH && n > 1 then Unquoted(s[2..], n - 2)
    else Unquoted(s[1..], n - 1)
  }

  /** Between the braces of a variable outside of quotes, there is no quote that is not escaped. */
  predicate PlainBraces(s: seq<byte>)
    decreases |s|
  {
    if s == [] || EndsArg(s[0]) then true
    else if s[0] == SQUOTE then var q := SkipSq(s[1..]); q.Ok? ==> PlainBraces(s[1 + q.value..])
    else if s[0] == DQUOTE then var q := SkipDq(s[1..]); q.Ok? ==> PlainBraces(s[1 + q.value..])
    else if s[0] == BACKSLASH then |s| == 1 || PlainBraces(s[2..])
    else if s[0] == DOLLAR && |s| > 1 && s[1] == LBRACE then
      var i := MemChr(s[1..], RBRACE, 1);
      i < 0 || (Unquoted(s[2..], i - 1) && PlainBraces(s[i + 2..]))
    else PlainBraces(s[1..])
  }

  /** The scanner then steps over the closing brace, too. */
  lemma {:induction false} ScannedOver(s: seq<byte>, n: nat)
    requires FindEnd(s) == Ok(|s|) && n < |s| && s[n] == RBRACE && Unquoted(s, n)
    ensures FindEnd(s[n + 1..]) == Ok(|s| - n - 1)
    decreases n
  {
    if n > 1 && s[0] == BACKSLASH {
      ScannedOver(s[2..], n - 2);
      assert s[2..][n - 1..] == s[n + 1..];
    } else if n > 0 && s[0] != BACKSLASH {
      ScannedOver(s[1..], n - 1);
      assert s[1..][n..] == s[n + 1..];
    }
  }

  /** So such an argument is read to its end: any variable in braces with an ordinary name among them. */
  lemma {:induction false} PlainBracesEnd(s: seq<byte>)
    requires FindEnd(s) == Ok(|s|) && PlainBraces(s)
    ensures BraceEnd(s) == |s|
    decreases |s|
  {
    if s != [] {
      hide SkipSq, SkipDq;
      if s[0] == SQUOTE {
        PlainBracesEnd(s[1 + SkipSq(s[1..]).value..]);
      } else if s[0] == DQUOTE {
        PlainBracesEnd(s[1 + SkipDq(s[1..]).value..]);
      } else if s[0] == BACKSLASH {
        PlainBracesEnd(s[2..]);
      } else if s[0] == DOLLAR && |s| > 1 && s[1] == LBRACE {
        var i := MemChr(s[1..], RBRACE, 1);
        if i >= 0 {
          assert s[1..][1..] == s[2..] && s[2..][i - 1] == s[1..][i];
          ScannedOver(s[2..], i - 1);
          assert s[2..][i..] == s[i + 2..];
          PlainBracesEnd(s[i + 2..]);
        }
      } else {
        PlainBracesEnd(s[1..]);
      }
    }
  }

  /** With a quote inside of the braces it need not be: of `${'} '` only the variable is read. */
  lemma BracesHideQuotes(r: Runner)
    ensures var s := [DOLLAR, LBRACE, SQUOTE, RBRACE, SPACE, SQUOTE];
      FindEnd(s) == Ok(6) && ParseArg(r, s[..6]).used == 4
  {
    var s := [DOLLAR, LBRACE, SQUOTE, RBRACE, SPACE, SQUOTE];
    var a, b, c := [SPACE, SQUOTE], [RBRACE, SPACE, SQUOTE], [SQUOTE, RBRACE, SPACE, SQUOTE];
    assert SkipSq([SQUOTE]) == Ok(1);
    assert a[1..] == [SQUOTE] && SkipSq(a) == Ok(2);
    assert b[1..] == a && SkipSq(b) == Ok(3);
    assert c[1..] == b && c[4..] == [] && FindEnd(c) == Ok(4);
    assert s[1..] == [LBRACE] + c && [LBRACE] + c != [] && s[1..][1..] == c && FindEnd(s[1..]) == Ok(5);
    assert FindEnd(s) == Ok(6);
    hide FindEnd, SkipSq;
    assert s[1..][2] == RBRACE && MemChr(s[1..], RBRACE, 1) == 2;
    assert s[4..] == a && s[..6] == s && ParseRest(r, a) == Piece([], 0);
    DollarRead(r, s);
  }
}
