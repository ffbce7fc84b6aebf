/** Reading command lines. */
module Parse {
  import opened Bytes
  import opened Strings
  import S = CommandSyntax

  /** The byte of a C string, whose end reads as 0. */
  function CharAt(cmd: seq<byte>, pos: nat): byte {
    if pos < |cmd| then cmd[pos] else 0
  }

  lemma Rest(cmd: seq<byte>, pos: nat)
    requires pos <= |cmd|
    ensures S.AtNul(cmd[pos..]) == (CharAt(cmd, pos) == 0)
    ensures pos < |cmd| ==> cmd[pos..] != [] && cmd[pos..][0] == cmd[pos] && cmd[pos..][1..] == cmd[pos + 1..]
    ensures pos + 1 < |cmd| ==> cmd[pos..][2..] == cmd[pos + 2..]
  {
  }

  lemma RestFrom(cmd: seq<byte>, pos: nat, n: nat)
    requires pos + n <= |cmd|
    ensures cmd[pos..][n..] == cmd[pos + n..]
  {
  }

  method SkipSq(cmd: seq<byte>, start: nat) returns (end: S.Result<nat>)
    requires start <= |cmd|
    ensures end == S.Further(start, S.SkipSq(cmd[start..]))
  {
    var pos := start;
    while true
      invariant start <= pos <= |cmd|
      invariant S.Further(start, S.SkipSq(cmd[start..])) == S.Further(pos, S.SkipSq(cmd[pos..]))
      decreases |cmd| - pos
    {
      Rest(cmd, pos);
      if CharAt(cmd, pos) == S.SQUOTE {
        return S.Ok(pos + 1);
      }
      if CharAt(cmd, pos) == 0 {
        return S.Err(S.UnclosedSquote);
      }
      pos := pos + 1;
    }
  }

  /** One round of the search for the end of a double-quoted string. */
  lemma InDq(cmd: seq<byte>, pos: nat)
    requires pos <= |cmd|
    ensures var c, d := CharAt(cmd, pos), CharAt(cmd, pos + 1);
      S.SkipDq(cmd[pos..])
      == if c == 0 then S.Err(S.UnclosedDquote)
         else if c == S.DQUOTE then S.Ok(1)
         else if c != S.BACKSLASH then S.Further(1, S.SkipDq(cmd[pos + 1..]))
         else if d == 0 then S.Err(S.UnexpectedEof)
         else S.Further(2, S.SkipDq(cmd[pos + 2..]))
  {
    Rest(cmd, pos);
    if pos < |cmd| {
      Rest(cmd, pos + 1);
    }
  }

  method SkipDq(cmd: seq<byte>, start: nat) returns (end: S.Result<nat>)
    requires start <= |cmd|
    ensures end == S.Further(start, S.SkipDq(cmd[start..]))
  {
    hide S.SkipDq;
    var pos := start;
    while true
      invariant start <= pos <= |cmd|
      invariant S.Further(start, S.SkipDq(cmd[start..])) == S.Further(pos, S.SkipDq(cmd[pos..]))
      decreases |cmd| - pos
    {
      InDq(cmd, pos);
      var ch := CharAt(cmd, pos);
      if ch == S.DQUOTE {
        return S.Ok(pos + 1);
      }
      if ch == 0 {
        return S.Err(S.UnclosedDquote);
      }
      pos := pos + 1;
      if ch == S.BACKSLASH {
        if CharAt(cmd, pos) == 0 {
          return S.Err(S.UnexpectedEof);
        }
        pos := pos + 1;
      }
    }
  }

  lemma AtEnd(cmd: seq<byte>, pos: nat)
    requires pos <= |cmd| && (CharAt(cmd, pos) == 0 || S.EndsArg(CharAt(cmd, pos)))
    ensures S.FindEnd(cmd[pos..]) == S.Ok(0)
  {
    Rest(cmd, pos);
  }

  lemma AtQuote(cmd: seq<byte>, pos: nat)
    requires pos < |cmd| && (cmd[pos] == S.SQUOTE || cmd[pos] == S.DQUOTE)
    ensures var q := if cmd[pos] == S.SQUOTE then S.SkipSq(cmd[pos + 1..]) else S.SkipDq(cmd[pos + 1..]);
      S.FindEnd(cmd[pos..])
      == if q.Err? then S.Err(q.error) else S.Further(1 + q.value, S.FindEnd(cmd[pos + 1 + q.value..]))
  {
    hide S.SkipSq, S.SkipDq;
    Rest(cmd, pos);
    var q := if cmd[pos] == S.SQUOTE then S.SkipSq(cmd[pos + 1..]) else S.SkipDq(cmd[pos + 1..]);
    if q.Ok? {
      RestFrom(cmd, pos, 1 + q.value);
    }
  }

  lemma AtByte(cmd: seq<byte>, pos: nat)
    requires pos < |cmd| && cmd[pos] !in {0, S.SQUOTE, S.DQUOTE} && !S.EndsArg(cmd[pos])
    ensures cmd[pos] != S.BACKSLASH ==> S.FindEnd(cmd[pos..]) == S.Further(1, S.FindEnd(cmd[pos + 1..]))
    ensures cmd[pos] == S.BACKSLASH && CharAt(cmd, pos + 1) == 0 ==> S.FindEnd(cmd[pos..]) == S.Err(S.UnexpectedEof)
    ensures cmd[pos] == S.BACKSLASH && CharAt(cmd, pos + 1) != 0
      ==> S.FindEnd(cmd[pos..]) == S.Further(2, S.FindEnd(cmd[pos + 2..]))
  {
    Rest(cmd, pos);
    Rest(cmd, pos + 1);
  }

  /** The end of the argument that begins at `start`. */
  method FindEnd(cmd: seq<byte>, start: nat) returns (end: S.Result<nat>)
    requires start <= |cmd|
    ensures end == S.Further(start, S.FindEnd(cmd[start..]))
  {
    hide S.SkipSq, S.SkipDq, S.FindEnd;
    var pos := start;
    while true
      invariant start <= pos <= |cmd|
      invariant S.Further(start, S.FindEnd(cmd[start..])) == S.Further(pos, S.FindEnd(cmd[pos..]))
      decreases |cmd| - pos
    {
      var ch := CharAt(cmd, pos);
      if ch == 0 || S.EndsArg(ch) {
        AtEnd(cmd, pos);
        return S.Ok(pos);
      }
      pos := pos + 1;
      if ch == S.SQUOTE || ch == S.DQUOTE {
        AtQuote(cmd, pos - 1);
        if ch == S.SQUOTE {
          end := SkipSq(cmd, pos);
        } else {
          end := SkipDq(cmd, pos);
        }
        if end.Err? {
          return;
        }
        pos := end.value;
      } else {
        AtByte(cmd, pos - 1);
        if ch == S.BACKSLASH {
          if CharAt(cmd, pos) == 0 {
            return S.Err(S.UnexpectedEof);
          }
          pos := pos + 1;
        }
      }
    }
  }

  /** A single-quoted string, from behind its opening quote. */
  method ParseSq(cmd: seq<byte>, buf: String) returns (pos: nat)
    modifies buf
    ensures pos == S.ParseSq(cmd).used
    ensures buf.bytes == old(buf.bytes) + S.ParseSq(cmd).value
  {
    var found := MemChr(cmd, S.SQUOTE, 0);
    var len := if found >= 0 then found else |cmd|;
    buf.Append(cmd[..len]);
    assert cmd[..|cmd|] == cmd;
    pos := if found >= 0 then len + 1 else len;
  }

  /** The byte that a letter behind a backslash stands for, or 0. */
  function Unescaped(c: byte): byte {
    match c
    case 97 => 7
    case 98 => 8
    case 101 => 27
    case 102 => 12
    case 110 => 10
    case 114 => 13
    case 116 => 9
    case 118 => 11
    case 92 => S.BACKSLASH
    case 34 => S.DQUOTE
    case _ => 0
  }

  method HexEscape(str: seq<byte>, buf: String) returns (n: nat)
    modifies buf
    ensures n == S.HexRun(str, 2)
    ensures buf.bytes == old(buf.bytes) + if n == 2 then [S.HexByte(S.HexNumber(str[..n]))] else []
  {
    var x: nat;
    n, x := ParseHex(str, 2);
    if n == 2 {
      buf.Append([S.HexByte(x)]);
    }
  }

  method UnicodeEscape(r: S.Runner, str: seq<byte>, count: nat, buf: String) returns (n: nat)
    modifies buf
    ensures n == S.HexRun(str, count)
    ensures buf.bytes == old(buf.bytes) + if n > 0 then r.encode(S.HexNumber(str[..n])) else []
  {
    var u: nat;
    n, u := ParseHex(str, count);
    if n > 0 {
      buf.Append(r.encode(u));
    }
  }

  /** A number in hexadecimal digits, at most `max` of them. */
  method ParseHex(str: seq<byte>, max: nat) returns (n: nat, x: nat)
    ensures n == S.HexRun(str, max) && x == S.HexNumber(str[..n])
  {
    n, x := 0, 0;
    while n < max && n < |str| && S.HexValue(str[n]) >= 0
      invariant n <= |str| && n <= max
      invariant forall i :: 0 <= i < n ==> S.HexValue(str[i]) >= 0
      invariant x == S.HexNumber(str[..n])
      invariant S.HexRun(str, max) == n + S.HexRun(str[n..], max - n)
    {
      assert str[..n + 1][..n] == str[..n];
      assert str[n..][1..] == str[n + 1..];
      x := x * 16 + S.HexValue(str[n]);
      n := n + 1;
    }
  }

  /** What follows a backslash. */
  method ParseEscape(r: S.Runner, cmd: seq<byte>, buf: String) returns (pos: nat)
    requires cmd != []
    modifies buf
    ensures pos == S.ParseEscape(r, cmd).used
    ensures buf.bytes == old(buf.bytes) + S.ParseEscape(r, cmd).value
  {
    hide S.HexRun, S.HexNumber, S.HexByte;
    var ch := cmd[0];
    pos := 1;
    if Unescaped(ch) != 0 {
      buf.Append([Unescaped(ch)]);
    } else if ch == 120 {
      var n := HexEscape(cmd[1..], buf);
      pos := pos + n;
    } else if ch == 117 {
      var n := UnicodeEscape(r, cmd[1..], 4, buf);
      pos := pos + n;
    } else if ch == 85 {
      var n := UnicodeEscape(r, cmd[1..], 8, buf);
      pos := pos + n;
    } else {
      buf.Append([S.BACKSLASH]);
      buf.Append([ch]);
    }
  }

  /** One round of reading a double-quoted string. */
  lemma DqRound(r: S.Runner, cmd: seq<byte>, pos: nat)
    requires pos < |cmd|
    ensures cmd[pos] == S.DQUOTE ==> S.ParseDq(r, cmd[pos..]) == S.Piece([], 1)
    ensures cmd[pos] == S.BACKSLASH && pos + 1 < |cmd| ==>
      var e := S.ParseEscape(r, cmd[pos + 1..]);
      S.ParseDq(r, cmd[pos..]) == S.ParseDq(r, cmd[pos + 1 + e.used..]).After(e.value, 1 + e.used)
    ensures cmd[pos] != S.DQUOTE && (cmd[pos] == S.BACKSLASH ==> pos + 1 == |cmd|) ==>
      S.ParseDq(r, cmd[pos..]) == S.ParseDq(r, cmd[pos + 1..]).After([cmd[pos]], 1)
  {
    hide S.ParseEscape;
    Rest(cmd, pos);
    if pos + 1 < |cmd| {
      RestFrom(cmd, pos, 1 + S.ParseEscape(r, cmd[pos + 1..]).used);
    }
  }

  /** A double-quoted string, from behind its opening quote. */
  method ParseDq(r: S.Runner, cmd: seq<byte>, buf: String) returns (pos: nat)
    modifies buf
    ensures pos == S.ParseDq(r, cmd).used
    ensures buf.bytes == old(buf.bytes) + S.ParseDq(r, cmd).value
  {
    hide S.ParseDq, S.ParseEscape;
    pos := 0;
    ghost var read: seq<byte> := [];
    assert cmd[0..] == cmd;
    while pos < |cmd|
      invariant pos <= |cmd| && buf.bytes == old(buf.bytes) + read
      invariant S.ParseDq(r, cmd) == S.ParseDq(r, cmd[pos..]).After(read, pos)
      decreases |cmd| - pos
    {
      DqRound(r, cmd, pos);
      var ch := cmd[pos];
      pos := pos + 1;
      if ch == S.DQUOTE {
        return;
      }
      if ch == S.BACKSLASH && pos < |cmd| {
        read := read + S.ParseEscape(r, cmd[pos..]).value;
        var n := ParseEscape(r, cmd[pos..], buf);
        pos := pos + n;
      } else {
        read := read + [ch];
        buf.Append([ch]);
      }
    }
    DqAtEnd(r, cmd);
  }

  lemma DqAtEnd(r: S.Runner, cmd: seq<byte>)
    ensures S.ParseDq(r, cmd[|cmd|..]) == S.Piece([], 0)
  {
  }

  /** One round of reading an argument. */
  lemma RestRound(r: S.Runner, cmd: seq<byte>, pos: nat)
    requires pos < |cmd|
    ensures S.EndsArg(cmd[pos]) ==> S.ParseRest(r, cmd[pos..]) == S.Piece([], 0)
    ensures cmd[pos] in {S.SQUOTE, S.DQUOTE, S.DOLLAR} ==>
      var q := if cmd[pos] == S.SQUOTE then S.ParseSq(cmd[pos + 1..])
               else if cmd[pos] == S.DQUOTE then S.ParseDq(r, cmd[pos + 1..])
               else S.ParseVar(r, cmd[pos + 1..]);
      S.ParseRest(r, cmd[pos..]) == S.ParseRest(r, cmd[pos + 1 + q.used..]).After(q.value, 1 + q.used)
    ensures cmd[pos] == S.BACKSLASH && pos + 1 == |cmd| ==> S.ParseRest(r, cmd[pos..]) == S.Piece([], 1)
    ensures cmd[pos] == S.BACKSLASH && pos + 1 < |cmd| ==>
      S.ParseRest(r, cmd[pos..]) == S.ParseRest(r, cmd[pos + 2..]).After([cmd[pos + 1]], 2)
    ensures !S.EndsArg(cmd[pos]) && cmd[pos] !in {S.SQUOTE, S.DQUOTE, S.DOLLAR, S.BACKSLASH} ==>
      S.ParseRest(r, cmd[pos..]) == S.ParseRest(r, cmd[pos + 1..]).After([cmd[pos]], 1)
  {
    hide S.ParseSq, S.ParseDq, S.ParseVar;
    Rest(cmd, pos);
    var q := if cmd[pos] == S.SQUOTE then S.ParseSq(cmd[pos + 1..])
             else if cmd[pos] == S.DQUOTE then S.ParseDq(r, cmd[pos + 1..])
             else S.ParseVar(r, cmd[pos + 1..]);
    RestFrom(cmd, pos, 1 + q.used);
  }

  /** The argument that a piece of a command line stands for. */
  method ParseCommandArg(r: S.Runner, cmd: seq<byte>) returns (arg: seq<byte>)
    ensures arg == S.ParseArg(r, cmd).value
  {
    hide S.ParseRest, S.ParseSq, S.ParseDq, S.ParseVar, S.HasTildeSlash, S.ParseArg, S.Piece.After;
    ArgBegins(r, cmd);
    var buf := new String();
    var pos := 0;
    if r.expandTilde && S.HasTildeSlash(cmd) {
      buf.Append(r.home);
      pos := 1;
    }
    ghost var read := buf.bytes;
    while pos < |cmd|
      invariant pos <= |cmd| && buf.bytes == read
      invariant S.ParseArg(r, cmd) == S.ParseRest(r, cmd[pos..]).After(read, pos)
      decreases |cmd| - pos
    {
      RestRound(r, cmd, pos);
      var ch := cmd[pos];
      pos := pos + 1;
      if S.EndsArg(ch) {
        NoMore(read, pos - 1, 0);
        return buf.bytes;
      }
      if ch == S.SQUOTE {
        ghost var q := S.ParseSq(cmd[pos..]);
        Onward(S.ParseRest(r, cmd[pos + q.used..]), q.value, 1 + q.used, read, pos - 1);
        read := read + q.value;
        var n := ParseSq(cmd[pos..], buf);
        pos := pos + n;
      } else if ch == S.DQUOTE {
        ghost var q := S.ParseDq(r, cmd[pos..]);
        Onward(S.ParseRest(r, cmd[pos + q.used..]), q.value, 1 + q.used, read, pos - 1);
        read := read + q.value;
        var n := ParseDq(r, cmd[pos..], buf);
        pos := pos + n;
      } else if ch == S.DOLLAR {
        var v := S.ParseVar(r, cmd[pos..]);
        Onward(S.ParseRest(r, cmd[pos + v.used..]), v.value, 1 + v.used, read, pos - 1);
        read := read + v.value;
        buf.Append(v.value);
        pos := pos + v.used;
      } else {
        ghost var start := pos - 1;
        if ch == S.BACKSLASH {
          if pos == |cmd| {
            NoMore(read, pos - 1, 1);
            return buf.bytes;
          }
          ch := cmd[pos];
          pos := pos + 1;
        }
        Onward(S.ParseRest(r, cmd[pos..]), [ch], pos - start, read, start);
        read := read + [ch];
        buf.Append([ch]);
      }
    }
    RestAtEnd(r, cmd);
    NoMore(read, pos, 0);
    return buf.bytes;
  }

  lemma ArgBegins(r: S.Runner, cmd: seq<byte>)
    ensures S.HasTildeSlash(cmd) ==> |cmd| >= 2
    ensures S.ParseArg(r, cmd) ==
      if r.expandTilde && S.HasTildeSlash(cmd) then S.ParseRest(r, cmd[1..]).After([] + r.home, 1)
      else S.ParseRest(r, cmd[0..]).After([], 0)
  {
    assert cmd[0..] == cmd && [] + r.home == r.home;
  }

  lemma Onward(p: S.Piece, v: seq<byte>, n: nat, read: seq<byte>, pos: nat)
    ensures p.After(v, n).After(read, pos) == p.After(read + v, pos + n)
  {
  }

  lemma NoMore(read: seq<byte>, pos: nat, n: nat)
    ensures S.Piece([], n).After(read, pos).value == read
  {
  }

  lemma RestAtEnd(r: S.Runner, cmd: seq<byte>)
    ensures S.ParseRest(r, cmd[|cmd|..]) == S.Piece([], 0)
  {
  }

  /** One round of reading a command line. */
  lemma CommandRound(r: S.Runner, cmd: seq<byte>, pos: nat)
    requires pos <= |cmd|
    ensures var c, n, cs := CharAt(cmd, pos), S.FindEnd(cmd[pos..]), S.ParseCommands(r, cmd[pos..]);
      if c == 0 then cs == S.Ok([S.None])
      else if S.IsSpace(c) then cs == S.ParseCommands(r, cmd[pos + 1..])
      else if c == S.SEMICOLON then cs == S.Prepended([S.None], S.ParseCommands(r, cmd[pos + 1..]))
      else if n.Err? then cs == S.Err(n.error)
      else n.value > 0 && cs == S.Prepended(
        [S.Some(S.ParseArg(r, cmd[pos..pos + n.value]).value)], S.ParseCommands(r, cmd[pos + n.value..]))
  {
    hide S.FindEnd, S.ParseArg;
    Rest(cmd, pos);
    var c, n := CharAt(cmd, pos), S.FindEnd(cmd[pos..]);
    if c != 0 && !S.EndsArg(c) && n.Ok? {
      S.FindEndProgress(cmd[pos..]);
      RestFrom(cmd, pos, n.value);
      assert cmd[pos..][..n.value] == cmd[pos..pos + n.value];
    }
  }

  lemma OneMore(args: seq<S.Option<seq<byte>>>, arg: S.Option<seq<byte>>, rest: S.Result<seq<S.Option<seq<byte>>>>)
    ensures S.Prepended([], rest) == rest
    ensures S.Prepended(args, S.Prepended([arg], rest)) == S.Prepended(args + [arg], rest)
  {
    if rest.Ok? {
      assert [] + rest.value == rest.value;
      assert args + ([arg] + rest.value) == args + [arg] + rest.value;
    }
  }

  /** The arguments of a command line, up to the first error. */
  method ParseCommands(r: S.Runner, cmd: seq<byte>)
      returns (err: S.Option<S.Error>, args: seq<S.Option<seq<byte>>>)
    ensures match S.ParseCommands(r, cmd)
      case Ok(all) => err == S.None && args == all
      case Err(e) => err == S.Some(e)
  {
    hide S.ParseCommands, S.FindEnd, S.ParseArg;
    args := [];
    var pos := 0;
    assert cmd[0..] == cmd;
    OneMore([], S.None, S.ParseCommands(r, cmd));
    while true
      invariant pos <= |cmd|
      invariant S.ParseCommands(r, cmd) == S.Prepended(args, S.ParseCommands(r, cmd[pos..]))
      decreases |cmd| - pos
    {
      while S.IsSpace(CharAt(cmd, pos))
        invariant pos <= |cmd|
        invariant S.ParseCommands(r, cmd) == S.Prepended(args, S.ParseCommands(r, cmd[pos..]))
        decreases |cmd| - pos
      {
        CommandRound(r, cmd, pos);
        pos := pos + 1;
      }
      CommandRound(r, cmd, pos);
      if CharAt(cmd, pos) == 0 {
        break;
      }
      if CharAt(cmd, pos) == S.SEMICOLON {
        OneMore(args, S.None, S.ParseCommands(r, cmd[pos + 1..]));
        args := args + [S.None];
        pos := pos + 1;
        continue;
      }
      var end := FindEnd(cmd, pos);
      if end.Err? {
        return S.Some(end.error), args;
      }
      var arg := ParseCommandArg(r, cmd[pos..end.value]);
      OneMore(args, S.Some(arg), S.ParseCommands(r, cmd[end.value..]));
      args := args + [S.Some(arg)];
      pos := end.value;
    }
    args := args + [S.None];
    err := S.None;
  }
}
