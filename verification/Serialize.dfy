/** Writing arguments into a command line. */
module Serialize {
  import opened Bytes
  import opened CommandSyntax
  import opened Strings

  method GetSerializeType(arg: seq<byte>) returns (kind: SerializeType)
    ensures kind == TypeOf(arg)
  {
    kind := NoQuote;
    for i := 0 to |arg|
      invariant forall k :: 0 <= k < i ==> !NeedsDouble(arg[k])
      invariant kind == SingleQuote || kind == NoQuote
      invariant kind == SingleQuote <==> exists k :: 0 <= k < i && NeedsSingle(arg[k])
    {
      var c := arg[i];
      if NeedsDouble(c) {
        return DoubleQuote;
      }
      if NeedsSingle(c) {
        kind := SingleQuote;
      }
    }
  }

  method AppendDquotedArg(s: String, arg: seq<byte>)
    modifies s
    ensures s.bytes == old(s.bytes) + Dquoted(arg)
  {
    s.Append([DQUOTE]);
    for i := 0 to |arg|
      invariant s.bytes == old(s.bytes) + [DQUOTE] + DquotedBody(arg[..i])
    {
      var ch := arg[i];
      if EscMap(ch) != 0 {
        s.Append([BACKSLASH, EscMap(ch)]);
      } else if IsCntrl(ch) {
        s.Append([BACKSLASH, 120, HexDigit(ch / 16), HexDigit(ch % 16)]);
      } else {
        s.Append([ch]);
      }
      assert arg[..i + 1] == arg[..i] + [ch];
      DquotedOneMore(arg[..i], ch);
    }
    s.Append([DQUOTE]);
    assert arg[..|arg|] == arg;
  }

  lemma {:induction false} DquotedOneMore(s: seq<byte>, c: byte)
    ensures DquotedBody(s + [c]) == DquotedBody(s) + EscapeByte(c)
  {
    if s == [] {
      assert [c][1..] == [];
    } else {
      assert (s + [c])[0] == s[0] && (s + [c])[1..] == s[1..] + [c];
      DquotedOneMore(s[1..], c);
    }
  }

  /** An escaped argument from its beginning to its end. */
  lemma EscapedIs(text: seq<byte>, escapeTilde: bool)
    ensures HasTildeSlash(text) ==> |text| >= 2
    ensures var tilde := HasTildeSlash(text);
      var arg := if tilde && !escapeTilde then text[2..] else text;
      var front := if tilde && !escapeTilde then [TILDE, SLASH] else [];
      Escaped(text, escapeTilde) ==
        if text == [] then [SQUOTE, SQUOTE]
        else match TypeOf(arg)
          case DoubleQuote => front + Dquoted(arg)
          case SingleQuote => front + [SQUOTE] + arg + [SQUOTE]
          case NoQuote => front + (if tilde && escapeTilde then [BACKSLASH] else []) + arg
  {
    hide TypeOf, Dquoted;
  }

  method AppendEscapedArg(s: String, text: seq<byte>, escapeTilde: bool)
    modifies s
    ensures s.bytes == old(s.bytes) + Escaped(text, escapeTilde)
  {
    hide TypeOf, Dquoted, Escaped, HasTildeSlash;
    EscapedIs(text, escapeTilde);
    ghost var base, front := s.bytes, [];
    var arg := text;
    if |arg| == 0 {
      s.Append([SQUOTE, SQUOTE]);
      return;
    }
    var hasTildeSlash := HasTildeSlash(arg);
    if hasTildeSlash && !escapeTilde {
      s.Append([TILDE, SLASH]);
      front := [TILDE, SLASH];
      arg := arg[2..];
    }
    Grouped(base, front, [], []);
    var kind := GetSerializeType(arg);
    if kind == DoubleQuote {
      AppendDquotedArg(s, arg);
      Grouped(base, front, Dquoted(arg), []);
      return;
    }
    if kind == SingleQuote {
      s.Append([SQUOTE]);
    } else if hasTildeSlash && escapeTilde {
      s.Append([BACKSLASH]);
    }
    s.Append(arg);
    if kind == SingleQuote {
      s.Append([SQUOTE]);
      Grouped(base, front + [SQUOTE], arg, [SQUOTE]);
      Grouped(base, front, [SQUOTE], []);
    } else {
      Grouped(base, front, if hasTildeSlash && escapeTilde then [BACKSLASH] else [], arg);
    }
  }

  lemma Grouped(a: seq<byte>, b: seq<byte>, c: seq<byte>, d: seq<byte>)
    ensures a + b + c + d == a + (b + c + d) && a + b + c == a + (b + c)
    ensures c == [] ==> a + b + c == a + b
    ensures d == [] ==> a + b + c + d == a + b + c
    ensures a + [] == a && [] + a == a
  {
  }
}
