/**
 * The command language: how arguments are written and what a command line
 * means. Everything here is a function of the text that is still to be read.
 */
module CommandSyntax {
  import opened Bytes

  const TAB: byte := 9
  const CR: byte := 13
  const SPACE: byte := 32
  const DQUOTE: byte := 34
  const DOLLAR: byte := 36
  const SQUOTE: byte := 39
  const SLASH: byte := 47
  const SEMICOLON: byte := 59
  const BACKSLASH: byte := 92
  const UNDERSCORE: byte := 95
  const LBRACE: byte := 123
  const RBRACE: byte := 125
  const TILDE: byte := 126

  predicate IsCntrl(c: byte) {
    c < 32 || c == 127
  }

  predicate IsSpace(c: byte) {
    c == SPACE || c == TAB || c == NL || c == CR
  }

  /** What ends an argument that is not quoted. */
  predicate EndsArg(c: byte) {
    IsSpace(c) || c == SEMICOLON
  }

  // Writing

  datatype SerializeType = NoQuote | SingleQuote | DoubleQuote

  predicate NeedsDouble(c: byte) {
    c == SQUOTE || IsCntrl(c)
  }

  predicate NeedsSingle(c: byte) {
    c == SPACE || c == DQUOTE || c == DOLLAR || c == SEMICOLON || c == BACKSLASH
  }

  function TypeOf(arg: seq<byte>): SerializeType {
    if exists c :: c in arg && NeedsDouble(c) then DoubleQuote
    else if exists c :: c in arg && NeedsSingle(c) then SingleQuote
    else NoQuote
  }

  /** The letter of a byte's escape sequence, or 0. */
  function EscMap(c: byte): byte {
    match c
    case 7 => 97
    case 8 => 98
    case 9 => 116
    case 10 => 110
    case 11 => 118
    case 12 => 102
    case 13 => 114
    case 27 => 101
    case 34 => DQUOTE
    case 92 => BACKSLASH
    case _ => 0
  }

  function HexDigit(n: byte): byte
    requires n < 16
  {
    if n < 10 then 48 + n else 55 + n
  }

  function EscapeByte(c: byte): seq<byte> {
    if EscMap(c) != 0 then [BACKSLASH, EscMap(c)]
    else if IsCntrl(c) then [BACKSLASH, 120, HexDigit(c / 16), HexDigit(c % 16)]
    else [c]
  }

  function DquotedBody(arg: seq<byte>): seq<byte> {
    if arg == [] then [] else EscapeByte(arg[0]) + DquotedBody(arg[1..])
  }

  function Dquoted(arg: seq<byte>): seq<byte> {
    [DQUOTE] + DquotedBody(arg) + [DQUOTE]
  }

  predicate HasTildeSlash(s: seq<byte>) {
    |s| >= 2 && s[0] == TILDE && s[1] == SLASH
  }

  function Quoted(arg: seq<byte>): seq<byte> {
    match TypeOf(arg)
    case NoQuote => arg
    case SingleQuote => [SQUOTE] + arg + [SQUOTE]
    case DoubleQuote => Dquoted(arg)
  }

  /** An argument as it is written into a command line. */
  function Escaped(arg: seq<byte>, escapeTilde: bool): seq<byte> {
    if arg == [] then [SQUOTE, SQUOTE]
    else if HasTildeSlash(arg) && !escapeTilde then [TILDE, SLASH] + Quoted(arg[2..])
    else if HasTildeSlash(arg) && TypeOf(arg) == NoQuote then [BACKSLASH] + arg
    else Quoted(arg)
  }

  // Reading

  /** The text a piece of input stands for, and how much of the input it takes. */
  datatype Piece = Piece(value: seq<byte>, used: nat) {
    function After(v: seq<byte>, n: nat): Piece {
      Piece(v + value, n + used)
    }
  }

  datatype Runner = Runner(
    home: seq<byte>,
    expandTilde: bool,
    variable: seq<byte> -> seq<byte>,
    encode: nat -> seq<byte>)

  function HexValue(c: byte): int {
    if 48 <= c <= 57 then c as int - 48
    else if 65 <= c <= 70 then c as int - 55
    else if 97 <= c <= 102 then c as int - 87
    else -1
  }

  /** How many hex digits there are, up to `max`. */
  function HexRun(s: seq<byte>, max: nat): (n: nat)
    ensures n <= |s| && n <= max
    ensures forall i :: 0 <= i < n ==> HexValue(s[i]) >= 0
  {
    if max == 0 || s == [] || HexValue(s[0]) < 0 then 0 else 1 + HexRun(s[1..], max - 1)
  }

  function HexNumber(s: seq<byte>): nat
    requires forall i :: 0 <= i < |s| ==> HexValue(s[i]) >= 0
  {
    if s == [] then 0 else HexNumber(s[..|s| - 1]) * 16 + HexValue(s[|s| - 1])
  }

  function HexByte(n: nat): byte {
    (n % 256) as byte
  }

  /** A single-quoted string, from behind its opening quote. */
  function ParseSq(s: seq<byte>): (p: Piece)
    ensures p.used <= |s|
  {
    var i := MemChr(s, SQUOTE, 0);
    if i < 0 then Piece(s, |s|) else Piece(s[..i], i + 1)
  }

  /** What follows a backslash in a double-quoted string. */
  function ParseEscape(r: Runner, s: seq<byte>): (p: Piece)
    requires s != []
    ensures 1 <= p.used <= |s|
  {
    match s[0]
    case 97 => Piece([7], 1)
    case 98 => Piece([8], 1)
    case 101 => Piece([27], 1)
    case 102 => Piece([12], 1)
    case 110 => Piece([10], 1)
    case 114 => Piece([13], 1)
    case 116 => Piece([9], 1)
    case 118 => Piece([11], 1)
    case 92 => Piece([BACKSLASH], 1)
    case 34 => Piece([DQUOTE], 1)
    case 120 =>
      var n := HexRun(s[1..], 2);
      Piece(if n == 2 then [HexByte(HexNumber(s[1..][..n]))] else [], 1 + n)
    case 117 =>
      var n := HexRun(s[1..], 4);
      Piece(if n > 0 then r.encode(HexNumber(s[1..][..n])) else [], 1 + n)
    case 85 =>
      var n := HexRun(s[1..], 8);
      Piece(if n > 0 then r.encode(HexNumber(s[1..][..n])) else [], 1 + n)
    case c => Piece([BACKSLASH, c], 1)
  }

  /** A double-quoted string, from behind its opening quote. */
  function ParseDq(r: Runner, s: seq<byte>): (p: Piece)
    ensures p.used <= |s|
    decreases |s|
  {
    if s == [] then Piece([], 0)
    else if s[0] == DQUOTE then Piece([], 1)
    else if s[0] == BACKSLASH && |s| > 1 then
      var e := ParseEscape(r, s[1..]);
      ParseDq(r, s[1 + e.used..]).After(e.value, 1 + e.used)
    else ParseDq(r, s[1..]).After([s[0]], 1)
  }

  predicate IsNameStart(c: byte) {
    65 <= c <= 90 || 97 <= c <= 122 || c == UNDERSCORE
  }

  function NameLength(s: seq<byte>): (n: nat)
    ensures n <= |s|
  {
    if s == [] || !(IsNameStart(s[0]) || 48 <= s[0] <= 57) then 0 else 1 + NameLength(s[1..])
  }

  /** A variable, from behind its dollar sign. */
  function ParseVar(r: Runner, s: seq<byte>): (p: Piece)
    ensures p.used <= |s|
  {
    if s != [] && IsNameStart(s[0]) then
      var n := NameLength(s);
      Piece(r.variable(s[..n]), n)
    else if s != [] && s[0] == LBRACE then
      var i := MemChr(s, RBRACE, 1);
      if i < 0 then Piece([], |s|)
      else Piece(if i == 1 then [] else r.variable(s[1..i]), i + 1)
    else Piece([], 0)
  }

  /** The rest of an argument. */
  function ParseRest(r: Runner, s: seq<byte>): (p: Piece)
    ensures p.used <= |s|
    decreases |s|
  {
    if s == [] || EndsArg(s[0]) then Piece([], 0)
    else if s[0] == SQUOTE then
      var q := ParseSq(s[1..]);
      ParseRest(r, s[1 + q.used..]).After(q.value, 1 + q.used)
    else if s[0] == DQUOTE then
      var q := ParseDq(r, s[1..]);
      ParseRest(r, s[1 + q.used..]).After(q.value, 1 + q.used)
    else if s[0] == DOLLAR then
      var v := ParseVar(r, s[1..]);
      ParseRest(r, s[1 + v.used..]).After(v.value, 1 + v.used)
    else if s[0] == BACKSLASH then
      if |s| == 1 then Piece([], 1)
      else ParseRest(r, s[2..]).After([s[1]], 2)
    else ParseRest(r, s[1..]).After([s[0]], 1)
  }

  /** The argument that a piece of a command line stands for. */
  function ParseArg(r: Runner, s: seq<byte>): Piece {
    if r.expandTilde && HasTildeSlash(s) then ParseRest(r, s[1..]).After(r.home, 1)
    else ParseRest(r, s)
  }

  datatype Error = UnclosedSquote | UnclosedDquote | UnexpectedEof

  datatype Result<T> = Ok(value: T) | Err(error: Error) {
    predicate IsFailure() {
      Err?
    }

    function PropagateFailure<U>(): Result<U>
      requires Err?
    {
      Err(error)
    }

    function Extract(): T
      requires Ok?
    {
      value
    }
  }

  /** A result for what is left of a text, counted from `n` bytes before. */
  function Further(n: nat, r: Result<nat>): Result<nat> {
    match r
    case Ok(v) => Ok(n + v)
    case Err(e) => Err(e)
  }

  function Prepended<T>(front: seq<T>, r: Result<seq<T>>): Result<seq<T>> {
    match r
    case Ok(rest) => Ok(front + rest)
    case Err(e) => Err(e)
  }

  /** The end of a C string. */
  predicate AtNul(s: seq<byte>) {
    s == [] || s[0] == 0
  }

  /** The length of what is left of a single-quoted string, closing quote included. */
  function SkipSq(s: seq<byte>): (n: Result<nat>)
    ensures n.Ok? ==> 1 <= n.value <= |s|
  {
    if AtNul(s) then Err(UnclosedSquote)
    else if s[0] == SQUOTE then Ok(1)
    else
      var n :- SkipSq(s[1..]);
      Ok(1 + n)
  }

  function SkipDq(s: seq<byte>): (n: Result<nat>)
    ensures n.Ok? ==> 1 <= n.value <= |s|
    decreases |s|
  {
    if AtNul(s) then Err(UnclosedDquote)
    else if s[0] == DQUOTE then Ok(1)
    else if s[0] == BACKSLASH then
      if AtNul(s[1..]) then Err(UnexpectedEof)
      else
        var n :- SkipDq(s[2..]);
        Ok(2 + n)
    else
      var n :- SkipDq(s[1..]);
      Ok(1 + n)
  }

  /** The length of the argument at the beginning of `s`. */
  function FindEnd(s: seq<byte>): (n: Result<nat>)
    ensures n.Ok? ==> n.value <= |s|
    decreases |s|
  {
    if AtNul(s) || EndsArg(s[0]) then Ok(0)
    else if s[0] == SQUOTE then
      var q :- SkipSq(s[1..]);
      var n :- FindEnd(s[1 + q..]);
      Ok(1 + q + n)
    else if s[0] == DQUOTE then
      var q :- SkipDq(s[1..]);
      var n :- FindEnd(s[1 + q..]);
      Ok(1 + q + n)
    else if s[0] == BACKSLASH then
      if AtNul(s[1..]) then Err(UnexpectedEof)
      else
        var n :- FindEnd(s[2..]);
        Ok(2 + n)
    else
      var n :- FindEnd(s[1..]);
      Ok(1 + n)
  }

  datatype Option<T> = None | Some(value: T)

  /** The arguments of a command line; None separates its commands and ends it. */
  function ParseCommands(r: Runner, s: seq<byte>): Result<seq<Option<seq<byte>>>>
    decreases |s|
  {
    if AtNul(s) then Ok([None])
    else if IsSpace(s[0]) then ParseCommands(r, s[1..])
    else if s[0] == SEMICOLON then
      var rest :- ParseCommands(r, s[1..]);
      Ok([None] + rest)
    else
      var n :- FindEnd(s);
      FindEndProgress(s);
      var rest :- ParseCommands(r, s[n..]);
      Ok([Some(ParseArg(r, s[..n]).value)] + rest)
  }

  lemma FindEndProgress(s: seq<byte>)
    requires !AtNul(s) && !EndsArg(s[0]) && FindEnd(s).Ok?
    ensures FindEnd(s).value > 0
  {
  }

  /** Arguments written one after another, each followed by the next after a space. */
  function Joined(args: seq<seq<byte>>): seq<byte> {
    if args == [] then []
    else if |args| == 1 then Escaped(args[0], true)
    else Escaped(args[0], true) + [SPACE] + Joined(args[1..])
  }
}
