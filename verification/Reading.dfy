/** What the text of a command line means, byte by byte. */
module Reading {
  import opened Bytes
  import opened CommandSyntax
  import opened Quoting

  /** What the letter behind a backslash stands for in double quotes: a b e f n r t v, the backslash and the quote. */
  const LETTERS: map<byte, byte> := map[
    97 := 7, 98 := 8, 101 := 27, 102 := 12, 110 := 10, 114 := 13, 116 := 9, 118 := 11, 92 := 92, 34 := 34]

  /** The letters in front of hex digits: x, u and U. */
  const LETTER_X: byte := 120
  const LETTER_U: byte := 117
  const LETTER_LONG_U: byte := 85

  predicate HasMeaning(c: byte) {
    c in LETTERS || c == LETTER_X || c == LETTER_U || c == LETTER_LONG_U
  }

  /** The text that is read from what follows. */
  function Value(r: Runner, s: seq<byte>): seq<byte> {
    ParseRest(r, s).value
  }

  // In double quotes

  /** In double quotes, `p` stands for `m`, whatever follows it. */
  lemma InQuotes(r: Runner, p: seq<byte>, m: seq<byte>, tail: seq<byte>)
    requires ParseDq(r, p + tail) == ParseDq(r, tail).After(m, |p|)
    ensures Value(r, [DQUOTE] + p + tail) == m + Value(r, [DQUOTE] + tail)
  {
    hide ParseDq, Value;
    var q := ParseDq(r, tail);
    QuoteOpens(r, tail);
    QuoteOpens(r, p + tail);
    Behind(p, tail, q.used);
    Joining([DQUOTE], p, tail);
    Joining(m, q.value, Value(r, tail[q.used..]));
  }

  lemma Joining(a: seq<byte>, b: seq<byte>, c: seq<byte>)
    ensures a + b + c == a + (b + c)
  {
  }

  lemma Behind(a: seq<byte>, b: seq<byte>, n: nat)
    requires n <= |b|
    ensures (a + b)[|a| + n..] == b[n..]
  {
  }

  lemma QuoteOpens(r: Runner, s: seq<byte>)
    ensures var q := ParseDq(r, s); Value(r, [DQUOTE] + s) == q.value + Value(r, s[q.used..])
  {
    hide ParseDq;
    var t := [DQUOTE] + s;
    assert t[1..] == s && t[1 + ParseDq(r, s).used..] == s[ParseDq(r, s).used..];
  }

  /** What an escape sequence of one letter stands for. */
  lemma LetterMeans(r: Runner, c: byte, tail: seq<byte>)
    requires c in LETTERS
    ensures Value(r, [DQUOTE] + [BACKSLASH, c] + tail) == [LETTERS[c]] + Value(r, [DQUOTE] + tail)
  {
    var s := [BACKSLASH, c] + tail;
    assert s[1..][0] == c && s[2..] == tail;
    InQuotes(r, [BACKSLASH, c], [LETTERS[c]], tail);
  }

  /** Any other letter is kept, and so is the backslash. */
  lemma OtherLetterStays(r: Runner, c: byte, tail: seq<byte>)
    requires !HasMeaning(c)
    ensures Value(r, [DQUOTE] + [BACKSLASH, c] + tail) == [BACKSLASH, c] + Value(r, [DQUOTE] + tail)
  {
    var s := [BACKSLASH, c] + tail;
    assert s[1..][0] == c && s[2..] == tail;
    InQuotes(r, [BACKSLASH, c], [BACKSLASH, c], tail);
  }

  lemma ByteStays(r: Runner, c: byte, tail: seq<byte>)
    requires c != BACKSLASH && c != DQUOTE
    ensures Value(r, [DQUOTE] + [c] + tail) == [c] + Value(r, [DQUOTE] + tail)
  {
    var s := [c] + tail;
    assert s[0] == c && s[1..] == tail;
    InQuotes(r, [c], [c], tail);
  }

  lemma QuoteCloses(r: Runner, tail: seq<byte>)
    ensures Value(r, [DQUOTE, DQUOTE] + tail) == Value(r, tail)
  {
    var s := [DQUOTE, DQUOTE] + tail;
    assert s[1..][0] == DQUOTE && s[2..] == tail;
    assert [] + Value(r, tail) == Value(r, tail);
  }

  /** Double quotes keep every backslash in front of a letter without a meaning, as in a search pattern. */
  lemma {:induction false} PatternStays(r: Runner, s: seq<byte>, tail: seq<byte>)
    requires DQUOTE !in s
    requires forall i :: 0 <= i < |s| && s[i] == BACKSLASH ==> i + 1 < |s| && !HasMeaning(s[i + 1])
    ensures Value(r, [DQUOTE] + s + [DQUOTE] + tail) == s + Value(r, tail)
    decreases |s|
  {
    hide HasMeaning, Value;
    if s == [] {
      QuoteCloses(r, tail);
      assert [DQUOTE] + s + [DQUOTE] + tail == [DQUOTE, DQUOTE] + tail;
      assert s + Value(r, tail) == Value(r, tail);
    } else {
      var n := if s[0] == BACKSLASH then 2 else 1;
      var head, rest := s[..n], s[n..];
      assert rest == s[n..] && forall i :: 0 <= i < |rest| ==> rest[i] == s[n + i];
      PatternStays(r, rest, tail);
      if n == 2 {
        OtherLetterStays(r, s[1], rest + [DQUOTE] + tail);
        assert head == [BACKSLASH, s[1]];
      } else {
        assert s[0] in s;
        ByteStays(r, s[0], rest + [DQUOTE] + tail);
        assert head == [s[0]];
      }
      assert [DQUOTE] + s + [DQUOTE] + tail == [DQUOTE] + head + (rest + [DQUOTE] + tail);
      assert [DQUOTE] + (rest + [DQUOTE] + tail) == [DQUOTE] + rest + [DQUOTE] + tail;
      assert head + (rest + Value(r, tail)) == s + Value(r, tail);
    }
  }

  // Numbers

  /** The byte `c` is a digit for `d`, in lower or upper case. */
  predicate IsDigit(c: byte, d: nat) {
    || (d < 10 && c as int == 48 + d)
    || (10 <= d < 16 && (c as int == 97 + (d - 10) || c as int == 65 + (d - 10)))
  }

  predicate AreDigits(s: seq<byte>, ds: seq<nat>) {
    |s| == |ds| && forall i :: 0 <= i < |s| ==> IsDigit(s[i], ds[i])
  }

  /** No digit follows. */
  predicate NoDigit(s: seq<byte>) {
    s == [] || forall d: nat :: d < 16 ==> !IsDigit(s[0], d)
  }

  function Number(ds: seq<nat>): nat {
    if ds == [] then 0 else Number(ds[..|ds| - 1]) * 16 + ds[|ds| - 1]
  }

  lemma DigitValue(c: byte, d: nat)
    requires IsDigit(c, d)
    ensures HexValue(c) == d
  {
  }

  lemma NoDigitValue(c: byte)
    requires forall d: nat :: d < 16 ==> !IsDigit(c, d)
    ensures HexValue(c) < 0
  {
    if HexValue(c) >= 0 {
      assert IsDigit(c, HexValue(c));
    }
  }

  lemma {:induction false} RunOfDigits(s: seq<byte>, ds: seq<nat>, tail: seq<byte>, max: nat)
    requires AreDigits(s, ds) && |s| <= max && (|s| == max || NoDigit(tail))
    ensures HexRun(s + tail, max) == |s|
  {
    if s == [] {
      assert s + tail == tail;
      if max > 0 && tail != [] {
        NoDigitValue(tail[0]);
      }
    } else {
      DigitValue(s[0], ds[0]);
      assert (s + tail)[1..] == s[1..] + tail;
      RunOfDigits(s[1..], ds[1..], tail, max - 1);
    }
  }

  lemma {:induction false} NumberOfDigits(s: seq<byte>, ds: seq<nat>)
    requires AreDigits(s, ds)
    ensures forall i :: 0 <= i < |s| ==> HexValue(s[i]) >= 0
    ensures HexNumber(s) == Number(ds)
  {
    if s != [] {
      var n := |s| - 1;
      NumberOfDigits(s[..n], ds[..n]);
      DigitValue(s[n], ds[n]);
      assert s == s[..n] + [s[n]];
    }
  }

  lemma EscapedNumber(r: Runner, letter: byte, s: seq<byte>, ds: seq<nat>, tail: seq<byte>, max: nat, m: seq<byte>)
    requires AreDigits(s, ds) && |s| <= max && (|s| == max || NoDigit(tail))
    requires ParseEscape(r, [letter] + (s + tail)) == Piece(m, 1 + |s|)
    ensures Value(r, [DQUOTE] + ([BACKSLASH, letter] + s) + tail) == m + Value(r, [DQUOTE] + tail)
  {
    hide ParseEscape, HexRun, HexNumber, ParseDq, AreDigits, Value;
    var p := [BACKSLASH, letter] + s;
    assert p + tail == [BACKSLASH] + ([letter] + (s + tail)) && ([letter] + (s + tail))[1 + |s|..] == tail;
    EscapeOpens(r, [letter] + (s + tail));
    InQuotes(r, p, m, tail);
  }

  lemma EscapeOpens(r: Runner, s: seq<byte>)
    requires s != []
    ensures var e := ParseEscape(r, s);
      ParseDq(r, [BACKSLASH] + s) == ParseDq(r, s[e.used..]).After(e.value, 1 + e.used)
  {
    hide ParseEscape, ParseDq;
    var t, e := [BACKSLASH] + s, ParseEscape(r, s);
    assert t[0] == BACKSLASH && |t| > 1 && t[1..] == s && t[1 + e.used..] == s[e.used..];
    EscapeUnfolds(r, t);
  }

  lemma EscapeUnfolds(r: Runner, t: seq<byte>)
    requires |t| > 1 && t[0] == BACKSLASH
    ensures var e := ParseEscape(r, t[1..]); ParseDq(r, t) == ParseDq(r, t[1 + e.used..]).After(e.value, 1 + e.used)
  {
    hide ParseEscape;
  }

  /** `\x` and two digits stand for one byte; with fewer digits they stand for nothing. */
  lemma HexMeans(r: Runner, s: seq<byte>, ds: seq<nat>, tail: seq<byte>)
    requires AreDigits(s, ds) && |s| <= 2 && (|s| == 2 || NoDigit(tail))
    ensures |ds| == 2 ==> 16 * ds[0] + ds[1] < 256
    ensures Value(r, [DQUOTE] + ([BACKSLASH, LETTER_X] + s) + tail)
      == (if |s| == 2 then [(16 * ds[0] + ds[1]) as byte] else []) + Value(r, [DQUOTE] + tail)
  {
    RunOfDigits(s, ds, tail, 2);
    NumberOfDigits(s, ds);
    assert (s + tail)[..|s|] == s;
    if |s| == 2 {
      assert ds[..1] == [ds[0]] && ds[..1][..0] == [];
      assert Number(ds[..1]) == ds[0];
    }
    var m := if |s| == 2 then [(16 * ds[0] + ds[1]) as byte] else [];
    assert ([LETTER_X] + (s + tail))[1..] == s + tail;
    EscapedNumber(r, LETTER_X, s, ds, tail, 2, m);
  }

  /** `\u` and up to four digits, or `\U` and up to eight, stand for a code point; without any, for nothing. */
  lemma UnicodeMeans(r: Runner, long: bool, s: seq<byte>, ds: seq<nat>, tail: seq<byte>)
    requires var max := if long then 8 else 4;
      AreDigits(s, ds) && |s| <= max && (|s| == max || NoDigit(tail))
    ensures var letter := if long then LETTER_LONG_U else LETTER_U;
      Value(r, [DQUOTE] + ([BACKSLASH, letter] + s) + tail)
        == (if s == [] then [] else r.encode(Number(ds))) + Value(r, [DQUOTE] + tail)
  {
    var max, letter := if long then 8 else 4, if long then LETTER_LONG_U else LETTER_U;
    RunOfDigits(s, ds, tail, max);
    NumberOfDigits(s, ds);
    assert (s + tail)[..|s|] == s;
    var m := if s == [] then [] else r.encode(Number(ds));
    hide HexRun, HexNumber, Number, Value;
    assert ([letter] + (s + tail))[1..] == s + tail;
    EscapedNumber(r, letter, s, ds, tail, max, m);
  }

  // Outside of double quotes

  /** Single quotes keep everything between them. */
  lemma SingleQuotesKeep(r: Runner, s: seq<byte>, tail: seq<byte>)
    requires SQUOTE !in s
    ensures Value(r, [SQUOTE] + s + [SQUOTE] + tail) == s + Value(r, tail)
  {
    var t := [SQUOTE] + s + [SQUOTE] + tail;
    var u := t[1..];
    assert u == s + [SQUOTE] + tail;
    assert u[|s|] == SQUOTE && forall k :: 0 <= k < |s| ==> u[k] == s[k];
    assert MemChr(u, SQUOTE, 0) == |s| && u[..|s|] == s;
    assert t[1 + (|s| + 1)..] == tail;
  }

  /** A backslash takes the meaning away from the byte behind it. */
  lemma BackslashTakesMeaning(r: Runner, c: byte, tail: seq<byte>)
    ensures Value(r, [BACKSLASH, c] + tail) == [c] + Value(r, tail)
    ensures Value(r, [BACKSLASH]) == []
  {
    var s := [BACKSLASH, c] + tail;
    assert s[1] == c && s[2..] == tail;
  }

  /** Tab, newline, carriage return and space. */
  predicate IsBlank(c: byte) {
    c == 9 || c == 10 || c == 13 || c == 32
  }

  /** Any byte without a meaning stands for itself; a blank or a semicolon ends the argument. */
  lemma PlainByteStays(r: Runner, c: byte, tail: seq<byte>)
    ensures Value(r, []) == []
    ensures IsBlank(c) || c == SEMICOLON ==> Value(r, [c] + tail) == []
    ensures !IsBlank(c) && c != SEMICOLON && c != SQUOTE && c != DQUOTE && c != DOLLAR && c != BACKSLASH ==>
      Value(r, [c] + tail) == [c] + Value(r, tail)
  {
    var s := [c] + tail;
    assert s[0] == c && s[1..] == tail;
  }

  predicate IsLetter(c: byte) {
    65 <= c <= 90 || 97 <= c <= 122 || c == 95
  }

  predicate IsNameByte(c: byte) {
    IsLetter(c) || 48 <= c <= 57
  }

  lemma {:induction false} LengthOfName(name: seq<byte>, tail: seq<byte>)
    requires (forall c :: c in name ==> IsNameByte(c)) && (tail == [] || !IsNameByte(tail[0]))
    ensures NameLength(name + tail) == |name|
  {
    if name == [] {
      assert name + tail == tail;
    } else {
      assert name[0] in name && (name + tail)[1..] == name[1..] + tail;
      LengthOfName(name[1..], tail);
    }
  }

  /** A dollar sign and a name stand for the value of that variable. */
  lemma VariableMeans(r: Runner, name: seq<byte>, tail: seq<byte>)
    requires name != [] && IsLetter(name[0]) && (forall c :: c in name ==> IsNameByte(c))
    requires tail == [] || !IsNameByte(tail[0])
    ensures Value(r, [DOLLAR] + name + tail) == r.variable(name) + Value(r, tail)
  {
    var s := [DOLLAR] + name + tail;
    assert s[1..] == name + tail;
    LengthOfName(name, tail);
    assert (name + tail)[..|name|] == name && s[1 + |name|..] == tail;
    hide NameLength;
  }

  /** So do they with braces around the name, which can then be any; without a name they stand for nothing. */
  lemma BracedVariableMeans(r: Runner, name: seq<byte>, tail: seq<byte>)
    requires RBRACE !in name
    ensures Value(r, [DOLLAR, LBRACE] + name + [RBRACE] + tail)
      == (if name == [] then [] else r.variable(name)) + Value(r, tail)
  {
    var s := [DOLLAR, LBRACE] + name + [RBRACE] + tail;
    var u := s[1..];
    assert u[1 + |name|] == RBRACE && forall k :: 1 <= k < 1 + |name| ==> u[k] == name[k - 1];
    assert MemChr(u, RBRACE, 1) == 1 + |name| && u[1..1 + |name|] == name;
    assert s[1 + (1 + |name| + 1)..] == tail;
  }

  /** A brace that is not closed takes everything; a dollar sign without a name stands for nothing. */
  lemma DollarAlone(r: Runner, tail: seq<byte>)
    ensures RBRACE !in tail ==> Value(r, [DOLLAR, LBRACE] + tail) == []
    ensures tail == [] || (!IsLetter(tail[0]) && tail[0] != LBRACE) ==> Value(r, [DOLLAR] + tail) == Value(r, tail)
  {
    var s, t := [DOLLAR, LBRACE] + tail, [DOLLAR] + tail;
    assert s[1..] == [LBRACE] + tail && s[|s|..] == [] && t[1..] == tail;
    if RBRACE !in tail {
      assert forall k :: 1 <= k < |s[1..]| ==> s[1..][k] in tail;
      assert MemChr(s[1..], RBRACE, 1) < 0;
      assert ParseRest(r, s[|s|..]) == Piece([], 0);
    }
    assert [] + Value(r, tail) == Value(r, tail);
  }

  /** A tilde and a slash at the beginning stand for the home directory and the slash, if the reader expands them. */
  lemma TildeMeans(r: Runner, s: seq<byte>)
    ensures ParseArg(r, s).value
      == if r.expandTilde && |s| >= 2 && s[0] == 126 && s[1] == 47 then r.home + Value(r, s[1..]) else Value(r, s)
  {
  }

  // Mistakes

  lemma {:induction false} SqNotClosed(s: seq<byte>)
    requires SQUOTE !in s
    ensures SkipSq(s) == Err(UnclosedSquote)
  {
    if !AtNul(s) {
      assert s[0] in s;
      SqNotClosed(s[1..]);
    }
  }

  /** How many backslashes there are at the end. */
  function Trailing(s: seq<byte>): (n: nat)
    ensures n <= |s|
  {
    if s == [] || s[|s| - 1] != BACKSLASH then 0 else 1 + Trailing(s[..|s| - 1])
  }

  lemma {:induction false} TrailingTail(s: seq<byte>, k: nat)
    requires k <= |s|
    ensures Trailing(s[k..]) == if Trailing(s) <= |s| - k then Trailing(s) else |s| - k
  {
    if k < |s| && s[|s| - 1] == BACKSLASH {
      var n := |s| - 1;
      assert s[k..][..n - k] == s[..n][k..];
      TrailingTail(s[..n], k);
    }
  }

  lemma {:induction false} DqNotClosed(s: seq<byte>)
    requires DQUOTE !in s && 0 !in s
    ensures SkipDq(s) == Err(if Trailing(s) % 2 == 1 then UnexpectedEof else UnclosedDquote)
    decreases |s|
  {
    if s != [] {
      assert s[0] in s;
      var k := if s[0] == BACKSLASH then 2 else 1;
      if k <= |s| {
        assert k == 2 ==> s[1] in s && s[1..][0] == s[1];
        TrailingTail(s, k);
        FrontTrailing(s, k);
        DqNotClosed(s[k..]);
      } else {
        assert s[..0] == [] && Trailing(s) == 1 + Trailing(s[..0]);
      }
    }
  }

  /** If only the end of an escape sequence is in reach of them, the backslashes at the end stop behind it. */
  lemma {:induction false} FrontTrailing(s: seq<byte>, k: nat)
    requires 0 < k <= |s| && k == if s[0] == BACKSLASH then 2 else 1
    ensures Trailing(s) <= |s| - k || (k == 2 && Trailing(s) == |s|)
  {
    TrailingAre(s);
  }

  lemma {:induction false} TrailingAre(s: seq<byte>)
    ensures forall i :: |s| - Trailing(s) <= i < |s| ==> s[i] == BACKSLASH
    ensures Trailing(s) < |s| ==> s[|s| - Trailing(s) - 1] != BACKSLASH
  {
    if s != [] && s[|s| - 1] == BACKSLASH {
      TrailingAre(s[..|s| - 1]);
    }
  }

  /** A quote that is not closed, and a backslash at the end, are told as such. */
  lemma MistakesAreTold(s: seq<byte>, r: Runner)
    ensures SQUOTE !in s ==> ParseCommands(r, [SQUOTE] + s) == Err(UnclosedSquote)
    ensures DQUOTE !in s && 0 !in s ==>
      ParseCommands(r, [DQUOTE] + s) == Err(if Trailing(s) % 2 == 1 then UnexpectedEof else UnclosedDquote)
    ensures ParseCommands(r, [BACKSLASH]) == Err(UnexpectedEof)
  {
    assert ([SQUOTE] + s)[1..] == s && ([DQUOTE] + s)[1..] == s;
    assert [BACKSLASH][1..] == [];
    if SQUOTE !in s {
      SqNotClosed(s);
    }
    if DQUOTE !in s && 0 !in s {
      DqNotClosed(s);
    }
  }

  // The end of a C string

  lemma {:induction false} SqAtNul(s: seq<byte>, rest: seq<byte>)
    ensures SkipSq(s + [0] + rest) == SkipSq(s)
  {
    var t := s + [0] + rest;
    if s != [] {
      assert t[0] == s[0] && t[1..] == s[1..] + [0] + rest;
      SqAtNul(s[1..], rest);
    }
  }

  lemma {:induction false} DqAtNul(s: seq<byte>, rest: seq<byte>)
    ensures SkipDq(s + [0] + rest) == SkipDq(s)
    decreases |s|
  {
    var t := s + [0] + rest;
    if s != [] {
      assert t[0] == s[0] && t[1..] == s[1..] + [0] + rest;
      if s[0] == BACKSLASH && |s| > 1 {
        assert t[2..] == s[2..] + [0] + rest;
        DqAtNul(s[2..], rest);
      } else if s[0] != BACKSLASH {
        DqAtNul(s[1..], rest);
      }
    }
  }

  /** One round of the scanner. */
  lemma QuoteUnfolds(s: seq<byte>)
    requires s != [] && (s[0] == SQUOTE || s[0] == DQUOTE)
    ensures var q := if s[0] == SQUOTE then SkipSq(s[1..]) else SkipDq(s[1..]);
      FindEnd(s) == if q.Err? then Err(q.error) else Further(1 + q.value, FindEnd(s[1 + q.value..]))
  {
    hide SkipSq, SkipDq;
  }

  lemma ByteUnfolds(s: seq<byte>)
    requires s != [] && s[0] != 0 && !EndsArg(s[0]) && s[0] != SQUOTE && s[0] != DQUOTE
    ensures s[0] != BACKSLASH ==> FindEnd(s) == Further(1, FindEnd(s[1..]))
    ensures s[0] == BACKSLASH ==>
      FindEnd(s) == if AtNul(s[1..]) then Err(UnexpectedEof) else Further(2, FindEnd(s[2..]))
  {
    hide SkipSq, SkipDq;
  }

  lemma {:induction false} EndAtNul(s: seq<byte>, rest: seq<byte>)
    ensures FindEnd(s + [0] + rest) == FindEnd(s)
    decreases |s|
  {
    var t := s + [0] + rest;
    if s != [] && s[0] != 0 && !EndsArg(s[0]) {
      hide SkipSq, SkipDq, FindEnd;
      RestAtNul(s, 1, rest);
      if s[0] == SQUOTE || s[0] == DQUOTE {
        QuoteUnfolds(s);
        QuoteUnfolds(t);
        SqAtNul(s[1..], rest);
        DqAtNul(s[1..], rest);
        var q := if s[0] == SQUOTE then SkipSq(s[1..]) else SkipDq(s[1..]);
        if q.Ok? {
          RestAtNul(s, 1 + q.value, rest);
          EndAtNul(s[1 + q.value..], rest);
        }
      } else {
        ByteUnfolds(s);
        ByteUnfolds(t);
        if s[0] != BACKSLASH {
          EndAtNul(s[1..], rest);
        } else if |s| > 1 {
          RestAtNul(s, 2, rest);
          EndAtNul(s[2..], rest);
        }
      }
    }
  }

  lemma RestAtNul(s: seq<byte>, n: nat, rest: seq<byte>)
    requires n <= |s|
    ensures (s + [0] + rest)[n..] == s[n..] + [0] + rest
  {
  }

  /** What stands behind a 0 byte is not read. */
  lemma {:induction false} NulEnds(r: Runner, s: seq<byte>, rest: seq<byte>)
    ensures ParseCommands(r, s + [0] + rest) == ParseCommands(r, s)
    decreases |s|
  {
    hide FindEnd, ParseArg;
    var t := s + [0] + rest;
    if s != [] && s[0] != 0 {
      assert t[0] == s[0] && t[1..] == s[1..] + [0] + rest;
      if EndsArg(s[0]) {
        NulEnds(r, s[1..], rest);
      } else {
        EndAtNul(s, rest);
        var n := FindEnd(s);
        if n.Ok? {
          FindEndProgress(s);
          assert t[..n.value] == s[..n.value] && t[n.value..] == s[n.value..] + [0] + rest;
          NulEnds(r, s[n.value..], rest);
        }
      }
    }
  }

  // How arguments are written

  /** Double quotes are for single quotes and control bytes, single quotes for blanks and what else has a meaning. */
  lemma WhichQuotes(arg: seq<byte>)
    ensures TypeOf(arg) == DoubleQuote <==> exists c :: c in arg && (c == 39 || c < 32 || c == 127)
    ensures TypeOf(arg) == SingleQuote <==>
      && TypeOf(arg) != DoubleQuote
      && exists c :: c in arg && (c == 32 || c == 34 || c == 36 || c == 59 || c == 92)
  {
    if c :| c in arg && (c == 39 || c < 32 || c == 127) {
      assert c in arg && NeedsDouble(c);
    } else if c :| c in arg && (c == 32 || c == 34 || c == 36 || c == 59 || c == 92) {
      assert c in arg && NeedsSingle(c);
    }
  }

  /** In double quotes, a byte that has a letter is written with it, any other control byte in upper-case digits. */
  lemma HowBytesAreWritten(c: byte)
    ensures forall l <- LETTERS :: LETTERS[l] == c ==> EscapeByte(c) == [BACKSLASH, l]
    ensures (forall l <- LETTERS :: LETTERS[l] != c) && (c < 32 || c == 127) ==>
      var e := EscapeByte(c);
      && |e| == 4 && e[..2] == [BACKSLASH, LETTER_X]
      && IsDigit(e[2], (c / 16) as nat) && IsDigit(e[3], (c % 16) as nat) && e[2] < 97 && e[3] < 97
    ensures (forall l <- LETTERS :: LETTERS[l] != c) && c >= 32 && c != 127 ==> EscapeByte(c) == [c]
  {
    assert forall l <- LETTERS :: EscMap(LETTERS[l]) == l;
    if EscMap(c) != 0 {
      assert EscMap(c) in LETTERS && LETTERS[EscMap(c)] == c;
    }
  }

  // Separators

  predicate AreBlanks(s: seq<byte>) {
    forall c :: c in s ==> IsBlank(c)
  }

  /** Blanks in front of a command do not matter. */
  lemma {:induction false} BlanksAreSkipped(r: Runner, gap: seq<byte>, rest: seq<byte>)
    requires AreBlanks(gap)
    ensures ParseCommands(r, gap + rest) == ParseCommands(r, rest)
  {
    if gap == [] {
      assert gap + rest == rest;
    } else {
      assert gap[0] in gap && (gap + rest)[1..] == gap[1..] + rest;
      BlanksAreSkipped(r, gap[1..], rest);
    }
  }

  /** An argument as it is written, whatever follows it. */
  lemma ArgumentIsTaken(r: Runner, arg: seq<byte>, rest: seq<byte>)
    requires rest == [] || IsBlank(rest[0]) || rest[0] == SEMICOLON
    ensures ParseCommands(r, Escaped(arg, true) + rest) == Prepended([Some(arg)], ParseCommands(r, rest))
  {
    hide FindEnd, ParseArg, Escaped;
    var e := Escaped(arg, true);
    EscapedBegins(arg);
    EscapedReads(r, arg, rest);
    assert (e + rest)[..|e|] == e && (e + rest)[|e|..] == rest && (e + rest)[0] == e[0];
  }

  /** A semicolon ends a command. */
  lemma SemicolonSeparates(r: Runner, rest: seq<byte>)
    ensures ParseCommands(r, [SEMICOLON] + rest) == Prepended([None], ParseCommands(r, rest))
    ensures ParseCommands(r, []) == Ok([None])
  {
    assert ([SEMICOLON] + rest)[1..] == rest;
  }

  /** A command with blanks in front of each argument. */
  function Spaced(args: seq<seq<byte>>, gaps: seq<seq<byte>>): seq<byte>
    requires |args| == |gaps|
  {
    if args == [] then [] else gaps[0] + Escaped(args[0], true) + Spaced(args[1..], gaps[1..])
  }

  predicate Separated(gaps: seq<seq<byte>>) {
    (forall i :: 0 <= i < |gaps| ==> AreBlanks(gaps[i])) && forall i :: 0 < i < |gaps| ==> gaps[i] != []
  }

  /** Any blanks between arguments separate them; any in front of the first do not matter. */
  lemma {:induction false} SpacedReads(r: Runner, args: seq<seq<byte>>, gaps: seq<seq<byte>>, rest: seq<byte>)
    requires |args| == |gaps| && Separated(gaps) && (rest == [] || IsBlank(rest[0]) || rest[0] == SEMICOLON)
    ensures ParseCommands(r, Spaced(args, gaps) + rest)
      == Prepended(seq(|args|, i requires 0 <= i < |args| => Some(args[i])), ParseCommands(r, rest))
    decreases |args|
  {
    hide ParseCommands, Escaped;
    var all := seq(|args|, i requires 0 <= i < |args| => Some(args[i]));
    if args == [] {
      assert Spaced(args, gaps) + rest == rest && forall t: seq<Option<seq<byte>>> :: all + t == t;
    } else {
      var e, tail := Escaped(args[0], true), Spaced(args[1..], gaps[1..]) + rest;
      assert Spaced(args, gaps) + rest == gaps[0] + (e + tail);
      BlanksAreSkipped(r, gaps[0], e + tail);
      NextBegins(args[1..], gaps[1..], rest);
      ArgumentIsTaken(r, args[0], tail);
      SpacedReads(r, args[1..], gaps[1..], rest);
      var more := seq(|args| - 1, i requires 0 <= i < |args| - 1 => Some(args[1..][i]));
      assert [Some(args[0])] + more == all;
      PrependedTwice([Some(args[0])], more, ParseCommands(r, rest));
    }
  }

  lemma PrependedTwice<T>(a: seq<T>, b: seq<T>, r: Result<seq<T>>)
    ensures Prepended(a, Prepended(b, r)) == Prepended(a + b, r)
  {
    if r.Ok? {
      assert a + (b + r.value) == a + b + r.value;
    }
  }

  lemma NextBegins(args: seq<seq<byte>>, gaps: seq<seq<byte>>, rest: seq<byte>)
    requires |args| == |gaps| && forall i :: 0 <= i < |gaps| ==> AreBlanks(gaps[i]) && gaps[i] != []
    requires rest == [] || IsBlank(rest[0]) || rest[0] == SEMICOLON
    ensures var s := Spaced(args, gaps) + rest; s == [] || IsBlank(s[0]) || s[0] == SEMICOLON
  {
    if args == [] {
      assert Spaced(args, gaps) + rest == rest;
    } else {
      assert gaps[0][0] in gaps[0];
    }
  }
}
