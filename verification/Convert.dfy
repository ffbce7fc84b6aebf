/** Line endings in files: what is read from a file and what is written to one. */
module Convert {
  import opened Bytes
  import opened Records
  import opened BlockStore
  import opened Layout
  import opened BlockIters

  const CR: byte := 13
  const MIN_BLOCK: nat := 8192

  /** The length of the first line, without its newline. */
  function LineLength(s: seq<byte>): (n: nat)
    ensures n <= |s| && NL !in s[..n] && (n < |s| ==> s[n] == NL)
  {
    var i := MemChr(s, NL, 0);
    if i < 0 then |s| else i
  }

  /** How much get_delim takes: the line and its newline, if it has one. */
  function LineTaken(s: seq<byte>): (n: nat)
    ensures n <= |s| && (s != [] ==> n > 0)
  {
    if LineLength(s) < |s| then LineLength(s) + 1 else |s|
  }

  /** The lines of a file. */
  function Lines(s: seq<byte>): (ls: seq<seq<byte>>)
    ensures forall i :: 0 <= i < |ls| ==> NL !in ls[i]
    decreases |s|
  {
    if s == [] then [] else [s[..LineLength(s)]] + Lines(s[LineTaken(s)..])
  }

  predicate EndsCr(line: seq<byte>) {
    line != [] && line[|line| - 1] == CR
  }

  function StripCr(line: seq<byte>): seq<byte> {
    if EndsCr(line) then line[..|line| - 1] else line
  }

  /** A line as it is kept, in a file whose lines end in CR or not. */
  function Kept(line: seq<byte>, crlf: bool): seq<byte> {
    if crlf then StripCr(line) else line
  }

  function Unlines(ls: seq<seq<byte>>, crlf: bool): seq<byte> {
    if ls == [] then [] else Kept(ls[0], crlf) + [NL] + Unlines(ls[1..], crlf)
  }

  /** Whether a file has DOS line endings, by its first line. */
  predicate IsCrlf(s: seq<byte>) {
    s != [] && EndsCr(s[..LineLength(s)])
  }

  /** Whether a file is taken to have DOS line endings; new buffers have them if `dos` is set. */
  predicate LoadsCrlf(s: seq<byte>, dos: bool) {
    dos || IsCrlf(s)
  }

  /** The text that a file is read as. */
  function Decoded(s: seq<byte>, dos: bool): seq<byte> {
    Unlines(Lines(s), LoadsCrlf(s, dos))
  }

  /** A text with DOS line endings. */
  function ToDos(s: seq<byte>): seq<byte> {
    if s == [] then [] else (if s[0] == NL then [CR, NL] else [s[0]]) + ToDos(s[1..])
  }

  function Encoded(s: seq<byte>, crlf: bool): seq<byte> {
    if crlf then ToDos(s) else s
  }

  lemma {:induction false} ToDosConcat(a: seq<byte>, b: seq<byte>)
    ensures ToDos(a + b) == ToDos(a) + ToDos(b)
  {
    if a == [] {
      assert a + b == b;
    } else {
      assert (a + b)[0] == a[0] && (a + b)[1..] == a[1..] + b;
      ToDosConcat(a[1..], b);
    }
  }

  /** Every newline makes the text one byte longer. */
  lemma {:induction false} ToDosSize(s: seq<byte>)
    ensures |ToDos(s)| == |s| + CountNl(s)
    decreases |s|
  {
    if s != [] {
      var n := |s| - 1;
      assert s == s[..n] + [s[n]];
      ToDosConcat(s[..n], [s[n]]);
      assert [s[n]][1..] == [];
      ToDosSize(s[..n]);
      CountNlConcat(s[..n], [s[n]]);
    }
  }

  lemma {:induction false} ToDosOfLine(line: seq<byte>)
    requires NL !in line
    ensures ToDos(line + [NL]) == line + [CR, NL]
  {
    if line == [] {
      assert [NL][1..] == [];
      assert [] + [NL] == [NL] && [CR, NL] + [] == [CR, NL];
    } else {
      assert (line + [NL])[0] == line[0] && (line + [NL])[1..] == line[1..] + [NL];
      ToDosOfLine(line[1..]);
      assert line == [line[0]] + line[1..];
    }
  }

  lemma LineLengthIs(line: seq<byte>, rest: seq<byte>)
    requires NL !in line
    ensures LineLength(line + [NL] + rest) == |line| && LineTaken(line + [NL] + rest) == |line| + 1
    ensures (line + [NL] + rest)[..|line|] == line && (line + [NL] + rest)[|line| + 1..] == rest
  {
    var s := line + [NL] + rest;
    assert s[|line|] == NL;
    assert forall k :: 0 <= k < |line| ==> s[k] == line[k];
  }

  /** The first line of a text, and the rest. */
  lemma Peel(t: seq<byte>)
    requires t != [] && Terminated(t)
    ensures var n := LineLength(t); n < |t| && t == t[..n] + [NL] + t[n + 1..] && Terminated(t[n + 1..])
  {
    var n := LineLength(t);
    assert t[..|t|] == t && t[|t| - 1] in t;
  }

  /** Without DOS line endings, a file is read as it is, but for a missing last newline. */
  lemma {:induction false} UnixIsKept(s: seq<byte>)
    ensures Unlines(Lines(s), false) == if Terminated(s) then s else s + [NL]
    decreases |s|
  {
    if s != [] {
      hide Lines, Unlines, LineLength, Terminated;
      FirstRead(s);
      RestRead(s);
      var line, rest := s[..LineLength(s)], s[LineTaken(s)..];
      FirstKept(line, Lines(rest));
      Joined(line + [NL], rest, [NL]);
      if rest != [] {
        UnixIsKept(rest);
      } else {
        NothingRead();
      }
    }
  }

  /** What is behind the first line ends as the whole does. */
  lemma RestRead(s: seq<byte>)
    requires s != []
    ensures var n := LineLength(s);
      var rest := s[LineTaken(s)..];
      && (n < |s| ==> s == s[..n] + [NL] + rest && Terminated(rest) == Terminated(s))
      && (n == |s| ==> rest == [] && s[..n] == s && !Terminated(s))
      && Terminated([]) && (s[..n] + [NL]) + [] == s[..n] + [NL]
  {
  }

  lemma FirstKept(line: seq<byte>, ls: seq<seq<byte>>)
    ensures Unlines([line] + ls, false) == line + [NL] + Unlines(ls, false)
  {
    assert ([line] + ls)[1..] == ls;
  }

  lemma ToDosOfLines(line: seq<byte>, rest: seq<byte>)
    requires NL !in line
    ensures ToDos(line + [NL] + rest) == line + [CR] + [NL] + ToDos(rest)
  {
    ToDosConcat(line + [NL], rest);
    ToDosOfLine(line);
    assert line + [CR, NL] == line + [CR] + [NL];
  }

  /** Reading what was written with DOS line endings gives back the text. */
  lemma {:induction false} DosIsUndone(t: seq<byte>)
    requires Terminated(t)
    ensures Unlines(Lines(ToDos(t)), true) == t
    ensures t != [] ==> IsCrlf(ToDos(t))
    decreases |t|
  {
    if t != [] {
      var n := LineLength(t);
      Peel(t);
      var line, rest := t[..n], t[n + 1..];
      DosIsUndone(rest);
      ToDosOfLines(line, rest);
      LineLengthIs(line + [CR], ToDos(rest));
      assert StripCr(line + [CR]) == line;
    }
  }

  lemma {:induction false} StrippingShortens(ls: seq<seq<byte>>)
    ensures |Unlines(ls, true)| <= |Unlines(ls, false)|
    ensures (exists i :: 0 <= i < |ls| && EndsCr(ls[i])) ==> |Unlines(ls, true)| < |Unlines(ls, false)|
    ensures (forall i :: 0 <= i < |ls| ==> !EndsCr(ls[i])) ==> Unlines(ls, true) == Unlines(ls, false)
  {
    if ls != [] {
      StrippingShortens(ls[1..]);
      if i :| 0 <= i < |ls| && EndsCr(ls[i]) {
        assert i > 0 ==> EndsCr(ls[1..][i - 1]);
      }
      assert (forall i :: 0 <= i < |ls| ==> !EndsCr(ls[i])) ==> Kept(ls[0], true) == ls[0];
    }
  }

  predicate SomeCr(t: seq<byte>) {
    exists i :: 0 <= i < |Lines(t)| && EndsCr(Lines(t)[i])
  }

  /**
   * The line endings a text is saved with are found again, unless it has no
   * line to tell them by, or its first line ends in CR anyway, or new buffers
   * have DOS line endings.
   */
  predicate EndingsKept(t: seq<byte>, crlf: bool, dos: bool) {
    if crlf then t != [] || dos else !dos && !IsCrlf(t)
  }

  /** The text comes back, unless a CR of its own is taken for part of a line ending. */
  predicate TextKept(t: seq<byte>, crlf: bool, dos: bool) {
    crlf || !LoadsCrlf(t, dos) || !SomeCr(t)
  }

  /** A text that is saved and loaded is the same exactly then, and so are its line endings. */
  lemma SaveAndLoad(t: seq<byte>, crlf: bool, dos: bool)
    requires Terminated(t)
    ensures Decoded(Encoded(t, crlf), dos) == t <==> TextKept(t, crlf, dos)
    ensures LoadsCrlf(Encoded(t, crlf), dos) == crlf <==> EndingsKept(t, crlf, dos)
  {
    if crlf {
      DosIsUndone(t);
      ToDosOfNothing(t);
    } else {
      UnixIsKept(t);
      StrippingShortens(Lines(t));
    }
  }

  /** Where its line endings are found again, a text is the same. */
  lemma EndingsKeepText(t: seq<byte>, crlf: bool, dos: bool)
    ensures EndingsKept(t, crlf, dos) ==> TextKept(t, crlf, dos)
  {
  }

  /** A line that is only a CR, saved with Unix line endings, is loaded without the CR. */
  lemma LoneCrIsLost(dos: bool)
    ensures var t := [CR, NL]; Decoded(Encoded(t, false), dos) == [NL] != t && LoadsCrlf(Encoded(t, false), dos)
  {
    var t := [CR, NL];
    LineLengthIs([CR], []);
    assert [CR] + [NL] + [] == t && t[..1] == [CR] && t[2..] == [];
    assert Lines(t) == [[CR]] + Lines([]);
    assert Unlines([[CR]], true) == [NL] by {
      assert [[CR]][1..] == [];
    }
  }

  /** A file with Unix line endings is taken for one with DOS line endings if new buffers have them. */
  lemma DefaultWins()
    ensures var t := [NL]; Decoded(Encoded(t, false), true) == t && LoadsCrlf(Encoded(t, false), true)
  {
    SaveAndLoad([NL], false, true);
    LineLengthIs([], []);
    assert [] + [NL] + [] == [NL] && [NL][..0] == [] && [NL][1..] == [];
    assert Lines([NL]) == [[]];
  }

  lemma {:induction false} UnlinesTerminated(ls: seq<seq<byte>>, crlf: bool)
    ensures Terminated(Unlines(ls, crlf))
    ensures Unlines(ls, crlf) == [] <==> ls == []
  {
    if ls != [] {
      UnlinesTerminated(ls[1..], crlf);
    }
  }

  lemma {:induction false} UnlinesOneMore(ls: seq<seq<byte>>, line: seq<byte>, crlf: bool)
    ensures Unlines(ls + [line], crlf) == Unlines(ls, crlf) + (Kept(line, crlf) + [NL])
  {
    if ls == [] {
      assert ([] + [line])[1..] == [];
      assert Kept(line, crlf) + [NL] + [] == Kept(line, crlf) + [NL];
    } else {
      assert (ls + [line])[0] == ls[0] && (ls + [line])[1..] == ls[1..] + [line];
      UnlinesOneMore(ls[1..], line, crlf);
    }
  }

  // What any file is read as

  /** The first line, however it is told apart, decides about the line endings: by a CR just in front of its newline. */
  lemma FirstLineDecides(a: seq<byte>, rest: seq<byte>)
    requires NL !in a
    ensures LoadsCrlf(a + [NL] + rest, false) <==> a != [] && a[|a| - 1] == CR
    ensures LoadsCrlf(a, false) <==> a != [] && a[|a| - 1] == CR
    ensures LoadsCrlf(a, true) && LoadsCrlf(a + [NL] + rest, true)
  {
    LineLengthIs(a, rest);
    assert LineLength(a) == |a| && a[..|a|] == a;
  }

  /** A file of lines, each with its newline. */
  function FileOf(ls: seq<seq<byte>>): seq<byte> {
    if ls == [] then [] else ls[0] + [NL] + FileOf(ls[1..])
  }

  /** What is left of a line of a file that is taken to have DOS line endings: one CR at its end goes. */
  function WithoutCr(line: seq<byte>): seq<byte> {
    if line != [] && line[|line| - 1] == CR then line[..|line| - 1] else line
  }

  function AllWithoutCr(ls: seq<seq<byte>>): seq<seq<byte>> {
    seq(|ls|, i requires 0 <= i < |ls| => WithoutCr(ls[i]))
  }

  lemma {:induction false} LinesOfFile(ls: seq<seq<byte>>)
    requires forall i :: 0 <= i < |ls| ==> NL !in ls[i]
    ensures Lines(FileOf(ls)) == ls
    ensures Unlines(ls, false) == FileOf(ls) && Unlines(ls, true) == FileOf(AllWithoutCr(ls))
  {
    if ls != [] {
      LineLengthIs(ls[0], FileOf(ls[1..]));
      LinesOfFile(ls[1..]);
      assert AllWithoutCr(ls)[1..] == AllWithoutCr(ls[1..]);
    }
  }

  /** Any lines: if the first ends in a CR, every line loses one CR at its end; if not, every line is kept. */
  lemma FileIsReadAs(ls: seq<seq<byte>>, dos: bool)
    requires forall i :: 0 <= i < |ls| ==> NL !in ls[i]
    ensures var crlf := dos || (ls != [] && ls[0] != [] && ls[0][|ls[0]| - 1] == CR);
      && LoadsCrlf(FileOf(ls), dos) == crlf
      && Decoded(FileOf(ls), dos) == FileOf(if crlf then AllWithoutCr(ls) else ls)
  {
    LinesOfFile(ls);
    if ls != [] {
      FirstLineDecides(ls[0], FileOf(ls[1..]));
    }
  }

  lemma CutAtNewline(s: seq<byte>)
    requires LineLength(s) < |s|
    ensures var n := LineLength(s);
      && NL !in s[..n] && s[n] == NL && s == s[..n] + [NL] + s[n + 1..]
      && s + [NL] == s[..n] + [NL] + (s[n + 1..] + [NL])
  {
  }

  /** Every file is one of lines, but that its last newline may be missing. */
  lemma {:induction false} EveryFileHasLines(s: seq<byte>) returns (ls: seq<seq<byte>>)
    ensures forall i :: 0 <= i < |ls| ==> NL !in ls[i]
    ensures FileOf(ls) == if s == [] || s[|s| - 1] == NL then s else s + [NL]
    decreases |s|
  {
    if s == [] {
      ls := [];
    } else if LineLength(s) < |s| {
      CutAtNewline(s);
      var n := LineLength(s);
      var rest := s[n + 1..];
      hide LineLength;
      var more := EveryFileHasLines(rest);
      ls := [s[..n]] + more;
      assert ls[1..] == more;
      assert rest == [] ==> s[|s| - 1] == NL;
      assert rest != [] ==> rest[|rest| - 1] == s[|s| - 1];
    } else {
      ls := [s];
      assert s[..|s|] == s && s + [NL] + [] == s + [NL] && [s][1..] == [];
      assert s[|s| - 1] in s;
    }
  }

  /** A newline that is missing at the end makes no difference. */
  lemma {:induction false} LastNewlineMayMiss(s: seq<byte>, dos: bool)
    requires s != [] && s[|s| - 1] != NL
    ensures LoadsCrlf(s, dos) == LoadsCrlf(s + [NL], dos) && Decoded(s, dos) == Decoded(s + [NL], dos)
  {
    SameLines(s);
    var n := LineLength(s);
    if n < |s| {
      CutAtNewline(s);
      FirstLineDecides(s[..n], s[n + 1..]);
      FirstLineDecides(s[..n], s[n + 1..] + [NL]);
    } else {
      assert s[..n] == s;
      FirstLineDecides(s, []);
      assert s + [NL] + [] == s + [NL];
    }
  }

  lemma {:induction false} SameLines(s: seq<byte>)
    requires s != [] && s[|s| - 1] != NL
    ensures Lines(s) == Lines(s + [NL])
    decreases |s|
  {
    var n := LineLength(s);
    if n < |s| {
      var rest := s[n + 1..];
      CutAtNewline(s);
      LineLengthIs(s[..n], rest);
      LineLengthIs(s[..n], rest + [NL]);
      assert n + 1 < |s|;
      SameLines(rest);
    } else {
      assert s[..n] == s && s[|s|..] == [];
      LineLengthIs(s, []);
      assert s + [NL] + [] == s + [NL];
    }
  }

  // Writing a file

  class FileEncoder {
    const crlf: bool
    var nbuf: array<byte>

    constructor (crlf: bool)
      ensures this.crlf == crlf && fresh(nbuf)
    {
      this.crlf := crlf;
      nbuf := new byte[0];
    }

    /** Converts whole lines into the buffer, which is made large enough before. */
    method UnixToDos(text: seq<byte>, nrNewlines: nat) returns (size: nat)
      requires Terminated(text) && nrNewlines == CountNl(text)
      modifies this, nbuf
      ensures (nbuf == old(nbuf) || fresh(nbuf)) && size <= nbuf.Length
      ensures size == |text| + nrNewlines && nbuf[..size] == ToDos(text)
    {
      hide CountNl, ToDos;
      var newLen := |text| + nrNewlines;
      ToDosSize(text);
      CountNlAtMost(text);
      if nbuf.Length < newLen {
        nbuf := new byte[|text| * 2];
      }
      var src, dest := 0, 0;
      ToDosOfNothing(text);
      while src < |text|
        invariant src <= |text| && Terminated(text[src..]) && dest <= newLen <= nbuf.Length
        invariant nbuf == old(nbuf) || fresh(nbuf)
        invariant dest == |ToDos(text[..src])| && nbuf[..dest] == ToDos(text[..src])
      {
        var n := LineLength(text[src..]);
        Peel(text[src..]);
        var line := text[src..src + n];
        assert text[src..][..n] == line && text[src..][n + 1..] == text[src + n + 1..];
        LineIsNext(text, src, n);
        ghost var before := nbuf[..dest];
        CopyLine(dest, line);
        src := src + n + 1;
        dest := dest + n + 2;
      }
      assert text[..|text|] == text;
      return dest;
    }

    /** One line and its line ending. */
    method CopyLine(dest: nat, line: seq<byte>)
      requires dest + |line| + 2 <= nbuf.Length
      modifies nbuf
      ensures nbuf[..dest + |line| + 2] == old(nbuf[..dest]) + (line + [CR, NL])
    {
      forall i | 0 <= i < |line| {
        nbuf[dest + i] := line[i];
      }
      nbuf[dest + |line|] := CR;
      nbuf[dest + |line| + 1] := NL;
    }

    /** What is written for one block. */
    method Write(text: seq<byte>, nrNewlines: nat) returns (out: seq<byte>)
      requires Terminated(text) && nrNewlines == CountNl(text)
      modifies this, nbuf
      ensures nbuf == old(nbuf) || fresh(nbuf)
      ensures out == Encoded(text, crlf)
    {
      if crlf {
        var size := UnixToDos(text, nrNewlines);
        return nbuf[..size];
      }
      return text;
    }
  }

  lemma ToDosOfNothing(text: seq<byte>)
    ensures ToDos(text[..0]) == []
  {
  }

  lemma {:induction false} CountNlAtMost(s: seq<byte>)
    ensures CountNl(s) <= |s|
  {
    if s != [] {
      CountNlAtMost(s[..|s| - 1]);
    }
  }

  lemma LineIsNext(text: seq<byte>, src: nat, n: nat)
    requires src + n < |text| && NL !in text[src..src + n] && text[src + n] == NL
    ensures ToDos(text[..src + n + 1]) == ToDos(text[..src]) + (text[src..src + n] + [CR, NL])
    ensures |ToDos(text[..src])| + n + 2 <= |ToDos(text)|
  {
    hide ToDos;
    var line := text[src..src + n];
    assert text[..src + n + 1] == text[..src] + (line + [NL]);
    ToDosConcat(text[..src], line + [NL]);
    ToDosOfLine(line);
    assert text == text[..src + n + 1] + text[src + n + 1..];
    ToDosConcat(text[..src + n + 1], text[src + n + 1..]);
  }

  /** Writes a buffer to a file, block by block. */
  method SaveBlocks(buffer: Buffer, crlf: bool) returns (file: seq<byte>)
    requires buffer.Valid() && Terminated(buffer.Text())
    ensures file == Encoded(buffer.Text(), crlf)
  {
    hide CountNl, ToDos;
    var enc := new FileEncoder(crlf);
    ghost var ts := buffer.texts;
    file := [];
    LastTerminated(ts);
    ToDosOfNothing([]);
    for k := 0 to |buffer.blocks|
      invariant fresh(enc) && fresh(enc.nbuf) && enc.crlf == crlf
      invariant file == Encoded(Flat(ts[..k]), crlf)
    {
      var b := buffer.blocks[k];
      var out := enc.Write(b.Slice(0, b.size), b.nl);
      FlatHead(ts, k);
      ToDosConcat(Flat(ts[..k]), ts[k]);
      file := file + out;
    }
    assert ts[..|ts|] == ts;
  }

  // Reading a file

  /** The blocks so far, and the one that is being filled. */
  ghost predicate Loading(buffer: Buffer, blk: Block)
    reads buffer, buffer.Repr, blk, blk.data
  {
    && Loaded(buffer)
    && blk !in buffer.Repr && blk.data !in buffer.Repr && blk.Valid()
    && blk.Text() != [] && Terminated(blk.Text())
  }

  /** Blocks of whole lines, and as many newlines as the buffer says. */
  ghost predicate Loaded(buffer: Buffer)
    reads buffer, buffer.Repr
  {
    && buffer.Sound() && buffer.nl == CountNl(Flat(buffer.texts))
    && (forall i :: 0 <= i < |buffer.texts| ==> buffer.texts[i] != [] && Terminated(buffer.texts[i]))
  }

  /** A finished block joins the buffer. */
  method AddBlock(buffer: Buffer, blk: Block)
    requires Loading(buffer, blk)
    modifies buffer
    ensures Loaded(buffer) && buffer.Repr == old(buffer.Repr) + {blk, blk.data}
    ensures Flat(buffer.texts) == old(Flat(buffer.texts)) + blk.Text() && buffer.texts != []
  {
    hide CountNl, Flat;
    ghost var ts, t := buffer.texts, blk.Text();
    buffer.nl := buffer.nl + blk.nl;
    CountNlConcat(Flat(ts), t);
    FlatConcat(ts, [t]);
    FlatOne(t);
    buffer.InsertBefore(|buffer.blocks|, blk);
    assert ts[..|ts|] + [t] + ts[|ts|..] == ts + [t];
  }

  /** Puts a line behind the text of a block that has room for it. */
  method PutLine(blk: Block, line: seq<byte>)
    requires blk.Valid() && blk.size + |line| + 1 <= blk.data.Length && NL !in line
    modifies blk, blk.data
    ensures blk.Valid() && blk.data == old(blk.data) && blk.Text() == old(blk.Text()) + (line + [NL])
  {
    hide CountNl;
    ghost var t := blk.Text();
    var at := blk.size;
    forall i | 0 <= i < |line| {
      blk.data[at + i] := line[i];
    }
    blk.data[at + |line|] := NL;
    assert blk.data[..at + |line| + 1] == t + (line + [NL]);
    OneNl(t, line);
    blk.size := at + |line| + 1;
    blk.nl := blk.nl + 1;
  }

  lemma OneNl(t: seq<byte>, line: seq<byte>)
    requires NL !in line
    ensures CountNl(t + (line + [NL])) == CountNl(t) + 1
  {
    CountNlConcat(t, line + [NL]);
    CountNlConcat(line, [NL]);
    CountNlZero(line);
    assert [NL][..0] == [];
  }

  /** Puts a line into the block, or into a new one if it has no room. */
  method AddUtf8Line(buffer: Buffer, blk: Block, line: seq<byte>) returns (b: Block)
    requires Loading(buffer, blk) && NL !in line
    modifies buffer, blk, blk.data
    ensures Loading(buffer, b) && (b == blk || fresh(b)) && (b.data == blk.data || fresh(b.data))
    ensures fresh(buffer.Repr - old(buffer.Repr) - {blk, blk.data}) && blk.data == old(blk.data)
    ensures Flat(buffer.texts) + b.Text() == old(Flat(buffer.texts) + blk.Text()) + (line + [NL])
    ensures b == blk <==> |line| + 1 <= old(blk.data.Length - blk.size)
    ensures b != blk ==> b.Text() == line + [NL] && b.data.Length >= MIN_BLOCK
  {
    hide CountNl, Flat;
    b := blk;
    if |line| + 1 > blk.data.Length - blk.size {
      AddBlock(buffer, blk);
      b := FirstLine(line);
    } else {
      ghost var t := blk.Text();
      PutLine(blk, line);
      Joined(Flat(buffer.texts), t, line + [NL]);
    }
  }

  lemma Joined(a: seq<byte>, b: seq<byte>, c: seq<byte>)
    ensures a + (b + c) == a + b + c
  {
  }

  /** A new block with one line. */
  method FirstLine(line: seq<byte>) returns (b: Block)
    requires NL !in line
    ensures fresh(b) && fresh(b.data) && b.Valid() && b.Text() == line + [NL] && b.data.Length >= MIN_BLOCK
  {
    b := new Block(if |line| + 1 > MIN_BLOCK then |line| + 1 else MIN_BLOCK);
    PutLine(b, line);
    assert [] + (line + [NL]) == line + [NL];
  }

  /** Reads a file into a buffer without blocks. */
  method FileDecoderReadUtf8(buffer: Buffer, text: seq<byte>, dos: bool) returns (crlf: bool)
    requires buffer.Sound() && buffer.blocks == [] && buffer.nl == 0
    modifies buffer
    ensures Loaded(buffer) && fresh(buffer.Repr - old(buffer.Repr))
    ensures Flat(buffer.texts) == Decoded(text, dos) && crlf == LoadsCrlf(text, dos)
  {
    hide CountNl, Flat, Lines, Unlines;
    NothingLoaded(buffer);
    if text == [] {
      NothingRead();
      return dos;
    }
    var line := text[..LineLength(text)];
    var pos := LineTaken(text);
    FirstRead(text);
    crlf := dos || EndsCr(line);
    var blk := FirstLine(Kept(line, crlf));
    ghost var done := [line];
    UnlinesOneMore([], line, crlf);
    assert [] + [line] == [line];
    NothingKept(crlf);
    while pos < |text|
      invariant pos <= |text| && Loading(buffer, blk)
      invariant fresh(buffer.Repr - old(buffer.Repr)) && fresh(blk) && fresh(blk.data)
      invariant Lines(text) == done + Lines(text[pos..])
      invariant Flat(buffer.texts) + blk.Text() == Unlines(done, crlf)
    {
      var rest := text[pos..];
      line := rest[..LineLength(rest)];
      FirstRead(rest);
      assert rest[LineTaken(rest)..] == text[pos + LineTaken(rest)..];
      ghost var more := Lines(text[pos + LineTaken(rest)..]);
      assert done + ([line] + more) == done + [line] + more;
      pos := pos + LineTaken(rest);
      UnlinesOneMore(done, line, crlf);
      done := done + [line];
      blk := AddUtf8Line(buffer, blk, Kept(line, crlf));
    }
    AddBlock(buffer, blk);
    NothingLeft(text, done);
  }

  lemma NothingLoaded(buffer: Buffer)
    requires buffer.Sound() && buffer.blocks == [] && buffer.nl == 0
    ensures Loaded(buffer) && Flat(buffer.texts) == []
  {
  }

  lemma NothingRead()
    ensures forall dos :: Decoded([], dos) == []
    ensures Lines([]) == [] && Unlines([], false) == []
  {
  }

  lemma NothingKept(crlf: bool)
    ensures Unlines([], crlf) == []
  {
  }

  lemma FirstRead(s: seq<byte>)
    requires s != []
    ensures Lines(s) == [s[..LineLength(s)]] + Lines(s[LineTaken(s)..])
    ensures NL !in Kept(s[..LineLength(s)], true) && NL !in Kept(s[..LineLength(s)], false)
  {
  }

  lemma NothingLeft(text: seq<byte>, done: seq<seq<byte>>)
    requires Lines(text) == done + Lines(text[|text|..])
    ensures Lines(text) == done
  {
    assert text[|text|..] == [];
    assert done + [] == done;
  }

  /** Blocks of whole lines, but that the last line may lack its newline. */
  ghost predicate NearlyLoaded(buffer: Buffer)
    reads buffer, buffer.Repr
  {
    && buffer.Sound() && buffer.nl == CountNl(Flat(buffer.texts))
    && (buffer.texts != [] ==> WholeLines(buffer.texts))
  }

  lemma LoadedIsNearly(buffer: Buffer)
    requires Loaded(buffer)
    ensures NearlyLoaded(buffer) && Terminated(Flat(buffer.texts))
  {
    FlatTerminated(buffer.texts);
  }

  /** An empty file still gets a block, and an incomplete last line its newline. */
  method FixupBlocks(buffer: Buffer)
    requires NearlyLoaded(buffer)
    modifies buffer, buffer.Repr
    ensures buffer.Valid() && Terminated(buffer.Text()) && fresh(buffer.Repr - old(buffer.Repr))
    ensures buffer.Text() == WithFinalNewline(old(Flat(buffer.texts)))
  {
    hide CountNl, Flat, WholeLines, Terminated;
    if buffer.blocks == [] {
      var blk := new Block(1);
      buffer.InsertBefore(0, blk);
      OneEmptyBlock(buffer.texts);
      return;
    }
    ghost var ts, k := buffer.texts, |buffer.texts| - 1;
    var lastblk := buffer.blocks[|buffer.blocks| - 1];
    var n := lastblk.size;
    LastLine(ts);
    if n > 0 && lastblk.data[n - 1] != NL {
      var added := buffer.InsertInBlock(|buffer.blocks| - 1, n, [NL]);
      buffer.nl := buffer.nl + added;
      LastLineCompleted(ts);
    }
  }

  lemma OneEmptyBlock(ts: Layout)
    requires ts == [] + [[]] + []
    ensures WholeLines(ts) && Flat(ts) == [] && CountNl(Flat(ts)) == 0 && Flat([]) == []
    ensures Terminated([]) && WithFinalNewline([]) == []
  {
    assert ts == [[]];
    FlatOne([]);
  }

  /** The last line is complete exactly if the last block ends in a newline or is empty. */
  lemma LastLine(ts: Layout)
    requires WholeLines(ts)
    ensures ts != []
    ensures var t := ts[|ts| - 1]; Terminated(Flat(ts)) <==> t == [] || t[|t| - 1] == NL
  {
    LastTerminated(ts);
  }

  lemma LastLineCompleted(ts: Layout)
    requires WholeLines(ts) && !Terminated(Flat(ts))
    ensures var k := |ts| - 1; var us := ts[k := Splice(ts[k], |ts[k]|, 0, [NL])];
      && WholeLines(us) && Flat(us) == WithFinalNewline(Flat(ts)) && Terminated(Flat(us))
      && CountNl(Flat(us)) == CountNl(Flat(ts)) + CountNl([NL])
  {
    hide CountNl, Flat;
    var k := |ts| - 1;
    SpliceInBlock(ts, k, |ts[k]|, 0, [NL]);
    FlatAt(ts, k);
    assert ts[k + 1..] == [];
    FlatOfNone();
    assert Splice(Flat(ts), |Flat(ts)|, 0, [NL]) == Flat(ts) + [NL];
    CountNlConcat(Flat(ts), [NL]);
  }

  lemma FlatOfNone()
    ensures Flat([]) == []
  {
  }

  method LoadBuffer(buffer: Buffer, text: seq<byte>, dos: bool) returns (crlf: bool)
    requires buffer.Sound() && buffer.blocks == [] && buffer.nl == 0
    modifies buffer, buffer.Repr
    ensures buffer.Valid() && Terminated(buffer.Text()) && fresh(buffer.Repr - old(buffer.Repr))
    ensures buffer.Text() == Decoded(text, dos) && crlf == LoadsCrlf(text, dos)
  {
    hide CountNl, Flat, Lines, Unlines, Terminated;
    crlf := FileDecoderReadUtf8(buffer, text, dos);
    LoadedIsNearly(buffer);
    FixupBlocks(buffer);
  }

  /** Saving a buffer and loading the file again gives the same text, line count and line endings. */
  method SaveThenLoad(buffer: Buffer, crlf: bool, other: Buffer, dos: bool) returns (again: bool)
    requires buffer.Valid() && Terminated(buffer.Text())
    requires other.Sound() && other.blocks == [] && other.nl == 0 && other.Repr !! buffer.Repr
    modifies other, other.Repr
    ensures other.Valid()
    ensures other.Text() == buffer.Text() <==> TextKept(buffer.Text(), crlf, dos)
    ensures again == crlf <==> EndingsKept(buffer.Text(), crlf, dos)
    ensures again == crlf ==> other.Text() == buffer.Text() && other.nl == buffer.nl
  {
    hide CountNl, Flat;
    var file := SaveBlocks(buffer, crlf);
    SaveAndLoad(buffer.Text(), crlf, dos);
    EndingsKeepText(buffer.Text(), crlf, dos);
    again := LoadBuffer(other, file, dos);
  }
}
