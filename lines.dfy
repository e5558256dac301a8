/**
 * The line reassembler `read_lines_zst` (rzcf.py:40-52): decoded fragments
 * are appended to a buffer that is split on "\n"; every piece but the last
 * is yielded stripped and the last becomes the new buffer. An empty (or
 * absent) fragment ends the stream and the buffer is then dropped.
 */
module Lines {
  import opened Wrappers
  import opened Seqs
  import opened Utf8
  import opened Text
  import opened Decoder

  /** The pieces one or more fragments complete, before stripping, and the buffer left over. */
  datatype Reassembled = Reassembled(pieces: seq<string>, buffer: string)

  /**
   * rzcf.py:48-51 for one fragment: the pieces are separator-free, one per
   * separator in `buffer + chunk`, and writing them back with their
   * separators, followed by the new buffer, gives `buffer + chunk` exactly.
   */
  function Step(buffer: string, chunk: string): (r: Reassembled)
    ensures NoNewline(r.buffer)
    ensures forall i :: 0 <= i < |r.pieces| ==> NoNewline(r.pieces[i])
    ensures |r.pieces| == Count(buffer + chunk)
    ensures Terminated(r.pieces) + r.buffer == buffer + chunk
  {
    var parts := Split(buffer + chunk);
    var n := |parts| - 1;
    SplitLast(buffer + chunk);
    Reassembled(parts[..n], parts[n])
  }

  /** All fragments, one after another. */
  function Concat(fragments: seq<string>): string
  {
    if fragments == [] then "" else Concat(fragments[..|fragments| - 1]) + fragments[|fragments| - 1]
  }

  lemma {:induction false} ConcatCons(t: string, fragments: seq<string>)
    ensures Concat([t] + fragments) == t + Concat(fragments)
    decreases |fragments|
  {
    var all := [t] + fragments;
    if fragments == [] {
      assert all[..0] == [];
      assert t + "" == t;
    } else {
      var n := |fragments| - 1;
      assert all[..|all| - 1] == [t] + fragments[..n];
      ConcatCons(t, fragments[..n]);
      AppendAssoc(t, Concat(fragments[..n]), fragments[n]);
    }
  }

  /** The state after feeding the fragments in order to an empty buffer. */
  function Reassemble(fragments: seq<string>): Reassembled
  {
    if fragments == [] then Reassembled([], "")
    else
      var before := Reassemble(fragments[..|fragments| - 1]);
      var step := Step(before.buffer, fragments[|fragments| - 1]);
      Reassembled(before.pieces + step.pieces, step.buffer)
  }

  /**
   * Nothing is lost mid-stream: the completed pieces followed by their
   * separators, then the buffer, are exactly the text fed in; the buffer and
   * the pieces hold no separator.
   */
  lemma {:induction false} ReassembleWrites(fragments: seq<string>)
    ensures var r := Reassemble(fragments);
            && NoNewline(r.buffer)
            && (forall i :: 0 <= i < |r.pieces| ==> NoNewline(r.pieces[i]))
            && Terminated(r.pieces) + r.buffer == Concat(fragments)
  {
    if fragments != [] {
      var n := |fragments| - 1;
      var before := Reassemble(fragments[..n]);
      var step := Step(before.buffer, fragments[n]);
      ReassembleWrites(fragments[..n]);
      TerminatedConcat(before.pieces, step.pieces);
      var all := before.pieces + step.pieces;
      assert forall i :: 0 <= i < |all| ==> NoNewline(all[i]) by {
        forall i | 0 <= i < |all| ensures NoNewline(all[i]) {
          if i < |before.pieces| {
            assert all[i] == before.pieces[i];
          } else {
            assert all[i] == step.pieces[i - |before.pieces|];
          }
        }
      }
      calc {
        Terminated(all) + step.buffer;
        (Terminated(before.pieces) + Terminated(step.pieces)) + step.buffer;
        { AppendAssoc(Terminated(before.pieces), Terminated(step.pieces), step.buffer); }
        Terminated(before.pieces) + (Terminated(step.pieces) + step.buffer);
        Terminated(before.pieces) + (before.buffer + fragments[n]);
        { AppendAssoc(Terminated(before.pieces), before.buffer, fragments[n]); }
        Concat(fragments[..n]) + fragments[n];
      }
    }
  }

  /**
   * Where the fragment boundaries fall does not matter: reassembling the
   * fragments one by one gives the same pieces and buffer as splitting their
   * whole concatenation once.
   */
  lemma ReassembleIsSplit(fragments: seq<string>)
    ensures Reassemble(fragments) == Step("", Concat(fragments))
  {
    var r := Reassemble(fragments);
    var s := Step("", Concat(fragments));
    ReassembleWrites(fragments);
    assert "" + Concat(fragments) == Concat(fragments);
    SplitOfTerminated(r.pieces, r.buffer);
    SplitOfTerminated(s.pieces, s.buffer);
    assert r.pieces == (r.pieces + [r.buffer])[..|r.pieces|];
    assert s.pieces == (s.pieces + [s.buffer])[..|s.pieces|];
  }

  /** The decoded fragments read_lines_zst consumes, and the error that ended them, if any. */
  datatype Fragments = Fragments(texts: seq<string>, error: Option<DecodeError>)

  /**
   * The fragments successive `read_and_decode` calls return from the bytes
   * `rest` (rzcf.py:44-47): each call starts afresh (no `previous_chunk`, a
   * zero counter), an empty or absent result ends the loop, and a raised error
   * ends it too.
   */
  function StreamFragments(rest: seq<byte>, cfg: Config): (f: Fragments)
    ensures forall i :: 0 <= i < |f.texts| ==> f.texts[i] != ""
    decreases |rest|
  {
    var call := DecodeSpec(rest, cfg, None, 0);
    match call.result
    case Decoded(t) =>
      if t == "" then Fragments([], None)
      else
        NonEmptyTextConsumes(rest, cfg, 0);
        var more := StreamFragments(rest[Offset(rest, cfg.chunkSize, call.readCount)..], cfg);
        Fragments([t] + more.texts, more.error)
    case Exhausted(e) => Fragments([], Some(e))
    case NoAttempt => Fragments([], None)
  }

  /** The lines read_lines_zst yields over a stream, and the error it raises after them, if any. */
  datatype Output = Output(lines: seq<string>, error: Option<DecodeError>)

  function ReadLinesSpec(rest: seq<byte>, cfg: Config): Output
  {
    var f := StreamFragments(rest, cfg);
    Output(Map(Strip, Reassemble(f.texts).pieces), f.error)
  }

  /** One more fragment: the state is the former state with one more `Step`. */
  lemma ReassembleSnoc(done: seq<string>, t: string)
    ensures var before := Reassemble(done);
            var step := Step(before.buffer, t);
            Reassemble(done + [t]) == Reassembled(before.pieces + step.pieces, step.buffer)
  {
    assert (done + [t])[..|done|] == done;
  }

  /** StreamFragments after one `read_and_decode` call that returned text. */
  lemma StreamFragmentsUnfold(rest: seq<byte>, cfg: Config)
    requires DecodeSpec(rest, cfg, None, 0).result.Decoded?
    requires DecodeSpec(rest, cfg, None, 0).result.text != ""
    ensures var call := DecodeSpec(rest, cfg, None, 0);
            var after := rest[Offset(rest, cfg.chunkSize, call.readCount)..];
            && |after| < |rest|
            && StreamFragments(rest, cfg).texts == [call.result.text] + StreamFragments(after, cfg).texts
            && StreamFragments(rest, cfg).error == StreamFragments(after, cfg).error
  {
    NonEmptyTextConsumes(rest, cfg, 0);
  }

  /** rzcf.py:50-51: every completed piece, stripped, in order. */
  method StripEach(pieces: seq<string>) returns (emitted: seq<string>)
    ensures emitted == Map(Strip, pieces)
  {
    emitted := [];
    var i := 0;
    while i < |pieces|
      invariant 0 <= i <= |pieces|
      invariant emitted == Map(Strip, pieces[..i])
    {
      StripOneMore(pieces, i);
      emitted := emitted + [Strip(pieces[i])];
      i := i + 1;
    }
    assert pieces[..i] == pieces;
  }

  lemma StripOneMore(pieces: seq<string>, i: nat)
    requires i < |pieces|
    ensures Map(Strip, pieces[..i + 1]) == Map(Strip, pieces[..i]) + [Strip(pieces[i])]
  {
    assert pieces[..i + 1] == pieces[..i] + [pieces[i]];
    MapSnoc(Strip, pieces[..i], pieces[i]);
  }

  /**
   * rzcf.py:48-51: the stripped pieces one fragment completes, and the new
   * buffer, the last piece of `(buffer + text).split("\n")`.
   */
  method Feed(buffer: string, text: string) returns (emitted: seq<string>, rest: string)
    ensures emitted == Map(Strip, Step(buffer, text).pieces)
    ensures rest == Step(buffer, text).buffer
  {
    var parts := Split(buffer + text);
    emitted := StripEach(parts[..|parts| - 1]);
    rest := parts[|parts| - 1];
  }

  /**
   * rzcf.py:40-52 over a reader, with the configuration read_lines_zst hands
   * to every `read_and_decode` call. The buffer never holds a separator.
   */
  method ReadLines(reader: Reader, cfg: Config) returns (lines: seq<string>, error: Option<DecodeError>)
    requires reader.Valid()
    modifies reader
    ensures reader.Valid()
    ensures Output(lines, error) == ReadLinesSpec(old(reader.Remaining()), cfg)
    ensures error.None? && cfg.chunkSize > 0 && cfg.maxAttempts >= 1 ==> reader.Remaining() == []
  {
    ghost var rest := reader.Remaining();
    ghost var done: seq<string> := [];
    var buffer := "";
    lines := [];
    error := None;
    while true
      invariant reader.Valid()
      invariant StreamFragments(rest, cfg).texts == done + StreamFragments(reader.Remaining(), cfg).texts
      invariant StreamFragments(rest, cfg).error == StreamFragments(reader.Remaining(), cfg).error
      invariant Reassemble(done).buffer == buffer
      invariant lines == Map(Strip, Reassemble(done).pieces)
      decreases |reader.Remaining()|
    {
      ghost var before := reader.Remaining();
      var chunk := ReadAndDecode(reader, cfg, None, 0);
      if chunk.Exhausted? {
        error := Some(chunk.error);
        assert done + [] == done;
        return;
      }
      if chunk.NoAttempt? || chunk.text == "" {
        assert done + [] == done;
        if cfg.chunkSize > 0 && cfg.maxAttempts >= 1 {
          DecodeSpecCharacterized(before, cfg, None, 0);
          EmptyTextOnlyAtEnd(before, cfg, 0);
        }
        break;
      }
      StreamFragmentsUnfold(before, cfg);
      var emitted;
      emitted, buffer := Feed(buffer, chunk.text);
      ReassembleSnoc(done, chunk.text);
      MapAppend(Strip, Reassemble(done).pieces, Step(Reassemble(done).buffer, chunk.text).pieces);
      lines := lines + emitted;
      AppendAssoc(done, [chunk.text], StreamFragments(reader.Remaining(), cfg).texts);
      done := done + [chunk.text];
    }
  }

  /**
   * The lines of a whole stream are the stripped pieces of the concatenated
   * fragments up to the last separator; what follows it (the final line when
   * it has no trailing "\n") is never yielded (rzcf.py:46-47, rzcf.py:51-52).
   */
  lemma ReadLinesDropsTail(rest: seq<byte>, cfg: Config)
    ensures var f := StreamFragments(rest, cfg);
            var whole := Step("", Concat(f.texts));
            && ReadLinesSpec(rest, cfg).lines == Map(Strip, whole.pieces)
            && |ReadLinesSpec(rest, cfg).lines| == Count(Concat(f.texts))
            && Terminated(whole.pieces) + whole.buffer == Concat(f.texts)
            && NoNewline(whole.buffer)
  {
    var f := StreamFragments(rest, cfg);
    ReassembleIsSplit(f.texts);
    assert "" + Concat(f.texts) == Concat(f.texts);
  }

  /**
   * Every yielded line is already stripped, so stripping it again (as
   * rzcf.py:75 does) changes nothing, and no line holds a separator.
   */
  lemma LinesAreStripped(rest: seq<byte>, cfg: Config)
    ensures var lines := ReadLinesSpec(rest, cfg).lines;
            forall k :: 0 <= k < |lines| ==> Strip(lines[k]) == lines[k] && NoNewline(lines[k])
  {
    var pieces := Reassemble(StreamFragments(rest, cfg).texts).pieces;
    var lines := ReadLinesSpec(rest, cfg).lines;
    ReassembleWrites(StreamFragments(rest, cfg).texts);
    forall k | 0 <= k < |lines|
      ensures Strip(lines[k]) == lines[k] && NoNewline(lines[k])
    {
      MapAt(Strip, pieces, k);
      StripIdempotent(pieces[k]);
      StripKeepsNoNewline(pieces[k]);
    }
  }

  /** Every read of `cs` bytes, from the current position on, is well-formed UTF-8 by itself. */
  predicate ChunksWellFormed(rest: seq<byte>, cs: nat)
    decreases |rest|
  {
    rest == [] || (cs > 0 && WellFormed(rest[..Min(cs, |rest|)]) && ChunksWellFormed(rest[Min(cs, |rest|)..], cs))
  }

  /**
   * When no read splits a character, every call decodes its first read, the
   * fragments are the whole stream in order and no error is raised.
   */
  lemma {:induction false} CleanStream(rest: seq<byte>, cfg: Config)
    requires cfg.maxAttempts >= 1
    requires ChunksWellFormed(rest, cfg.chunkSize)
    ensures WellFormed(rest)
    ensures StreamFragments(rest, cfg).error == None
    ensures Concat(StreamFragments(rest, cfg).texts) == Decode(rest)
    decreases |rest|
  {
    var cs := cfg.chunkSize;
    if rest == [] {
      EmptySourceGivesEmptyText(cfg, 0);
    } else {
      var n := Min(cs, |rest|);
      var head, tail := rest[..n], rest[n..];
      assert Offset(rest, cs, 1) == n;
      assert ChunkAt(rest, cs, 0) == head;
      FirstReadDecodes(rest, cfg, 0);
      assert rest == head + tail;
      CleanStream(tail, cfg);
      DecodeAppend(head, tail);
      var more := StreamFragments(tail, cfg);
      assert StreamFragments(rest, cfg) == Fragments([Decode(head)] + more.texts, more.error);
      ConcatCons(Decode(head), more.texts);
    }
  }

  /**
   * A stream whose reads never split a character yields the stripped lines of
   * its whole decoding up to the last separator, and raises nothing.
   */
  lemma CleanStreamLines(rest: seq<byte>, cfg: Config)
    requires cfg.maxAttempts >= 1
    requires ChunksWellFormed(rest, cfg.chunkSize)
    ensures WellFormed(rest)
    ensures ReadLinesSpec(rest, cfg) == Output(Map(Strip, Step("", Decode(rest)).pieces), None)
  {
    CleanStream(rest, cfg);
    ReassembleIsSplit(StreamFragments(rest, cfg).texts);
  }

  /** An ASCII stream is clean for every positive chunk size. */
  lemma {:induction false} AsciiChunksWellFormed(rest: seq<byte>, cs: nat)
    requires cs > 0
    requires forall i :: 0 <= i < |rest| ==> rest[i] < 0x80
    ensures ChunksWellFormed(rest, cs)
    decreases |rest|
  {
    if rest != [] {
      var n := Min(cs, |rest|);
      AsciiDecode(rest[..n]);
      AsciiChunksWellFormed(rest[n..], cs);
    }
  }

  /** For ASCII input the chunk size, the window and the attempt limit do not change the lines. */
  lemma AsciiChunkingIrrelevant(rest: seq<byte>, cfg1: Config, cfg2: Config)
    requires cfg1.chunkSize > 0 && cfg1.maxAttempts >= 1
    requires cfg2.chunkSize > 0 && cfg2.maxAttempts >= 1
    requires forall i :: 0 <= i < |rest| ==> rest[i] < 0x80
    ensures ReadLinesSpec(rest, cfg1) == ReadLinesSpec(rest, cfg2)
    ensures ReadLinesSpec(rest, cfg1).error == None
  {
    AsciiChunksWellFormed(rest, cfg1.chunkSize);
    AsciiChunksWellFormed(rest, cfg2.chunkSize);
    CleanStreamLines(rest, cfg1);
    CleanStreamLines(rest, cfg2);
  }

  /**
   * A clean stream whose decoding is the lines `pieces`, each ended by "\n",
   * then a separator-free `tail`, yields exactly the stripped `pieces`.
   */
  lemma CleanStreamOf(rest: seq<byte>, cfg: Config, pieces: seq<string>, tail: string)
    requires cfg.maxAttempts >= 1
    requires ChunksWellFormed(rest, cfg.chunkSize)
    requires WellFormed(rest) && Decode(rest) == Terminated(pieces) + tail
    requires forall i :: 0 <= i < |pieces| ==> NoNewline(pieces[i])
    requires NoNewline(tail)
    ensures ReadLinesSpec(rest, cfg) == Output(Map(Strip, pieces), None)
  {
    CleanStreamLines(rest, cfg);
    assert "" + Decode(rest) == Decode(rest);
    SplitOfTerminated(pieces, tail);
    assert pieces == (pieces + [tail])[..|pieces|];
  }

  lemma TerminatedOne(x: string)
    ensures Terminated([x]) == x + "\n"
  {
    assert [x][1..] == [];
  }

  lemma TerminatedTwo(x: string, y: string)
    ensures Terminated([x, y]) == x + "\n" + (y + "\n")
  {
    assert [x, y][1..] == [y];
    TerminatedOne(y);
  }

  lemma MapStripTwo(x: string, y: string)
    ensures Map(Strip, [x, y]) == [Strip(x), Strip(y)]
  {
    assert [x, y][1..] == [y];
    assert [y][1..] == [];
  }

  lemma ApplyStrip(x: string)
    ensures Map(Strip, [x]) == [Strip(x)]
  {
    assert [x][1..] == [];
  }

  /** A line with no separator and no white space at either end. */
  predicate Plain(line: string) {
    line != [] && !IsSpace(line[0]) && !IsSpace(line[|line| - 1]) && NoNewline(line)
  }

  lemma StripPlain(line: string)
    requires Plain(line)
    ensures Strip(line) == line
  {
  }

  /** Two plain lines of ASCII text, each ended by "\n", come out as they are. */
  lemma AsciiTwoLines(bytes: seq<byte>, cfg: Config, x: string, y: string)
    requires cfg.chunkSize > 0 && cfg.maxAttempts >= 1
    requires Spells(bytes, x + "\n" + (y + "\n"))
    requires Plain(x) && Plain(y)
    ensures ReadLinesSpec(bytes, cfg) == Output([x, y], None)
  {
    AsciiText(bytes, x + "\n" + (y + "\n"));
    AsciiChunksWellFormed(bytes, cfg.chunkSize);
    TerminatedTwo(x, y);
    assert Terminated([x, y]) + "" == x + "\n" + (y + "\n");
    CleanStreamOf(bytes, cfg, [x, y], "");
    MapStripTwo(x, y);
    StripPlain(x);
    StripPlain(y);
  }

  /** A plain ASCII line, then a second with no "\n" after it: only the first comes out. */
  lemma AsciiLineThenTail(bytes: seq<byte>, cfg: Config, x: string, y: string)
    requires cfg.chunkSize > 0 && cfg.maxAttempts >= 1
    requires Spells(bytes, x + "\n" + y)
    requires Plain(x) && NoNewline(y)
    ensures ReadLinesSpec(bytes, cfg) == Output([x], None)
  {
    AsciiText(bytes, x + "\n" + y);
    AsciiChunksWellFormed(bytes, cfg.chunkSize);
    TerminatedOne(x);
    CleanStreamOf(bytes, cfg, [x], y);
    ApplyStrip(x);
    StripPlain(x);
  }

  /** `bytes` are ASCII and read, one by one, as the characters of `t`. */
  predicate Spells(bytes: seq<byte>, t: string) {
    |bytes| == |t| && forall i :: 0 <= i < |t| ==> bytes[i] < 0x80 && t[i] as int == bytes[i] as int
  }

  lemma AsciiText(bytes: seq<byte>, t: string)
    requires Spells(bytes, t)
    ensures forall i :: 0 <= i < |bytes| ==> bytes[i] < 0x80
    ensures WellFormed(bytes) && Decode(bytes) == t
  {
    AsciiDecode(bytes);
  }


  /**
   * The records `{"a":1}` and `{"a":2}`, each ended by "\n", come out as two
   * lines whatever the chunk size; without the final "\n" only the first
   * one does.
   */
  lemma TwoRecordsAnyChunkSize(bytes: seq<byte>, cfg: Config)
    requires cfg.chunkSize > 0 && cfg.maxAttempts >= 1
    requires Spells(bytes, "{\"a\":1}\n{\"a\":2}\n")
    ensures ReadLinesSpec(bytes, cfg) == Output(["{\"a\":1}", "{\"a\":2}"], None)
    ensures ReadLinesSpec(bytes[..|bytes| - 1], cfg) == Output(["{\"a\":1}"], None)
  {
    TwoRecordsTerminated(bytes, cfg);
    TwoRecordsUnterminated(bytes, cfg);
  }

  lemma TwoRecordsTerminated(bytes: seq<byte>, cfg: Config)
    requires cfg.chunkSize > 0 && cfg.maxAttempts >= 1
    requires Spells(bytes, "{\"a\":1}\n{\"a\":2}\n")
    ensures ReadLinesSpec(bytes, cfg) == Output(["{\"a\":1}", "{\"a\":2}"], None)
  {
    var first, second := "{\"a\":1}", "{\"a\":2}";
    assert "{\"a\":1}\n{\"a\":2}\n" == first + "\n" + (second + "\n");
    assert Plain(first) && Plain(second);
    AsciiTwoLines(bytes, cfg, first, second);
  }

  lemma TwoRecordsUnterminated(bytes: seq<byte>, cfg: Config)
    requires cfg.chunkSize > 0 && cfg.maxAttempts >= 1
    requires Spells(bytes, "{\"a\":1}\n{\"a\":2}\n")
    ensures ReadLinesSpec(bytes[..|bytes| - 1], cfg) == Output(["{\"a\":1}"], None)
  {
    var first, second := "{\"a\":1}", "{\"a\":2}";
    assert Spells(bytes[..|bytes| - 1], "{\"a\":1}\n{\"a\":2}");
    assert "{\"a\":1}\n{\"a\":2}" == first + "\n" + second;
    assert Plain(first) && NoNewline(second);
    AsciiLineThenTail(bytes[..|bytes| - 1], cfg, first, second);
  }

  /** "\U{E9}\na\n" in UTF-8: a two-byte character, then an ASCII line. */
  const ACCENTED_LINES: seq<byte> := [0xC3, 0xA9, 0x0A, 0x61, 0x0A]

  /**
   * Read one byte at a time, the accented character is never decoded: its two
   * bytes fail one after the other and are thrown away, so the first line
   * comes out empty instead of "\U{E9}".
   */
  lemma AccentedLineLost()
    ensures WellFormed(ACCENTED_LINES)
    ensures Step("", Decode(ACCENTED_LINES)).pieces == ["\U{E9}", "a"]
    ensures ReadLinesSpec(ACCENTED_LINES, Config(1, MAX_WINDOW_SIZE, 3)) == Output(["", "a"], None)
  {
    AccentedDecodes();
    AccentedLines();
  }

  lemma AccentedDecodes()
    ensures WellFormed(ACCENTED_LINES)
    ensures Step("", Decode(ACCENTED_LINES)).pieces == ["\U{E9}", "a"]
  {
    AccentedText();
    LinesOfTwo("\U{E9}", "a");
  }

  lemma AccentedText()
    ensures WellFormed(ACCENTED_LINES)
    ensures Decode(ACCENTED_LINES) == "\U{E9}" + "\n" + ("a" + "\n")
  {
    var accent: seq<byte> := [0xC3, 0xA9];
    var ascii: seq<byte> := [0x0A, 0x61, 0x0A];
    assert ACCENTED_LINES == accent + ascii;
    SplitCharacterLost();
    AsciiText(ascii, "\na\n");
    DecodeAppend(accent, ascii);
  }

  /** The first call reads the two bytes of the character in vain and returns the "\n" after them. */
  lemma AccentedFirstCall()
    ensures DecodeSpec(ACCENTED_LINES, Config(1, MAX_WINDOW_SIZE, 3), None, 0) == Attempts(Decoded("\n"), 3)
    ensures ACCENTED_LINES[Offset(ACCENTED_LINES, 1, 3)..] == [0x61, 0x0A]
  {
    assert ChunkAt(ACCENTED_LINES, 1, 0) == [0xC3];
    assert ChunkAt(ACCENTED_LINES, 1, 1) == [0xA9];
    assert ChunkAt(ACCENTED_LINES, 1, 2) == [0x0A];
    assert CharLen([0xC3]) == 0;
    assert CharLen([0xA9]) == 0;
    assert AttemptBytes(ACCENTED_LINES, 1, None, 0) == [0xC3];
    assert AttemptBytes(ACCENTED_LINES, 1, None, 1) == [0xA9];
    assert AttemptBytes(ACCENTED_LINES, 1, None, 2) == [0x0A];
    AsciiText([0x0A], "\n");
  }

  /** A first call that returns `t`, followed by a stream whose reads never split a character. */
  lemma FirstCallThenClean(rest: seq<byte>, cfg: Config, t: string, k: nat)
    requires cfg.maxAttempts >= 1
    requires DecodeSpec(rest, cfg, None, 0) == Attempts(Decoded(t), k) && t != ""
    requires ChunksWellFormed(rest[Offset(rest, cfg.chunkSize, k)..], cfg.chunkSize)
    ensures WellFormed(rest[Offset(rest, cfg.chunkSize, k)..])
    ensures ReadLinesSpec(rest, cfg)
            == Output(Map(Strip, Step("", t + Decode(rest[Offset(rest, cfg.chunkSize, k)..])).pieces), None)
  {
    var after := rest[Offset(rest, cfg.chunkSize, k)..];
    StreamFragmentsUnfold(rest, cfg);
    CleanStream(after, cfg);
    var more := StreamFragments(after, cfg);
    ConcatCons(t, more.texts);
    ReassembleIsSplit([t] + more.texts);
  }

  lemma AccentedLines()
    ensures ReadLinesSpec(ACCENTED_LINES, Config(1, MAX_WINDOW_SIZE, 3)) == Output(["", "a"], None)
  {
    AccentedStream();
    AccentedPieces();
  }

  /** After the first call only ASCII is left, so the lines are those of "\n" followed by "a\n". */
  lemma AccentedStream()
    ensures ReadLinesSpec(ACCENTED_LINES, Config(1, MAX_WINDOW_SIZE, 3))
            == Output(Map(Strip, Step("", "\n" + "a\n").pieces), None)
  {
    var cfg := Config(1, MAX_WINDOW_SIZE, 3);
    AccentedFirstCall();
    var after: seq<byte> := [0x61, 0x0A];
    AsciiText(after, "a\n");
    AsciiChunksWellFormed(after, 1);
    FirstCallThenClean(ACCENTED_LINES, cfg, "\n", 3);
  }

  lemma AccentedPieces()
    ensures Map(Strip, Step("", "\n" + "a\n").pieces) == ["", "a"]
  {
    assert "\n" + "a\n" == "" + "\n" + ("a" + "\n");
    LinesOfTwo("", "a");
    assert Plain("a");
    StripPlain("a");
    MapStripTwo("", "a");
  }

  /** The completed pieces of two lines, each ended by "\n". */
  lemma LinesOfTwo(x: string, y: string)
    requires NoNewline(x) && NoNewline(y)
    ensures Step("", x + "\n" + (y + "\n")).pieces == [x, y]
  {
    var text := x + "\n" + (y + "\n");
    TerminatedTwo(x, y);
    assert "" + text == Terminated([x, y]) + "";
    SplitOfTerminated([x, y], "");
    assert [x, y] == ([x, y] + [""])[..2];
  }

  /** "a\U{E9}\n" in UTF-8: an ASCII letter, a two-byte character and a separator. */
  const SPLIT_BEFORE_END: seq<byte> := [0x61, 0xC3, 0xA9, 0x0A]

  lemma SplitBeforeEndText()
    ensures WellFormed(SPLIT_BEFORE_END) && Decode(SPLIT_BEFORE_END) == "a\U{E9}\n"
  {
    var letter: seq<byte> := [0x61];
    var accent: seq<byte> := [0xC3, 0xA9];
    var newline: seq<byte> := [0x0A];
    assert SPLIT_BEFORE_END == letter + (accent + newline);
    AsciiText(letter, "a");
    SplitCharacterLost();
    AsciiText(newline, "\n");
    DecodeAppend(accent, newline);
    DecodeAppend(letter, accent + newline);
  }

  /**
   * A failed read followed by the end of the stream ends read_lines_zst
   * without an error: read two bytes at a time, the character split by the
   * first boundary makes both reads fail, the third read is empty and decodes
   * to the empty text, so a well-formed line is lost and nothing is raised.
   */
  lemma TrailingSplitLostSilently()
    ensures WellFormed(SPLIT_BEFORE_END) && Decode(SPLIT_BEFORE_END) == "a\U{E9}\n"
    ensures DecodeSpec(SPLIT_BEFORE_END, Config(2, 100, 3), None, 0) == Attempts(Decoded(""), 3)
    ensures ReadLinesSpec(SPLIT_BEFORE_END, Config(2, 100, 3)) == Output([], None)
  {
    SplitBeforeEndText();
    var rest := SPLIT_BEFORE_END;
    assert ChunkAt(rest, 2, 0) == [0x61, 0xC3];
    assert ChunkAt(rest, 2, 1) == [0xA9, 0x0A];
    assert ChunkAt(rest, 2, 2) == [];
    assert CharLen([0x61, 0xC3]) == 1;
    assert [0x61, 0xC3][1..] == [0xC3];
    assert CharLen([0xC3]) == 0;
    assert CharLen([0xA9, 0x0A]) == 0;
    assert AttemptBytes(rest, 2, None, 0) == [0x61, 0xC3];
    assert AttemptBytes(rest, 2, None, 1) == [0xA9, 0x0A];
    assert AttemptBytes(rest, 2, None, 2) == [];
  }
}
