/** The text console in front of the portfolio: the typewriter writer, which
    forwards its input to an underlying writer in chunks (one escape run, one
    ill-formed byte or one UTF-8 rune at a time), and the line editor of the
    command loop with its command classification. */
module Cli {

  import opened Utf8

  const Esc: Byte := 0x1b

  predicate IsAsciiLetter(b: Byte) {
    ('a' as int <= b <= 'z' as int) || ('A' as int <= b <= 'Z' as int)
  }

  /** End of an escape run whose scan starts at j: one past the first ASCII
      letter at or after j, or the end of p when there is none. */
  function EscEnd(p: seq<Byte>, j: nat): (k: nat)
    requires j <= |p|
    ensures j <= k <= |p|
    ensures forall m :: j <= m < k - 1 ==> !IsAsciiLetter(p[m])
    ensures k == |p| || (k > j && IsAsciiLetter(p[k - 1]))
    decreases |p| - j
  {
    if j == |p| then j
    else if IsAsciiLetter(p[j]) then j + 1
    else EscEnd(p, j + 1)
  }

  /** Width of the chunk Write forwards at the start of p. */
  function ChunkLen(p: seq<Byte>): (n: nat)
    requires p != []
    ensures 1 <= n <= |p|
  {
    if p[0] == Esc then EscEnd(p, 1)
    else
      var (r, size) := DecodeRune(p);
      if r == RuneError && size == 1 then 1 else size
  }

  /** The chunks Write forwards, in order, for the whole of p. */
  function Chunks(p: seq<Byte>): seq<seq<Byte>>
    decreases |p|
  {
    if p == [] then [] else [p[..ChunkLen(p)]] + Chunks(p[ChunkLen(p)..])
  }

  function Flatten(cs: seq<seq<Byte>>): seq<Byte> {
    if cs == [] then [] else cs[0] + Flatten(cs[1..])
  }

  /** The shape of one forwarded chunk: an escape run up to and including the
      first letter after ESC (or to the end of the input), a lone byte that
      starts no well-formed sequence, or the encoding of one rune. */
  predicate IsEscapeRun(c: seq<Byte>, atEnd: bool) {
    && |c| >= 1 && c[0] == Esc
    && (forall m :: 1 <= m < |c| - 1 ==> !IsAsciiLetter(c[m]))
    && (atEnd || (|c| >= 2 && IsAsciiLetter(c[|c| - 1])))
  }

  ghost predicate IsChunk(c: seq<Byte>, atEnd: bool) {
    || IsEscapeRun(c, atEnd)
    || (|c| == 1 && c[0] != Esc && DecodeRune(c) == (RuneError, 1))
    || (c != [] && c[0] != Esc && exists r :: IsScalar(r) && c == EncodeRune(r))
  }

  /** Forwarding loses and reorders nothing: the chunks put back together are
      the input. */
  lemma {:induction false} FlattenChunks(p: seq<Byte>)
    ensures Flatten(Chunks(p)) == p
    decreases |p|
  {
    if p != [] {
      var k := ChunkLen(p);
      FlattenChunks(p[k..]);
      assert p[..k] + p[k..] == p;
    }
  }

  /** Every chunk is non-empty and has one of the three shapes; only the last
      chunk may be an escape run cut off by the end of the input. */
  lemma {:induction false} ChunkShapes(p: seq<Byte>, i: nat)
    requires i < |Chunks(p)|
    ensures IsChunk(Chunks(p)[i], i == |Chunks(p)| - 1)
    decreases |p|
  {
    var k := ChunkLen(p);
    var c := p[..k];
    if i == 0 {
      if p[0] == Esc {
        if k < |p| {
          assert |Chunks(p[k..])| >= 1;
        }
        assert IsEscapeRun(c, i == |Chunks(p)| - 1);
      } else {
        var (r, size) := DecodeRune(p);
        if !(r == RuneError && size == 1) {
          assert StartsWellFormed(p);
          DecodeIsEncoding(p);
          assert c == EncodeRune(r);
        } else {
          assert p[0] == c[0] && !StartsWellFormed(c);
        }
      }
    } else {
      ChunkShapes(p[k..], i - 1);
    }
  }

  /** The underlying writer, with an injected failure: the write call that
      would become entry failAt of the log fails and accepts nothing. */
  class Sink {
    var log: seq<seq<Byte>>
    const failAt: int

    constructor (failAt: int)
      ensures log == [] && this.failAt == failAt
    {
      log := [];
      this.failAt := failAt;
    }

    method Write(chunk: seq<Byte>) returns (n: nat, failed: bool)
      modifies this
      ensures failed <==> |old(log)| == failAt
      ensures n == (if failed then 0 else |chunk|)
      ensures log == (if failed then old(log) else old(log) + [chunk])
    {
      failed := |log| == failAt;
      if failed {
        n := 0;
      } else {
        n := |chunk|;
        log := log + [chunk];
      }
    }
  }

  /** Number of chunks of p a sink accepts before its failing call. */
  function Accepted(p: seq<Byte>, logLen: nat, failAt: int): (k: nat)
    ensures k <= |Chunks(p)|
  {
    if logLen <= failAt < logLen + |Chunks(p)| then failAt - logLen else |Chunks(p)|
  }

  /** The end of the chunk that starts at index i, found as Write finds it:
      an escape run is scanned for its terminating letter, anything else is
      measured by DecodeRune. */
  method ChunkEnd(p: seq<Byte>, i: nat) returns (j: nat)
    requires i < |p|
    ensures j == i + ChunkLen(p[i..])
  {
    if p[i] == Esc {
      j := i + 1;
      while j < |p|
        invariant i + 1 <= j <= |p|
        invariant EscEnd(p[i..], j - i) == EscEnd(p[i..], 1)
        decreases |p| - j
      {
        var b := p[j];
        if IsAsciiLetter(b) {
          j := j + 1;
          break;
        }
        j := j + 1;
      }
    } else {
      var (r, size) := DecodeRune(p[i..]);
      if r == RuneError && size == 1 {
        j := i + 1;
      } else {
        j := i + size;
      }
    }
  }

  lemma ChunksStep(p: seq<Byte>, i: nat, j: nat)
    requires i < |p| && j == i + ChunkLen(p[i..])
    ensures Chunks(p[i..]) == [p[i..j]] + Chunks(p[j..])
  {
    assert p[i..][..j - i] == p[i..j];
    assert p[i..][j - i..] == p[j..];
  }

  /** typewriterWriter.Write: forwards the chunks of p in order, stops at the
      first failing write and reports it; the count is the bytes accepted.
      The per-rune delay is not modelled. */
  method TypewriterWrite(sink: Sink, p: seq<Byte>) returns (written: nat, failed: bool)
    modifies sink
    ensures var k := Accepted(p, |old(sink.log)|, sink.failAt);
      && sink.log == old(sink.log) + Chunks(p)[..k]
      && written == |Flatten(Chunks(p)[..k])|
      && failed == (k < |Chunks(p)|)
  {
    ghost var done: seq<seq<Byte>> := [];
    ghost var logLen := |sink.log|;
    written := 0;
    var i := 0;
    while i < |p|
      invariant 0 <= i <= |p|
      invariant Chunks(p) == done + Chunks(p[i..])
      invariant sink.log == old(sink.log) + done
      invariant Flatten(done) == p[..i] && written == i
      invariant !(logLen <= sink.failAt < logLen + |done|)
      decreases |p| - i
    {
      var j := ChunkEnd(p, i);
      var n, bad := sink.Write(p[i..j]);
      if bad {
        written := written + n;
        failed := true;
        ChunksStep(p, i, j);
        AcceptedWhenFailing(p, done, i, logLen, sink.failAt);
        assert |Flatten(done)| == i;
        return;
      }
      ChunksStep(p, i, j);
      ShiftChunk(Chunks(p), done, Chunks(p[i..]), p[i..j], Chunks(p[j..]));
      WriteStep(p, done, i, j);
      done := done + [p[i..j]];
      written := written + n;
      i := j;
    }
    failed := false;
    assert p[i..] == [];
    assert done == Chunks(p);
    assert Chunks(p)[..|done|] == done;
    assert |Flatten(done)| == |p|;
  }

  /** The bytes forwarded so far, followed by the chunk p[i..j], are p[..j]. */
  lemma WriteStep(p: seq<Byte>, done: seq<seq<Byte>>, i: nat, j: nat)
    requires i <= j <= |p| && Flatten(done) == p[..i]
    ensures Flatten(done + [p[i..j]]) == p[..j]
  {
    FlattenSnoc(done, p[i..j]);
    assert p[..i] + p[i..j] == p[..j];
  }

  /** Moving the first chunk still to come onto the chunks already forwarded. */
  lemma ShiftChunk(all: seq<seq<Byte>>, done: seq<seq<Byte>>, todo: seq<seq<Byte>>, c: seq<Byte>, rest: seq<seq<Byte>>)
    requires all == done + todo && todo == [c] + rest
    ensures all == (done + [c]) + rest
  {
  }

  lemma FlattenSnoc(cs: seq<seq<Byte>>, c: seq<Byte>)
    ensures Flatten(cs + [c]) == Flatten(cs) + c
  {
    if cs != [] {
      assert (cs + [c])[1..] == cs[1..] + [c];
      FlattenSnoc(cs[1..], c);
    } else {
      assert [c][1..] == [];
    }
  }

  lemma AcceptedWhenFailing(p: seq<Byte>, done: seq<seq<Byte>>, i: nat, logLen: nat, failAt: int)
    requires i < |p| && Chunks(p) == done + Chunks(p[i..]) && failAt == logLen + |done|
    ensures Accepted(p, logLen, failAt) == |done| && Chunks(p)[..|done|] == done
  {
    assert |Chunks(p[i..])| >= 1;
  }

  /** One echo write of the line editor: a typed rune, the "\b \b" rubout,
      or the "\r\n" line break. */
  datatype EchoWrite = Typed(r: int) | Rubout | Newline

  /** The line being edited and the writes echoed to the terminal so far. */
  datatype Editor = Editor(line: seq<char>, echo: seq<EchoWrite>)

  const Erase: seq<Byte> := [8, 32, 8]
  const LineBreak: seq<Byte> := [13, 10]

  /** The bytes one echo write puts on the terminal; string(r) of a value that
      is not a scalar encodes U+FFFD. */
  function WriteBytes(w: EchoWrite): seq<Byte> {
    match w
    case Typed(r) => if IsScalar(r) then EncodeRune(r) else EncodeRune(RuneError)
    case Rubout => Erase
    case Newline => LineBreak
  }

  /** The bytes a run of echo writes puts on the terminal, in order. */
  function EchoBytes(ws: seq<EchoWrite>): seq<Byte> {
    if ws == [] then [] else EchoBytes(ws[..|ws| - 1]) + WriteBytes(ws[|ws| - 1])
  }

  /** Echoing two runs of writes one after the other puts their bytes one
      after the other. */
  lemma {:induction false} EchoBytesAppend(a: seq<EchoWrite>, b: seq<EchoWrite>)
    ensures EchoBytes(a + b) == EchoBytes(a) + EchoBytes(b)
    decreases |b|
  {
    if b != [] {
      var b' := b[..|b| - 1];
      assert (a + b)[..|a + b| - 1] == a + b';
      EchoBytesAppend(a, b');
    } else {
      assert a + b == a;
    }
  }

  /** Effect of one decoded rune other than CR and LF: an ill-formed byte is
      ignored, DEL (0x7f) or backspace removes the last rune if there is one,
      any rune from 0x20 up is appended and echoed, other controls are ignored. */
  function Edit(ed: Editor, r: int, size: nat): Editor
    requires IsScalar(r)
  {
    if r == RuneError && size == 1 then ed
    else if r == 0x7f || r == 8 then
      if |ed.line| > 0 then Editor(ed.line[..|ed.line| - 1], ed.echo + [Rubout]) else ed
    else if r >= 0x20 then Editor(ed.line + [r as char], ed.echo + [Typed(r)])
    else ed
  }

  /** How reading a line ends: at CR or LF, with the raw line and the index
      after the terminator, or at the end of the input, which ends the loop. */
  datatype LineOutcome = Line(text: seq<char>, next: nat, echo: seq<EchoWrite>) | ReadError(echo: seq<EchoWrite>)

  /** The line editor from index i on, reading runes as bufio.ReadRune does. */
  function EditFrom(input: seq<Byte>, i: nat, ed: Editor): LineOutcome
    requires i <= |input|
    decreases |input| - i
  {
    if i == |input| then ReadError(ed.echo)
    else
      var (r, size) := DecodeRune(input[i..]);
      if r == '\n' as int || r == '\r' as int then Line(ed.line, i + size, ed.echo + [Newline])
      else EditFrom(input, i + size, Edit(ed, r, size))
  }

  /** One rune of the editor: anything but CR and LF edits and reading goes on. */
  lemma EditFromStep(input: seq<Byte>, i: nat, ed: Editor, r: int, size: nat)
    requires i < |input| && (r, size) == DecodeRune(input[i..])
    requires r != '\n' as int && r != '\r' as int
    ensures i + size <= |input|
    ensures EditFrom(input, i, ed) == EditFrom(input, i + size, Edit(ed, r, size))
  {
  }

  /** The editor keeps a printable line printable. */
  lemma EditKeepsPrintable(ed: Editor, r: int, size: nat)
    requires IsScalar(r) && Printable(ed.line)
    ensures Printable(Edit(ed, r, size).line)
  {
    var line := Edit(ed, r, size).line;
    if r == RuneError && size == 1 {
    } else if r == 0x7f || r == 8 {
      if |ed.line| > 0 {
        assert forall k :: 0 <= k < |line| ==> line[k] == ed.line[k];
      }
    } else if r >= 0x20 {
      assert forall k :: 0 <= k < |ed.line| ==> line[k] == ed.line[k];
    }
  }

  /** The inner read loop of cli: edits one line of input starting at start. */
  method ReadLine(input: seq<Byte>, start: nat) returns (outcome: LineOutcome)
    requires start <= |input|
    ensures outcome == EditFrom(input, start, Editor([], []))
  {
    var lineRunes: seq<char> := [];
    var echo: seq<EchoWrite> := [];
    var i := start;
    ghost var goal := EditFrom(input, start, Editor([], []));
    while true
      invariant start <= i <= |input|
      invariant EditFrom(input, i, Editor(lineRunes, echo)) == goal
      decreases |input| - i
    {
      var done;
      done, outcome, i, lineRunes, echo := ReadStep(input, i, lineRunes, echo);
      if done {
        return;
      }
    }
  }

  /** One pass of the read loop: end of input, a line terminator, or one
      more rune edited into the line. */
  method ReadStep(input: seq<Byte>, i: nat, line: seq<char>, echo: seq<EchoWrite>)
    returns (done: bool, outcome: LineOutcome, i': nat, line': seq<char>, echo': seq<EchoWrite>)
    requires i <= |input|
    ensures done ==> outcome == EditFrom(input, i, Editor(line, echo))
    ensures !done ==> i < i' <= |input| && EditFrom(input, i', Editor(line', echo')) == EditFrom(input, i, Editor(line, echo))
  {
    done, outcome, i', line', echo' := true, ReadError(echo), i, line, echo;
    if i == |input| {
      return;
    }
    var (r, size) := DecodeRune(input[i..]);
    if r == '\n' as int || r == '\r' as int {
      TerminatorEndsLine(input, i, Editor(line, echo));
      outcome := Line(line, i + size, echo + [Newline]);
      return;
    }
    EditFromStep(input, i, Editor(line, echo), r, size);
    done, i' := false, i + size;
    line', echo' := EditRune(line, echo, r, size);
  }

  /** The body of the read loop for one rune other than CR and LF. */
  method EditRune(line: seq<char>, echo: seq<EchoWrite>, r: int, size: nat)
    returns (line': seq<char>, echo': seq<EchoWrite>)
    requires IsScalar(r)
    ensures Editor(line', echo') == Edit(Editor(line, echo), r, size)
  {
    line', echo' := line, echo;
    if r == RuneError && size == 1 {
      return;
    }
    if r == 0x7f || r == 8 {
      if |line'| > 0 {
        line' := line'[..|line'| - 1];
        echo' := echo' + [Rubout];
      }
      return;
    }
    if r >= 0x20 && r != 0x7f {
      line' := line' + [r as char];
      echo' := echo' + [Typed(r)];
    }
  }

  /** Runes the editor keeps: from 0x20 up, and not DEL. */
  predicate Printable(line: seq<char>) {
    forall k :: 0 <= k < |line| ==> line[k] as int >= 0x20 && line[k] as int != 0x7f
  }

  /** A finished line holds only printable runes. */
  lemma {:induction false} LineIsPrintable(input: seq<Byte>, i: nat, ed: Editor)
    requires i <= |input| && Printable(ed.line)
    ensures var out := EditFrom(input, i, ed); out.Line? ==> Printable(out.text)
    decreases |input| - i
  {
    if i < |input| {
      var (r, size) := DecodeRune(input[i..]);
      if !(r == '\n' as int || r == '\r' as int) {
        EditFromStep(input, i, ed, r, size);
        EditKeepsPrintable(ed, r, size);
        LineIsPrintable(input, i + size, Edit(ed, r, size));
      }
    }
  }

  /** The outcome, if a line, ends one past a CR or LF byte of the input. */
  predicate EndsAtTerminator(input: seq<Byte>, out: LineOutcome) {
    out.Line? ==> 0 < out.next <= |input| && (input[out.next - 1] == 10 || input[out.next - 1] == 13)
  }

  /** A finished line ends one past a CR or LF byte of the input, after i. */
  lemma {:induction false} LineEndsAtTerminator(input: seq<Byte>, i: nat, ed: Editor)
    requires i <= |input|
    ensures EndsAtTerminator(input, EditFrom(input, i, ed))
    ensures EditFrom(input, i, ed).Line? ==> i < EditFrom(input, i, ed).next
    decreases |input| - i
  {
    if i < |input| {
      var (r, size) := DecodeRune(input[i..]);
      if !(r == '\n' as int || r == '\r' as int) {
        EditFromStep(input, i, ed, r, size);
        LineEndsAtTerminator(input, i + size, Edit(ed, r, size));
      } else {
        TerminatorEndsLine(input, i, ed);
      }
    }
  }

  /** A CR or LF byte ends the line right after it. */
  lemma TerminatorEndsLine(input: seq<Byte>, i: nat, ed: Editor)
    requires i < |input|
    requires DecodeRune(input[i..]).0 == '\n' as int || DecodeRune(input[i..]).0 == '\r' as int
    ensures input[i] == 10 || input[i] == 13
    ensures DecodeRune(input[i..]).1 == 1
    ensures EditFrom(input, i, ed) == Line(ed.line, i + 1, ed.echo + [Newline])
  {
    TerminatorIsOneByte(input[i..]);
    assert input[i] == input[i..][0];
  }

  /** A CR or LF rune is read from a single byte of the same value. */
  lemma TerminatorIsOneByte(p: seq<Byte>)
    requires p != [] && (DecodeRune(p).0 == 10 || DecodeRune(p).0 == 13)
    ensures DecodeRune(p).1 == 1 && p[0] == DecodeRune(p).0
  {
    var (r, size) := DecodeRune(p);
    DecodeIsEncoding(p);
    assert EncodeRune(r) == [r];
    assert p[..size] == [r];
  }

  /** Erasing right after typing a rune gives back the line as it was. */
  lemma EraseUndoesType(ed: Editor, r: int, eraser: int)
    requires IsScalar(r) && r >= 0x20 && r != 0x7f && eraser in {0x7f, 8}
    ensures Edit(Edit(ed, r, |EncodeRune(r)|), eraser, 1).line == ed.line
  {
    assert (ed.line + [r as char])[..|ed.line|] == ed.line;
  }

  /** Erasing on an empty line changes nothing, not even the echo. */
  lemma EraseOnEmpty(echo: seq<EchoWrite>, eraser: int)
    requires eraser in {0x7f, 8}
    ensures Edit(Editor([], echo), eraser, 1) == Editor([], echo)
  {
  }

  /** unicode.IsSpace, the white space strings.TrimSpace removes. */
  predicate IsSpace(c: char) {
    var n := c as int;
    || (9 <= n <= 13) || n == 32 || n == 0x85 || n == 0xA0 || n == 0x1680
    || (0x2000 <= n <= 0x200A) || n == 0x2028 || n == 0x2029 || n == 0x202F
    || n == 0x205F || n == 0x3000
  }

  predicate AllSpace(s: seq<char>) {
    forall k :: 0 <= k < |s| ==> IsSpace(s[k])
  }

  predicate Trimmed(s: seq<char>) {
    s == [] || (!IsSpace(s[0]) && !IsSpace(s[|s| - 1]))
  }

  function TrimLeft(s: seq<char>): seq<char> {
    if s != [] && IsSpace(s[0]) then TrimLeft(s[1..]) else s
  }

  function TrimRight(s: seq<char>): seq<char> {
    if s != [] && IsSpace(s[|s| - 1]) then TrimRight(s[..|s| - 1]) else s
  }

  /** strings.TrimSpace. */
  function TrimSpace(s: seq<char>): seq<char> {
    TrimRight(TrimLeft(s))
  }

  lemma {:induction false} TrimLeftSpaces(a: seq<char>, s: seq<char>)
    requires AllSpace(a)
    ensures TrimLeft(a + s) == TrimLeft(s)
    decreases |a|
  {
    if a != [] {
      assert (a + s)[1..] == a[1..] + s;
      TrimLeftSpaces(a[1..], s);
    } else {
      assert a + s == s;
    }
  }

  lemma {:induction false} TrimRightSpaces(s: seq<char>, b: seq<char>)
    requires AllSpace(b)
    ensures TrimRight(s + b) == TrimRight(s)
    decreases |b|
  {
    if b != [] {
      var b' := b[..|b| - 1];
      assert (s + b)[..|s + b| - 1] == s + b';
      TrimRightSpaces(s, b');
    } else {
      assert s + b == s;
    }
  }

  lemma {:induction false} TrimLeftAppend(s: seq<char>, b: seq<char>)
    requires !AllSpace(s)
    ensures TrimLeft(s + b) == TrimLeft(s) + b
    decreases |s|
  {
    if IsSpace(s[0]) {
      assert (s + b)[1..] == s[1..] + b;
      assert !AllSpace(s[1..]) by {
        var k :| 0 <= k < |s| && !IsSpace(s[k]);
        assert k > 0 && s[1..][k - 1] == s[k];
      }
      TrimLeftAppend(s[1..], b);
    }
  }

  lemma {:induction false} TrimLeftAllSpace(s: seq<char>)
    requires AllSpace(s)
    ensures TrimLeft(s) == []
    decreases |s|
  {
    if s != [] {
      TrimLeftAllSpace(s[1..]);
    }
  }

  lemma {:induction false} TrimRightOfTrimmed(s: seq<char>)
    requires s == [] || !IsSpace(s[|s| - 1])
    ensures TrimRight(s) == s
  {
  }

  /** White space around a command does not change what TrimSpace gives. */
  lemma {:induction false} TrimSpaceSurrounded(a: seq<char>, s: seq<char>, b: seq<char>)
    requires AllSpace(a) && AllSpace(b)
    ensures TrimSpace(a + s + b) == TrimSpace(s)
  {
    assert a + s + b == a + (s + b);
    TrimLeftSpaces(a, s + b);
    if AllSpace(s) {
      assert AllSpace(s + b);
      TrimLeftAllSpace(s + b);
      TrimLeftAllSpace(s);
    } else {
      TrimLeftAppend(s, b);
      TrimRightSpaces(TrimLeft(s), b);
    }
  }

  /** A string with no white space at either end is left as it is. */
  lemma {:induction false} TrimSpaceOfTrimmed(s: seq<char>)
    requires Trimmed(s)
    ensures TrimSpace(s) == s
  {
  }

  /** What TrimSpace gives has no white space at either end. */
  lemma {:induction false} TrimSpaceIsTrimmed(s: seq<char>)
    ensures Trimmed(TrimSpace(s))
    decreases |s|
  {
    if s != [] && IsSpace(s[0]) {
      TrimSpaceIsTrimmed(s[1..]);
    } else {
      TrimRightKeepsHead(s);
    }
  }

  lemma {:induction false} TrimRightKeepsHead(s: seq<char>)
    requires s == [] || !IsSpace(s[0])
    ensures Trimmed(TrimRight(s))
    decreases |s|
  {
    if s != [] && IsSpace(s[|s| - 1]) {
      TrimRightKeepsHead(s[..|s| - 1]);
    }
  }

  /** The commands the loop distinguishes; every other non-empty line is
      looked up as a portfolio section (or reported as unknown). */
  datatype Command = Exit | Credit | StartSnake | ClearScreen | Help | Section(name: seq<char>) | Blank

  function Classify(line: seq<char>): Command {
    if line == "quit" || line == "exit" then Exit
    else if line == "credit" then Credit
    else if line == "?" then StartSnake
    else if line == "clear" then ClearScreen
    else if line == "help" then Help
    else if line == "" then Blank
    else Section(line)
  }

  /** "quit", "exit" and "credit" return from the loop; all else reprompts. */
  predicate EndsLoop(c: Command) {
    c == Exit || c == Credit
  }

  /** The command a finished line stands for, white space around it ignored:
      the loop ends exactly on quit, exit and credit. */
  lemma CommandOfLine(a: seq<char>, word: seq<char>, b: seq<char>)
    requires AllSpace(a) && AllSpace(b) && Trimmed(word)
    ensures EndsLoop(Classify(TrimSpace(a + word + b))) <==> word in {"quit", "exit", "credit"}
    ensures Classify(TrimSpace(a + word + b)) == StartSnake <==> word == "?"
  {
    TrimSpaceSurrounded(a, word, b);
    TrimSpaceOfTrimmed(word);
  }
}
