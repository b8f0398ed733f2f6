/**
 The line discipline of the UART (src/uart_handler.rs) as a function of the
 byte stream alone: where lines end, and what each line means.
 */
module LineFraming {
  import opened Nor
  import opened Register

  const NEWLINE: byte := 10

  /** A line is cut off when it fills `RX_LINE_SIZE - 1` bytes. */
  const LINE_LIMIT: nat := 127

  /** Complete lines, and the bytes of the line still being received. */
  datatype Framed = Framed(lines: seq<seq<byte>>, pending: seq<byte>)

  const EMPTY: Framed := Framed([], [])

  predicate Complete(line: seq<byte>) {
    line != [] && (line[|line| - 1] == NEWLINE || |line| >= LINE_LIMIT)
  }

  /** One received byte. */
  function Receive(st: Framed, b: byte): Framed {
    var line := st.pending + [b];
    if Complete(line) then Framed(st.lines + [line], []) else Framed(st.lines, line)
  }

  /** The pure segmentation of a whole stream. */
  function Segment(s: seq<byte>): Framed {
    Run(Receive, EMPTY, s)
  }

  // ------------------------------------------------------- characterization

  /** No proper prefix is complete: too short, and no newline yet. */
  predicate Unfinished(line: seq<byte>) {
    |line| < LINE_LIMIT && NEWLINE !in line
  }

  predicate IsLine(line: seq<byte>) {
    Complete(line) && Unfinished(line[..|line| - 1])
  }

  /** Lines and a rest that together are exactly the stream. */
  ghost predicate IsSegmentation(s: seq<byte>, f: Framed) {
    && Flatten(f.lines) + f.pending == s
    && (forall i :: 0 <= i < |f.lines| ==> IsLine(f.lines[i]))
    && Unfinished(f.pending)
  }

  lemma {:induction false} FlattenSnoc(lines: seq<seq<byte>>, line: seq<byte>)
    ensures Flatten(lines + [line]) == Flatten(lines) + line
  {
    if lines == [] {
      assert Flatten([line]) == line + Flatten([line][1..]);
    } else {
      assert (lines + [line])[1..] == lines[1..] + [line];
      FlattenSnoc(lines[1..], line);
    }
  }

  lemma ReceiveKeepsSegmentation(s: seq<byte>, st: Framed, b: byte)
    requires IsSegmentation(s, st)
    ensures IsSegmentation(s + [b], Receive(st, b))
  {
    var line := st.pending + [b];
    assert line[..|line| - 1] == st.pending;
    if Complete(line) {
      FlattenSnoc(st.lines, line);
      assert Flatten(st.lines) + line == s + [b];
    } else {
      assert Flatten(st.lines) + line == s + [b];
    }
  }

  lemma {:induction false} RunKeepsSegmentation(before: seq<byte>, st: Framed, s: seq<byte>)
    requires IsSegmentation(before, st)
    ensures IsSegmentation(before + s, Run(Receive, st, s))
    decreases |s|
  {
    if s == [] {
      assert before + s == before;
    } else {
      ReceiveKeepsSegmentation(before, st, s[0]);
      RunKeepsSegmentation(before + [s[0]], Receive(st, s[0]), s[1..]);
      assert before + [s[0]] + s[1..] == before + s;
    }
  }

  lemma {:induction false} ReceiveUnfinished(st: Framed, s: seq<byte>)
    requires Unfinished(st.pending + s)
    ensures Run(Receive, st, s) == Framed(st.lines, st.pending + s)
    decreases |s|
  {
    if s == [] {
      assert st.pending + s == st.pending;
    } else {
      var line := st.pending + [s[0]];
      assert line[|line| - 1] == (st.pending + s)[|st.pending|];
      assert line + s[1..] == st.pending + s;
      ReceiveUnfinished(Receive(st, s[0]), s[1..]);
    }
  }

  lemma ReceiveLine(lines: seq<seq<byte>>, line: seq<byte>)
    requires IsLine(line)
    ensures Run(Receive, Framed(lines, []), line) == Framed(lines + [line], [])
  {
    var body, last := line[..|line| - 1], line[|line| - 1];
    assert line == body + [last];
    assert [] + body == body;
    ReceiveUnfinished(Framed(lines, []), body);
    RunConcat(Receive, Framed(lines, []), body, [last]);
    assert Run(Receive, Framed(lines, body), [last]) == Receive(Framed(lines, body), last);
  }

  lemma {:induction false} ReceiveLines(done: seq<seq<byte>>, lines: seq<seq<byte>>)
    requires forall i :: 0 <= i < |lines| ==> IsLine(lines[i])
    ensures Run(Receive, Framed(done, []), Flatten(lines)) == Framed(done + lines, [])
    decreases |lines|
  {
    if lines == [] {
      assert done + lines == done;
    } else {
      ReceiveLine(done, lines[0]);
      RunConcat(Receive, Framed(done, []), lines[0], Flatten(lines[1..]));
      ReceiveLines(done + [lines[0]], lines[1..]);
      assert done + [lines[0]] + lines[1..] == done + lines;
    }
  }

  lemma SegmentDivides(s: seq<byte>)
    ensures IsSegmentation(s, Segment(s))
  {
    hide Run, Receive, IsLine, Unfinished;
    RunKeepsSegmentation([], EMPTY, s);
    assert [] + s == s;
  }

  lemma NothingInFront<T>(x: seq<T>)
    ensures [] + x == x
  {
  }

  lemma OnlyDivision(s: seq<byte>, f: Framed)
    requires IsSegmentation(s, f)
    ensures Segment(s) == f
  {
    hide Run, Receive, Flatten, IsLine, Unfinished;
    var bytes := Flatten(f.lines);
    RunConcat(Receive, EMPTY, bytes, f.pending);
    ReceiveLines([], f.lines);
    NothingInFront(f.lines);
    NothingInFront(f.pending);
    ReceiveUnfinished(Framed(f.lines, []), f.pending);
  }

  /**
   The segmentation is the only way to cut the stream into lines that end at a
   newline or at 127 bytes, no sooner and no later: nothing is dropped,
   duplicated or cut elsewhere.
   */
  lemma SegmentIff(s: seq<byte>, f: Framed)
    ensures Segment(s) == f <==> IsSegmentation(s, f)
  {
    hide Segment, IsSegmentation;
    SegmentDivides(s);
    if IsSegmentation(s, f) {
      OnlyDivision(s, f);
    }
  }

  // -------------------------------------------------------- resynchronising

  /** Finished lines do not influence what follows. */
  lemma {:induction false} LinesAreHistory(lines: seq<seq<byte>>, pending: seq<byte>, s: seq<byte>)
    ensures var r := Run(Receive, Framed([], pending), s);
            Run(Receive, Framed(lines, pending), s) == Framed(lines + r.lines, r.pending)
    decreases |s|
  {
    if s == [] {
      assert lines + [] == lines;
    } else {
      var line := pending + [s[0]];
      if Complete(line) {
        LinesAreHistory(lines + [line], [], s[1..]);
        LinesAreHistory([line], [], s[1..]);
        var r := Run(Receive, Framed([], []), s[1..]);
        assert [] + [line] == [line];
        assert lines + [line] + r.lines == lines + ([line] + r.lines);
      } else {
        LinesAreHistory(lines, line, s[1..]);
      }
    }
  }

  lemma NewlineFlushes(s: seq<byte>)
    requires s != [] && s[|s| - 1] == NEWLINE
    ensures Segment(s).pending == []
  {
    var body := s[..|s| - 1];
    assert s == body + [NEWLINE];
    RunConcat(Receive, EMPTY, body, [NEWLINE]);
    var st := Segment(body);
    assert Run(Receive, st, [NEWLINE]) == Receive(st, NEWLINE);
  }

  /**
   Segmentation is a homomorphism at newlines: whatever came before a newline -
   overlong garbage included - the bytes after it are read as if first.
   */
  lemma NewlineResynchronises(s: seq<byte>, t: seq<byte>)
    requires s != [] && s[|s| - 1] == NEWLINE
    ensures Segment(s + t).lines == Segment(s).lines + Segment(t).lines
    ensures Segment(s + t).pending == Segment(t).pending
  {
    NewlineFlushes(s);
    RunConcat(Receive, EMPTY, s, t);
    LinesAreHistory(Segment(s).lines, [], t);
  }

  /** Without the newline it is not: 127 garbage bytes are cut off as a line, and what follows is a fresh command. */
  lemma OverlongLineIsCutNotDiscarded(garbage: seq<byte>, t: seq<byte>)
    requires |garbage| == 127 && 10 !in garbage
    ensures Segment(garbage + t).lines == [garbage] + Segment(t).lines
  {
    assert NEWLINE !in garbage[..LINE_LIMIT - 1];
    ReceiveLine([], garbage);
    assert [] + [garbage] == [garbage];
    RunConcat(Receive, EMPTY, garbage, t);
    LinesAreHistory([garbage], [], t);
  }
}
