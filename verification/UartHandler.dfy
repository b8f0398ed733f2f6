/**
 The UART front end (src/uart_handler.rs): command lines and raw bytes taken
 from one receive stream.

 The ring buffer and the executor are an adversary. `stream` holds every byte
 that is or will be received and not yet consumed; `script` decides, poll by
 poll, how much of it `fill_buf` offers, when it fails, and when the awaiting
 future is dropped because a timer won. An exhausted script is a timer that wins.
 */
module UartHandler {
  import opened Nor
  import opened Wrappers
  import opened Register
  import opened LineFraming
  import opened CommandParser

  const RX_LINE_SIZE: nat := 128
  const CHUNK: nat := 64

  datatype Poll = Offer(n: nat) | Fail | Drop

  datatype Fill = Filled(buf: seq<byte>) | Failed | Dropped

  function Min(a: nat, b: nat): nat { if a < b then a else b }

  // ------------------------------------------------------ what polls deliver

  /** How many bytes a reader took, how many polls that used up, and whether it has all it wants. */
  datatype Polls = Polls(taken: nat, used: nat, done: bool)

  function After(taken: nat, used: nat, p: Polls): Polls {
    Polls(taken + p.taken, used + p.used, p.done)
  }

  /**
   A reader that wants `want` bytes, takes at most `most` per poll and never more
   than it wants, on a stream of `have` bytes: it goes on through failures until
   it is done or dropped.
   */
  function Polled(script: seq<Poll>, have: nat, want: nat, most: nat): (p: Polls)
    ensures p.taken <= have && p.taken <= want && p.used <= |script|
    decreases |script|
  {
    if want == 0 then Polls(0, 0, true)
    else if script == [] then Polls(0, 0, false)
    else match script[0]
      case Drop => Polls(0, 1, false)
      case Fail => After(0, 1, Polled(script[1..], have, want, most))
      case Offer(n) =>
        var t := Min(Min(n, have), Min(want, most));
        After(t, 1, Polled(script[1..], have - t, want - t, most))
  }

  /** What one poll makes a reader take. */
  function Taken(poll: Poll, have: nat, want: nat, most: nat): (t: nat)
    ensures t <= have && t <= want
  {
    match poll
    case Offer(n) => Min(Min(n, have), Min(want, most))
    case _ => 0
  }

  /** A reader that started with `script`, `have` and `want` has come as far as `script1`, `have1` and `want1`. */
  ghost predicate Underway(script: seq<Poll>, have: nat, want: nat, most: nat,
                           script1: seq<Poll>, have1: nat, want1: nat) {
    && |script1| <= |script| && have1 <= have
    && script1 == script[|script| - |script1|..]
    && Polled(script, have, want, most)
       == After(have - have1, |script| - |script1|, Polled(script1, have1, want1, most))
  }

  lemma UnderwayStart(script: seq<Poll>, have: nat, want: nat, most: nat)
    ensures Underway(script, have, want, most, script, have, want)
  {
    hide Polled;
    assert script[0..] == script;
  }

  lemma UnderwayStep(script: seq<Poll>, have: nat, want: nat, most: nat, script1: seq<Poll>, have1: nat, want1: nat)
    requires Underway(script, have, want, most, script1, have1, want1)
    requires want1 > 0 && script1 != [] && !script1[0].Drop?
    ensures var t := Taken(script1[0], have1, want1, most);
            Underway(script, have, want, most, script1[1..], have1 - t, want1 - t)
  {
    assert script1[1..] == script[|script| - |script1| + 1..];
  }

  lemma UnderwayMeans(script: seq<Poll>, have: nat, want: nat, most: nat, script1: seq<Poll>, have1: nat, want1: nat)
    requires Underway(script, have, want, most, script1, have1, want1)
    ensures |script1| <= |script| && have1 <= have && script1 == script[|script| - |script1|..]
    ensures script1 != [] ==> script1[1..] == script[|script| - |script1| + 1..]
  {
    hide Polled;
  }

  /** How it ends: with all it wants, or dropped by a poll or for lack of polls. */
  lemma UnderwayEnds(script: seq<Poll>, have: nat, want: nat, most: nat, script1: seq<Poll>, have1: nat, want1: nat)
    requires Underway(script, have, want, most, script1, have1, want1)
    ensures var p := Polled(script, have, want, most);
            && (want1 == 0 ==> p == Polls(have - have1, |script| - |script1|, true))
            && (want1 > 0 && script1 == [] ==> p == Polls(have - have1, |script|, false))
            && (want1 > 0 && script1 != [] && script1[0].Drop? ==>
                  p == Polls(have - have1, |script| - |script1| + 1, false))
  {
  }

  /** How many polls offer at least one byte before the reader is dropped. */
  function Eager(script: seq<Poll>): nat {
    if script == [] || script[0].Drop? then 0
    else (if script[0] == Fail || script[0] == Offer(0) then 0 else 1) + Eager(script[1..])
  }

  /** `n` bytes are there, and at least as many polls offer some before a drop. */
  predicate Enough(script: seq<Poll>, stream: seq<byte>, n: nat) {
    n <= |stream| && n <= Eager(script)
  }

  /** No more than `n` of the offers are used up. */
  predicate Spent(script: seq<Poll>, script': seq<Poll>, n: nat) {
    Eager(script') + n >= Eager(script)
  }

  /** What is enough for `a + b` bytes is enough for the first `a`, and then for the other `b`. */
  lemma EnoughForParts(script: seq<Poll>, s: seq<byte>, a: nat, b: nat, script': seq<Poll>)
    requires Enough(script, s, a + b)
    ensures Enough(script, s, a)
    ensures Spent(script, script', a) ==> Enough(script', s[a..], b)
  {
    hide Eager;
  }

  /** How many polls offer at least one byte, drops or no drops. */
  function Offers(script: seq<Poll>): nat {
    if script == [] then 0
    else (if script[0].Offer? && script[0].n > 0 then 1 else 0) + Offers(script[1..])
  }

  /** A reader is done exactly when it took what it wants. */
  lemma {:induction false} DoneMeans(script: seq<Poll>, have: nat, want: nat, most: nat)
    ensures var p := Polled(script, have, want, most); p.done <==> p.taken == want
    decreases |script|
  {
    hide Polled;
    PollsEnd(script, have, want, most);
    if want > 0 && script != [] {
      PolledStep(script, have, want, most);
      if !script[0].Drop? {
        var t := Taken(script[0], have, want, most);
        DoneMeans(script[1..], have - t, want - t, most);
      }
    }
  }

  lemma PolledStep(script: seq<Poll>, have: nat, want: nat, most: nat)
    requires want > 0 && script != []
    ensures Polled(script, have, want, most)
         == if script[0].Drop? then Polls(0, 1, false)
            else var t := Taken(script[0], have, want, most);
                 After(t, 1, Polled(script[1..], have - t, want - t, most))
  {
  }

  lemma PollsEnd(script: seq<Poll>, have: nat, want: nat, most: nat)
    ensures want == 0 ==> Polled(script, have, want, most) == Polls(0, 0, true)
    ensures want > 0 && script == [] ==> Polled(script, have, want, most) == Polls(0, 0, false)
    ensures script[0..] == script
  {
  }

  lemma Rest(script: seq<Poll>, n: nat)
    requires n < |script|
    ensures script[1..][n..] == script[n + 1..]
  {
  }

  /**
   If the bytes are there and enough polls offer any before a drop, the reader is
   done, however little each offers and however many fail; and it has used up no
   more such polls than it wanted bytes.
   */
  lemma {:induction false} PromptlyServed(script: seq<Poll>, have: nat, want: nat, most: nat)
    requires want <= have && want <= Eager(script) && most > 0
    ensures var p := Polled(script, have, want, most);
            p.done && p.taken == want && Eager(script[p.used..]) + want >= Eager(script)
    decreases |script|
  {
    hide Polled;
    PollsEnd(script, have, want, most);
    if want > 0 {
      PolledStep(script, have, want, most);
      var t := Taken(script[0], have, want, most);
      PromptlyServed(script[1..], have - t, want - t, most);
      Rest(script, Polled(script[1..], have - t, want - t, most).used);
    }
  }

  /** Every poll that offers anything moves the reader on, until the stream is empty or it is done. */
  lemma {:induction false} OffersAreTaken(script: seq<Poll>, have: nat, want: nat, most: nat)
    requires most > 0
    ensures var p := Polled(script, have, want, most);
            p.taken == have || p.taken + Offers(script[p.used..]) >= Offers(script)
    decreases |script|
  {
    hide Polled;
    PollsEnd(script, have, want, most);
    if want > 0 && script != [] {
      PolledStep(script, have, want, most);
      if !script[0].Drop? {
        var t := Taken(script[0], have, want, most);
        OffersAreTaken(script[1..], have - t, want - t, most);
        Rest(script, Polled(script[1..], have - t, want - t, most).used);
      }
    }
  }

  /** How many bytes of `s` complete the line begun with `pending`; one more than there are, if none do. */
  function LineEnd(pending: seq<byte>, s: seq<byte>): (w: nat)
    ensures 1 <= w <= |s| + 1
    decreases |s|
  {
    if s == [] || Complete(pending + [s[0]]) then 1 else 1 + LineEnd(pending + [s[0]], s[1..])
  }

  /** It is the least number that completes it. */
  lemma {:induction false} LineEndIsFirst(pending: seq<byte>, s: seq<byte>)
    ensures var w := LineEnd(pending, s);
            && (w <= |s| ==> Complete(pending + s[..w]))
            && forall k :: 0 < k < w ==> !Complete(pending + s[..k])
    decreases |s|
  {
    if s != [] {
      var p := pending + [s[0]];
      assert pending + s[..1] == p;
      if !Complete(p) {
        LineEndIsFirst(p, s[1..]);
        assert forall k :: 0 < k <= |s| ==> pending + s[..k] == p + s[1..][..k - 1];
      }
    }
  }

  /** The first `n` bytes decide whether the line ends among them. */
  lemma {:induction false} LineEndOfPrefix(pending: seq<byte>, s: seq<byte>, n: nat)
    requires n <= |s|
    ensures LineEnd(pending, s[..n]) == Min(LineEnd(pending, s), n + 1)
    decreases n
  {
    if n > 0 {
      assert s[..n][0] == s[0] && s[..n][1..] == s[1..][..n - 1];
      LineEndOfPrefix(pending + [s[0]], s[1..], n - 1);
    }
  }

  /** Bytes that do not complete the line bring its end nearer. */
  lemma {:induction false} LineEndNearer(pending: seq<byte>, s: seq<byte>, n: nat)
    requires n <= |s| && n < LineEnd(pending, s)
    ensures LineEnd(pending + s[..n], s[n..]) == LineEnd(pending, s) - n
    decreases n
  {
    if n == 0 {
      assert pending + s[..0] == pending && s[0..] == s;
    } else {
      var p := pending + [s[0]];
      LineEndNearer(p, s[1..], n - 1);
      assert pending + s[..n] == p + s[1..][..n - 1] && s[n..] == s[1..][n - 1..];
    }
  }

  /** What `read_command` gets of the next line. */
  function Awaited(pending: seq<byte>, s: seq<byte>, script: seq<Poll>): Polls {
    Polled(script, |s|, LineEnd(pending, s), CHUNK)
  }

  /** The bytes up to the end of the line make one line of the segmentation. */
  lemma {:induction false} LineRuns(pending: seq<byte>, s: seq<byte>)
    requires LineEnd(pending, s) <= |s|
    ensures var w := LineEnd(pending, s);
            Run(Receive, Framed([], pending), s[..w]) == Framed([pending + s[..w]], [])
    decreases |s|
  {
    hide Complete;
    var w, p := LineEnd(pending, s), pending + [s[0]];
    assert s[..w][0] == s[0] && s[..w][1..] == s[1..][..w - 1];
    if Complete(p) {
      assert s[..1] == [s[0]] && s[..1][1..] == [];
    } else {
      LineRuns(p, s[1..]);
      assert p + s[1..][..w - 1] == pending + s[..w];
    }
  }

  class BufferedRx {
    var stream: seq<byte>
    var script: seq<Poll>
    /** How often a future was dropped while waiting. */
    var drops: nat

    constructor (stream: seq<byte>, script: seq<Poll>)
      ensures this.stream == stream && this.script == script && drops == 0
    {
      this.stream, this.script, drops := stream, script, 0;
    }

    /** `fill_buf().await`: some prefix of the stream, an error, or never. */
    method FillBuf() returns (r: Fill)
      modifies `script, `drops
      ensures r == if old(script) == [] then Dropped
                   else match old(script)[0]
                     case Offer(n) => Filled(stream[..Min(n, |stream|)])
                     case Fail => Failed
                     case Drop => Dropped
      ensures !r.Dropped? ==> |script| < |old(script)| && drops == old(drops)
      ensures r.Dropped? ==> drops == old(drops) + 1
      ensures old(script) == [] ==> r.Dropped? && script == []
      ensures old(script) != [] ==> script == old(script)[1..]
    {
      if script == [] {
        drops := drops + 1;
        return Dropped;
      }
      var poll := script[0];
      script := script[1..];
      match poll
      case Offer(n) => return Filled(if n < |stream| then stream[..n] else stream);
      case Fail => return Failed;
      case Drop =>
        drops := drops + 1;
        return Dropped;
    }

    method Consume(n: nat)
      requires n <= |stream|
      modifies `stream
      ensures stream == old(stream)[n..]
    {
      stream := stream[n..];
    }
  }


  class UartHandler {
    const rx: BufferedRx
    const line: array<byte>
    var linePos: nat
    /** Everything written so far. */
    var tx: seq<byte>

    ghost predicate Valid()
      reads this
    {
      line.Length == RX_LINE_SIZE && linePos < RX_LINE_SIZE - 1
    }

    ghost function Pending(): seq<byte>
      requires Valid()
      reads this, line
    {
      line[..linePos]
    }

    constructor (rx: BufferedRx)
      ensures Valid() && this.rx == rx && fresh(line) && Pending() == [] && tx == []
    {
      this.rx := rx;
      line := new byte[RX_LINE_SIZE](_ => 0);
      linePos := 0;
      tx := [];
    }

    method WriteBytes(bytes: seq<byte>)
      modifies `tx
      ensures tx == old(tx) + bytes
    {
      tx := tx + bytes;
    }

    /** The inner loop of `read_command`: bytes of one chunk, up to the end of a line. */
    method ScanChunk(chunk: seq<byte>) returns (used: nat, cmd: seq<Command>)
      requires Valid()
      modifies `linePos, line
      ensures Valid() && used <= |chunk|
      ensures Progress(old(Pending()), chunk[..used], cmd, Pending())
      ensures used == Min(|chunk|, LineEnd(old(Pending()), chunk))
      ensures cmd != [] <==> LineEnd(old(Pending()), chunk) <= |chunk|
      ensures cmd == [] ==> Pending() == old(Pending()) + chunk
    {
      hide Run, Receive, Commands, Progress, Complete;
      used, cmd := 0, [];
      ghost var pending := Pending();
      NoProgress(pending);
      assert chunk[0..] == chunk && pending + chunk[..0] == pending;
      while used < |chunk|
        invariant Valid() && used <= |chunk| && cmd == []
        invariant Progress(pending, chunk[..used], [], Pending())
        invariant Pending() == pending + chunk[..used]
        invariant LineEnd(pending, chunk) == used + LineEnd(Pending(), chunk[used..])
      {
        ghost var before := Pending();
        assert chunk[used..][0] == chunk[used] && chunk[used..][1..] == chunk[used + 1..];
        cmd := AcceptByte(chunk[used]);
        ProgressComposes(pending, chunk[..used], before, [chunk[used]], cmd, Pending());
        assert chunk[..used + 1] == chunk[..used] + [chunk[used]];
        used := used + 1;
        if cmd != [] {
          return;
        }
      }
      assert chunk[..|chunk|] == chunk;
    }

    /** The body of the inner loop: store one byte, and parse the line if it is complete. */
    method AcceptByte(ch: byte) returns (cmd: seq<Command>)
      requires Valid()
      modifies `linePos, line
      ensures Valid()
      ensures Progress(old(Pending()), [ch], cmd, Pending())
      ensures cmd != [] <==> Complete(old(Pending()) + [ch])
      ensures cmd == [] ==> Pending() == old(Pending()) + [ch]
    {
      ghost var before := Pending();
      assert Run(Receive, Framed([], before), [ch]) == Receive(Framed([], before), ch);
      cmd := [];
      if linePos < RX_LINE_SIZE - 1 {
        line[linePos] := ch;
        linePos := linePos + 1;
      }
      assert line[..linePos] == before + [ch];
      if ch == NEWLINE || linePos >= RX_LINE_SIZE - 1 {
        cmd := [ParseCommand(line[..linePos])];
        OneCommand(line[..linePos]);
        linePos := 0;
      }
    }

    /** The body of `read_command`: scan at most a chunk of what was offered, and consume what was scanned. */
    method ScanOffer(offered: seq<byte>) returns (used: nat, cmd: seq<Command>)
      requires Valid() && offered <= rx.stream
      modifies `linePos, line, rx`stream
      ensures Valid()
      ensures var w := LineEnd(old(Pending()), old(rx.stream));
              && used == Min(|offered|, Min(w, CHUNK))
              && (cmd != [] <==> used == w)
              && (cmd == [] ==> LineEnd(Pending(), rx.stream) == w - used)
      ensures used <= |old(rx.stream)| && rx.stream == old(rx.stream)[used..]
      ensures Progress(old(Pending()), old(rx.stream)[..used], cmd, Pending())
    {
      hide Progress, LineEnd;
      ghost var pending, s := Pending(), rx.stream;
      var n := if |offered| < CHUNK then |offered| else CHUNK;
      var chunk := offered[..n];
      assert chunk == s[..n];
      LineEndOfPrefix(pending, s, n);
      used, cmd := ScanChunk(chunk);
      assert chunk[..used] == s[..used];
      if cmd == [] {
        LineEndNearer(pending, s, used);
      }
      rx.Consume(used);
    }

    /**
     The next command, or none if the future was dropped. It takes from the
     stream, poll by poll, what is offered up to the end of the line, and the
     bytes taken go, in order and without loss, into the lines that the pure
     segmentation finds. `PromptlyServed` says when that is enough.
     */
    method ReadCommand() returns (cmd: seq<Command>)
      requires Valid()
      modifies `linePos, line, rx
      ensures Valid()
      ensures Consumed(old(rx.stream), rx.stream)
      ensures Progress(old(Pending()), old(rx.stream)[..|old(rx.stream)| - |rx.stream|], cmd, Pending())
      ensures Raced(old(Pending()), old(rx.stream), old(rx.script), cmd)
      ensures Reached(old(Pending()), old(rx.stream), old(rx.script), cmd, Pending(), rx.stream, rx.script)
      ensures |rx.script| <= |old(rx.script)| && (old(rx.script) != [] ==> |rx.script| < |old(rx.script)|)
      ensures cmd == [] <==> rx.drops > old(rx.drops)
    {
      hide Run, Receive, Commands, Progress, Consumed, Polled, Underway, LineEnd, Complete, Raced, Reached;
      cmd := [];
      ghost var taken: seq<byte> := [];
      ghost var pending, s, script := Pending(), rx.stream, rx.script;
      ghost var want := LineEnd(pending, s);
      NoProgress(pending);
      UnderwayStart(script, |s|, want, CHUNK);
      while true
        invariant Valid() && cmd == []
        invariant taken + rx.stream == s
        invariant Progress(pending, taken, [], Pending())
        invariant |rx.script| <= |script| && rx.drops == old(rx.drops)
        invariant Underway(script, |s|, want, CHUNK, rx.script, |rx.stream|, LineEnd(Pending(), rx.stream))
        decreases |rx.script|
      {
        ghost var before, offered, polls := Pending(), rx.stream, rx.script;
        UnderwayMeans(script, |s|, want, CHUNK, polls, |offered|, LineEnd(before, offered));
        var buf := rx.FillBuf();
        if buf.Dropped? {
          UnderwayEnds(script, |s|, want, CHUNK, polls, |offered|, LineEnd(before, offered));
          ReachedBy(pending, s, script, taken, cmd, Pending(), rx.stream, rx.script);
          return [];
        }
        UnderwayStep(script, |s|, want, CHUNK, polls, |offered|, LineEnd(before, offered));
        if buf.Filled? {
          var used;
          used, cmd := ScanOffer(buf.buf);
          ProgressComposes(pending, taken, before, offered[..used], cmd, Pending());
          ShiftOver(s, taken, offered, used);
          taken := taken + offered[..used];
          if cmd != [] {
            UnderwayMeans(script, |s|, want, CHUNK, rx.script, |rx.stream|, 0);
            UnderwayEnds(script, |s|, want, CHUNK, rx.script, |rx.stream|, 0);
            ReachedBy(pending, s, script, taken, cmd, Pending(), rx.stream, rx.script);
            return cmd;
          }
        }
      }
    }

    /**
     Fill `buf[..n]` with the next raw bytes; false if the future was dropped
     first, in which case the bytes taken so far are gone. What is offered is
     taken, poll by poll, as far as it is wanted.
     */
    method ReadExact(buf: array<byte>, n: nat) returns (done: bool)
      requires Valid() && n <= buf.Length && buf != line
      modifies `linePos, rx, buf
      ensures Valid() && Pending() == []
      ensures buf[n..] == old(buf[n..])
      ensures var p := Polled(old(rx.script), |old(rx.stream)|, n, n);
              && rx.stream == old(rx.stream)[p.taken..] && rx.script == old(rx.script)[p.used..] && (done <==> p.done)
      ensures done ==> |old(rx.stream)| >= n && buf[..n] == old(rx.stream)[..n] && rx.stream == old(rx.stream)[n..]
      ensures Enough(old(rx.script), old(rx.stream), n) ==> done && Spent(old(rx.script), rx.script, n)
      ensures Consumed(old(rx.stream), rx.stream) && |old(rx.stream)| - |rx.stream| <= n
      ensures old(rx.drops) <= rx.drops && (done <==> rx.drops == old(rx.drops))
      ensures !done ==> n > 0
    {
      hide Consumed, ReadSoFar, Polled, Enough, Spent;
      linePos := 0;
      ghost var s, script, contents := rx.stream, rx.script, buf[..];
      NothingRead(s, n, contents);
      PromptRead(script, s, n);
      var filled;
      filled := FillLoop(buf, n, s, contents);
      Remainder(s, filled);
      ReadMeans(buf[..], s, filled, n, contents);
      assert buf[..n] == buf[..][..n] && buf[n..] == buf[..][n..];
      return filled == n;
    }

    /** The loop of `read_exact`; it ends with all that is wanted, or dropped. */
    method FillLoop(buf: array<byte>, n: nat, ghost s: seq<byte>, ghost contents: seq<byte>) returns (filled: nat)
      requires n <= buf.Length && rx.stream == s && ReadSoFar(buf[..], s, 0, n, contents)
      modifies rx, buf
      ensures filled <= n && filled <= |s| && rx.stream == s[filled..]
      ensures ReadSoFar(buf[..], s, filled, n, contents)
      ensures |rx.script| <= |old(rx.script)| && rx.script == old(rx.script)[|old(rx.script)| - |rx.script|..]
      ensures Polled(old(rx.script), |s|, n, n) == Polls(filled, |old(rx.script)| - |rx.script|, filled == n)
      ensures old(rx.drops) <= rx.drops && (filled == n <==> rx.drops == old(rx.drops))
    {
      hide ReadSoFar, Polled, Underway;
      ghost var script := rx.script;
      UnderwayStart(script, |s|, n, n);
      filled := 0;
      while filled < n
        invariant filled <= n && filled <= |s| && rx.stream == s[filled..]
        invariant ReadSoFar(buf[..], s, filled, n, contents)
        invariant Underway(script, |s|, n, n, rx.script, |s| - filled, n - filled)
        invariant rx.drops == old(rx.drops)
        decreases |rx.script|
      {
        ghost var polls := rx.script;
        UnderwayMeans(script, |s|, n, n, polls, |s| - filled, n - filled);
        var chunk := rx.FillBuf();
        if chunk.Dropped? {
          UnderwayEnds(script, |s|, n, n, polls, |s| - filled, n - filled);
          return;
        }
        UnderwayStep(script, |s|, n, n, polls, |s| - filled, n - filled);
        if chunk.Filled? && chunk.buf != [] {
          filled := TakeOffered(buf, filled, n, chunk.buf, s, contents);
        }
      }
      UnderwayMeans(script, |s|, n, n, rx.script, |s| - n, 0);
      UnderwayEnds(script, |s|, n, n, rx.script, |s| - n, 0);
    }

    /** Copy what was offered, as far as it is wanted, and consume it. */
    method TakeOffered(buf: array<byte>, filled0: nat, n: nat, offered: seq<byte>, ghost s: seq<byte>,
                       ghost contents: seq<byte>) returns (filled: nat)
      requires filled0 < n <= buf.Length && filled0 <= |s| && offered <= rx.stream == s[filled0..]
      requires ReadSoFar(buf[..], s, filled0, n, contents)
      modifies rx`stream, buf
      ensures filled == filled0 + Min(|offered|, n - filled0)
      ensures filled <= n && filled <= |s| && rx.stream == s[filled..]
      ensures ReadSoFar(buf[..], s, filled, n, contents)
    {
      var k := if |offered| < n - filled0 then |offered| else n - filled0;
      NextBytes(s, filled0, offered, k);
      ghost var before := buf[..];
      CopyInto(buf, filled0, offered[..k]);
      CopiedParts(before, filled0, offered[..k], buf[..], n);
      rx.Consume(k);
      filled := filled0 + k;
    }

    /**
     The command side of the main loop, run until the script is exhausted: the
     commands are those of the pure segmentation of the bytes consumed, however
     the stream was fragmented and however often the reader was cancelled. Every
     poll that offers anything gets at least one byte further, so the commands of
     all lines within reach of the offers are among them.
     */
    method ReadAll() returns (cmds: seq<Command>)
      requires Valid() && Pending() == []
      modifies `linePos, line, rx
      ensures Valid() && rx.script == []
      ensures Consumed(old(rx.stream), rx.stream)
      ensures Delivered(old(rx.stream)[..|old(rx.stream)| - |rx.stream|], cmds, Pending())
      ensures |old(rx.stream)| - |rx.stream| >= Min(|old(rx.stream)|, Offers(old(rx.script)))
      ensures Commands(Segment(old(rx.stream)[..Min(|old(rx.stream)|, Offers(old(rx.script)))]).lines) <= cmds
    {
      hide Run, Receive, Commands, Progress, Delivered, Consumed, Offers, Segment, Raced, Reached;
      cmds := [];
      ghost var taken: seq<byte> := [];
      ghost var s, script := rx.stream, rx.script;
      NothingDelivered();
      while rx.script != []
        invariant Valid()
        invariant taken + rx.stream == s
        invariant Delivered(taken, cmds, Pending())
        invariant rx.stream == [] || |taken| + Offers(rx.script) >= Offers(script)
        decreases |rx.script|
      {
        ghost var pending, before, polls := Pending(), rx.stream, rx.script;
        var cmd := ReadCommand();
        ReachedMeans(pending, before, polls, cmd, Pending(), rx.stream, rx.script);
        ghost var step := before[..|before| - |rx.stream|];
        DeliveredGrows(taken, cmds, pending, step, cmd, Pending());
        TakenOff(before, rx.stream);
        ShiftOver(s, taken, before, |step|);
        taken := taken + step;
        cmds := cmds + cmd;
      }
      AllDelivered(s, taken, rx.stream, cmds, Pending(), Offers(script));
    }
  }

  /** What `ReadAll` returns, once the script is exhausted. */
  lemma AllDelivered(s: seq<byte>, taken: seq<byte>, rest: seq<byte>, cmds: seq<Command>, pending: seq<byte>,
                     offers: nat)
    requires taken + rest == s && Delivered(taken, cmds, pending)
    requires rest == [] || |taken| + Offers([]) >= offers
    ensures Consumed(s, rest) && s[..|s| - |rest|] == taken
    ensures |s| - |rest| >= Min(|s|, offers)
    ensures Commands(Segment(s[..Min(|s|, offers)]).lines) <= cmds
  {
    hide Delivered, Commands, Segment;
    Suffix(taken, rest);
    var n := Min(|s|, offers);
    DeliveredPrefix(taken, cmds, pending, n);
    assert taken[..n] == s[..n];
  }

  lemma TakenOff(before: seq<byte>, after: seq<byte>)
    requires Consumed(before, after)
    ensures |after| <= |before| && after == before[|before| - |after|..]
  {
  }

  /** What a part of the bytes makes complete stays. */
  lemma DeliveredPrefix(bytes: seq<byte>, cmds: seq<Command>, pending: seq<byte>, n: nat)
    requires Delivered(bytes, cmds, pending) && n <= |bytes|
    ensures Commands(Segment(bytes[..n]).lines) <= cmds
  {
    hide Run, Receive;
    var front := Segment(bytes[..n]);
    assert bytes == bytes[..n] + bytes[n..];
    RunConcat(Receive, EMPTY, bytes[..n], bytes[n..]);
    LinesAreHistory(front.lines, front.pending, bytes[n..]);
    CommandsConcat(front.lines, Run(Receive, Framed([], front.pending), bytes[n..]).lines);
  }

  /** `cmds` are the commands of the pure segmentation of `bytes`, and `pending` its unfinished line. */
  ghost predicate Delivered(bytes: seq<byte>, cmds: seq<Command>, pending: seq<byte>) {
    cmds == Commands(Segment(bytes).lines) && pending == Segment(bytes).pending
  }

  lemma NothingDelivered()
    ensures Delivered([], [], [])
  {
  }

  lemma DeliveredGrows(bytes: seq<byte>, cmds: seq<Command>, pending: seq<byte>,
                       step: seq<byte>, cmd: seq<Command>, pending': seq<byte>)
    requires Delivered(bytes, cmds, pending) && Progress(pending, step, cmd, pending')
    ensures Delivered(bytes + step, cmds + cmd, pending')
  {
    var lines := Segment(bytes).lines;
    RunConcat(Receive, EMPTY, bytes, step);
    LinesAreHistory(lines, pending, step);
    CommandsConcat(lines, Run(Receive, Framed([], pending), step).lines);
  }

  /** `after` is what is left of `before` once some bytes were taken from its front. */
  ghost predicate Consumed(before: seq<byte>, after: seq<byte>) {
    |after| <= |before| && after == before[|before| - |after|..]
  }

  /** The next `filled` bytes of `s` are in the buffer, whose contents from `n` on are the old ones. */
  ghost predicate ReadSoFar(b: seq<byte>, s: seq<byte>, filled: nat, n: nat, contents: seq<byte>) {
    && filled <= n <= |b| == |contents| && filled <= |s|
    && b[..filled] == s[..filled] && b[n..] == contents[n..]
  }

  lemma PromptRead(script: seq<Poll>, s: seq<byte>, n: nat)
    ensures Enough(script, s, n) ==>
              var p := Polled(script, |s|, n, n); p.done && Spent(script, script[p.used..], n)
  {
    hide Polled;
    PollsEnd(script, |s|, n, n);
    if 0 < n && Enough(script, s, n) {
      PromptlyServed(script, |s|, n, n);
    }
  }

  lemma NothingRead(s: seq<byte>, n: nat, contents: seq<byte>)
    requires n <= |contents|
    ensures ReadSoFar(contents, s, 0, n, contents)
  {
  }

  lemma ReadMeans(b: seq<byte>, s: seq<byte>, filled: nat, n: nat, contents: seq<byte>)
    requires ReadSoFar(b, s, filled, n, contents)
    ensures filled <= n <= |b| == |contents| && filled <= |s|
    ensures b[..filled] == s[..filled] && b[n..] == contents[n..]
  {
  }

  lemma Remainder(s: seq<byte>, n: nat)
    requires n <= |s|
    ensures Consumed(s, s[n..])
  {
  }

  lemma ShiftOver(all: seq<byte>, taken: seq<byte>, rest: seq<byte>, n: nat)
    requires all == taken + rest && n <= |rest|
    ensures (taken + rest[..n]) + rest[n..] == all
  {
  }

  /** The front of what is offered from the rest of `s` continues `s` where the rest begins. */
  lemma NextBytes(s: seq<byte>, at: nat, offered: seq<byte>, k: nat)
    requires at <= |s| && offered <= s[at..] && k <= |offered|
    ensures at + k <= |s| && s[..at + k] == s[..at] + offered[..k]
    ensures s[at..][k..] == s[at + k..]
  {
    assert offered == s[at..][..|offered|];
    assert offered[..k] == s[at..][..k] == s[at..at + k];
  }

  lemma ConsumedComposes(a: seq<byte>, b: seq<byte>, c: seq<byte>)
    requires Consumed(a, b) && Consumed(b, c)
    ensures Consumed(a, c)
  {
  }

  lemma Suffix(taken: seq<byte>, rest: seq<byte>)
    ensures Consumed(taken + rest, rest)
    ensures (taken + rest)[..|taken + rest| - |rest|] == taken
  {
  }

  /**
   With `pending` bytes of a line at hand, consuming `bytes` yielded the command
   of the one line the segmentation completes there, or none, and left `pending'`.
   */
  ghost predicate Progress(pending: seq<byte>, bytes: seq<byte>, cmd: seq<Command>, pending': seq<byte>) {
    var f := Run(Receive, Framed([], pending), bytes);
    cmd == Commands(f.lines) && pending' == f.pending && |f.lines| <= 1 && (f.lines != [] ==> f.pending == [])
  }

  /**
   Who wins the race against the ticker, by how the line is polled: `read_command`
   exactly if it gets the whole line, and then with that line's command; in
   particular if the line is all there and offered before a drop.
   */
  ghost predicate Raced(pending: seq<byte>, s: seq<byte>, script: seq<Poll>, cmd: seq<Command>) {
    var w := LineEnd(pending, s);
    && |cmd| <= 1
    && (cmd != [] <==> Awaited(pending, s, script).done)
    && (Enough(script, s, w) ==> cmd == [ParseCommand(pending + s[..w])])
  }

  /** How far `read_command` got in the stream and in the polls, with `cmd` or without. */
  ghost predicate Reached(pending: seq<byte>, s: seq<byte>, script: seq<Poll>, cmd: seq<Command>,
                          pending': seq<byte>, s': seq<byte>, script': seq<Poll>) {
    var p := Awaited(pending, s, script);
    && s' == s[p.taken..] && script' == script[p.used..]
    && Progress(pending, s[..p.taken], cmd, pending')
  }

  lemma ReachedBy(pending: seq<byte>, s: seq<byte>, script: seq<Poll>, taken: seq<byte>, cmd: seq<Command>,
                  pending': seq<byte>, s': seq<byte>, script': seq<Poll>)
    requires taken + s' == s && Progress(pending, taken, cmd, pending')
    requires |script'| <= |script| && script' == script[|script| - |script'|..]
    requires Awaited(pending, s, script) == Polls(|taken|, |script| - |script'|, cmd != [])
    ensures Raced(pending, s, script, cmd)
    ensures Reached(pending, s, script, cmd, pending', s', script')
    ensures Consumed(s, s') && Progress(pending, s[..|s| - |s'|], cmd, pending')
  {
    hide Polled, LineEnd, ParseCommand, Eager, Run, Receive, Commands;
    assert taken == s[..|taken|] && s' == s[|taken|..];
    AtMostOneCommand(pending, taken, cmd, pending');
    var w := LineEnd(pending, s);
    if Enough(script, s, w) {
      PromptlyServed(script, |s|, w, CHUNK);
      LineRuns(pending, s);
      OneCommand(pending + s[..w]);
    }
  }

  lemma AtMostOneCommand(pending: seq<byte>, bytes: seq<byte>, cmd: seq<Command>, pending': seq<byte>)
    requires Progress(pending, bytes, cmd, pending')
    ensures |cmd| <= 1
  {
    if cmd != [] {
      CommandLeavesNothingPending(pending, bytes, cmd, pending');
    }
  }

  /** In numbers: how much of the stream is left, and that every offer was used. */
  lemma ReachedMeans(pending: seq<byte>, s: seq<byte>, script: seq<Poll>, cmd: seq<Command>,
                     pending': seq<byte>, s': seq<byte>, script': seq<Poll>)
    requires Reached(pending, s, script, cmd, pending', s', script')
    ensures |s'| <= |s| && (s' == [] || |s| - |s'| + Offers(script') >= Offers(script))
  {
    hide Polled, LineEnd, Offers, Progress;
    OffersAreTaken(script, |s|, LineEnd(pending, s), CHUNK);
  }

  /** A completed line leaves no partial line behind. */
  lemma CommandLeavesNothingPending(pending: seq<byte>, bytes: seq<byte>, cmd: seq<Command>, pending': seq<byte>)
    requires Progress(pending, bytes, cmd, pending') && cmd != []
    ensures pending' == [] && |cmd| == 1
  {
    var lines := Run(Receive, Framed([], pending), bytes).lines;
    assert lines == [lines[0]];
    OneCommand(lines[0]);
  }

  lemma OneCommand(line: seq<byte>)
    ensures Commands([line]) == [ParseCommand(line)]
  {
    assert [line][1..] == [];
  }

  lemma NoProgress(pending: seq<byte>)
    ensures Progress(pending, [], [], pending)
  {
  }

  lemma ProgressComposes(p: seq<byte>, x: seq<byte>, q: seq<byte>, y: seq<byte>, cmd: seq<Command>, r: seq<byte>)
    requires Progress(p, x, [], q) && Progress(q, y, cmd, r)
    ensures Progress(p, x + y, cmd, r)
  {
    RunConcat(Receive, Framed([], p), x, y);
  }

  /** The commands a sequence of lines stands for. */
  function Commands(lines: seq<seq<byte>>): seq<Command> {
    if lines == [] then [] else [ParseCommand(lines[0])] + Commands(lines[1..])
  }

  lemma {:induction false} CommandsConcat(x: seq<seq<byte>>, y: seq<seq<byte>>)
    ensures Commands(x + y) == Commands(x) + Commands(y)
  {
    if x == [] {
      assert x + y == y;
    } else {
      assert (x + y)[1..] == x[1..] + y;
      CommandsConcat(x[1..], y);
    }
  }

  /** The commands of a stream split after a newline are the commands of its parts. */
  lemma CommandsSplitAtNewline(s: seq<byte>, t: seq<byte>)
    requires s != [] && s[|s| - 1] == NEWLINE
    ensures Commands(Segment(s + t).lines) == Commands(Segment(s).lines) + Commands(Segment(t).lines)
  {
    NewlineResynchronises(s, t);
    CommandsConcat(Segment(s).lines, Segment(t).lines);
  }
}
