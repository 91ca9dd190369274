/** The attached-console stream: 8-byte-header frames, reassembled from reads
cut anywhere, demultiplexed into one line splitter. */
module ConsolePump {
  import opened Basics
  import opened Lines

  const STREAM_STDOUT: byte := 1
  const STREAM_STDERR: byte := 2

  /** One frame. The decoder ignores the three bytes after the stream type, so
      they are kept as they came. */
  datatype Frame = Frame(streamType: byte, pad: Bytes, payload: Bytes) {
    ghost predicate Valid() {
      |pad| == 3 && |payload| < 0x1_0000_0000
    }
  }

  datatype FrameHeader = FrameHeader(streamType: byte, size: int)

  function ParseFrameHeader(buf: Bytes): Option<FrameHeader> {
    if |buf| < 8 then None else Some(FrameHeader(buf[0], BigEndian(buf[4], buf[5], buf[6], buf[7])))
  }

  function BigEndian(a: int, b: int, c: int, d: int): int {
    ((a * 0x100 + b) * 0x100 + c) * 0x100 + d
  }

  /** A complete frame is at the front of `buf`. */
  predicate HasFrame(buf: Bytes) {
    var h := ParseFrameHeader(buf);
    h.Some? && |buf| >= 8 + h.value.size
  }

  function FrameLength(buf: Bytes): nat
    requires HasFrame(buf)
  {
    8 + ParseFrameHeader(buf).value.size
  }

  function FirstFrame(buf: Bytes): Frame
    requires HasFrame(buf)
  {
    Frame(buf[0], buf[1..4], buf[8..FrameLength(buf)])
  }

  /** The complete frames of a stream, and the incomplete one behind them. */
  function Frames(s: Bytes): seq<Frame>
    decreases |s|
  {
    if HasFrame(s) then [FirstFrame(s)] + Frames(s[FrameLength(s)..]) else []
  }

  function Partial(s: Bytes): Bytes
    decreases |s|
  {
    if HasFrame(s) then Partial(s[FrameLength(s)..]) else s
  }

  function EncodeSize(n: nat): (r: Bytes)
    requires n < 0x1_0000_0000
    ensures |r| == 4 && BigEndian(r[0], r[1], r[2], r[3]) == n
  {
    var q := n / 0x100;
    var r := q / 0x100;
    [r / 0x100, r % 0x100, q % 0x100, n % 0x100]
  }

  function EncodeHeader(f: Frame): (r: Bytes)
    requires f.Valid()
    ensures |r| == 8
  {
    [f.streamType] + f.pad + EncodeSize(|f.payload|)
  }

  function Encode(f: Frame): Bytes
    requires f.Valid()
  {
    EncodeHeader(f) + f.payload
  }

  function EncodeAll(fs: seq<Frame>): Bytes
    requires forall i :: 0 <= i < |fs| ==> fs[i].Valid()
  {
    if fs == [] then [] else Encode(fs[0]) + EncodeAll(fs[1..])
  }

  predicate IsConsole(f: Frame) {
    f.streamType == STREAM_STDOUT || f.streamType == STREAM_STDERR
  }

  /** What the console prints: the payloads of the frames of types 1 and 2,
      stdout and stderr, joined. */
  ghost function Output(fs: seq<Frame>): Bytes {
    if fs == [] then []
    else
      var front, f := Output(fs[..|fs| - 1]), fs[|fs| - 1];
      if f.streamType == 1 || f.streamType == 2 then front + f.payload else front
  }

  lemma LowByte(k: int, d: byte, k': int, d': byte)
    requires k * 0x100 + d == k' * 0x100 + d'
    ensures k == k' && d == d'
  {
  }

  lemma SizeUnique(a: byte, b: byte, c: byte, d: byte)
    ensures 0 <= BigEndian(a, b, c, d) < 0x1_0000_0000
    ensures EncodeSize(BigEndian(a, b, c, d)) == [a, b, c, d]
  {
    var r := EncodeSize(BigEndian(a, b, c, d));
    LowByte((r[0] as int * 0x100 + r[1]) * 0x100 + r[2], r[3], (a as int * 0x100 + b) * 0x100 + c, d);
    LowByte(r[0] as int * 0x100 + r[1], r[2], a as int * 0x100 + b, c);
    LowByte(r[0], r[1], a, b);
  }

  lemma EncodedFrameFirst(f: Frame, t: Bytes)
    requires f.Valid()
    ensures HasFrame(Encode(f) + t)
    ensures FirstFrame(Encode(f) + t) == f
    ensures (Encode(f) + t)[FrameLength(Encode(f) + t)..] == t
  {
    var s := Encode(f) + t;
    var n := |f.payload|;
    var h := EncodeHeader(f);
    assert forall i :: 0 <= i < 8 ==> s[i] == h[i];
    assert h[4..8] == EncodeSize(n);
    assert ParseFrameHeader(s) == Some(FrameHeader(f.streamType, n));
    assert s[1..4] == f.pad && s[8..8 + n] == f.payload;
  }

  lemma FirstFrameEncoded(s: Bytes)
    requires HasFrame(s)
    ensures FirstFrame(s).Valid()
    ensures s == Encode(FirstFrame(s)) + s[FrameLength(s)..]
  {
    SizeUnique(s[4], s[5], s[6], s[7]);
    assert EncodeHeader(FirstFrame(s)) == s[..8];
    Concat3(s[..8], FirstFrame(s).payload, s[FrameLength(s)..]);
  }

  /** Every stream is a sequence of encoded frames and an incomplete one ... */
  lemma {:induction false} FramesDecompose(s: Bytes)
    ensures forall i :: 0 <= i < |Frames(s)| ==> Frames(s)[i].Valid()
    ensures s == EncodeAll(Frames(s)) + Partial(s)
    ensures !HasFrame(Partial(s))
    decreases |s|
  {
    if HasFrame(s) {
      var t := s[FrameLength(s)..];
      FirstFrameEncoded(s);
      FramesDecompose(t);
      assert Frames(s)[1..] == Frames(t);
      Concat3(Encode(FirstFrame(s)), EncodeAll(Frames(t)), Partial(t));
    }
  }

  /** ... in exactly one way: decoding inverts encoding. */
  lemma {:induction false} FramesUnique(fs: seq<Frame>, t: Bytes)
    requires forall i :: 0 <= i < |fs| ==> fs[i].Valid()
    requires !HasFrame(t)
    ensures Frames(EncodeAll(fs) + t) == fs
    ensures Partial(EncodeAll(fs) + t) == t
  {
    if fs == [] {
      assert EncodeAll(fs) + t == t;
    } else {
      FramesUnique(fs[1..], t);
      Concat3(Encode(fs[0]), EncodeAll(fs[1..]), t);
      EncodedFrameFirst(fs[0], EncodeAll(fs[1..]) + t);
    }
  }

  lemma FirstFrameExtends(a: Bytes, b: Bytes)
    requires HasFrame(a)
    ensures HasFrame(a + b) && FirstFrame(a + b) == FirstFrame(a)
    ensures (a + b)[FrameLength(a + b)..] == a[FrameLength(a)..] + b
  {
    assert ParseFrameHeader(a + b) == ParseFrameHeader(a);
  }

  /** Where the stream is cut does not matter. */
  lemma {:induction false} FramesAppend(a: Bytes, b: Bytes)
    ensures Frames(a + b) == Frames(a) + Frames(Partial(a) + b)
    ensures Partial(a + b) == Partial(Partial(a) + b)
    decreases |a|
  {
    if HasFrame(a) {
      FirstFrameExtends(a, b);
      var t := a[FrameLength(a)..];
      FramesAppend(t, b);
      Concat3([FirstFrame(a)], Frames(t), Frames(Partial(t) + b));
    } else {
      assert Frames(a) == [];
    }
  }

  lemma OutputSnoc(fs: seq<Frame>, f: Frame)
    ensures Output(fs + [f]) == if IsConsole(f) then Output(fs) + f.payload else Output(fs)
  {
    assert (fs + [f])[..|fs + [f]| - 1] == fs;
  }

  /** A read from the socket; an empty chunk is end of file. */
  datatype Read = Chunk(data: Bytes) | Failed

  /** What arrives before the connection ends. */
  function Received(input: seq<Read>): Bytes {
    if input == [] || input[0].Failed? || input[0].data == [] then []
    else input[0].data + Received(input[1..])
  }

  /** The lines that reach a receiver which goes away after `room` of them. */
  function Delivered(lines: seq<Bytes>, room: Option<nat>): seq<Bytes> {
    if room.Some? && room.value < |lines| then lines[..room.value] else lines
  }

  /** All the lines, or as many of the first as there was room for. */
  lemma DeliveredExactly(lines: seq<Bytes>, room: nat)
    ensures Delivered(lines, None) == lines
    ensures Delivered(lines, Some(room)) <= lines
    ensures |Delivered(lines, Some(room))| == if room < |lines| then room else |lines|
  {
  }

  /** The lines a whole stream puts on the console. */
  ghost function ConsoleLines(s: Bytes): seq<Bytes> {
    CompleteLines(Output(Frames(s)))
  }

  /** Hands lines to the receiver one by one; `open` tells whether it is still
      there afterwards. */
  method Forward(lines: seq<Bytes>, sent: seq<Bytes>, room: Option<nat>)
    returns (sent': seq<Bytes>, open: bool)
    requires Delivered(sent, room) == sent
    ensures sent' == Delivered(sent + lines, room)
    ensures open <==> sent' == sent + lines
  {
    sent', open := sent, true;
    var i := 0;
    while i < |lines|
      invariant 0 <= i <= |lines|
      invariant open && sent' == sent + lines[..i] == Delivered(sent', room)
    {
      if room.Some? && |sent'| == room.value {
        assert (sent + lines)[..room.value] == sent';
        return sent', false;
      }
      sent' := sent' + [lines[i]];
      i := i + 1;
    }
    assert lines[..i] == lines;
  }

  /** What one more frame adds to the console. */
  lemma FeedFrame(done: seq<Frame>, f: Frame)
    ensures IsConsole(f) ==>
              var fed := Rest(Output(done)) + f.payload;
              && CompleteLines(Output(done + [f])) == CompleteLines(Output(done)) + CompleteLines(fed)
              && Rest(Output(done + [f])) == Rest(fed)
    ensures !IsConsole(f) ==> Output(done + [f]) == Output(done)
  {
    OutputSnoc(done, f);
    if IsConsole(f) {
      CompleteLinesAppend(Output(done), f.payload);
    }
  }

  lemma FramesTake(done: seq<Frame>, buf: Bytes)
    requires HasFrame(buf)
    ensures done + Frames(buf) == done + [FirstFrame(buf)] + Frames(buf[FrameLength(buf)..])
    ensures Partial(buf) == Partial(buf[FrameLength(buf)..])
  {
    Concat3(done, [FirstFrame(buf)], Frames(buf[FrameLength(buf)..]));
  }

  lemma FramesTaken(done: seq<Frame>, buf: Bytes)
    requires !HasFrame(buf)
    ensures done + Frames(buf) == done && Partial(buf) == buf
  {
  }

  lemma FramesOfPartial(s: Bytes)
    ensures Frames(Partial(s)) == []
  {
    FramesDecompose(s);
  }

  lemma NoMore(input: seq<Read>, next: nat)
    requires next <= |input|
    requires next == |input| || input[next].Failed? || input[next].data == []
    ensures Received(input[next..]) == []
  {
    if next < |input| {
      assert input[next..][0] == input[next];
    }
  }

  lemma PumpStarts(room: Option<nat>)
    ensures Pumped([], [], [], room)
  {
  }

  lemma NextRead(buf: Bytes, input: seq<Read>, next: nat)
    requires next < |input| && input[next].Chunk? && input[next].data != []
    ensures buf + Received(input[next..]) == buf + input[next].data + Received(input[next + 1..])
  {
    assert input[next..][0] == input[next] && input[next..][1..] == input[next + 1..];
    Concat3(buf, input[next].data, Received(input[next + 1..]));
  }

  /** Lines already sent are final: more input only adds lines. */
  lemma ConsoleLinesGrow(done: seq<Frame>, more: seq<Frame>)
    ensures CompleteLines(Output(done)) <= CompleteLines(Output(done + more))
    decreases |more|
  {
    if more == [] {
      assert done + more == done;
    } else {
      var front, f := more[..|more| - 1], more[|more| - 1];
      ConsoleLinesGrow(done, front);
      assert done + more == done + front + [f];
      OutputSnoc(done + front, f);
      if IsConsole(f) {
        CompleteLinesAppend(Output(done + front), f.payload);
      }
    }
  }

  /** The pump between two reads: `done` frames consumed, `sent` lines out, the
      splitter holding the unterminated rest. */
  ghost predicate Pumped(done: seq<Frame>, sent: seq<Bytes>, kept: Bytes, room: Option<nat>) {
    && sent == CompleteLines(Output(done)) == Delivered(sent, room)
    && kept == Rest(Output(done))
  }

  /** The inner loop: takes every complete frame off the buffer. Each pass
      removes at least the eight header bytes, so it ends. */
  method TakeFrames(buf: Bytes, sent: seq<Bytes>, room: Option<nat>, splitter: LineSplitter, ghost done: seq<Frame>)
    returns (buf': Bytes, sent': seq<Bytes>, open: bool)
    requires Pumped(done, sent, splitter.buf, room)
    modifies splitter
    ensures open ==> buf' == Partial(buf) && Pumped(done + Frames(buf), sent', splitter.buf, room)
    ensures sent' == Delivered(CompleteLines(Output(done + Frames(buf))), room)
    ensures !open ==> sent' < CompleteLines(Output(done + Frames(buf)))
  {
    hide Frames, Partial, CompleteLines, Output, Rest;
    buf', sent', open := buf, sent, true;
    ghost var taken := done;
    while HasFrame(buf')
      invariant done + Frames(buf) == taken + Frames(buf')
      invariant Partial(buf) == Partial(buf')
      invariant open && Pumped(taken, sent', splitter.buf, room)
      decreases |buf'|
    {
      var header := ParseFrameHeader(buf').value;
      var payload := buf'[8..8 + header.size];
      ghost var f := FirstFrame(buf');
      FeedFrame(taken, f);
      FramesTake(taken, buf');
      buf' := buf'[8 + header.size..];
      taken := taken + [f];
      if header.streamType == STREAM_STDOUT || header.streamType == STREAM_STDERR {
        var lines := splitter.Feed(payload);
        sent', open := Forward(lines, sent', room);
        if !open {
          ConsoleLinesGrow(taken, Frames(buf'));
          return;
        }
      }
    }
    FramesTaken(taken, buf');
  }

  /** For every leftover and every way the stream is cut into reads, the lines
      sent are those of the console frames of the whole stream, up to the moment
      the receiver goes away. */
  method PumpOutput(leftover: Bytes, input: seq<Read>, room: Option<nat>) returns (sent: seq<Bytes>)
    ensures sent == Delivered(ConsoleLines(leftover + Received(input)), room)
  {
    PumpStarts(room);
    hide Frames, Partial, CompleteLines, Output, Rest, HasFrame, Received;
    var buf := leftover;
    var splitter := new LineSplitter();
    sent := [];
    ghost var done: seq<Frame> := [];
    ghost var whole := Frames(leftover + Received(input));
    var next := 0;
    var open := true;
    while true
      invariant 0 <= next <= |input|
      invariant fresh(splitter)
      invariant whole == done + Frames(buf + Received(input[next..]))
      invariant Pumped(done, sent, splitter.buf, room)
      decreases |input| - next
    {
      ghost var more := Received(input[next..]);
      FramesAppend(buf, more);
      Concat3(done, Frames(buf), Frames(Partial(buf) + more));
      FramesOfPartial(buf);
      ghost var before := done;
      done := before + Frames(buf);
      buf, sent, open := TakeFrames(buf, sent, room, splitter, before);
      if !open {
        ConsoleLinesGrow(done, whole[|done|..]);
        assert whole == done + whole[|done|..];
        return;
      }
      if next == |input| || input[next].Failed? || input[next].data == [] {
        NoMore(input, next);
        assert buf + more == buf && done + [] == done;
        return;
      }
      NextRead(buf, input, next);
      buf := buf + input[next].data;
      next := next + 1;
    }
  }

  /** The decoder's promise end to end: for every sequence of frames, every
      incomplete last frame and every cut of the encoded stream, exactly the
      completed lines of the console payloads come out, in order. */
  lemma PumpDeliversConsole(fs: seq<Frame>, t: Bytes, leftover: Bytes, input: seq<Read>)
    requires forall i :: 0 <= i < |fs| ==> fs[i].Valid()
    requires !HasFrame(t)
    requires leftover + Received(input) == EncodeAll(fs) + t
    ensures ConsoleLines(leftover + Received(input)) == CompleteLines(Output(fs))
  {
    FramesUnique(fs, t);
  }

  /** By the bytes: a stderr frame prints its line, a frame of type 3 does not. */
  lemma StderrIsPrinted()
    ensures ConsoleLines([2, 0, 0, 0, 0, 0, 0, 2, 120, 10]) == [[120]]
    ensures ConsoleLines([3, 0, 0, 0, 0, 0, 0, 2, 120, 10]) == []
  {
    LineEndings([120], []);
    LineEndings([], []);
    assert [120] + [10] + [] == [120, 10];
    OneFrame(2);
    OneFrame(3);
    hide CompleteLines, Frames;
    assert Output([]) == [];
    assert [Frame(2, [0, 0, 0], [120, 10])][..0] == [] && [Frame(3, [0, 0, 0], [120, 10])][..0] == [];
    assert [] + [120, 10] == [120, 10];
  }

  lemma OneFrame(streamType: byte)
    ensures Frames([streamType, 0, 0, 0, 0, 0, 0, 2, 120, 10]) == [Frame(streamType, [0, 0, 0], [120, 10])]
  {
    var s := [streamType, 0, 0, 0, 0, 0, 0, 2, 120, 10];
    assert FrameLength(s) == 10 && s[10..] == [] && s[1..4] == [0, 0, 0] && s[8..10] == [120, 10];
    assert Frames([]) == [];
  }
}
