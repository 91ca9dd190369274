/** Splitting a byte stream into newline-terminated lines.

The console demultiplexer and the log tailer must agree on what a line is, so
both are stated against the functions of this module. A line is the byte
sequence in front of a newline, with one trailing carriage return removed;
turning it into text is a separate, per-line matter and is not modelled. */
module Lines {

  import opened Basics

  /** The bytes in front of each newline of `s`, in order. */
  function RawLines(s: Bytes): seq<Bytes> {
    if s == [] then []
    else
      var front := s[..|s| - 1];
      if s[|s| - 1] == LF then RawLines(front) + [Rest(front)] else RawLines(front)
  }

  /** What follows the last newline of `s`. */
  function Rest(s: Bytes): (r: Bytes)
    ensures |r| <= |s|
  {
    if s == [] || s[|s| - 1] == LF then [] else Rest(s[..|s| - 1]) + [s[|s| - 1]]
  }

  function StripCr(line: Bytes): Bytes {
    if line != [] && line[|line| - 1] == CR then line[..|line| - 1] else line
  }

  function StripAll(raw: seq<Bytes>): seq<Bytes> {
    seq(|raw|, i requires 0 <= i < |raw| => StripCr(raw[i]))
  }

  /** The completed lines of `s`. */
  function CompleteLines(s: Bytes): seq<Bytes> {
    StripAll(RawLines(s))
  }

  /** Every piece with its newline put back. */
  function Unlines(raw: seq<Bytes>): Bytes {
    if raw == [] then [] else raw[0] + [LF] + Unlines(raw[1..])
  }

  ghost predicate NewlineFree(raw: seq<Bytes>) {
    forall i :: 0 <= i < |raw| ==> LF !in raw[i]
  }

  lemma {:induction false} UnlinesSnoc(raw: seq<Bytes>, line: Bytes)
    ensures Unlines(raw + [line]) == Unlines(raw) + line + [LF]
  {
    if raw == [] {
      assert raw + [line] == [line];
      assert Unlines([line]) == line + [LF] + [];
    } else {
      UnlinesSnoc(raw[1..], line);
      assert (raw + [line])[1..] == raw[1..] + [line];
      Concat3(raw[0] + [LF], Unlines(raw[1..]), line);
      Concat3(raw[0] + [LF], Unlines(raw[1..]) + line, [LF]);
    }
  }

  /** Nothing is lost: the pieces, their newlines and the rest are the input. */
  lemma {:induction false} LinesDecompose(s: Bytes)
    ensures s == Unlines(RawLines(s)) + Rest(s)
    ensures NewlineFree(RawLines(s)) && LF !in Rest(s)
  {
    if s != [] {
      var front, x := s[..|s| - 1], s[|s| - 1];
      LinesDecompose(front);
      assert s == front + [x];
      if x == LF {
        UnlinesSnoc(RawLines(front), Rest(front));
      } else {
        Concat3(Unlines(RawLines(front)), Rest(front), [x]);
      }
    }
  }

  lemma LinesSnoc(s: Bytes, x: byte)
    ensures RawLines(s + [x]) == if x == LF then RawLines(s) + [Rest(s)] else RawLines(s)
    ensures Rest(s + [x]) == if x == LF then [] else Rest(s) + [x]
  {
    assert (s + [x])[..|s + [x]| - 1] == s;
  }

  /** Where the input is cut does not matter: the lines of `a + b` are those of
      `a` followed by those of what `a` left over with `b` behind it. */
  lemma {:induction false} LinesAppend(a: Bytes, b: Bytes)
    ensures RawLines(a + b) == RawLines(a) + RawLines(Rest(a) + b)
    ensures Rest(a + b) == Rest(Rest(a) + b)
    decreases |b|
  {
    hide *;
    if b == [] {
      assert a + b == a && Rest(a) + b == Rest(a);
      LinesOfRest(a);
    } else {
      var front, x := b[..|b| - 1], b[|b| - 1];
      var c := Rest(a) + front;
      LinesAppend(a, front);
      assert a + b == a + front + [x] && Rest(a) + b == c + [x];
      LinesSnoc(a + front, x);
      LinesSnoc(c, x);
      if x == LF {
        Concat3(RawLines(a), RawLines(c), [Rest(c)]);
      }
    }
  }

  lemma CompleteLinesAppend(a: Bytes, b: Bytes)
    ensures CompleteLines(a + b) == CompleteLines(a) + CompleteLines(Rest(a) + b)
    ensures Rest(a + b) == Rest(Rest(a) + b)
  {
    LinesAppend(a, b);
  }

  lemma {:induction false} NoNewline(s: Bytes)
    requires LF !in s
    ensures RawLines(s) == [] && Rest(s) == s
  {
    if s != [] {
      NoNewline(s[..|s| - 1]);
      assert s == s[..|s| - 1] + [s[|s| - 1]];
    }
  }

  lemma LinesOfRest(s: Bytes)
    ensures RawLines(Rest(s)) == [] && Rest(Rest(s)) == Rest(s)
  {
    LinesDecompose(s);
    NoNewline(Rest(s));
  }

  /** The first line of a stream comes off the front. */
  lemma FirstLine(line: Bytes, tail: Bytes)
    requires LF !in line
    ensures RawLines(line + [LF] + tail) == [line] + RawLines(tail)
    ensures Rest(line + [LF] + tail) == Rest(tail)
  {
    NoNewline(line);
    LinesSnoc(line, LF);
    LinesAppend(line + [LF], tail);
    assert [] + tail == tail;
  }

  lemma FirstCompleteLine(line: Bytes, tail: Bytes)
    requires LF !in line
    ensures CompleteLines(line + [LF] + tail) == [StripCr(line)] + CompleteLines(tail)
    ensures Rest(line + [LF] + tail) == Rest(tail)
  {
    FirstLine(line, tail);
  }

  /** Lines by the numbers: a line ends at a byte 10, and one byte 13 in front of
      it is dropped. */
  lemma LineEndings(line: Bytes, tail: Bytes)
    requires 10 !in line
    ensures CompleteLines(line) == []
    ensures CompleteLines(line + [13, 10] + tail) == [line] + CompleteLines(tail)
    ensures line == [] || line[|line| - 1] != 13 ==> CompleteLines(line + [10] + tail) == [line] + CompleteLines(tail)
  {
    NoNewline(line);
    FirstCompleteLine(line, tail);
    FirstCompleteLine(line + [13], tail);
    hide CompleteLines;
    assert line + [13] + [10] + tail == line + [13, 10] + tail;
    assert StripCr(line + [13]) == line;
  }

  /** There is only one decomposition into newline-free pieces, so it defines
      the lines. */
  lemma {:induction false} LinesUnique(raw: seq<Bytes>, rest: Bytes)
    requires NewlineFree(raw) && LF !in rest
    ensures RawLines(Unlines(raw) + rest) == raw
    ensures Rest(Unlines(raw) + rest) == rest
  {
    hide RawLines, Rest;
    if raw == [] {
      assert Unlines(raw) + rest == rest;
      NoNewline(rest);
    } else {
      LinesUnique(raw[1..], rest);
      Concat3(raw[0] + [LF], Unlines(raw[1..]), rest);
      FirstLine(raw[0], Unlines(raw[1..]) + rest);
    }
  }

  /** Buffers partial writes and reports completed lines. */
  class LineSplitter {
    var buf: Bytes

    constructor ()
      ensures buf == []
    {
      buf := [];
    }

    /** Whatever was fed before, the lines reported are those completed by
        `data`, and what is kept is the unterminated rest. */
    method Feed(data: Bytes) returns (lines: seq<Bytes>)
      modifies this
      ensures lines == CompleteLines(old(buf) + data)
      ensures buf == Rest(old(buf) + data)
    {
      hide RawLines;
      ghost var total := buf + data;
      buf := buf + data;
      lines := [];
      while true
        invariant CompleteLines(total) == lines + CompleteLines(buf)
        invariant Rest(total) == Rest(buf)
        decreases |buf|
      {
        var pos := IndexOf(buf, LF);
        if pos == |buf| {
          NoNewline(buf);
          break;
        }
        assert buf == buf[..pos] + [LF] + buf[pos + 1..];
        FirstCompleteLine(buf[..pos], buf[pos + 1..]);
        Concat3(lines, [StripCr(buf[..pos])], CompleteLines(buf[pos + 1..]));
        var line := buf[..pos];
        if line != [] && line[|line| - 1] == CR {
          line := line[..|line| - 1];
        }
        lines := lines + [line];
        buf := buf[pos + 1..];
      }
    }
  }
}
