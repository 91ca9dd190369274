/** Log tailing: the last lines of a file, then the lines appended to it. */
module Tail {
  import opened Basics
  import opened Lines

  /** Every line of a file; a last line without a newline counts, unstripped. */
  function AllLines(s: Bytes): seq<Bytes> {
    CompleteLines(s) + if Rest(s) == [] then [] else [Rest(s)]
  }

  function LastOf(lines: seq<Bytes>, n: nat): seq<Bytes> {
    if |lines| <= n then lines else lines[|lines| - n..]
  }

  predicate EndsWith(line: Bytes, b: byte) {
    line != [] && line[|line| - 1] == b
  }

  /** Removes a trailing newline and then a trailing carriage return; without a
      newline nothing is removed. */
  function StripNewline(line: Bytes): Bytes {
    if EndsWith(line, LF) then
      var l := line[..|line| - 1];
      if EndsWith(l, CR) then l[..|l| - 1] else l
    else line
  }

  /** What reading one line from the front of `s` returns: up to and including
      the newline, or everything there is. */
  function ReadLine(s: Bytes): (line: Bytes)
    ensures s != [] ==> line != []
    ensures line <= s
  {
    var i := IndexOf(s, LF);
    if i < |s| then s[..i + 1] else s
  }

  lemma StripNewlineStripsCr(line: Bytes)
    ensures StripNewline(line + [LF]) == StripCr(line)
  {
    assert (line + [LF])[..|line|] == line;
  }

  lemma ReadLineSplits(s: Bytes)
    requires s != []
    ensures var line, rest := ReadLine(s), s[|ReadLine(s)|..];
            if EndsWith(line, LF) then
              && CompleteLines(s) == [StripNewline(line)] + CompleteLines(rest)
              && Rest(s) == Rest(rest)
            else
              && rest == [] && line == s && StripNewline(line) == s
              && CompleteLines(s) == [] && Rest(s) == s
  {
    hide CompleteLines, Rest, StripNewline;
    var i := IndexOf(s, LF);
    if i < |s| {
      var l, rest := s[..i], s[i + 1..];
      FirstCompleteLine(l, rest);
      StripNewlineStripsCr(l);
      assert ReadLine(s) == l + [LF];
      assert s == l + [LF] + rest;
    } else {
      NothingComplete(s);
      NotStripped(s);
    }
  }

  lemma NotStripped(s: Bytes)
    requires !EndsWith(s, LF)
    ensures StripNewline(s) == s
  {
  }

  lemma LastOfAppend(lines: seq<Bytes>, line: Bytes, n: nat)
    ensures LastOf(lines + [line], n) ==
            var w := LastOf(lines, n);
            if n == 0 then [] else if |w| == n then w[1..] + [line] else w + [line]
  {
  }

  /** The last `n` lines of a file, never holding more than `n` of them. */
  method LastNLines(content: Bytes, n: nat) returns (window: seq<Bytes>)
    ensures window == LastOf(AllLines(content), n)
  {
    hide CompleteLines, Rest, ReadLine, AllLines;
    var rest := content;
    ghost var done: seq<Bytes> := [];
    window := [];
    while true
      invariant AllLines(content) == done + AllLines(rest)
      invariant window == LastOf(done, n) && |window| <= n
      decreases |rest|
    {
      var line := ReadLine(rest);
      if line == [] {
        EmptyHasNoLines();
        break;
      }
      ReadLineSplits(rest);
      AfterLine(rest);
      LastOfAppend(done, StripNewline(line), n);
      Concat3(done, [StripNewline(line)], AllLines(rest[|line|..]));
      done := done + [StripNewline(line)];
      rest := rest[|line|..];
      line := StripNewline(line);
      if |window| == n && window != [] {
        window := window[1..];
      }
      if n > 0 {
        window := window + [line];
      }
    }
  }

  lemma EmptyHasNoLines()
    ensures AllLines([]) == []
  {
  }

  lemma AfterLine(s: Bytes)
    requires s != []
    ensures AllLines(s) == [StripNewline(ReadLine(s))] + AllLines(s[|ReadLine(s)|..])
  {
    EmptyHasNoLines();
    ReadLineSplits(s);
    hide CompleteLines, Rest, StripNewline, ReadLine;
    var line, rest := ReadLine(s), s[|ReadLine(s)|..];
    Concat3([StripNewline(line)], CompleteLines(rest), if Rest(rest) == [] then [] else [Rest(rest)]);
  }

  // ---- Following a file ----

  /** One look at the file: told to stop, file gone, or its length and then its
      content as read a moment later (`None` when it cannot be opened). */
  datatype Look = Stop | Gone | Seen(len: nat, content: Option<Bytes>)

  /** Following ends quietly, or with an error when the file cannot be opened. */
  datatype Status = Following | Ended | Failed

  datatype Follower = Follower(pos: nat, lines: seq<Bytes>, status: Status)

  function From(content: Bytes, pos: nat): Bytes {
    if pos <= |content| then content[pos..] else []
  }

  function Step(f: Follower, look: Look): Follower {
    if !f.status.Following? then f
    else match look
      case Stop => f.(status := Ended)
      case Gone => f.(status := Ended)
      case Seen(len, content) =>
        var pos := if len < f.pos then 0 else f.pos;
        if len == pos then f.(pos := pos)
        else if content.None? then Follower(pos, f.lines, Failed)
        else
          var added := From(content.value, pos);
          Follower(pos + |added| - |Rest(added)|, f.lines + CompleteLines(added), Following)
  }

  function Run(f: Follower, looks: seq<Look>): Follower {
    if looks == [] then f else Step(Run(f, looks[..|looks| - 1]), looks[|looks| - 1])
  }

  /** Reads completed lines from `content` at `pos`; a line still missing its
      newline is left for the next look. */
  method ReadNew(content: Bytes, pos: nat) returns (lines: seq<Bytes>, pos': nat)
    ensures lines == CompleteLines(From(content, pos))
    ensures pos' == pos + |From(content, pos)| - |Rest(From(content, pos))|
  {
    hide CompleteLines, Rest, ReadLine;
    ghost var added := From(content, pos);
    var rest := From(content, pos);
    lines, pos' := [], pos;
    while true
      invariant CompleteLines(added) == lines + CompleteLines(rest)
      invariant Rest(added) == Rest(rest)
      invariant pos' + |rest| == pos + |added|
      decreases |rest|
    {
      var line := ReadLine(rest);
      if line == [] {
        NothingComplete([]);
        break;
      }
      ReadLineSplits(rest);
      if !EndsWith(line, LF) {
        break;
      }
      Concat3(lines, [StripNewline(line)], CompleteLines(rest[|line|..]));
      lines := lines + [StripNewline(line)];
      pos' := pos' + |line|;
      rest := rest[|line|..];
    }
  }

  lemma NothingComplete(s: Bytes)
    requires LF !in s
    ensures CompleteLines(s) == [] && Rest(s) == s
  {
    NoNewline(s);
  }

  /** The polling loop; `ok` is false when the file could not be opened. */
  method Follow(initialLen: nat, looks: seq<Look>) returns (lines: seq<Bytes>, ok: bool)
    ensures lines == Run(Follower(initialLen, [], Following), looks).lines
    ensures ok <==> !Run(Follower(initialLen, [], Following), looks).status.Failed?
  {
    hide CompleteLines, Rest;
    var pos := initialLen;
    lines, ok := [], true;
    ghost var start := Follower(initialLen, [], Following);
    var i := 0;
    while i < |looks|
      invariant 0 <= i <= |looks|
      invariant Run(start, looks[..i]) == Follower(pos, lines, Following)
    {
      assert looks[..i + 1][..i] == looks[..i];
      Closed(start, looks, i + 1);
      match looks[i]
      case Stop =>
        return lines, true;
      case Gone =>
        return lines, true;
      case Seen(len, content) =>
        if len < pos {
          pos := 0;
        }
        if len != pos {
          if content.None? {
            return lines, false;
          }
          var added;
          added, pos := ReadNew(content.value, pos);
          lines := lines + added;
        }
      i := i + 1;
    }
    assert looks[..i] == looks;
  }

  lemma {:induction false} Closed(f: Follower, looks: seq<Look>, i: nat)
    requires i <= |looks|
    ensures !Run(f, looks[..i]).status.Following? ==> Run(f, looks) == Run(f, looks[..i])
    decreases |looks| - i
  {
    if i == |looks| {
      assert looks[..i] == looks;
    } else {
      assert looks[..i + 1][..i] == looks[..i];
      Closed(f, looks, i + 1);
    }
  }

  // ---- What following a growing file yields ----

  /** The follower has reported exactly the lines completed after `start` in
      the content `c`, and stands at the line not yet completed. */
  ghost predicate CaughtUp(f: Follower, start: Bytes, c: Bytes) {
    && start <= c && f.status.Following?
    && f.lines == CompleteLines(c[|start|..])
    && f.pos == |c| - |Rest(c[|start|..])|
  }

  /** The content at the latest look, `c` when there was none. */
  function Latest(c: Bytes, looks: seq<Look>): Bytes {
    if looks == [] then c
    else match looks[|looks| - 1]
      case Seen(_, Some(d)) => d
      case _ => c
  }

  /** The file only grows: each look finds at least what was there before, and
      reading finds at least what the length announced. */
  predicate Grows(c: Bytes, looks: seq<Look>) {
    looks == [] ||
    var front, look := looks[..|looks| - 1], looks[|looks| - 1];
    && Grows(c, front)
    && look.Seen? && look.content.Some?
    && Latest(c, front) <= look.content.value
    && |Latest(c, front)| <= look.len <= |look.content.value|
  }

  lemma RestIsSuffix(s: Bytes)
    ensures |Rest(s)| <= |s| && s[|s| - |Rest(s)|..] == Rest(s)
  {
    LinesDecompose(s);
  }

  lemma StepCatchesUp(f: Follower, start: Bytes, c: Bytes, look: Look)
    requires CaughtUp(f, start, c)
    requires look.Seen? && look.content.Some?
    requires c <= look.content.value && |c| <= look.len <= |look.content.value|
    ensures CaughtUp(Step(f, look), start, if look.len == f.pos then c else look.content.value)
    ensures look.len == f.pos ==> look.len == |c|
  {
    hide Rest, CompleteLines;
    var d := look.content.value;
    var before, app := c[|start|..], d[|c|..];
    RestIsSuffix(before);
    if look.len != f.pos {
      assert d == c + app;
      assert d[|start|..] == before + app;
      CompleteLinesAppend(before, app);
      assert d[f.pos..] == Rest(before) + app;
    }
  }

  /** The content the follower has read so far. */
  ghost function Observed(f: Follower, c: Bytes, looks: seq<Look>): Bytes
    requires Grows(c, looks)
  {
    if looks == [] then c
    else
      var front, look := looks[..|looks| - 1], looks[|looks| - 1];
      if look.len == Run(f, front).pos then Observed(f, c, front) else look.content.value
  }

  lemma {:induction false} RunCatchesUp(f: Follower, start: Bytes, looks: seq<Look>)
    requires CaughtUp(f, start, start) && Grows(start, looks)
    ensures CaughtUp(Run(f, looks), start, Observed(f, start, looks))
    ensures Observed(f, start, looks) <= Latest(start, looks)
    ensures looks != [] ==> looks[|looks| - 1].len <= |Observed(f, start, looks)|
  {
    hide CompleteLines, Rest, CaughtUp, Step;
    if looks != [] {
      var front, look := looks[..|looks| - 1], looks[|looks| - 1];
      RunCatchesUp(f, start, front);
      var c := Observed(f, start, front);
      StepCatchesUp(Run(f, front), start, c, look);
    }
  }

  /** A look that reads nothing: told to stop, file gone or not to be opened. */
  predicate IsLast(look: Look) {
    !look.Seen? || look.content.None?
  }

  /** The looks before such a last one. */
  function Looked(looks: seq<Look>): seq<Look> {
    if looks != [] && IsLast(looks[|looks| - 1]) then looks[..|looks| - 1] else looks
  }

  lemma LastLookAddsNothing(f: Follower, looks: seq<Look>)
    ensures Run(f, looks).lines == Run(f, Looked(looks)).lines
  {
    hide CompleteLines, Rest;
  }

  /** For every schedule of appends and looks, stopped or not, the lines reported
      are those a line splitter gives on the appended bytes: each completed line
      once, in order, up to the content last read. */
  lemma FollowReportsAppended(start: Bytes, looks: seq<Look>)
    requires Grows(start, Looked(looks))
    ensures var f := Follower(|start|, [], Following);
            var seen := Looked(looks);
            var c := Observed(f, start, seen);
            && start <= c
            && Run(f, looks).lines == CompleteLines(c[|start|..])
            && c <= Latest(start, seen)
            && (seen != [] ==> seen[|seen| - 1].len <= |c|)
            && (seen != [] && seen[|seen| - 1].len == |Latest(start, seen)| ==> c == Latest(start, seen))
  {
    var f := Follower(|start|, [], Following);
    NothingComplete([]);
    assert CaughtUp(f, start, start);
    hide CompleteLines, Rest, Step;
    RunCatchesUp(f, start, Looked(looks));
    LastLookAddsNothing(f, looks);
  }

  lemma StepPrefix(f: Follower, look: Look)
    ensures var g := Step(f.(lines := []), look); Step(f, look) == g.(lines := f.lines + g.lines)
  {
  }

  lemma {:induction false} RunPrefix(f: Follower, looks: seq<Look>)
    ensures var g := Run(f.(lines := []), looks); Run(f, looks) == g.(lines := f.lines + g.lines)
  {
    hide Step;
    if looks != [] {
      var front, look := looks[..|looks| - 1], looks[|looks| - 1];
      RunPrefix(f, front);
      var g := Run(f.(lines := []), front);
      StepPrefix(Run(f, front), look);
      StepPrefix(g, look);
      Concat3(f.lines, g.lines, Step(g.(lines := []), look).lines);
    }
  }

  lemma {:induction false} RunFirst(f: Follower, look: Look, looks: seq<Look>)
    ensures Run(f, [look] + looks) == Run(Step(f, look), looks)
    decreases |looks|
  {
    hide Step;
    var all := [look] + looks;
    if looks == [] {
      assert all == [look] && [look][..0] == [];
      assert Run(f, []) == f;
    } else {
      RunFirst(f, look, looks[..|looks| - 1]);
      assert all[..|all| - 1] == [look] + looks[..|looks| - 1];
    }
  }

  /** A file found shorter than it was is followed as a new one, from its
      beginning: on top of what was reported before, exactly its own lines. */
  lemma RotationStartsOver(f: Follower, look: Look, looks: seq<Look>)
    requires f.status.Following? && look.Seen? && look.len < f.pos
    requires Grows([], Looked([look] + looks))
    ensures var restarted := Follower(0, [], Following);
            && Run(f, [look] + looks).lines == f.lines + Run(restarted, [look] + looks).lines
            && Run(restarted, [look] + looks).lines == CompleteLines(Observed(restarted, [], Looked([look] + looks)))
  {
    hide CompleteLines, Rest, Observed, Grows, Looked;
    var restarted, all := Follower(0, [], Following), [look] + looks;
    RunFirst(f, look, looks);
    RunFirst(restarted, look, looks);
    RunPrefix(Step(f, look), looks);
    RunPrefix(Step(restarted, look), looks);
    StepPrefix(f, look);
    assert Step(f.(lines := []), look) == Step(restarted, look);
    var g, h := Step(restarted, look), Run(Step(restarted, look).(lines := []), looks);
    Concat3(f.lines, g.lines, h.lines);
    FollowReportsAppended([], all);
    assert Observed(restarted, [], Looked(all))[0..] == Observed(restarted, [], Looked(all));
  }

  // ---- Replaced files ----

  /** Skipping the first `pos` bytes of a content costs none of its lines: there
      are none to lose, nothing is skipped, or only the carriage return of an
      empty first line is. */
  predicate NoLineSkipped(c: Bytes, pos: nat) {
    pos == 0 || LF !in c || (pos == 1 && |c| >= 2 && c[0] == CR && c[1] == LF)
  }

  lemma FirstLineSkipped(a: Bytes, l: Bytes, rest: Bytes)
    requires a != [] && LF !in a && LF !in l
    ensures CompleteLines(l + [LF] + rest) == CompleteLines(a + (l + [LF] + rest)) <==> a == [CR] && l == []
  {
    FirstCompleteLine(l, rest);
    FirstCompleteLine(a + l, rest);
    assert a + (l + [LF] + rest) == a + l + [LF] + rest;
    hide CompleteLines;
    var x, y := [StripCr(l)] + CompleteLines(rest), [StripCr(a + l)] + CompleteLines(rest);
    assert x[0] == StripCr(l) && y[0] == StripCr(a + l);
    if l != [] {
      assert (a + l)[|a + l| - 1] == l[|l| - 1];
    } else {
      assert a + l == a;
    }
  }

  lemma SkippingExactly(a: Bytes, b: Bytes)
    requires a != []
    ensures CompleteLines(b) == CompleteLines(a + b) <==> LF !in a + b || (a == [CR] && b != [] && b[0] == LF)
  {
    hide CompleteLines, Rest, IndexOf;
    if LF in a {
      LinesOfRest(a);
      CompleteLinesAppend(a, b);
      CountLines(Rest(a), b);
      SomeLine(a);
    } else if LF in b {
      var i := IndexOf(b, LF);
      var l, rest := b[..i], b[i + 1..];
      Split3(b, i, i + 1);
      assert b == l + [LF] + rest;
      FirstLineSkipped(a, l, rest);
      assert l == [] <==> b[0] == LF;
    } else {
      NothingComplete(b);
      NothingComplete(a + b);
    }
  }

  lemma SomeLine(s: Bytes)
    requires LF in s
    ensures CompleteLines(s) != []
  {
    hide CompleteLines, IndexOf;
    var i := IndexOf(s, LF);
    Split3(s, i, i + 1);
    assert s == s[..i] + [LF] + s[i + 1..];
    FirstCompleteLine(s[..i], s[i + 1..]);
  }

  lemma SkippedExactly(c: Bytes, pos: nat)
    requires pos <= |c|
    ensures CompleteLines(c[pos..]) == CompleteLines(c) <==> NoLineSkipped(c, pos)
  {
    hide CompleteLines;
    assert c == c[..pos] + c[pos..];
    if pos > 0 {
      SkippingExactly(c[..pos], c[pos..]);
      assert pos == 1 ==> (c[..1] == [CR] <==> c[0] == CR);
    }
  }

  /** A file found replaced by `d` is reported from its beginning, as intended,
      exactly when it is shorter than the position or none of its lines begins in
      front of it. */
  lemma ReplacedExactly(f: Follower, d: Bytes)
    requires f.status.Following?
    ensures Step(f, Seen(|d|, Some(d))).lines == f.lines + CompleteLines(d) <==> |d| < f.pos || NoLineSkipped(d, f.pos)
  {
    NothingComplete([]);
    hide CompleteLines, Rest;
    if |d| < f.pos {
      assert d[0..] == d;
    } else {
      SkippedExactly(d, f.pos);
      assert |d| == f.pos ==> d[f.pos..] == [];
      assert Step(f, Seen(|d|, Some(d))).lines == f.lines + CompleteLines(d[f.pos..]);
      SamePrefix(f.lines, CompleteLines(d[f.pos..]), CompleteLines(d));
    }
  }

  lemma SamePrefix(a: seq<Bytes>, x: seq<Bytes>, y: seq<Bytes>)
    ensures a + x == a + y <==> x == y
  {
    if a + x == a + y {
      assert x == (a + x)[|a|..] && y == (a + y)[|a|..];
    }
  }

  /** The same over every run on the replacement while it grows: `start` is what
      it has in the place of the bytes already passed. */
  lemma ReplacedRunExactly(f: Follower, start: Bytes, looks: seq<Look>)
    requires f.status.Following? && |start| == f.pos && Grows(start, Looked(looks))
    ensures var c := Observed(Follower(f.pos, [], Following), start, Looked(looks));
            Run(f, looks).lines == f.lines + CompleteLines(c) <==> NoLineSkipped(c, f.pos)
  {
    hide CompleteLines, Rest, Run, Grows, Looked, Observed;
    var c := Observed(Follower(f.pos, [], Following), start, Looked(looks));
    RunPrefix(f, looks);
    FollowReportsAppended(start, looks);
    SkippedExactly(c, f.pos);
    SamePrefix(f.lines, CompleteLines(c[f.pos..]), CompleteLines(c));
  }

  /** The counterexample: at position 2, of a replacement of four bytes only the
      second line is reported. */
  lemma LongerReplacementLosesLines()
    ensures var d := [97, LF, 98, LF];
            Step(Follower(2, [], Following), Seen(4, Some(d))).lines == [[98]] && CompleteLines(d) == [[97], [98]]
  {
    hide CompleteLines, Rest;
    NothingComplete([]);
    FirstCompleteLine([98], []);
    FirstCompleteLine([97], [98, LF]);
    assert [98] + [LF] + [] == [98, LF];
    assert [97] + [LF] + [98, LF] == [97, LF, 98, LF];
    assert From([97, LF, 98, LF], 2) == [98, LF];
  }

  // ---- The tail, then the followed lines ----

  lemma TailThenAppended(start: Bytes, appended: Bytes)
    ensures AllLines(start) + CompleteLines(appended) == CompleteLines(start + appended) <==> Rest(start) == []
  {
    hide Rest, CompleteLines;
    CompleteLinesAppend(start, appended);
    if Rest(start) == [] {
      assert Rest(start) + appended == appended;
    } else {
      LinesOfRest(start);
      CountLines(Rest(start), appended);
    }
  }

  lemma {:induction false} CountLines(a: Bytes, b: Bytes)
    requires RawLines(a) == []
    ensures |RawLines(a + b)| == |RawLines(b)| == |CompleteLines(b)| == |CompleteLines(a + b)|
    decreases |b|
  {
    if b == [] {
      assert a + b == a;
    } else {
      var front, x := b[..|b| - 1], b[|b| - 1];
      CountLines(a, front);
      assert a + b == a + front + [x] && b == front + [x];
      LinesSnoc(a + front, x);
      LinesSnoc(front, x);
    }
  }

  /** What is shown when a file is tailed and then followed from its end. */
  function Shown(start: Bytes, looks: seq<Look>, n: nat): seq<Bytes> {
    LastOf(AllLines(start), n) + Run(Follower(|start|, [], Following), looks).lines
  }

  /** The lines of the content last read. */
  ghost function LinesRead(start: Bytes, looks: seq<Look>): seq<Bytes>
    requires Grows(start, Looked(looks))
  {
    CompleteLines(Observed(Follower(|start|, [], Following), start, Looked(looks)))
  }

  /** Tailing a whole growing file and then following it shows exactly its lines,
      whatever the schedule, exactly when it ended in a newline where following
      began. */
  lemma TailThenFollow(start: Bytes, looks: seq<Look>, n: nat)
    requires Grows(start, Looked(looks)) && |AllLines(start)| <= n
    ensures Shown(start, looks, n) == LinesRead(start, looks) <==> Rest(start) == []
  {
    hide CompleteLines, Rest, Run, Grows, Looked, Observed;
    FollowReportsAppended(start, looks);
    var c := Observed(Follower(|start|, [], Following), start, Looked(looks));
    assert c == start + c[|start|..];
    TailThenAppended(start, c[|start|..]);
  }

  /** The window is what was there from a fixed line on. */
  ghost predicate ShowsFrom(start: Bytes, looks: seq<Look>, n: nat)
    requires Grows(start, Looked(looks))
  {
    var whole := LinesRead(start, looks);
    var skipped := if |AllLines(start)| <= n then 0 else |AllLines(start)| - n;
    skipped <= |whole| && Shown(start, looks, n) == whole[skipped..]
  }

  lemma LastOfConcat(all: seq<Bytes>, more: seq<Bytes>, n: nat)
    ensures LastOf(all, n) + more == (all + more)[if |all| <= n then 0 else |all| - n..]
  {
  }

  lemma ShowsWindow(start: Bytes, looks: seq<Look>, n: nat)
    requires Grows(start, Looked(looks)) && Rest(start) == []
    ensures ShowsFrom(start, looks, n)
  {
    TailThenFollow(start, looks, |AllLines(start)|);
    hide CompleteLines, Rest, Run, Grows, Looked, LinesRead, AllLines;
    var all, more := AllLines(start), Run(Follower(|start|, [], Following), looks).lines;
    assert LinesRead(start, looks) == all + more;
    LastOfConcat(all, more, n);
  }

  /** The same for every window: whatever number of lines is asked for, they and
      the followed lines are the file's lines from a fixed one on, exactly when
      it ended in a newline where following began. */
  lemma TailThenFollowWindow(start: Bytes, looks: seq<Look>)
    requires Grows(start, Looked(looks))
    ensures (forall n: nat :: ShowsFrom(start, looks, n)) <==> Rest(start) == []
  {
    if Rest(start) == [] {
      forall n: nat
        ensures ShowsFrom(start, looks, n)
      {
        ShowsWindow(start, looks, n);
      }
    } else {
      var n := |AllLines(start)|;
      TailThenFollow(start, looks, n);
      hide CompleteLines, Rest, Run, Grows, Looked, AllLines;
      assert LinesRead(start, looks)[0..] == LinesRead(start, looks);
      assert !ShowsFrom(start, looks, n);
    }
  }

  /** The counterexample: a file caught in the middle of a line has that line
      shown in two pieces. */
  lemma SplitLineIsReportedTwice()
    ensures var start, whole := [97], [97, 98, LF];
            var looks := [Seen(3, Some(whole))];
            && Grows(start, Looked(looks))
            && Shown(start, looks, 1) == [[97], [98]]
            && LinesRead(start, looks) == CompleteLines(whole) == [[97, 98]]
  {
    hide CompleteLines, Rest;
    NothingComplete([97]);
    FirstCompleteLine([98], []);
    FirstCompleteLine([97, 98], []);
    NothingComplete([]);
    assert [98] + [LF] + [] == [98, LF];
    assert [97, 98] + [LF] + [] == [97, 98, LF];
    var looks := [Seen(3, Some([97, 98, LF]))];
    assert looks[..0] == [];
    assert From([97, 98, LF], 1) == [98, LF];
    assert Run(Follower(1, [], Following), []) == Follower(1, [], Following);
  }
}
