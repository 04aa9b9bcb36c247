/** The player (a2s.cpp): it resolves a frame rate, splits the rest of the
    file into frames at blank lines, and paces them on the terminal with the
    cursor hidden. Terminal output and sleeping are modelled as a trace of
    events; the process outcome is an exit code or a re-raised exception. */
module Player {
  import opened Wrappers
  import opened Text

  /** One observable effect of the player on the terminal. `Hide`, `Home` and
      `Show` are the escape sequences `ESC[?25l`, `ESC[H` and `ESC[?25h`;
      `Write` is a frame's text; `Sleep` is one `usleep` call in microseconds. */
  datatype Event = Hide | Home | Write(text: string) | Sleep(micros: nat) | Show

  /** How the process ends: an exit code, or an exception that escaped `main`. */
  datatype Status = Exited(code: int) | Raised

  datatype Run = Run(trace: seq<Event>, status: Status)

  /** The parsed command line. `fps` is the value `std::stod` gives for a
      non-empty `-f` argument, and `None` when `-f` was absent or empty. */
  datatype Options = Options(input: string, speed: real, fps: Option<real>)

  const DefaultRate: real := 60.0

  /** The header regex `^# FPS: ([0-9]+)$` matched against `line`, with
      `digits` the text of its capture group. */
  predicate MatchesFpsHeader(line: string, digits: string) {
    line == FpsPrefix + digits && IsNumeric(digits)
  }

  function HeaderDigits(line: string): Option<string> {
    var n := |FpsPrefix|;
    if |line| >= n && line[..n] == FpsPrefix && IsNumeric(line[n..]) then Some(line[n..]) else None
  }

  /** The effective frame rate: the `-f` value when given, else the number in
      a header line, else 60. The last clause is the contrapositive of "a
      line 1 that is not a header gives 60". */
  function ResolveRate(flag: Option<real>, line1: string): (rate: real)
    ensures flag.Some? ==> rate == flag.value
    ensures flag.None? ==> forall ds :: MatchesFpsHeader(line1, ds) ==> rate == DigitsValue(ds) as real
    ensures flag.None? && rate != DefaultRate ==>
              |line1| >= |FpsPrefix| && MatchesFpsHeader(line1, line1[|FpsPrefix|..])
  {
    match flag
    case Some(f) => f
    case None =>
      match HeaderDigits(line1)
      case Some(ds) =>
        assert line1 == FpsPrefix + ds;
        DigitsValue(ds) as real
      case None => DefaultRate
  }

  /** Without `-f`, a header line gives its number as the rate. */
  lemma HeaderRate(digits: string)
    requires IsNumeric(digits)
    ensures ResolveRate(None, FpsPrefix + digits) == DigitsValue(digits) as real
  {
    assert MatchesFpsHeader(FpsPrefix + digits, digits);
  }

  /** The pause after each frame in whole microseconds: the delay
      `1 / rate / speed` seconds, scaled and truncated. */
  function SleepMicros(rate: real, speed: real): (us: nat)
    requires rate > 0.0 && speed > 0.0
    ensures us as real <= 1000000.0 / (rate * speed) < us as real + 1.0
  {
    var delay := 1.0 / rate / speed;
    assert delay * 1000000.0 == 1000000.0 / (rate * speed);
    (delay * 1000000.0).Floor
  }

  /** The render loop over the lines after line 1, with `frame` the text
      gathered so far and `d` the pause. A non-empty line is appended to the
      frame with a newline; a blank line shows the frame (even an empty one),
      pauses and starts a new frame; at end of stream a non-empty frame is
      shown without a pause. */
  function Render(lines: seq<string>, frame: string, d: nat): (t: seq<Event>)
    ensures forall i :: 0 <= i < |t| ==> t[i] != Hide && t[i] != Show
    ensures forall i :: 0 <= i < |t| && t[i].Sleep? ==> t[i].micros == d
    decreases |lines|
  {
    if |lines| == 0 then
      if |frame| > 0 then [Home, Write(frame)] else []
    else if |lines[0]| > 0 then
      Render(lines[1..], frame + lines[0] + "\n", d)
    else
      [Home, Write(frame), Sleep(d)] + Render(lines[1..], "", d)
  }

  /** Line 1 as `std::getline` leaves it: empty when the file is empty. */
  function First(lines: seq<string>): string {
    if |lines| == 0 then "" else lines[0]
  }

  /** The lines the render loop reads after line 1. */
  function Rest(lines: seq<string>): seq<string> {
    if |lines| == 0 then [] else lines[1..]
  }

  function Min(a: nat, b: nat): nat {
    if a <= b then a else b
  }

  /** The frame rate is usable: `stod` of it is positive, so the delay is a
      finite positive number. Only demanded once playback is reached. */
  predicate RateDefined(opts: Options, file: Option<seq<string>>) {
    opts.input != [] && opts.speed > 0.0 && file.Some? ==> ResolveRate(opts.fps, First(file.value)) > 0.0
  }

  /** The cursor is hidden first, shown last, and each exactly once. */
  predicate CursorBracketed(t: seq<Event>) {
    && |t| >= 2
    && t[0] == Hide
    && t[|t| - 1] == Show
    && multiset(t)[Hide] == 1
    && multiset(t)[Show] == 1
  }

  /** Wrapping events that never touch the cursor between a hide and a show
      brackets the cursor. */
  lemma BracketedLoop(u: seq<Event>)
    requires forall i :: 0 <= i < |u| ==> u[i] != Hide && u[i] != Show
    ensures CursorBracketed([Hide] + u + [Show])
  {
    assert Hide !in u && Show !in u;
    assert multiset([Hide] + u + [Show]) == multiset([Hide]) + multiset(u) + multiset([Show]);
  }

  /** One run of the player. `file` is the file's lines, or `None` when it
      cannot be opened. `fault` is `Some(k)` when an exception is raised in
      the render loop after its first `k` events (or after all of them). */
  function Play(opts: Options, file: Option<seq<string>>, fault: Option<nat>): (r: Run)
    requires RateDefined(opts, file)
    ensures opts.input == [] ==> r == Run([], Exited(1))
    ensures opts.speed <= 0.0 ==> r == Run([], Exited(1))
    ensures file.None? ==> r.trace == [] && r.status == Exited(1)
    ensures opts.input != [] && opts.speed > 0.0 && file.Some? ==>
              && CursorBracketed(r.trace)
              && (fault.None? ==> r.status == Exited(0))
              && (fault.Some? ==> r.status == Raised)
  {
    if opts.input == [] then Run([], Exited(1))
    else if opts.speed <= 0.0 then Run([], Exited(1))
    else
      match file
      case None => Run([], Exited(1))
      case Some(lines) =>
        var d := SleepMicros(ResolveRate(opts.fps, First(lines)), opts.speed);
        var loop := Render(Rest(lines), "", d);
        var shown := loop[..Reached(loop, fault)];
        BracketedLoop(shown);
        match fault
        case None =>
          assert shown == loop;
          Run([Hide] + loop + [Show], Exited(0))
        case Some(_) => Run([Hide] + shown + [Show], Raised)
  }

  // ---------------------------------------------------------------------
  // The frame structure of a file, as an independent reference.

  /** Rejoins blocks with one blank line between neighbours. */
  function Intercalate(bs: seq<seq<string>>): seq<string>
    requires |bs| > 0
    decreases |bs|
  {
    if |bs| == 1 then bs[0] else bs[0] + [""] + Intercalate(bs[1..])
  }

  /** The lines cut at every blank line; `BlocksSplit` states what makes
      this a split. */
  function Blocks(lines: seq<string>): (bs: seq<seq<string>>)
    ensures |bs| > 0
    decreases |lines|
  {
    if |lines| == 0 then [[]]
    else
      var rest := Blocks(lines[1..]);
      if lines[0] == "" then [[]] + rest
      else [[lines[0]] + rest[0]] + rest[1..]
  }

  /** There is one block more than there are blank lines. */
  lemma {:induction false} BlocksCount(lines: seq<string>)
    ensures |Blocks(lines)| == multiset(lines)[""] + 1
    decreases |lines|
  {
    if |lines| > 0 {
      BlocksCount(lines[1..]);
      assert lines == [lines[0]] + lines[1..];
      assert multiset(lines) == multiset([lines[0]]) + multiset(lines[1..]);
    }
  }

  /** No block holds a blank line, and every line in a block is one of
      `lines`. */
  predicate CleanBlocks(bs: seq<seq<string>>, lines: seq<string>) {
    forall i, j :: 0 <= i < |bs| && 0 <= j < |bs[i]| ==> bs[i][j] != "" && bs[i][j] in lines
  }

  lemma {:induction false} BlocksClean(lines: seq<string>)
    ensures CleanBlocks(Blocks(lines), lines)
    decreases |lines|
  {
    if |lines| > 0 {
      var bs := Blocks(lines);
      var rest := Blocks(lines[1..]);
      BlocksClean(lines[1..]);
      assert lines == [lines[0]] + lines[1..];
      forall i, j | 0 <= i < |bs| && 0 <= j < |bs[i]|
        ensures bs[i][j] != "" && bs[i][j] in lines
      {
        var i', j' := i, j;
        if lines[0] == "" {
          assert bs == [[]] + rest;
          i', j' := i - 1, j;
        } else {
          assert bs == [[lines[0]] + rest[0]] + rest[1..];
          if i == 0 && j == 0 {
            assert bs[0][0] == lines[0];
          } else if i == 0 {
            j' := j - 1;
          }
        }
        if lines[0] == "" || i != 0 || j != 0 {
          assert bs[i][j] == rest[i'][j'];
          assert rest[i'][j'] != "" && rest[i'][j'] in lines[1..];
        }
      }
    }
  }

  /** Rejoining the blocks with one blank line between neighbours gives the
      lines back, so no line is lost, added or reordered. */
  lemma {:induction false} BlocksRejoin(lines: seq<string>)
    ensures Intercalate(Blocks(lines)) == lines
    decreases |lines|
  {
    if |lines| > 0 {
      var bs := Blocks(lines);
      var rest := Blocks(lines[1..]);
      BlocksRejoin(lines[1..]);
      if lines[0] == "" {
        assert bs == [[]] + rest;
        assert bs[1..] == rest;
        assert Intercalate(bs) == [] + [""] + Intercalate(rest);
        assert lines == [""] + lines[1..];
      } else {
        assert bs == [[lines[0]] + rest[0]] + rest[1..];
        if |rest| == 1 {
          assert Intercalate(rest) == rest[0];
          assert Intercalate(bs) == [lines[0]] + rest[0];
        } else {
          assert bs[1..] == rest[1..];
          assert Intercalate(rest) == rest[0] + [""] + Intercalate(rest[1..]);
          assert Intercalate(bs) == ([lines[0]] + rest[0]) + [""] + Intercalate(rest[1..]);
        }
        assert lines == [lines[0]] + lines[1..];
      }
    }
  }

  /** The trace blocks produce: each block closed by a blank line is shown
      and followed by a pause; the last block is shown without a pause, and
      only when it is non-empty. */
  function SectionsTrace(bs: seq<seq<string>>, d: nat): seq<Event>
    requires |bs| > 0
    decreases |bs|
  {
    if |bs| == 1 then
      if bs[0] == [] then [] else [Home, Write(JoinLines(bs[0]))]
    else
      [Home, Write(JoinLines(bs[0])), Sleep(d)] + SectionsTrace(bs[1..], d)
  }

  /** The render loop, started with the lines `acc` already gathered, shows
      exactly the blocks of the remaining lines, `acc` joined to the first. */
  lemma {:induction false} RenderSections(lines: seq<string>, acc: seq<string>, d: nat)
    ensures Render(lines, JoinLines(acc), d) == SectionsTrace([acc + Blocks(lines)[0]] + Blocks(lines)[1..], d)
    decreases |lines|
  {
    var bs := Blocks(lines);
    if |lines| == 0 {
      assert bs == [[]];
      assert acc + bs[0] == acc;
      assert bs[1..] == [];
      assert [acc + bs[0]] + bs[1..] == [acc];
      JoinLinesEmpty(acc);
    } else {
      var rest := Blocks(lines[1..]);
      if |lines[0]| > 0 {
        assert bs == [[lines[0]] + rest[0]] + rest[1..];
        JoinLinesAppend(acc, [lines[0]]);
        assert JoinLines([lines[0]]) == lines[0] + "\n" + JoinLines([]);
        assert JoinLines(acc) + lines[0] + "\n" == JoinLines(acc + [lines[0]]);
        RenderSections(lines[1..], acc + [lines[0]], d);
        assert acc + bs[0] == (acc + [lines[0]]) + rest[0];
        assert bs[1..] == rest[1..];
      } else {
        assert bs == [[]] + rest;
        assert JoinLines([]) == "";
        RenderSections(lines[1..], [], d);
        assert [] + rest[0] == rest[0];
        assert [rest[0]] + rest[1..] == rest;
        assert [[] + rest[0]] + rest[1..] == rest;
        assert acc + bs[0] == acc;
        assert bs[1..] == rest;
        var cs := [acc + bs[0]] + bs[1..];
        assert cs == [acc] + rest;
        assert cs[1..] == rest;
        assert SectionsTrace(cs, d) == [Home, Write(JoinLines(acc)), Sleep(d)] + SectionsTrace(rest, d);
      }
    }
  }

  /** The render loop of a fresh frame follows the block structure. */
  lemma RenderMatchesBlocks(lines: seq<string>, d: nat)
    ensures Render(lines, "", d) == SectionsTrace(Blocks(lines), d)
  {
    var bs := Blocks(lines);
    RenderSections(lines, [], d);
    assert JoinLines([]) == "";
    assert [] + bs[0] == bs[0];
    assert [bs[0]] + bs[1..] == bs;
  }

  // ---------------------------------------------------------------------
  // Counting pauses and collecting what is written.

  /** Every blank line yields exactly one pause, so the pauses count the blank
      lines; the frame carried in does not add one. */
  lemma {:induction false} RenderSleepCount(lines: seq<string>, frame: string, d: nat)
    ensures multiset(Render(lines, frame, d))[Sleep(d)] == multiset(lines)[""]
    decreases |lines|
  {
    if |lines| > 0 {
      assert lines == [lines[0]] + lines[1..];
      if |lines[0]| > 0 {
        RenderSleepCount(lines[1..], frame + lines[0] + "\n", d);
      } else {
        RenderSleepCount(lines[1..], "", d);
      }
    }
  }

  /** The non-blank lines, in order. */
  function NonBlank(lines: seq<string>): seq<string>
    decreases |lines|
  {
    if |lines| == 0 then []
    else if lines[0] == "" then NonBlank(lines[1..])
    else [lines[0]] + NonBlank(lines[1..])
  }

  /** The frames written, in order. */
  function FramesOf(t: seq<Event>): seq<string>
    decreases |t|
  {
    if |t| == 0 then []
    else (if t[0].Write? then [t[0].text] else []) + FramesOf(t[1..])
  }

  function Concat(ss: seq<string>): string
    decreases |ss|
  {
    if |ss| == 0 then "" else ss[0] + Concat(ss[1..])
  }

  /** Everything written to the terminal as frame text, concatenated. */
  function Written(t: seq<Event>): string {
    Concat(FramesOf(t))
  }

  lemma {:induction false} FramesOfAppend(a: seq<Event>, b: seq<Event>)
    ensures FramesOf(a + b) == FramesOf(a) + FramesOf(b)
    decreases |a|
  {
    if |a| == 0 {
      assert a + b == b;
    } else {
      assert (a + b)[1..] == a[1..] + b;
      FramesOfAppend(a[1..], b);
    }
  }

  lemma {:induction false} ConcatAppend(a: seq<string>, b: seq<string>)
    ensures Concat(a + b) == Concat(a) + Concat(b)
    decreases |a|
  {
    if |a| == 0 {
      assert a + b == b;
    } else {
      assert (a + b)[1..] == a[1..] + b;
      ConcatAppend(a[1..], b);
    }
  }

  lemma FramesOfShown(frame: string, d: nat)
    ensures FramesOf([Home, Write(frame)]) == [frame]
    ensures FramesOf([Home, Write(frame), Sleep(d)]) == [frame]
  {
    var a: seq<Event> := [Sleep(d)];
    assert a[1..] == [];
    assert FramesOf(a) == [];
    var b: seq<Event> := [Write(frame)] + a;
    assert b[1..] == a;
    assert FramesOf(b) == [frame];
    var c: seq<Event> := [Home] + b;
    assert c[1..] == b;
    assert c == [Home, Write(frame), Sleep(d)];
    var e: seq<Event> := [Write(frame)];
    assert e[1..] == [];
    assert FramesOf(e) == [frame];
    var f: seq<Event> := [Home] + e;
    assert f[1..] == e;
    assert f == [Home, Write(frame)];
  }

  /** All frame text written is the carried-in frame followed by every
      non-blank line, in order, each with its newline: blank lines only cut
      frames and never add text. */
  lemma {:induction false} RenderWrites(lines: seq<string>, frame: string, d: nat)
    ensures Written(Render(lines, frame, d)) == frame + JoinLines(NonBlank(lines))
    decreases |lines|
  {
    FramesOfShown(frame, d);
    if |lines| == 0 {
      assert Concat([frame]) == frame + Concat([]);
    } else if |lines[0]| > 0 {
      RenderWrites(lines[1..], frame + lines[0] + "\n", d);
      assert NonBlank(lines) == [lines[0]] + NonBlank(lines[1..]);
    } else {
      var head: seq<Event> := [Home, Write(frame), Sleep(d)];
      var tail := Render(lines[1..], "", d);
      FramesOfAppend(head, tail);
      ConcatAppend([frame], FramesOf(tail));
      assert Concat([frame]) == frame + Concat([]);
      RenderWrites(lines[1..], "", d);
    }
  }

  /** Two traces that differ at most in the lengths of their pauses. */
  predicate SameUpToPauses(t1: seq<Event>, t2: seq<Event>) {
    && |t1| == |t2|
    && forall i :: 0 <= i < |t1| ==> t1[i] == t2[i] || (t1[i].Sleep? && t2[i].Sleep?)
  }

  /** The pause length changes nothing in the render loop but the pauses. */
  lemma {:induction false} RenderDelayOnlyInPauses(lines: seq<string>, frame: string, d1: nat, d2: nat)
    ensures SameUpToPauses(Render(lines, frame, d1), Render(lines, frame, d2))
    decreases |lines|
  {
    if |lines| > 0 {
      if |lines[0]| > 0 {
        RenderDelayOnlyInPauses(lines[1..], frame + lines[0] + "\n", d1, d2);
      } else {
        RenderDelayOnlyInPauses(lines[1..], "", d1, d2);
      }
    }
  }

  lemma {:induction false} SameUpToPausesFrames(t1: seq<Event>, t2: seq<Event>)
    requires SameUpToPauses(t1, t2)
    ensures FramesOf(t1) == FramesOf(t2)
    decreases |t1|
  {
    if |t1| > 0 {
      SameUpToPausesFrames(t1[1..], t2[1..]);
    }
  }

  // ---------------------------------------------------------------------
  // Shape of each written frame, and of the end of the trace.

  /** A frame is its lines, each followed by a newline, none of them empty. */
  predicate IsFrameText(s: string) {
    && JoinLines(Lines(s)) == s
    && forall i :: 0 <= i < |Lines(s)| ==> Lines(s)[i] != ""
  }

  lemma {:induction false} SectionsFrames(bs: seq<seq<string>>, d: nat)
    requires |bs| > 0
    requires forall i, j :: 0 <= i < |bs| && 0 <= j < |bs[i]| ==> bs[i][j] != "" && NoNewline(bs[i][j])
    ensures forall i :: 0 <= i < |SectionsTrace(bs, d)| && SectionsTrace(bs, d)[i].Write? ==>
              IsFrameText(SectionsTrace(bs, d)[i].text)
    decreases |bs|
  {
    LinesOfJoin(bs[0]);
    if |bs| > 1 {
      SectionsFrames(bs[1..], d);
    }
  }

  /** When no line holds a newline (as `std::getline` guarantees), no written
      frame contains an empty line. */
  lemma FramesHaveNoBlankLine(lines: seq<string>, d: nat)
    requires forall i :: 0 <= i < |lines| ==> NoNewline(lines[i])
    ensures forall i :: 0 <= i < |Render(lines, "", d)| && Render(lines, "", d)[i].Write? ==>
              IsFrameText(Render(lines, "", d)[i].text)
  {
    RenderMatchesBlocks(lines, d);
    var bs := Blocks(lines);
    BlocksClean(lines);
    forall i, j | 0 <= i < |bs| && 0 <= j < |bs[i]|
      ensures bs[i][j] != "" && NoNewline(bs[i][j])
    {
      assert bs[i][j] in lines;
      var k :| 0 <= k < |lines| && lines[k] == bs[i][j];
    }
    SectionsFrames(bs, d);
  }

  lemma {:induction false} SectionsEnd(bs: seq<seq<string>>, d: nat)
    requires |bs| > 0
    ensures var t := SectionsTrace(bs, d);
            var last := bs[|bs| - 1];
            && (last != [] ==> |t| >= 2 && t[|t| - 2..] == [Home, Write(JoinLines(last))])
            && (last == [] ==> t == [] || t[|t| - 1] == Sleep(d))
    decreases |bs|
  {
    if |bs| > 1 {
      SectionsEnd(bs[1..], d);
    }
  }

  /** The lines after the last blank line are shown once, after a cursor
      home and with no pause after them; when there are none the trace ends
      with the pause of the last blank line, or is empty. */
  lemma RenderEnd(lines: seq<string>, d: nat)
    ensures var t := Render(lines, "", d);
            var bs := Blocks(lines);
            var last := bs[|bs| - 1];
            && (last != [] ==> |t| >= 2 && t[|t| - 2..] == [Home, Write(JoinLines(last))])
            && (last == [] ==> t == [] || t[|t| - 1] == Sleep(d))
  {
    RenderMatchesBlocks(lines, d);
    SectionsEnd(Blocks(lines), d);
  }

  // ---------------------------------------------------------------------
  // Whole runs.

  /** A run that reaches playback is: hide the cursor, the block-by-block
      trace of every line after line 1, show the cursor, exit 0. */
  lemma PlayTrace(opts: Options, lines: seq<string>)
    requires opts.input != [] && opts.speed > 0.0
    requires RateDefined(opts, Some(lines))
    ensures var d := SleepMicros(ResolveRate(opts.fps, First(lines)), opts.speed);
            Play(opts, Some(lines), None) == Run([Hide] + SectionsTrace(Blocks(Rest(lines)), d) + [Show], Exited(0))
  {
    var d := SleepMicros(ResolveRate(opts.fps, First(lines)), opts.speed);
    RenderMatchesBlocks(Rest(lines), d);
  }

  /** How far the render loop gets: all of it, or the events before the
      fault. */
  function Reached(loop: seq<Event>, fault: Option<nat>): nat {
    match fault
    case None => |loop|
    case Some(k) => Min(k, |loop|)
  }

  /** The trace of a run that reaches playback, in terms of the render loop. */
  lemma PlayLoop(opts: Options, lines: seq<string>, fault: Option<nat>)
    requires opts.input != [] && opts.speed > 0.0
    requires RateDefined(opts, Some(lines))
    ensures var loop := Render(Rest(lines), "", SleepMicros(ResolveRate(opts.fps, First(lines)), opts.speed));
            Play(opts, Some(lines), fault).trace == [Hide] + loop[..Reached(loop, fault)] + [Show]
  {
    var loop := Render(Rest(lines), "", SleepMicros(ResolveRate(opts.fps, First(lines)), opts.speed));
    assert loop[..|loop|] == loop;
  }

  /** A run without a fault shows the whole render loop and exits 0. */
  lemma PlayCompletes(opts: Options, lines: seq<string>)
    requires opts.input != [] && opts.speed > 0.0
    requires RateDefined(opts, Some(lines))
    ensures var d := SleepMicros(ResolveRate(opts.fps, First(lines)), opts.speed);
            Play(opts, Some(lines), None) == Run([Hide] + Render(Rest(lines), "", d) + [Show], Exited(0))
  {
  }

  /** A fault cuts the run short but changes nothing before it: the events
      shown are those of the fault-free run up to the fault, then the cursor
      is shown again. */
  lemma PlayFaultIsPrefix(opts: Options, lines: seq<string>, k: nat)
    requires opts.input != [] && opts.speed > 0.0
    requires RateDefined(opts, Some(lines))
    ensures var full := Play(opts, Some(lines), None).trace;
            var cut := Play(opts, Some(lines), Some(k)).trace;
            && 2 <= |cut| <= |full|
            && cut[..|cut| - 1] == full[..|cut| - 1]
            && cut[|cut| - 1] == Show
            && (k + 2 <= |full| ==> |cut| == k + 2)
    ensures Play(opts, Some(lines), Some(k)).status == Raised
  {
    var loop := Render(Rest(lines), "", SleepMicros(ResolveRate(opts.fps, First(lines)), opts.speed));
    var full := Play(opts, Some(lines), None).trace;
    var cut := Play(opts, Some(lines), Some(k)).trace;
    assert full == [Hide] + loop + [Show] by {
      PlayLoop(opts, lines, None);
      assert loop[..|loop|] == loop;
    }
    assert cut == [Hide] + loop[..Min(k, |loop|)] + [Show] by {
      PlayLoop(opts, lines, Some(k));
    }
    BracketPrefix(loop, k);
  }

  /** Bracketing a prefix of the loop agrees with bracketing all of it up
      to the end of the prefix. */
  lemma BracketPrefix(loop: seq<Event>, k: nat)
    ensures var m := Min(k, |loop|);
            var full, cut := [Hide] + loop + [Show], [Hide] + loop[..m] + [Show];
            && 2 <= |cut| <= |full|
            && cut[..|cut| - 1] == full[..|cut| - 1]
            && cut[|cut| - 1] == Show
            && (k + 2 <= |full| ==> |cut| == k + 2)
  {
    var m := Min(k, |loop|);
    assert ([Hide] + loop[..m] + [Show])[..m + 1] == [Hide] + loop[..m];
    assert ([Hide] + loop + [Show])[..m + 1] == [Hide] + loop[..m];
  }

  lemma SameUpToPausesBracket(t1: seq<Event>, t2: seq<Event>, m: nat)
    requires SameUpToPauses(t1, t2) && m <= |t1|
    ensures SameUpToPauses([Hide] + t1[..m] + [Show], [Hide] + t2[..m] + [Show])
  {
  }

  /** Line 1 is consumed whatever it holds: two files that differ only in
      line 1 show the same frames, and the very same run when they resolve to
      the same rate (as they always do when `-f` is given). */
  lemma PlayIgnoresLine1(opts: Options, l1: string, l2: string, rest: seq<string>, fault: Option<nat>)
    requires opts.input != [] && opts.speed > 0.0
    requires RateDefined(opts, Some([l1] + rest)) && RateDefined(opts, Some([l2] + rest))
    ensures FramesOf(Play(opts, Some([l1] + rest), fault).trace) == FramesOf(Play(opts, Some([l2] + rest), fault).trace)
    ensures ResolveRate(opts.fps, l1) == ResolveRate(opts.fps, l2) ==>
              Play(opts, Some([l1] + rest), fault) == Play(opts, Some([l2] + rest), fault)
  {
    var f1, f2 := [l1] + rest, [l2] + rest;
    assert First(f1) == l1 && Rest(f1) == rest;
    assert First(f2) == l2 && Rest(f2) == rest;
    var d1 := SleepMicros(ResolveRate(opts.fps, l1), opts.speed);
    var d2 := SleepMicros(ResolveRate(opts.fps, l2), opts.speed);
    var t1, t2 := Render(rest, "", d1), Render(rest, "", d2);
    RenderDelayOnlyInPauses(rest, "", d1, d2);
    PlayLoop(opts, f1, fault);
    PlayLoop(opts, f2, fault);
    var m := Reached(t1, fault);
    assert m == Reached(t2, fault);
    SameUpToPausesBracket(t1, t2, m);
    SameUpToPausesFrames([Hide] + t1[..m] + [Show], [Hide] + t2[..m] + [Show]);
  }
}
