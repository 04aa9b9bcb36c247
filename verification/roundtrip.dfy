/** The encoder and the player meet only through the file: what the encoder
    serialises, `std::getline` splits into lines and the player replays. */
module RoundTrip {
  import opened Wrappers
  import opened Text
  import opened Player
  import opened Encoder

  /** A renderer block as lines: at least one line, none empty, none holding
      a newline. */
  predicate IsFrame(f: seq<string>) {
    |f| > 0 && forall i :: 0 <= i < |f| ==> f[i] != "" && NoNewline(f[i])
  }

  /** Each frame's text as the renderer prints it: every line newline-ended. */
  function FrameTexts(frames: seq<seq<string>>): (blocks: seq<string>)
    ensures |blocks| == |frames|
    ensures forall i :: 0 <= i < |frames| ==> blocks[i] == JoinLines(frames[i])
    decreases |frames|
  {
    if |frames| == 0 then [] else [JoinLines(frames[0])] + FrameTexts(frames[1..])
  }

  /** The lines of the frames, each frame followed by a blank line. */
  function Spaced(frames: seq<seq<string>>): seq<string>
    decreases |frames|
  {
    if |frames| == 0 then [] else frames[0] + [""] + Spaced(frames[1..])
  }

  /** Each frame shown after a cursor home and followed by a pause. */
  function FramesTrace(frames: seq<seq<string>>, d: nat): seq<Event>
    decreases |frames|
  {
    if |frames| == 0 then []
    else [Home, Write(JoinLines(frames[0])), Sleep(d)] + FramesTrace(frames[1..], d)
  }

  lemma {:induction false} SpacedText(frames: seq<seq<string>>)
    ensures JoinLines(FrameTexts(frames)) == JoinLines(Spaced(frames))
    decreases |frames|
  {
    if |frames| > 0 {
      var f := frames[0];
      SpacedText(frames[1..]);
      assert FrameTexts(frames)[1..] == FrameTexts(frames[1..]);
      JoinLinesAppend(f + [""], Spaced(frames[1..]));
      JoinLinesAppend(f, [""]);
      assert JoinLines([""]) == "\n";
    }
  }

  lemma {:induction false} SpacedNoNewline(frames: seq<seq<string>>)
    requires forall i :: 0 <= i < |frames| ==> IsFrame(frames[i])
    ensures forall i :: 0 <= i < |Spaced(frames)| ==> NoNewline(Spaced(frames)[i])
    decreases |frames|
  {
    if |frames| > 0 {
      SpacedNoNewline(frames[1..]);
      var f := frames[0];
      var s := Spaced(frames);
      assert s == f + ([""] + Spaced(frames[1..]));
      forall i | 0 <= i < |s|
        ensures NoNewline(s[i])
      {
        if i < |f| {
          assert s[i] == f[i];
        } else if i > |f| {
          assert s[i] == Spaced(frames[1..])[i - |f| - 1];
        }
      }
    }
  }

  lemma HeaderText(fps: string)
    ensures Header(fps) == JoinLines([FpsPrefix + fps, ""])
  {
    var head := [FpsPrefix + fps, ""];
    assert head[1..] == [""];
    assert JoinLines([""]) == "" + "\n" + JoinLines([]);
    assert JoinLines(head) == FpsPrefix + fps + "\n" + JoinLines([""]);
  }

  lemma HeaderNoNewline(fps: string, frames: seq<seq<string>>)
    requires IsNumeric(fps)
    requires forall i :: 0 <= i < |frames| ==> IsFrame(frames[i])
    ensures var ls := [FpsPrefix + fps, ""] + Spaced(frames);
            forall i :: 0 <= i < |ls| ==> NoNewline(ls[i])
  {
    var head := [FpsPrefix + fps, ""];
    var ls := head + Spaced(frames);
    SpacedNoNewline(frames);
    var h := FpsPrefix + fps;
    forall i | 0 <= i < |h|
      ensures h[i] != '\n'
    {
      if i >= |FpsPrefix| {
        assert h[i] == fps[i - |FpsPrefix|];
        assert IsDigit(fps[i - |FpsPrefix|]);
      }
    }
    forall i | 0 <= i < |ls|
      ensures NoNewline(ls[i])
    {
      if i >= 2 {
        assert ls[i] == Spaced(frames)[i - 2];
      }
    }
  }

  /** `std::getline` gives back the header line, the blank line after it,
      and then each frame's lines followed by a blank line. */
  lemma {:induction false} SerializedLines(fps: string, frames: seq<seq<string>>)
    requires IsNumeric(fps)
    requires forall i :: 0 <= i < |frames| ==> IsFrame(frames[i])
    ensures Lines(Serialize(fps, FrameTexts(frames))) == [FpsPrefix + fps, ""] + Spaced(frames)
  {
    var head := [FpsPrefix + fps, ""];
    HeaderText(fps);
    SpacedText(frames);
    JoinLinesAppend(head, Spaced(frames));
    assert Serialize(fps, FrameTexts(frames)) == JoinLines(head + Spaced(frames));
    HeaderNoNewline(fps, frames);
    LinesOfJoin(head + Spaced(frames));
  }

  /** The non-empty lines of a frame only grow the frame being gathered. */
  lemma {:induction false} RenderGathers(f: seq<string>, rest: seq<string>, frame: string, d: nat)
    requires forall i :: 0 <= i < |f| ==> f[i] != ""
    ensures Render(f + rest, frame, d) == Render(rest, frame + JoinLines(f), d)
    decreases |f|
  {
    if |f| > 0 {
      assert (f + rest)[0] == f[0];
      assert (f + rest)[1..] == f[1..] + rest;
      RenderGathers(f[1..], rest, frame + f[0] + "\n", d);
      assert JoinLines(f) == f[0] + "\n" + JoinLines(f[1..]);
      assert frame + f[0] + "\n" + JoinLines(f[1..]) == frame + JoinLines(f);
    } else {
      assert f + rest == rest;
      assert JoinLines(f) == "";
      assert frame + JoinLines(f) == frame;
    }
  }

  /** Frames each closed by a blank line replay as one frame and one pause
      each. */
  lemma {:induction false} RenderSpaced(frames: seq<seq<string>>, d: nat)
    requires forall i :: 0 <= i < |frames| ==> IsFrame(frames[i])
    ensures Render(Spaced(frames), "", d) == FramesTrace(frames, d)
    decreases |frames|
  {
    if |frames| > 0 {
      var f := frames[0];
      var tail := Spaced(frames[1..]);
      assert Spaced(frames) == f + ([""] + tail);
      RenderGathers(f, [""] + tail, "", d);
      assert "" + JoinLines(f) == JoinLines(f);
      assert ([""] + tail)[1..] == tail;
      RenderSpaced(frames[1..], d);
    }
  }

  lemma {:induction false} FramesOfFramesTrace(frames: seq<seq<string>>, d: nat)
    ensures FramesOf(FramesTrace(frames, d)) == FrameTexts(frames)
    decreases |frames|
  {
    if |frames| > 0 {
      var head: seq<Event> := [Home, Write(JoinLines(frames[0])), Sleep(d)];
      FramesOfShown(JoinLines(frames[0]), d);
      FramesOfAppend(head, FramesTrace(frames[1..], d));
      FramesOfFramesTrace(frames[1..], d);
    }
  }

  /** The player reads back the rate written in the header. */
  lemma {:induction false} EncodedRate(fps: string, frames: seq<seq<string>>, lines: seq<string>)
    requires IsNumeric(fps)
    requires lines == [FpsPrefix + fps, ""] + Spaced(frames)
    ensures ResolveRate(None, First(lines)) == DigitsValue(fps) as real
    ensures Rest(lines) == [""] + Spaced(frames)
  {
    assert lines[0] == FpsPrefix + fps;
    assert lines[1..] == [""] + Spaced(frames);
    HeaderRate(fps);
  }

  /** The render loop over an encoded file: the empty frame of the blank
      line under the header, then every frame with its pause. */
  lemma {:induction false} EncodedLoop(frames: seq<seq<string>>, d: nat)
    requires forall i :: 0 <= i < |frames| ==> IsFrame(frames[i])
    ensures Render([""] + Spaced(frames), "", d) == [Home, Write(""), Sleep(d)] + FramesTrace(frames, d)
  {
    assert ([""] + Spaced(frames))[1..] == Spaced(frames);
    RenderSpaced(frames, d);
  }

  lemma EncodedFrames(frames: seq<seq<string>>, d: nat)
    ensures FramesOf([Hide, Home, Write(""), Sleep(d)] + FramesTrace(frames, d) + [Show]) == [""] + FrameTexts(frames)
  {
    var head: seq<Event> := [Home, Write(""), Sleep(d)];
    var body := FramesTrace(frames, d);
    assert [Hide, Home, Write(""), Sleep(d)] + body + [Show] == [Hide] + (head + body) + [Show];
    FramesOfShown("", d);
    FramesOfFramesTrace(frames, d);
    FramesOfAppend(head, body);
    FramesOfAppend([Hide], head + body);
    FramesOfAppend([Hide] + (head + body), [Show]);
    assert FramesOf([Hide]) == [] by {
      assert [Hide][1..] == [];
    }
    assert FramesOf([Show]) == [] by {
      assert [Show][1..] == [];
    }
  }

  /** The render loop over an encoded file's lines, at the header's rate. */
  lemma {:induction false} EncodedLoopAtRate(fps: string, frames: seq<seq<string>>, opts: Options, lines: seq<string>)
    requires IsNumeric(fps)
    requires forall i :: 0 <= i < |frames| ==> IsFrame(frames[i])
    requires opts.fps.None? && opts.speed > 0.0 && DigitsValue(fps) > 0
    requires lines == [FpsPrefix + fps, ""] + Spaced(frames)
    ensures var d := SleepMicros(DigitsValue(fps) as real, opts.speed);
            && ResolveRate(opts.fps, First(lines)) == DigitsValue(fps) as real
            && Render(Rest(lines), "", d) == [Home, Write(""), Sleep(d)] + FramesTrace(frames, d)
  {
    EncodedRate(fps, frames, lines);
    EncodedLoop(frames, SleepMicros(DigitsValue(fps) as real, opts.speed));
  }

  /** The whole run over an encoded file's lines, without `-f`. */
  lemma {:induction false} EncodedRun(fps: string, frames: seq<seq<string>>, opts: Options, lines: seq<string>)
    requires IsNumeric(fps) && DigitsValue(fps) > 0
    requires forall i :: 0 <= i < |frames| ==> IsFrame(frames[i])
    requires opts.input != [] && opts.speed > 0.0 && opts.fps.None?
    requires lines == [FpsPrefix + fps, ""] + Spaced(frames)
    ensures var d := SleepMicros(DigitsValue(fps) as real, opts.speed);
            && RateDefined(opts, Some(lines))
            && Play(opts, Some(lines), None) == Run([Hide, Home, Write(""), Sleep(d)] + FramesTrace(frames, d) + [Show], Exited(0))
  {
    EncodedLoopAtRate(fps, frames, opts, lines);
    PlayCompletes(opts, lines);
    var d := SleepMicros(DigitsValue(fps) as real, opts.speed);
    OpeningFrame(d, FramesTrace(frames, d));
  }

  lemma OpeningFrame(d: nat, body: seq<Event>)
    ensures [Hide] + ([Home, Write(""), Sleep(d)] + body) + [Show] == [Hide, Home, Write(""), Sleep(d)] + body + [Show]
  {
    assert [Hide, Home, Write(""), Sleep(d)] == [Hide] + [Home, Write(""), Sleep(d)];
  }

  /** The player reads back the rate the encoder wrote into the header. */
  lemma {:induction false} ReadBackRate(fps: string, frames: seq<seq<string>>)
    requires IsNumeric(fps)
    requires forall i :: 0 <= i < |frames| ==> IsFrame(frames[i])
    ensures ResolveRate(None, First(Lines(Serialize(fps, FrameTexts(frames))))) == DigitsValue(fps) as real
  {
    var lines := Lines(Serialize(fps, FrameTexts(frames)));
    SerializedLines(fps, frames);
    EncodedRate(fps, frames, lines);
  }

  /** Replaying an encoded file, without `-f` and at a rate of at least one:
      after the cursor is hidden comes one empty frame and pause for the
      blank line under the header, then every frame in order, each followed
      by a pause at the header's rate; then the cursor is shown and the
      player exits 0. */
  lemma {:induction false} PlayAfterEncode(fps: string, frames: seq<seq<string>>, input: string, speed: real)
    requires IsNumeric(fps) && DigitsValue(fps) > 0
    requires forall i :: 0 <= i < |frames| ==> IsFrame(frames[i])
    requires input != [] && speed > 0.0
    ensures RateDefined(Options(input, speed, None), Some(Lines(Serialize(fps, FrameTexts(frames)))))
    ensures var d := SleepMicros(DigitsValue(fps) as real, speed);
            Play(Options(input, speed, None), Some(Lines(Serialize(fps, FrameTexts(frames)))), None)
              == Run([Hide, Home, Write(""), Sleep(d)] + FramesTrace(frames, d) + [Show], Exited(0))
  {
    var lines := Lines(Serialize(fps, FrameTexts(frames)));
    SerializedLines(fps, frames);
    EncodedRun(fps, frames, Options(input, speed, None), lines);
  }

  /** The frames the player writes for an encoded file are exactly the
      renderer blocks, after the empty one of the blank line under the
      header. */
  lemma {:induction false} FramesAfterEncode(fps: string, frames: seq<seq<string>>, input: string, speed: real)
    requires IsNumeric(fps) && DigitsValue(fps) > 0
    requires forall i :: 0 <= i < |frames| ==> IsFrame(frames[i])
    requires input != [] && speed > 0.0
    ensures RateDefined(Options(input, speed, None), Some(Lines(Serialize(fps, FrameTexts(frames)))))
    ensures FramesOf(Play(Options(input, speed, None), Some(Lines(Serialize(fps, FrameTexts(frames)))), None).trace) == [""] + FrameTexts(frames)
  {
    PlayAfterEncode(fps, frames, input, speed);
    EncodedFrames(frames, SleepMicros(DigitsValue(fps) as real, speed));
  }

  /** The probed rate as written: a stream slower than one frame per second
      (1/2, say) yields "0", which passes `is_numeric`, so the header says
      `# FPS: 0` and the player would divide by a zero rate. */
  lemma {:induction false} ProbedZeroRate(num: int32, den: int32, frames: seq<seq<string>>, input: string, speed: real)
    requires 0 <= num < den
    requires forall i :: 0 <= i < |frames| ==> IsFrame(frames[i])
    requires input != [] && speed > 0.0
    ensures ProbeFps(num, den) == "0"
    ensures !RateDefined(Options(input, speed, None), Some(Lines(Serialize(ProbeFps(num, den), FrameTexts(frames)))))
  {
    SlowQuotient(num as int, den as int);
    assert Decimal(0) == "0";
    ReadBackRate("0", frames);
    assert DigitsValue("0") == 0;
  }

  /** With the fallback also taken for a zero quotient, every probed rate
      replays: the player reads back the very rate the encoder derived. */
  lemma {:induction false} ProbedRateReplays(num: int32, den: int32, frames: seq<seq<string>>, input: string, speed: real)
    requires den != 0 && !(num == -0x8000_0000 && den == -1)
    requires forall i :: 0 <= i < |frames| ==> IsFrame(frames[i])
    requires input != [] && speed > 0.0
    ensures var fps := ProbeFpsPositive(num, den);
            var lines := Lines(Serialize(fps, FrameTexts(frames)));
            && RateDefined(Options(input, speed, None), Some(lines))
            && ResolveRate(None, First(lines)) == (if TruncDiv(num as int, den as int) >= 1 then TruncDiv(num as int, den as int) else 60) as real
  {
    var fps := ProbeFpsPositive(num, den);
    ReadBackRate(fps, frames);
  }

  /** An accepted `-f` value is written into the header as given, and the
      player, run without `-f`, paces the file at that rate whenever it is at
      least one: it reads the rate back and replays every frame. */
  lemma {:induction false} FlagReplays(arg: string, frames: seq<seq<string>>, input: string, speed: real)
    requires forall i :: 0 <= i < |frames| ==> IsFrame(frames[i])
    requires input != [] && speed > 0.0
    ensures CheckFpsFlag(arg).Accepted? && DigitsValue(arg) > 0 ==>
              var lines := Lines(Serialize(CheckFpsFlag(arg).fps, FrameTexts(frames)));
              var d := SleepMicros(DigitsValue(arg) as real, speed);
              && ResolveRate(None, First(lines)) == DigitsValue(arg) as real
              && RateDefined(Options(input, speed, None), Some(lines))
              && Play(Options(input, speed, None), Some(lines), None)
                   == Run([Hide, Home, Write(""), Sleep(d)] + FramesTrace(frames, d) + [Show], Exited(0))
  {
    if CheckFpsFlag(arg).Accepted? && DigitsValue(arg) > 0 {
      ReadBackRate(arg, frames);
      PlayAfterEncode(arg, frames, input, speed);
    }
  }

  /** The `-f` check as written lets a rate of zero through: `-f 0` (or
      `-f 00`) is accepted, the header says `# FPS: 0`, and the player's rate
      for that file is not positive. */
  lemma {:induction false} FlagZeroRate(arg: string, frames: seq<seq<string>>, input: string, speed: real)
    requires forall i :: 0 <= i < |frames| ==> IsFrame(frames[i])
    requires input != [] && speed > 0.0
    ensures CheckFpsFlag("0") == Accepted("0") && DigitsValue("0") == 0
    ensures CheckFpsFlag(arg).Accepted? && DigitsValue(arg) == 0 ==>
              !RateDefined(Options(input, speed, None), Some(Lines(Serialize(CheckFpsFlag(arg).fps, FrameTexts(frames)))))
  {
    assert "0"[..0] == [];
    if CheckFpsFlag(arg).Accepted? && DigitsValue(arg) == 0 {
      ReadBackRate(arg, frames);
    }
  }

  /** With zero also rejected, every accepted `-f` value yields a file the
      player can pace, at exactly that rate. */
  lemma {:induction false} CheckedFlagReplays(arg: string, frames: seq<seq<string>>, input: string, speed: real)
    requires forall i :: 0 <= i < |frames| ==> IsFrame(frames[i])
    requires input != [] && speed > 0.0
    ensures CheckFpsFlagPositive(arg).Accepted? ==>
              var lines := Lines(Serialize(CheckFpsFlagPositive(arg).fps, FrameTexts(frames)));
              && RateDefined(Options(input, speed, None), Some(lines))
              && ResolveRate(None, First(lines)) == DigitsValue(arg) as real
  {
    if CheckFpsFlagPositive(arg).Accepted? {
      ReadBackRate(arg, frames);
    }
  }
}
