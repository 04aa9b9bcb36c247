# ASCII video player and encoder: a Dafny model

This project models the two text-handling cores of the `m2a` / `a2s` pair of
command-line tools and proves properties of them.

- **The player (`a2s`)** reads an ASCII video file. It drops line 1, which may
  be a `# FPS: <n>` header. It picks the frame rate from the `-f` flag, then
  the header, then the default of 60. It then replays the remaining lines: it
  gathers non-empty lines into a frame, and on every blank line it moves the
  cursor home, writes the frame and sleeps. A frame left over at the end of
  the stream is written without a sleep. The cursor is hidden before
  playback and shown again afterwards, also when the render loop throws.
  The model is the pure function `Player.Play`. It maps the options, the
  file's lines (or "cannot open") and an optional fault point to a trace of
  events (`Hide | Home | Write(text) | Sleep(micros) | Show`) and an exit
  status.
- **The encoder (`m2a`)** validates its `-f` argument with `is_numeric` and
  uses `is_url` to decide whether to download its input. When `-f` is absent, it derives the rate from a
  probed `num/den` by C++ integer division. It writes the header
  `# FPS: <fps>` followed by a blank line, then every renderer block followed
  by one newline. `Encoder.Serialize` is that file as a string.
- **The round trip** (`RoundTrip.PlayAfterEncode`): the encoder's file is
  split into lines the way `std::getline` splits them (`Text.Lines`) and
  replayed without `-f`. The player reads back the encoder's rate. It shows
  one empty frame for the blank line under the header, and then every
  renderer block in order, each followed by one pause.

Files: `wrappers.dfy` (`Option`), `text.dfy` (digit strings and the getline
line structure), `player.dfy` (a2s.cpp), `encoder.dfy` (m2a.cpp) and
`roundtrip.dfy` (the two together).

The code differs from one natural reading of the file format, and the model
follows the code. That reading keeps a first line that is not a header as
frame content. But a2s.cpp:117 reads line 1 unconditionally, and nothing it
holds ever reaches a frame: `Player.PlayIgnoresLine1` proves this. Blank
lines are also not only separators. Each blank line writes the current
frame even when it is empty, so the blank line right under the header
produces an empty write and a full pause.

## Model

| member | source | states |
|---|---|---|
| `Text.Lines` | a2s.cpp:145 | The lines `std::getline` returns never contain a newline. |
| `Text.LinesOfJoin` | a2s.cpp:145 | Reading back lines that were each written with a trailing newline gives exactly those lines: none lost, merged or added. |
| `Text.JoinOfLines` | a2s.cpp:145 | Rejoining the lines read from a text restores the text, except that a missing final newline is supplied: a last line without a newline is still read. |
| `Player.ResolveRate` | a2s.cpp:116-133 | The rate is chosen in order: the `-f` value when given; else the captured number when line 1 matches `# FPS: [0-9]+` exactly; else 60. A rate other than 60 without `-f` implies that line 1 is such a header. |
| `Player.HeaderRate` | a2s.cpp:121-126 | Without `-f`, a line `# FPS: <digits>` yields the number those digits denote. |
| `Player.SleepMicros` | a2s.cpp:135-136 | The pause is `1/rate/speed` seconds, and the value passed to `usleep` is the largest whole number of microseconds not above `10^6/(rate*speed)`. The truncating cast is at a2s.cpp:156. |
| `Player.Render` | a2s.cpp:145-165 | The render loop never hides or shows the cursor, and every pause it makes has the same length `d`. |
| `Player.Play` | a2s.cpp:96-176 | An empty input path or a speed ≤ 0 gives exit 1 with an empty trace, whatever the file; the speed check comes before the file is opened. An unopenable file gives exit 1 and no cursor escape. Otherwise the trace starts with Hide and ends with Show, each exactly once. The run exits 0 without a fault and re-raises after Show with one. |
| `Player.BlocksCount` | a2s.cpp:152-158 | Cutting the lines at blank lines gives one block more than there are blank lines. |
| `Player.BlocksClean` | a2s.cpp:147-150 | No block holds a blank line, and every line in a block is an input line. |
| `Player.BlocksRejoin` | a2s.cpp:145-158 | Rejoining the blocks with one blank line between neighbours gives the input lines back: the cut loses, adds and reorders nothing. |
| `Player.RenderSections` | a2s.cpp:145-165 | From any gathered prefix, the loop shows exactly the blocks of the remaining lines, with the prefix joined to the first block. |
| `Player.RenderMatchesBlocks` | a2s.cpp:145-165 | From an empty frame, the loop gives the reference trace. Each block closed by a blank line becomes Home, Write(its lines, each with a newline), Sleep. The last block becomes Home, Write only if it is non-empty. |
| `Player.RenderSleepCount` | a2s.cpp:152-158 | The number of pauses equals the number of blank lines. |
| `Player.RenderWrites` | a2s.cpp:147-165 | All frame text written, concatenated, is every non-blank line in order, each followed by a newline. |
| `Player.RenderDelayOnlyInPauses` | a2s.cpp:156 | The pause length changes nothing in the loop's trace except the pause events. |
| `Player.FramesHaveNoBlankLine` | a2s.cpp:147-150 | Every written frame is a run of complete lines, none of them empty. |
| `Player.RenderEnd` | a2s.cpp:161-165 | When non-blank lines follow the last blank line, they are written once, after Home, with no pause after them. Otherwise the trace is empty or ends with the pause of the last blank line. |
| `Player.PlayTrace` | a2s.cpp:141-176 | A run that reaches playback without a fault is Hide, then the reference block trace of every line after line 1, then Show, with exit 0. |
| `Player.PlayFaultIsPrefix` | a2s.cpp:168-172 | A faulty run agrees with the fault-free run up to the fault, its last event is the cursor being shown, and it ends by re-raising. |
| `Player.PlayIgnoresLine1` | a2s.cpp:116-117 | Files that differ only in line 1 write the same frames, with or without `-f` and whether or not line 1 is a header. They give the identical run when they resolve to the same rate. |
| `Encoder.UrlIff` | m2a.cpp:60-63 | After `http://` or `https://`, a string is a URL exactly when the rest is non-empty and contains no white-space character. |
| `Encoder.CheckFpsFlag` | m2a.cpp:138-145 | A `-f` argument is accepted unchanged exactly when it is one or more characters, all `0`-`9`. This is `is_numeric` of m2a.cpp:55-58 as a character test. Any other argument gives exit 1. |
| `Encoder.CheckFpsFlagPositive` | m2a.cpp:138-145 | Corrected check: a `-f` argument is accepted exactly when it is a numeral denoting at least 1. Every value it accepts, the check as written accepts too. |
| `Encoder.TruncDiv` | m2a.cpp:225 | C++ `/` on ints: the remainder is smaller than the divisor in magnitude and has the sign of the dividend, so the quotient truncates toward zero. |
| `Encoder.Digits` | m2a.cpp:225 | The decimal text of a natural number is a numeral without a leading zero (except `0` itself) that denotes that number. |
| `Encoder.DigitsUnique` | m2a.cpp:225 | Conversely, every numeral without a leading zero is the decimal text of the number it denotes, so the text of a number is unique. |
| `Encoder.Decimal` | m2a.cpp:225-227 | `std::to_string` of an int passes `is_numeric` exactly when the int is not negative. A non-negative int becomes its canonical numeral. A negative one becomes `-` followed by the canonical numeral of its magnitude. |
| `Encoder.ProbeFps` | m2a.cpp:220-231 | The probed rate is always a canonical numeral, so the header text is fixed. It is the truncated quotient when that is ≥ 0 and `"60"` when it is negative. |
| `Encoder.SlowQuotient` | m2a.cpp:225 | A probed rate below one frame per second (`0 <= num < den`) truncates to a quotient of 0. |
| `Encoder.ProbeFpsPositive` | m2a.cpp:225-231 | Corrected derivation: the rate is the quotient when that is ≥ 1 and 60 otherwise, so it is always at least 1. |
| `Encoder.Serialize` | m2a.cpp:260-261 | The file begins with exactly `# FPS: ` + fps + `\n\n`. |
| `Encoder.SerializeAppend` | m2a.cpp:278 | One more renderer block adds that block and exactly one newline at the end of the file, and nothing else. |
| `Encoder.SerializeLength` | m2a.cpp:261-282 | The file's length is the header plus every block plus one newline per block. |
| `RoundTrip.SerializedLines` | m2a.cpp:261-278 | Read back line by line, the file is the header line, a blank line, then each frame's lines followed by a blank line. |
| `RoundTrip.RenderGathers` | a2s.cpp:147-150 | A run of non-empty lines only grows the gathered frame by those lines, each with a newline. |
| `RoundTrip.RenderSpaced` | a2s.cpp:145-158 | Frames each closed by a blank line replay as Home, Write(frame), Sleep per frame, in order. |
| `RoundTrip.ReadBackRate` | a2s.cpp:119-126 | The player, without `-f`, reads back from an encoded file exactly the rate the encoder wrote into its header (m2a.cpp:261). |
| `RoundTrip.EncodedRun` | a2s.cpp:141-176 | Over the lines of an encoded file (header, blank line, each block closed by a blank line), a run without `-f` has a usable rate. It is Hide, one empty Write and Sleep, each block with its Sleep, Show, and exit 0. |
| `RoundTrip.PlayAfterEncode` | m2a.cpp:261-282 | The round trip. A numeric, non-zero fps and blocks of non-empty lines are encoded, then read back and replayed without `-f`. The rate is usable. The run is Hide, one empty Write with its Sleep, each block in order with a Sleep at the header's rate, Show, and exit 0. |
| `RoundTrip.FramesAfterEncode` | m2a.cpp:261-282 | The frames the player writes for an encoded file are `""` followed by the renderer blocks: the blocks come back unchanged, in order, none lost, split or merged. |
| `RoundTrip.ProbedZeroRate` | m2a.cpp:225-231 | As written, every probed rate `num/den` with `0 <= num < den` (1/2, say) becomes `"0"`. The header then says `# FPS: 0`, and the player's rate for that file is not positive. |
| `RoundTrip.FlagReplays` | m2a.cpp:138-145 | An accepted `-f` value of at least 1 is written into the header as given. The player, without its own `-f`, reads that rate back and replays the file: Hide, one empty Write and Sleep, each block with its Sleep, Show, exit 0. |
| `RoundTrip.FlagZeroRate` | m2a.cpp:138-145 | As written, `-f 0` is accepted. Any accepted value denoting 0 produces a header whose rate the player cannot use: the rate is not positive. |
| `RoundTrip.CheckedFlagReplays` | m2a.cpp:138-145 | With the corrected check, every accepted `-f` value yields a file the player paces at exactly that rate. |
| `RoundTrip.ProbedRateReplays` | m2a.cpp:220-231 | With the corrected derivation, every probed rate yields a file the player can pace, at the quotient (if ≥ 1) or 60. |

## Findings

| source | as written | input that shows it | evidently intended | confidence | as-written member | corrected member |
|---|---|---|---|---|---|---|
| m2a.cpp:225-231 | The probed rate `num / den` is replaced by `"60"` only when its decimal text fails `is_numeric`, that is, only when the quotient is negative. A zero quotient passes. | Any stream whose average frame rate is below 1, e.g. `avg_frame_rate` = `1/2`: the quotient is 0, the header written is `# FPS: 0`, and the player computes `1.0 / 0` for its delay. | Fall back to 60 whenever the quotient is below 1, as the warning "Could not determine FPS" suggests. | medium; not executed | `Encoder.ProbeFps`, exhibited by `RoundTrip.ProbedZeroRate` | `Encoder.ProbeFpsPositive`, proved usable by `RoundTrip.ProbedRateReplays` |
| m2a.cpp:138-145 | `-f` is checked only with `is_numeric`, so a rate of zero passes. The header at m2a.cpp:261 is written whatever `ffmpeg` does with `-r 0`. | `m2a -f 0 <video>`: the header written is `# FPS: 0`, and the player computes `1.0 / 0` for its delay. | Reject `-f` values below 1 with the same "FPS must be a number" exit. | medium; not executed | `Encoder.CheckFpsFlag`, exhibited by `RoundTrip.FlagZeroRate` | `Encoder.CheckFpsFlagPositive`, proved usable by `RoundTrip.CheckedFlagReplays` |

## Left out

- Option parsing is not modelled: `getopt_long`, help and version output, usage and error text on standard error, and the encoder's progress counter. Rejections appear only as exit statuses.
- `std::stod` and `std::stoi` are not modelled. The player's speed and `-f` value arrive as reals, and the probed numerator and denominator as 32-bit ints. Their partial-parse rules and exceptions are left out, and so is the case of a probe output that is not a number.
- `Player.Play`: its precondition requires a positive resolved rate, so the model excludes every file and `-f` value whose rate is 0 or below. The source divides by the rate (a2s.cpp:135), and the cast to `useconds_t` at a2s.cpp:156 is undefined for the resulting infinite or negative delay. But that cast is reached only at a blank line. A file such as `# FPS: 0` followed by one non-blank line runs without fault in the source (Hide, Home, Write, Show, exit 0), and the model says nothing about it either. A non-numeric `-f` makes `std::stod` throw before the cursor is hidden.
- `Player.Play`: signals are not modelled. a2s.cpp installs no handler, so a SIGINT (Ctrl-C, typically during `usleep`) or a SIGPIPE ends the process after Hide with no Show. The source leaves the cursor hidden in that case, and `Play` cannot express such a run.
- `Player.Play`: faults are modelled only inside the guarded render loop (a2s.cpp:143-166). Writing the cursor escapes outside it is taken never to throw, since iostreams do not throw by default.
- `Player.SleepMicros`: computed in exact real arithmetic instead of IEEE doubles. It does not model rounding of `1.0 / rate / speed`, or the 32-bit range of `useconds_t`, whose overflow the source leaves undefined.
- `Encoder.ProbeFps`: requires a non-zero denominator and excludes `INT_MIN / -1`. C++ leaves both undefined, and a probe of `0/0` would crash there.
- `Text.Lines`: treats the file as characters. It does not model byte encodings or `\r\n` line ends. A `\r` simply stays part of its line, as with `std::getline`.
- The external processes are not modelled: `mktemp`, `wget`, `ffprobe`, `ffmpeg`, `jp2a`, and the preview call to `./a2s`. Neither are the temporary directory, the overwrite prompt or the URL download. `is_url` itself is modelled. These are process and file-system glue whose results enter the model only as parameters.
- The `std::filesystem` helpers are not modelled: output-path defaulting, file-name helpers, and the order `directory_iterator` lists frames in. Renderer blocks are taken in the order given.
- Real sleeping, flushing and the terminal are represented only as trace events.
