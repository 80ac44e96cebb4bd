# PomodoroTimer, modelled in Dafny

PomodoroTimer is a pair of small Python console scripts.

- `pomodoroCLI.py` holds two functions.
  - `countdown(minutes)` turns the minutes into seconds. It prints one `MM:SS` frame per remaining second and then "Time's up!".
  - `pomodoro_cycle(work_time, break_time, cycles)` runs `cycles` numbered work sessions. Each session is announced and counted down. It ends with "Pomodoro session complete!".
- `pomodoro.py` holds its own copy of `countdown` and an entry point that runs `countdown(25)`.

The model treats what each procedure prints as a sequence of texts (`seq<string>`), one element per `print` call.

- **`display.dfy`, module `Display`.** This is the pure formatting. It covers `divmod(seconds, 60)`, the padded f-string `f"{mins:02}:{secs:02}"` and `str(n)`. Beside them sits a parser for `MM:SS` text. The parser is the reference inverse of the formatting, so "the frame shows `s` seconds" is stated as a round trip.
- **`timer.dfy`, module `Timer`.** This is the specification of one countdown: the values the loop visits, the frames it prints and the closing message. It also holds the lemmas about that output.
- **`pomodoro_cli.dfy`, module `PomodoroCli`.** This holds both loops of pomodoroCLI.py as methods.
  - `Countdown` is the `while seconds:` loop.
  - `Cycle` is the `for cycle in range(cycles)` loop. Its break guard `cycle < cycle - 1` is kept exactly as written.
  - Each method is proved equal to a specification function. The lemmas about the schedule are stated on those functions.
- **`pomodoro.dfy`, module `Pomodoro`.** This holds pomodoro.py's own copy of the loop and its entry point.

The guard at pomodoroCLI.py:11 is false for every integer. Because of that, the break branch is dead in the model as it is in the source, and `break_time` has no effect on the output.

## Model

| member | source | states |
|---|---|---|
| Display.Decimal | pomodoroCLI.py:8 | `str(n)` for a session number: at least one character, all decimal digits, no leading zero unless `n == 0`; one digit exactly when `n < 10`, at most two exactly when `n < 100` |
| Display.DecimalRoundTrip | pomodoroCLI.py:8 | the printed session number reads back as the number itself |
| Display.Pad2 | pomodoroCLI.py:24 | the `:02` field is all digits and at least two long; exactly two long when the value is below 100; it starts with '0' exactly when the value is below 10 |
| Display.Pad2RoundTrip | pomodoroCLI.py:24 | a zero-padded field reads back as the value it was made from |
| Display.DivMod60 | pomodoroCLI.py:23 | `divmod(seconds, 60)` gives `(mins, secs)` with `mins * 60 + secs == seconds` and `secs < 60` |
| Display.Clock | pomodoroCLI.py:24 | the f-string has the padded minutes, then a single ':', then the padded seconds; every other character is a digit; the seconds field is two characters when it is below 100 |
| Display.FormatMMSS | pomodoroCLI.py:23-24 | a frame is at least five characters, its only ':' sits third from the end, every other character is a digit, it is exactly five long (`MM:SS`) exactly when under 100 minutes remain, and it starts with '0' exactly when under 10 minutes remain (so 6000 seconds is "100:00", with no padding beyond two digits) |
| Display.ClockRoundTrip | pomodoroCLI.py:24 | parsing the f-string recovers both of its fields |
| Display.FrameRoundTrip | pomodoroCLI.py:23-24 | every frame parses; its fields satisfy `mins * 60 + secs == seconds` with `secs < 60`; the frame reads back as exactly the remaining seconds |
| Display.FormatMMSSInjective | pomodoroCLI.py:23-24 | two different remaining times never print the same frame |
| Display.FormatFullSession | pomodoro.py:9-10 | 1500 seconds is shown as "25:00" |
| Display.FormatUnderAMinute | pomodoro.py:9-10 | 59 seconds is shown as "00:59" and 1 second as "00:01": both fields are zero-padded |
| Display.FormatZero | pomodoroCLI.py:23-24 | 0 seconds would be shown as "00:00" |
| Timer.ShownAt | pomodoroCLI.py:21-26 | starting from `seconds`, the loop visits exactly `seconds` values, and the `i`-th one is `seconds - i` |
| Timer.FramesAt | pomodoroCLI.py:21-26 | the `i`-th frame printed is the frame for `seconds - i` |
| Timer.CountdownLength | pomodoroCLI.py:21-27 | `countdown(minutes)` prints `minutes * 60` frames, one per loop iteration, plus the closing line |
| Timer.CountdownShowsEachSecond | pomodoroCLI.py:21-26 | the frames read back as `minutes * 60, minutes * 60 - 1, ..., 1`, one less each time, followed by exactly one more line |
| Timer.CountdownNeverShowsZero | pomodoroCLI.py:22-26 | "00:00" is never printed, because the loop exits at 0 before printing |
| Timer.CountdownTimesUpOnceAtEnd | pomodoroCLI.py:27 | "Time's up!" appears exactly once, at the last position, after all frames |
| Timer.CountdownLines | pomodoroCLI.py:24-27 | every line a countdown prints is either "Time's up!" or a frame that contains ':' and reads back as some number of remaining seconds |
| PomodoroCli.SessionBanner | pomodoroCLI.py:8 | the banner is "Work session ", then the session number in decimal, then " started!" (so its first character is 'W') |
| PomodoroCli.BannerRoundTrip | pomodoroCLI.py:8 | the number between "Work session " and " started!" is all digits and reads back as the session it announces |
| PomodoroCli.Countdown | pomodoroCLI.py:17-27 | the `while seconds:` loop prints exactly the countdown specification `CountdownOutput(minutes)` |
| PomodoroCli.BreakNeverDue | pomodoroCLI.py:11 | the guard `cycle < cycle - 1` is false for every integer |
| PomodoroCli.Cycle | pomodoroCLI.py:3-15 | the `for` loop prints exactly `CycleOutput(work_time, cycles)`: one banner and one work countdown per cycle, then the closing line; `break_time` does not appear in it |
| PomodoroCli.SessionBlockSize | pomodoroCLI.py:8-9 | each pass of the cycle loop prints `work * 60 + 2` lines |
| PomodoroCli.CycleLength | pomodoroCLI.py:7-15 | the cycle prints `max(cycles, 0)` blocks of `work * 60 + 2` lines plus the closing line |
| PomodoroCli.CycleSessionAt | pomodoroCLI.py:7-9 | block `k` of the cycle is the banner "Work session {k + 1} started!" followed by exactly one `countdown(work_time)`, so the sessions are numbered 1..cycles in order |
| PomodoroCli.SessionsLines | pomodoroCLI.py:7-9 | every line the work sessions print is a banner "Work session {k} started!" with `1 <= k <= n`, "Time's up!", or a frame that reads back as some number of remaining seconds |
| PomodoroCli.SessionsAvoid | pomodoroCLI.py:7-13 | a non-empty line that does not start with 'W', contains no ':' and is not "Time's up!" is never printed by the work sessions |
| PomodoroCli.CycleCompleteOnceAtEnd | pomodoroCLI.py:7-15 | "Pomodoro session complete!" appears exactly once, as the last line, also when `cycles <= 0` |
| PomodoroCli.CycleNeverBreaks | pomodoroCLI.py:11-13 | "Take a short break!" is never printed, whatever `break_time` and `cycles` are |
| Pomodoro.Countdown | pomodoro.py:3-14 | pomodoro.py's own `while seconds:` loop prints exactly the countdown specification `CountdownOutput(minutes)` |
| Pomodoro.RunDefault | pomodoro.py:16-17 | `countdown(25)` prints exactly the countdown specification for 25 minutes: 1500 frames reading back as 1500, 1499, ..., 1, the first being "25:00" and the last "00:01", then "Time's up!" |

## Left out

- `time.sleep(1)` (pomodoroCLI.py:25, pomodoro.py:11) is left out. Real time is not modelled, and one loop iteration is one frame.
- The line terminators are left out. Frames are printed with `end="\r"` so that each overwrites the previous one on the console, and the closing message is printed with a leading `"\n"`. The model records each printed text without these control characters. The console's overwriting is not modelled.
- The prompts at pomodoroCLI.py:29-34 are left out. This covers `input()`, the `int(...)` parsing with its `ValueError` on bad text, and the call they feed. The model starts from the integers that `pomodoro_cycle` receives.
- PomodoroCli.Countdown and Pomodoro.Countdown require `minutes >= 0`. For a negative value, `while seconds:` never reaches 0 and the source never terminates; that divergence is not modelled. For the same reason, PomodoroCli.Cycle requires `work_time >= 0` whenever at least one cycle runs.
- PomodoroCli.Cycle never calls `countdown(break_time)`, because its guard never holds. A negative `break_time` is therefore accepted, and it is never used.
- Pause, resume, reset, auto-start, session counting, manual phase switching and duration validation are not in either script, so they are not modelled.
- Display.ParseClock and Display.ShownSeconds are not part of the program. They are the reference inverse that the frame properties are stated against.
