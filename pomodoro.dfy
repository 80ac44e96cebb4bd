/**
 * pomodoro.py: its own copy of `countdown(minutes)`, the same loop as in
 * pomodoroCLI.py, and the entry point that runs `countdown(25)`.
 */
module Pomodoro {
  import opened Display
  import opened Timer

  /**
   * `seconds` starts at `minutes * 60`; each pass of `while seconds:`
   * prints the `MM:SS` frame for it and takes one second off. A negative
   * `minutes` never reaches 0 in the source, so it is excluded.
   */
  method Countdown(minutes: int) returns (out: seq<string>)
    requires minutes >= 0
    ensures out == CountdownOutput(minutes)
  {
    var seconds := minutes * 60;
    ghost var total := seconds;
    ghost var shown: seq<nat> := [];
    out := [];
    while seconds != 0
      invariant 0 <= seconds <= total
      invariant shown + Shown(seconds) == Shown(total)
      invariant out == Render(shown)
      decreases seconds
    {
      assert Shown(seconds) == [seconds] + Shown(seconds - 1);
      Regroup(shown, seconds, Shown(seconds - 1));
      RenderSnoc(shown, seconds);
      out := out + [FormatMMSS(seconds)];
      shown := shown + [seconds];
      seconds := seconds - 1;
    }
    assert shown == Shown(total);
    out := out + [TimesUp];
  }

  /** The length of the session the entry point runs, in minutes. */
  const DefaultMinutes: nat := 25

  /**
   * The entry point, `countdown(25)`: 1500 frames from "25:00" down to
   * "00:01", one second apart, then "Time's up!".
   */
  method RunDefault() returns (out: seq<string>)
    ensures out == CountdownOutput(DefaultMinutes)
    ensures CountsDownFrom(out, 1500)
    ensures out[0] == "25:00" && out[1499] == "00:01" && out[1500] == TimesUp
  {
    out := Countdown(DefaultMinutes);
    var n := DefaultMinutes * 60;
    CountdownShowsEachSecond(DefaultMinutes);
    CountdownTimesUpOnceAtEnd(DefaultMinutes);
    assert out[0] == "25:00" by {
      FrameAt(n, 0);
      FormatFullSession();
    }
    assert out[1499] == "00:01" by {
      FrameAt(n, 1499);
      FormatUnderAMinute();
    }
  }
}
