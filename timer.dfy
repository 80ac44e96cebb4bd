/**
 * What one call of `countdown(minutes)` prints, as a sequence of texts:
 * one `MM:SS` frame per iteration of its `while seconds:` loop, then the
 * closing "Time's up!" message. The same `countdown` appears in
 * pomodoroCLI.py:17-27 and pomodoro.py:3-14; both copies are proved
 * against the functions here.
 */
module Timer {
  import opened Display

  const TimesUp: string := "Time's up!"

  /** The remaining-seconds values the loop prints while `seconds` are left: `seconds` down to 1. */
  function Shown(seconds: nat): seq<nat>
    decreases seconds
  {
    if seconds == 0 then [] else [seconds] + Shown(seconds - 1)
  }

  /** One `MM:SS` frame for each remaining-seconds value, in order. */
  function Render(xs: seq<nat>): seq<string> {
    seq(|xs|, i requires 0 <= i < |xs| => FormatMMSS(xs[i]))
  }

  /** The whole output of `countdown(minutes)`. */
  function CountdownOutput(minutes: nat): seq<string> {
    Render(Shown(minutes * 60)) + [TimesUp]
  }

  /** Rendering frame by frame, in the order the loop prints. */
  lemma RenderSnoc(xs: seq<nat>, x: nat)
    ensures Render(xs + [x]) == Render(xs) + [FormatMMSS(x)]
  {
  }

  lemma Regroup<T>(a: seq<T>, x: T, b: seq<T>)
    ensures a + ([x] + b) == (a + [x]) + b
  {
  }

  /** The loop visits `seconds, seconds - 1, ..., 1`: one value per iteration, each one less than the last. */
  lemma {:induction false} ShownAt(seconds: nat)
    ensures |Shown(seconds)| == seconds
    ensures forall i :: 0 <= i < seconds ==> Shown(seconds)[i] == seconds - i
    decreases seconds
  {
    if seconds > 0 {
      ShownAt(seconds - 1);
    }
  }

  /** The `i`-th frame of a countdown from `seconds` shows `seconds - i`. */
  lemma FramesAt(seconds: nat)
    ensures |Render(Shown(seconds))| == seconds
    ensures forall i :: 0 <= i < seconds ==> Render(Shown(seconds))[i] == FormatMMSS(seconds - i)
  {
    ShownAt(seconds);
    forall i | 0 <= i < seconds
      ensures Render(Shown(seconds))[i] == FormatMMSS(seconds - i)
    {
      FrameAt(seconds, i);
    }
  }

  lemma FrameAt(seconds: nat, i: nat)
    requires i < seconds
    ensures |Render(Shown(seconds))| == seconds
    ensures Render(Shown(seconds))[i] == FormatMMSS(seconds - i)
  {
    assert |Shown(seconds)| == seconds && Shown(seconds)[i] == seconds - i by {
      ShownAt(seconds);
    }
  }

  /** `out` shows `n, n - 1, ..., 1` remaining seconds, one frame each, and then one more line. */
  predicate CountsDownFrom(out: seq<string>, n: nat) {
    |out| == n + 1 && forall i :: 0 <= i < n ==> ShownSeconds(out[i]) == Some(n - i)
  }

  /** `countdown(minutes)` prints `minutes * 60` frames and one closing message. */
  lemma CountdownLength(minutes: nat)
    ensures |CountdownOutput(minutes)| == minutes * 60 + 1
  {
    FramesAt(minutes * 60);
  }

  /**
   * The remaining seconds shown go `minutes * 60, minutes * 60 - 1, ..., 1`:
   * each frame reads back as one second less than the frame before it.
   */
  lemma CountdownShowsEachSecond(minutes: nat)
    ensures CountsDownFrom(CountdownOutput(minutes), minutes * 60)
  {
    var n := minutes * 60;
    FramesAt(n);
    forall i | 0 <= i < n
      ensures ShownSeconds(CountdownOutput(minutes)[i]) == Some(n - i)
    {
      FrameRoundTrip(n - i);
    }
  }

  /** The loop exits on 0 before printing it, so `00:00` is never shown. */
  lemma CountdownNeverShowsZero(minutes: nat)
    ensures forall i :: 0 <= i < |CountdownOutput(minutes)| ==> CountdownOutput(minutes)[i] != "00:00"
  {
    var out := CountdownOutput(minutes);
    CountdownShowsEachSecond(minutes);
    assert ShownSeconds("00:00") == Some(0) by {
      FormatZero();
      FrameRoundTrip(0);
    }
    forall i | 0 <= i < |out|
      ensures out[i] != "00:00"
    {
      if i < |out| - 1 {
        assert ShownSeconds(out[i]) != Some(0);
      }
    }
  }

  /** "Time's up!" is printed exactly once, after the last frame. */
  lemma CountdownTimesUpOnceAtEnd(minutes: nat)
    ensures |CountdownOutput(minutes)| == minutes * 60 + 1
    ensures forall i :: 0 <= i < |CountdownOutput(minutes)| ==>
      (CountdownOutput(minutes)[i] == TimesUp <==> i == minutes * 60)
  {
    var out := CountdownOutput(minutes);
    var n := minutes * 60;
    FramesAt(n);
    forall i | 0 <= i < n
      ensures out[i] != TimesUp
    {
      var f := FormatMMSS(n - i);
      assert f[|f| - 3] == ':';
      assert TimesUp[|TimesUp| - 3] != ':';
    }
  }

  /**
   * Every line a countdown prints is either the closing message or a frame:
   * a text holding a ':' that reads back as some number of remaining seconds.
   */
  lemma CountdownLines(minutes: nat)
    ensures forall x :: x in CountdownOutput(minutes) ==> x == TimesUp || (':' in x && ShownSeconds(x).Some?)
  {
    var xs := Shown(minutes * 60);
    forall x | x in Render(xs)
      ensures ':' in x && ShownSeconds(x).Some?
    {
      var i :| 0 <= i < |xs| && Render(xs)[i] == x;
      var f := FormatMMSS(xs[i]);
      assert f[|f| - 3] == ':';
      FrameRoundTrip(xs[i]);
    }
  }
}
