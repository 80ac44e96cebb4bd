/**
 * pomodoroCLI.py: `countdown(minutes)` and `pomodoro_cycle(work_time,
 * break_time, cycles)`. Each printed text is one element of the returned
 * output; `time.sleep(1)` is left out, so one loop iteration is one frame.
 */
module PomodoroCli {
  import opened Display
  import opened Timer

  const Complete: string := "Pomodoro session complete!"
  const TakeBreak: string := "Take a short break!"

  /** `f"Work session {cycle + 1} started!"` for the session numbered `n`. */
  function SessionBanner(n: nat): (s: string)
    ensures |s| > 22 && s[0] == 'W'
    ensures s[..13] == "Work session " && s[|s| - 9..] == " started!"
    ensures s[13..|s| - 9] == Decimal(n)
  {
    "Work session " + Decimal(n) + " started!"
  }

  /** The number in a banner reads back as the session it announces. */
  lemma BannerRoundTrip(n: nat)
    ensures AllDigits(SessionBanner(n)[13..|SessionBanner(n)| - 9])
    ensures ParseDecimal(SessionBanner(n)[13..|SessionBanner(n)| - 9]) == n
  {
    DecimalRoundTrip(n);
  }

  /**
   * The countdown loop: `seconds` starts at `minutes * 60` and each pass
   * prints the frame for it (`divmod` and the `MM:SS` f-string, FormatMMSS)
   * and takes one second off, until `while seconds:` sees 0. The ghost
   * `shown` records the remaining-seconds values printed so far. A negative `minutes` never reaches 0
   * in the source, so it is excluded.
   */
  method Countdown(minutes: int) returns (out: seq<string>)
    requires minutes >= 0
    ensures out == CountdownOutput(minutes)
  {
    var seconds := minutes * 60;
    ghost var total := seconds;
    ghost var shown: seq<nat> := [];
    out := [];
    while seconds != 0
      invariant 0 <= seconds <= total
      invariant shown + Shown(seconds) == Shown(total)
      invariant out == Render(shown)
      decreases seconds
    {
      assert Shown(seconds) == [seconds] + Shown(seconds - 1);
      Regroup(shown, seconds, Shown(seconds - 1));
      RenderSnoc(shown, seconds);
      out := out + [FormatMMSS(seconds)];
      shown := shown + [seconds];
      seconds := seconds - 1;
    }
    assert shown == Shown(total);
    out := out + [TimesUp];
  }

  /** The break guard at pomodoroCLI.py:11, as written. */
  predicate BreakDue(cycle: int) {
    cycle < cycle - 1
  }

  /** No iteration of `pomodoro_cycle` ever takes a break. */
  lemma BreakNeverDue(cycle: int)
    ensures !BreakDue(cycle)
  {
  }

  /** `block(1) + block(2) + ... + block(n)`: what a loop prints when pass `k` prints `block(k)`. */
  function Concat<T>(n: nat, block: nat -> seq<T>): seq<T>
    decreases n
  {
    if n == 0 then [] else Concat(n - 1, block) + block(n)
  }

  lemma {:induction false} ConcatLength<T>(n: nat, block: nat -> seq<T>, size: nat)
    requires forall k :: 1 <= k <= n ==> |block(k)| == size
    ensures |Concat(n, block)| == n * size
    decreases n
  {
    if n > 0 {
      ConcatLength(n - 1, block, size);
      assert n * size == (n - 1) * size + size;
    }
  }

  /** What the first `m` passes print is a prefix of what `n >= m` passes print. */
  lemma {:induction false} ConcatPrefix<T>(n: nat, block: nat -> seq<T>, m: nat)
    requires m <= n
    ensures |Concat(m, block)| <= |Concat(n, block)|
    ensures Concat(n, block)[..|Concat(m, block)|] == Concat(m, block)
    decreases n
  {
    if m < n {
      ConcatPrefix(n - 1, block, m);
      var prev := Concat(n - 1, block);
      assert Concat(n, block)[..|prev|] == prev;
    }
  }

  /** Pass `k + 1` of the loop fills the slice between what `k` and `k + 1` passes print. */
  lemma ConcatAt<T>(n: nat, block: nat -> seq<T>, k: nat)
    requires k < n
    ensures |Concat(k, block)| <= |Concat(k + 1, block)| <= |Concat(n, block)|
    ensures Concat(n, block)[|Concat(k, block)|..|Concat(k + 1, block)|] == block(k + 1)
  {
    ConcatPrefix(n, block, k + 1);
    var upto := Concat(k + 1, block);
    assert upto == Concat(k, block) + block(k + 1);
    assert Concat(n, block)[|Concat(k, block)|..|upto|] == upto[|Concat(k, block)|..];
  }

  /** Whatever the loop prints was printed by one of its passes. */
  lemma {:induction false} ConcatMember<T>(n: nat, block: nat -> seq<T>, x: T)
    requires x in Concat(n, block)
    ensures exists k :: 1 <= k <= n && x in block(k)
    decreases n
  {
    if x !in block(n) {
      ConcatMember(n - 1, block, x);
    }
  }

  lemma {:induction false} ConcatAvoids<T>(n: nat, block: nat -> seq<T>, x: T)
    requires forall k :: 1 <= k <= n ==> x !in block(k)
    ensures x !in Concat(n, block)
    decreases n
  {
    if n > 0 {
      ConcatAvoids(n - 1, block, x);
    }
  }

  /** What one pass of the cycle loop prints for session `k`: its banner, then `countdown(work)`. */
  function SessionBlock(work: nat): nat -> seq<string> {
    (k: nat) => [SessionBanner(k)] + CountdownOutput(work)
  }

  /** The output of the first `n` work sessions of the cycle. */
  function Sessions(work: int, n: nat): seq<string>
    requires n == 0 || work >= 0
  {
    if n == 0 then [] else Concat(n, SessionBlock(work))
  }

  /** The whole output of `pomodoro_cycle(work, _, cycles)`; `range(cycles)` is empty when `cycles <= 0`. */
  function CycleOutput(work: int, cycles: int): seq<string>
    requires cycles <= 0 || work >= 0
  {
    (if cycles <= 0 then [] else Sessions(work, cycles)) + [Complete]
  }

  /**
   * `for cycle in range(cycles)`: announce work session `cycle + 1`, count
   * down `work_time` minutes, and skip the break, whose guard never holds.
   * `break_time` is not read on any path, so the output depends only on
   * `work_time` and `cycles`.
   */
  method Cycle(workTime: int, breakTime: int, cycles: int) returns (out: seq<string>)
    requires cycles <= 0 || workTime >= 0
    ensures out == CycleOutput(workTime, cycles)
  {
    out := [];
    var cycle := 0;
    while cycle < cycles
      invariant 0 <= cycle && (cycle == 0 || cycle <= cycles)
      invariant out == Sessions(workTime, cycle)
      decreases cycles - cycle
    {
      out := out + [SessionBanner(cycle + 1)];
      var work := Countdown(workTime);
      out := out + work;
      if BreakDue(cycle) {
        out := out + [TakeBreak];
        var rest := Countdown(breakTime);
        out := out + rest;
      }
      cycle := cycle + 1;
    }
    out := out + [Complete];
  }

  /** Every session block has the same size: one banner and `work * 60 + 1` countdown lines. */
  lemma SessionBlockSize(work: nat)
    ensures forall k :: |SessionBlock(work)(k)| == work * 60 + 2
  {
    CountdownLength(work);
  }

  /** `pomodoro_cycle` prints one block per cycle, and nothing for `cycles <= 0`, then the closing line. */
  lemma CycleLength(work: int, cycles: int)
    requires cycles <= 0 || work >= 0
    ensures |CycleOutput(work, cycles)| == (if cycles <= 0 then 0 else cycles * (work * 60 + 2)) + 1
  {
    if cycles > 0 {
      SessionBlockSize(work);
      ConcatLength(cycles, SessionBlock(work), work * 60 + 2);
    }
  }

  /**
   * For each `k` in `range(cycles)`, the `k`-th block is the banner
   * "Work session {k + 1} started!" followed by one countdown of `work` minutes.
   */
  lemma CycleSessionAt(work: int, cycles: int, k: int)
    requires 0 <= k < cycles && work >= 0
    ensures (k + 1) * (work * 60 + 2) < |CycleOutput(work, cycles)|
    ensures CycleOutput(work, cycles)[k * (work * 60 + 2)] == SessionBanner(k + 1)
    ensures CycleOutput(work, cycles)[k * (work * 60 + 2) + 1..(k + 1) * (work * 60 + 2)] == CountdownOutput(work)
  {
    var b := work * 60 + 2;
    var sessions := Concat(cycles, SessionBlock(work));
    assert |Concat(k, SessionBlock(work))| == k * b
        && |Concat(k + 1, SessionBlock(work))| == (k + 1) * b
        && |sessions| == cycles * b by {
      SessionBlockSize(work);
      ConcatLength(k, SessionBlock(work), b);
      ConcatLength(k + 1, SessionBlock(work), b);
      ConcatLength(cycles, SessionBlock(work), b);
    }
    assert sessions[k * b..(k + 1) * b] == [SessionBanner(k + 1)] + CountdownOutput(work) by {
      ConcatAt(cycles, SessionBlock(work), k);
    }
    SliceOfPrefix(sessions, [Complete], k * b, (k + 1) * b, SessionBanner(k + 1), CountdownOutput(work));
  }

  lemma SliceOfPrefix<T>(s: seq<T>, tail: seq<T>, lo: nat, hi: nat, x: T, rest: seq<T>)
    requires lo < hi <= |s| && tail != []
    requires s[lo..hi] == [x] + rest
    ensures hi < |s + tail| && (s + tail)[lo] == x && (s + tail)[lo + 1..hi] == rest
  {
    assert (s + tail)[lo..hi] == s[lo..hi];
  }

  /** A line that is not a banner, not a frame and not "Time's up!" is never printed by the work sessions. */
  lemma SessionsAvoid(work: nat, n: nat, line: string)
    requires |line| > 0 && line[0] != 'W' && ':' !in line && line != TimesUp
    ensures line !in Sessions(work, n)
  {
    if n > 0 {
      CountdownLines(work);
      forall k | 1 <= k <= n
        ensures line !in SessionBlock(work)(k)
      {
        assert line != SessionBanner(k);
      }
      ConcatAvoids(n, SessionBlock(work), line);
    }
  }

  /**
   * The work sessions print nothing but banners "Work session {k} started!"
   * for `1 <= k <= n`, countdown frames and "Time's up!".
   */
  lemma SessionsLines(work: nat, n: nat)
    ensures forall x :: x in Sessions(work, n) ==>
      (exists k :: 1 <= k <= n && x == SessionBanner(k)) || x == TimesUp || ShownSeconds(x).Some?
  {
    CountdownLines(work);
    forall x | x in Sessions(work, n)
      ensures (exists k :: 1 <= k <= n && x == SessionBanner(k)) || x == TimesUp || ShownSeconds(x).Some?
    {
      ConcatMember(n, SessionBlock(work), x);
      var k :| 1 <= k <= n && x in SessionBlock(work)(k);
      if x != SessionBanner(k) {
        assert x in CountdownOutput(work);
      }
    }
  }

  /** "Pomodoro session complete!" is printed exactly once, as the last line, also when `cycles <= 0`. */
  lemma CycleCompleteOnceAtEnd(work: int, cycles: int)
    requires cycles <= 0 || work >= 0
    ensures |CycleOutput(work, cycles)| > 0
    ensures forall i :: 0 <= i < |CycleOutput(work, cycles)| ==>
      (CycleOutput(work, cycles)[i] == Complete <==> i == |CycleOutput(work, cycles)| - 1)
  {
    if cycles > 0 {
      assert Complete[0] == 'P' && ':' !in Complete && Complete != TimesUp;
      SessionsAvoid(work, cycles, Complete);
    }
  }

  /** The break branch never runs: "Take a short break!" never appears, whatever `break_time` is. */
  lemma CycleNeverBreaks(work: int, cycles: int)
    requires cycles <= 0 || work >= 0
    ensures TakeBreak !in CycleOutput(work, cycles)
  {
    if cycles > 0 {
      assert TakeBreak[0] == 'T' && ':' !in TakeBreak && TakeBreak != TimesUp;
      SessionsAvoid(work, cycles, TakeBreak);
    }
    assert TakeBreak != Complete;
  }
}
