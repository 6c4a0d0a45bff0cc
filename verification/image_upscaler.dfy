/** `src/tools/ImageUpscaler.jsx`: the upscaler's progress ticker and the state changes of
    `onDrop` and `handleUpscale`. Time is counted in periods of the 500 ms interval; every
    interval still running fires once per period. UpscalerJS is the `outcome` parameter. */
module ImageUpscaler {
  import opened Wrappers

  /** The component state: whether a preview exists, the upscaled image (its data URL), the
      busy flag, the progress percentage, and how many progress intervals are running. */
  datatype State = State(hasPreview: bool, processed: Option<string>, processing: bool,
                         progress: int, timers: nat)

  const Initial := State(false, None, false, 0, 0)

  /** One firing of an interval: `prev < 90 ? prev + 10 : prev`. */
  function Tick(progress: int): (next: int)
    ensures progress < 90 ==> next == progress + 10
    ensures progress >= 90 ==> next == progress
    ensures next >= progress
  {
    if progress < 90 then progress + 10 else progress
  }

  /** `n` firings in a row. */
  function Ticks(progress: int, n: nat): (r: int)
    ensures progress <= r
    ensures progress >= 90 ==> r == progress
    ensures progress < 90 ==> r < 100
    ensures n > 0 && progress < 90 ==> progress + 10 <= r
    decreases n
  {
    if n == 0 then progress else Ticks(Tick(progress), n - 1)
  }

  function Min(a: int, b: int): int {
    if a <= b then a else b
  }

  /** From a multiple of 10 in [0, 90] the ticker climbs in steps of 10 and stops at 90:
      after `n` firings it shows min(progress + 10n, 90). */
  lemma {:induction false} TicksClosedForm(progress: int, n: nat)
    requires 0 <= progress <= 90 && progress % 10 == 0
    ensures Ticks(progress, n) == Min(progress + 10 * n, 90)
    decreases n
  {
    if n > 0 {
      TicksClosedForm(Tick(progress), n - 1);
    }
  }

  /** Started at 10, the ticker only ever shows 10, 20, ..., 90, and never goes down. */
  lemma TicksFromTen(n: nat, m: nat)
    requires n <= m
    ensures 10 <= Ticks(10, n) <= 90 && Ticks(10, n) % 10 == 0
    ensures Ticks(10, n) <= Ticks(10, m)
  {
    TicksClosedForm(10, n);
    TicksClosedForm(10, m);
  }

  /** Firings compose: `a` firings and then `b` more are `a + b` firings. */
  lemma {:induction false} TicksAdd(progress: int, a: nat, b: nat)
    ensures Ticks(Ticks(progress, a), b) == Ticks(progress, a + b)
    decreases a
  {
    if a > 0 {
      TicksAdd(Tick(progress), a - 1, b);
    }
  }

  /** One 500 ms period: each running interval fires once. */
  function Period(s: State): (t: State)
    ensures t.(progress := s.progress) == s
    ensures s.timers == 0 ==> t == s
  {
    s.(progress := Ticks(s.progress, s.timers))
  }

  /** `n` periods: the progress has received `n` firings per running interval. */
  function Periods(s: State, n: nat): (t: State)
    ensures t.(progress := s.progress) == s
    ensures t.progress == Ticks(s.progress, n * s.timers)
    decreases n
  {
    if n == 0 then s
    else
      var t := Periods(Period(s), n - 1);
      TicksAdd(s.progress, s.timers, (n - 1) * s.timers);
      t
  }

  /** `onDrop`: with a file the preview is set, the previous result is cleared and the
      progress goes back to 0; without one nothing happens. Running intervals are not
      touched. */
  function OnDrop(s: State, fileDropped: bool): (t: State)
    ensures fileDropped ==> t.hasPreview && t.processed.None? && t.progress == 0
    ensures !fileDropped ==> t == s
    ensures t.processing == s.processing && t.timers == s.timers
  {
    if fileDropped then s.(hasPreview := true, processed := None, progress := 0) else s
  }

  /** The synchronous start of `handleUpscale`: nothing without a preview; otherwise busy,
      progress 10, and one more interval running. */
  function StartUpscale(s: State): (t: State)
    ensures !s.hasPreview ==> t == s
    ensures s.hasPreview ==> t.processing && t.progress == 10 && t.timers == s.timers + 1
    ensures t.hasPreview == s.hasPreview && t.processed == s.processed
  {
    if !s.hasPreview then s else s.(processing := true, progress := 10, timers := s.timers + 1)
  }

  /** How `handleUpscale`'s `await` ends, as written: on success its interval is cleared, the
      progress jumps to 100 and the data URL is stored; on failure only the busy flag is
      cleared, and the interval keeps running because `clearInterval` sits inside `try`. */
  function FinishAsWritten(s: State, outcome: Result<string>): (t: State)
    requires s.timers > 0
    ensures outcome.Ok? ==>
              t == s.(processing := false, timers := s.timers - 1, progress := 100,
                      processed := Some(outcome.value))
    ensures outcome.Err? ==> t == s.(processing := false)
  {
    match outcome
    case Ok(url) =>
      s.(processing := false, timers := s.timers - 1, progress := 100, processed := Some(url))
    case Err(_) => s.(processing := false)
  }

  /** A failed upscale as written leaves its interval behind; after any number of periods of
      waiting the user clicks Upscale again, and the bar now climbs 20 per period instead
      of 10, because two intervals fire. */
  lemma FailureLeavesTimerRunning(s: State, waited: nat)
    requires s.hasPreview && s.timers == 0
    ensures var failed := FinishAsWritten(Periods(StartUpscale(s), waited), Err("failed"));
            var retried := StartUpscale(failed);
            && !failed.processing && failed.timers == 1
            && retried.timers == 2 && Period(retried).progress == 30
  {
  }

  /** The end of `handleUpscale` with its interval cleared on every path, as `finally` does
      for the busy flag: success as written, and a failure stops the interval too. */
  function Finish(s: State, outcome: Result<string>): (t: State)
    requires s.timers > 0
    ensures t.timers == s.timers - 1 && !t.processing
    ensures outcome.Ok? ==> t.progress == 100 && t.processed == Some(outcome.value)
    ensures outcome.Err? ==> t == s.(processing := false, timers := s.timers - 1)
  {
    match outcome
    case Ok(url) =>
      s.(processing := false, timers := s.timers - 1, progress := 100, processed := Some(url))
    case Err(_) => s.(processing := false, timers := s.timers - 1)
  }

  /** `handleUpscale` end to end: start, `periods` periods while UpscalerJS works, then its
      outcome. Without a preview nothing changes. A success shows 100 and the result; a
      failure leaves the progress where the ticker stopped, at most 90. Either way the number
      of running intervals is what it was before the click. */
  function HandleUpscale(s: State, periods: nat, outcome: Result<string>): (t: State)
    ensures !s.hasPreview ==> t == s
    ensures t.timers == s.timers && !(s.hasPreview && t.processing)
    ensures s.hasPreview && outcome.Ok? ==>
              t.progress == 100 && t.processed == Some(outcome.value)
    ensures s.hasPreview && outcome.Err? ==>
              t.progress == Min(10 + 10 * (periods * (s.timers + 1)), 90)
              && t.processed == s.processed
  {
    if !s.hasPreview then s
    else
      var started := StartUpscale(s);
      TicksClosedForm(10, periods * started.timers);
      Finish(Periods(started, periods), outcome)
  }

  /** The first upscale after the first drop: a success shows 100 and its result, a
      failure stops the bar at min(10 + 10 x periods, 90), and afterwards no interval runs,
      so the progress never moves again. */
  lemma FirstUpscale(periods: nat, outcome: Result<string>, later: nat)
    ensures var t := HandleUpscale(OnDrop(Initial, true), periods, outcome);
            && t.timers == 0 && !t.processing && Periods(t, later) == t
            && (outcome.Ok? ==> t.progress == 100 && t.processed == Some(outcome.value))
            && (outcome.Err? ==> t.progress == Min(10 + 10 * periods, 90) && t.processed.None?)
  {
    IdleAfterUpscale(OnDrop(Initial, true), periods, outcome, later);
  }

  /** From the initial state no interval is ever left running, so once `handleUpscale` has
      finished nothing moves the progress any more. */
  lemma IdleAfterUpscale(s: State, periods: nat, outcome: Result<string>, later: nat)
    requires s.timers == 0
    ensures var t := HandleUpscale(s, periods, outcome);
            Periods(t, later) == t
  {
    var t := HandleUpscale(s, periods, outcome);
    assert t.timers == 0;
    assert later * t.timers == 0;
  }
}
