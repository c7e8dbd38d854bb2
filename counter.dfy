/** The countdown / click-counter state machine of `contador_isr.c`, as pure
    functions over the program's static globals: the GPIO interrupt handler
    (`manipulador_interrupcao_gpio`) and one iteration of the `while (true)`
    loop of `main`, split into its three phases. Times are microseconds since
    boot (`absolute_time_t`), and `absolute_time_diff_us(from, to)` is `to - from`. */
module Counter {
  import opened Decimal
  import opened Display

  const BUTTON_A: nat := 5
  const BUTTON_B: nat := 6
  const DEBOUNCE_TIME_MS: int := 200
  const COUNTDOWN_START: int := 9
  /** The loop decrements the countdown once this many microseconds have passed. */
  const ONE_SECOND_US: int := 1_000_000

  /** `uint8_t`, the type of `button_count`. */
  type Uint8 = x: int | 0 <= x < 256

  /** The static globals the handler and the main loop share. */
  datatype Globals = Globals(
    buttonAPressed: bool,
    buttonBPressed: bool,
    buttonCount: Uint8,
    lastButtonTime: int,
    countdownValue: int,
    countdownActive: bool,
    countdownFinished: bool,
    lastSecondTime: int)

  /** The globals after a step, and the frames the step drew, in order. */
  datatype Outcome = Outcome(next: Globals, frames: seq<string>)

  predicate Running(g: Globals) {
    g.countdownActive && !g.countdownFinished
  }

  /** The two states the program can be in between steps: counting down from
      a value in 1..9, or stopped at 0 (before the first A press, or expired).
      A pending B press is only ever recorded while counting down. */
  predicate Inv(g: Globals) {
    && (|| (Running(g) && 1 <= g.countdownValue <= COUNTDOWN_START)
        || (!g.countdownActive && g.countdownFinished && g.countdownValue == 0))
    && (g.buttonBPressed ==> Running(g))
  }

  /** The static initialisers, then the initial state `main` sets up before its loop. */
  function Boot(): (g: Globals)
    ensures Inv(g) && !Running(g)
    ensures !g.buttonAPressed && !g.buttonBPressed && g.buttonCount == 0
    ensures g.countdownValue == 0 && g.lastButtonTime == 0 && g.lastSecondTime == 0
  {
    Globals(false, false, 0, 0, 0, false, true, 0)
  }

  /** The handler's debounce test: strictly more than 200 ms since the last
      accepted edge of either button. */
  predicate DebounceElapsed(g: Globals, now: int) {
    now - g.lastButtonTime > DEBOUNCE_TIME_MS * 1000
  }

  /** `manipulador_interrupcao_gpio(pin, ...)` run at time `now`. */
  function HandleEdge(g: Globals, pin: nat, now: int): (r: Globals)
    ensures !DebounceElapsed(g, now) ==> r == g
    ensures DebounceElapsed(g, now) ==> r.lastButtonTime == now
    ensures r.buttonAPressed <==> g.buttonAPressed || (DebounceElapsed(g, now) && pin == BUTTON_A)
    ensures r.buttonBPressed <==>
      g.buttonBPressed || (DebounceElapsed(g, now) && pin == BUTTON_B && Running(g))
    ensures r == g.(buttonAPressed := r.buttonAPressed, buttonBPressed := r.buttonBPressed,
                    lastButtonTime := r.lastButtonTime)
  {
    if DebounceElapsed(g, now) then
      var flagged :=
        if pin == BUTTON_A then g.(buttonAPressed := true)
        else if pin == BUTTON_B && Running(g) then g.(buttonBPressed := true)
        else g;
      flagged.(lastButtonTime := now)
    else g
  }

  /** First phase of a loop iteration: a pending A press restarts the countdown
      at 9 with no clicks, stamped with the clock read `now`, and draws "T:9 C:0". */
  function ConsumeA(g: Globals, now: int): (o: Outcome)
    ensures !g.buttonAPressed ==> o == Outcome(g, [])
    ensures g.buttonAPressed ==>
      && o.next == g.(buttonAPressed := false, countdownValue := COUNTDOWN_START,
                      countdownActive := true, countdownFinished := false,
                      buttonCount := 0, lastSecondTime := now)
      && o.frames == ["T:9 C:0"]
  {
    if g.buttonAPressed then
      var r := g.(countdownValue := COUNTDOWN_START, countdownActive := true,
                  countdownFinished := false, buttonCount := 0, lastSecondTime := now,
                  buttonAPressed := false);
      assert CountdownFrame(9, 0) == "T:9 C:0" by {
        assert FormatInt(9) == [DigitChar(9)] == "9";
        assert FormatInt(0) == [DigitChar(0)] == "0";
      }
      Outcome(r, [CountdownFrame(r.countdownValue, r.buttonCount)])
    else Outcome(g, [])
  }

  /** Second phase: a pending B press is always cleared; it counts one click
      (wrapping like a `uint8_t`) and draws the new count only while counting down. */
  function ConsumeB(g: Globals): (o: Outcome)
    ensures !o.next.buttonBPressed
    ensures g.buttonBPressed && Running(g) ==>
      && o.next == g.(buttonBPressed := false, buttonCount := (g.buttonCount + 1) % 256)
      && o.frames == [CountdownFrame(g.countdownValue, o.next.buttonCount)]
    ensures !(g.buttonBPressed && Running(g)) ==> o == Outcome(g.(buttonBPressed := false), [])
  {
    if g.buttonBPressed && Running(g) then
      var r := g.(buttonCount := (g.buttonCount + 1) % 256, buttonBPressed := false);
      Outcome(r, [CountdownFrame(r.countdownValue, r.buttonCount)])
    else if g.buttonBPressed then
      Outcome(g.(buttonBPressed := false), [])
    else Outcome(g, [])
  }

  /** Whether the countdown phase acts at clock read `now`. */
  predicate TickDue(g: Globals, now: int) {
    Running(g) && now - g.lastSecondTime >= ONE_SECOND_US
  }

  /** Third phase: once a second has passed while counting down, the value drops
      by exactly one (never below zero, however late the loop is) and is drawn;
      reaching zero stops the countdown and draws "ZERO!". */
  function Tick(g: Globals, now: int): (o: Outcome)
    ensures !TickDue(g, now) ==> o == Outcome(g, [])
    ensures TickDue(g, now) && g.countdownValue > 0 ==>
      && o.next.countdownValue == g.countdownValue - 1
      && o.next.lastSecondTime == now
      && |o.frames| >= 1 && o.frames[0] == CountdownFrame(g.countdownValue - 1, g.buttonCount)
    ensures TickDue(g, now) && g.countdownValue >= 2 ==>
      o == Outcome(g.(countdownValue := g.countdownValue - 1, lastSecondTime := now),
                   [CountdownFrame(g.countdownValue - 1, g.buttonCount)])
    ensures TickDue(g, now) && g.countdownValue == 1 ==>
      && o.next == g.(countdownValue := 0, lastSecondTime := now,
                      countdownActive := false, countdownFinished := true)
      && o.frames == [CountdownFrame(0, g.buttonCount), ZeroFrame(g.buttonCount)]
    ensures TickDue(g, now) && g.countdownValue == 0 ==>
      && o.next == g.(countdownActive := false, countdownFinished := true)
      && o.frames == [ZeroFrame(g.buttonCount)]
    ensures o.next.countdownValue <= g.countdownValue
    ensures g.countdownValue >= 0 ==> o.next.countdownValue >= 0
    ensures o.next.countdownValue < g.countdownValue ==> o.next.countdownValue == g.countdownValue - 1
    ensures o.next.countdownFinished && !g.countdownFinished ==>
      o.next.countdownValue == 0 && !o.next.countdownActive
    ensures o.next.buttonCount == g.buttonCount
    ensures o.next.buttonAPressed == g.buttonAPressed && o.next.buttonBPressed == g.buttonBPressed
    ensures o.next.lastButtonTime == g.lastButtonTime
    ensures |o.frames| <= 2
  {
    if TickDue(g, now) then
      var (d, decFrames) :=
        if g.countdownValue > 0 then
          var r := g.(countdownValue := g.countdownValue - 1, lastSecondTime := now);
          (r, [CountdownFrame(r.countdownValue, r.buttonCount)])
        else (g, []);
      if d.countdownValue == 0 then
        Outcome(d.(countdownActive := false, countdownFinished := true),
                decFrames + [ZeroFrame(d.buttonCount)])
      else Outcome(d, decFrames)
    else Outcome(g, [])
  }

  /** One iteration of the main loop. The clock is read twice: `resetNow` when
      an A press is consumed, `tickNow` in the countdown phase. */
  function LoopBody(g: Globals, resetNow: int, tickNow: int): (o: Outcome)
    ensures !o.next.buttonAPressed && !o.next.buttonBPressed
    ensures o.next.lastButtonTime == g.lastButtonTime
    ensures !g.buttonAPressed && o.next.buttonCount != g.buttonCount ==>
      Running(g) && o.next.buttonCount == (g.buttonCount + 1) % 256
    ensures !g.buttonAPressed ==>
      g.countdownValue - 1 <= o.next.countdownValue <= g.countdownValue
    ensures !g.buttonAPressed && o.next.countdownValue < g.countdownValue ==>
      TickDue(g, tickNow) && o.next.lastSecondTime == tickNow
    ensures !g.buttonAPressed && o.next.countdownValue == g.countdownValue ==>
      o.next.lastSecondTime == g.lastSecondTime
  {
    var a := ConsumeA(g, resetNow);
    var b := ConsumeB(a.next);
    var t := Tick(b.next, tickNow);
    Outcome(t.next, a.frames + b.frames + t.frames)
  }

  /** What happens on the device: a falling edge handled by the interrupt, or
      one whole iteration of the main loop. The handler is taken to run between
      iterations, never inside one. */
  datatype Event = Edge(pin: nat, time: int) | Iteration(resetTime: int, tickTime: int)

  function Apply(g: Globals, e: Event): Outcome {
    match e
    case Edge(pin, time) => Outcome(HandleEdge(g, pin, time), [])
    case Iteration(resetTime, tickTime) => LoopBody(g, resetTime, tickTime)
  }

  /** The outcome of taking `events` one after the other with `step`: the
      last globals, and every frame drawn, in order. `step` is only ever
      `Apply`; taking it as a parameter lets the lemmas about lists of events
      (concatenation, unfolding) be proved once without unfolding `Apply`. */
  function Fold(step: (Globals, Event) -> Outcome, g: Globals, events: seq<Event>): Outcome
    decreases |events|
  {
    if events == [] then Outcome(g, [])
    else
      var first := step(g, events[0]);
      var rest := Fold(step, first.next, events[1..]);
      Outcome(rest.next, first.frames + rest.frames)
  }

  /** A finite run of the program: the globals after the events, and every frame drawn. */
  function Run(g: Globals, events: seq<Event>): Outcome {
    Fold(Apply, g, events)
  }
}
