/** What the countdown / click-counter promises, proved about the functions of
    module Counter: over single steps and over whole runs of interrupts and
    loop iterations. */
module CounterProperties {
  import opened Display
  import opened Counter

  /** No event of the run is an edge on button A. */
  predicate NoAEdge(events: seq<Event>) {
    forall i :: 0 <= i < |events| ==> !(events[i].Edge? && events[i].pin == BUTTON_A)
  }

  lemma NoAEdgeTail(events: seq<Event>)
    requires events != [] && NoAEdge(events)
    ensures !(events[0].Edge? && events[0].pin == BUTTON_A) && NoAEdge(events[1..])
  {
    forall i | 0 <= i < |events[1..]|
      ensures !(events[1..][i].Edge? && events[1..][i].pin == BUTTON_A)
    {
      assert events[1..][i] == events[i + 1];
    }
  }

  /** How many loop iterations the run contains. */
  function Iterations(events: seq<Event>): (n: nat)
    ensures n <= |events|
  {
    if events == [] then 0
    else (if events[0].Iteration? then 1 else 0) + Iterations(events[1..])
  }

  /** How many edges on button B the run contains. */
  function BEdges(events: seq<Event>): (n: nat)
    ensures n <= |events|
  {
    if events == [] then 0
    else (if events[0].Edge? && events[0].pin == BUTTON_B then 1 else 0) + BEdges(events[1..])
  }

  function Pending(b: bool): nat {
    if b then 1 else 0
  }

  /** Both the interrupt handler and a loop iteration keep the invariant. */
  lemma StepPreservesInv(g: Globals, e: Event)
    requires Inv(g)
    ensures Inv(Apply(g, e).next)
  {
    match e
    case Edge(pin, time) =>
    case Iteration(resetTime, tickTime) =>
      var a := ConsumeA(g, resetTime);
      var b := ConsumeB(a.next);
      assert Inv(b.next);
  }

  lemma {:induction false} RunPreservesInv(g: Globals, events: seq<Event>)
    requires Inv(g)
    ensures Inv(Run(g, events).next)
    decreases |events|
  {
    if events != [] {
      StepPreservesInv(g, events[0]);
      RunPreservesInv(Apply(g, events[0]).next, events[1..]);
    }
  }

  /** Every state reachable from start-up has its countdown value in 0..9, is
      never both active and finished, and holds a pending B press only while
      counting down. */
  lemma {:induction false} ReachableStatesAreValid(events: seq<Event>)
    ensures var g := Run(Boot(), events).next;
      && 0 <= g.countdownValue <= COUNTDOWN_START
      && !(g.countdownActive && g.countdownFinished)
      && (g.buttonBPressed ==> Running(g))
  {
    RunPreservesInv(Boot(), events);
  }

  /** In a reachable state the loop's branch that only clears a B press taken
      while not counting down is never entered: after the A phase, a pending
      B press always finds the countdown running. */
  lemma StaleBPressNeverSeen(g: Globals, resetNow: int)
    requires Inv(g)
    ensures var a := ConsumeA(g, resetNow).next; a.buttonBPressed ==> Running(a)
  {
  }

  /** In a reachable state, the value is still positive whenever the countdown
      phase acts; so expiry happens exactly on the tick that takes 1 to 0, and
      that iteration draws "T:0 C:c" followed by "ZERO! C:c". */
  lemma ExpiryOnlyOnLastTick(g: Globals, resetNow: int, tickNow: int)
    requires Inv(g) && !g.buttonAPressed
    ensures var o := LoopBody(g, resetNow, tickNow);
      && (o.next.countdownFinished && !g.countdownFinished
          <==> Running(g) && g.countdownValue == 1 && tickNow - g.lastSecondTime >= ONE_SECOND_US)
      && (o.next.countdownFinished && !g.countdownFinished ==>
            && |o.frames| >= 2
            && o.frames[|o.frames| - 2..] ==
                 [CountdownFrame(0, o.next.buttonCount), ZeroFrame(o.next.buttonCount)])
  {
    var o := LoopBody(g, resetNow, tickNow);
    var b := ConsumeB(g);
    assert ConsumeA(g, resetNow) == Outcome(g, []);
    var t := Tick(b.next, tickNow);
    assert o.frames == b.frames + t.frames;
    if t.next.countdownFinished && !b.next.countdownFinished {
      assert b.next.countdownValue == 1;
      assert o.frames[|o.frames| - 2..] == t.frames;
    }
  }

  /** After expiry, and until the next A press, nothing changes but the
      debounce clock: no tick, no click, nothing drawn. */
  lemma {:induction false} ExpiredStaysExpired(g: Globals, events: seq<Event>)
    requires Inv(g) && !Running(g) && !g.buttonAPressed
    requires NoAEdge(events)
    ensures var o := Run(g, events);
      && o.next.countdownValue == g.countdownValue
      && o.next.buttonCount == g.buttonCount
      && !Running(o.next) && !o.next.buttonAPressed && !o.next.buttonBPressed
      && o.frames == []
      && o.next == g.(lastButtonTime := o.next.lastButtonTime)
    decreases |events|
  {
    if events != [] {
      var first := Apply(g, events[0]);
      NoAEdgeTail(events);
      assert first.frames == [] && Inv(first.next) && !Running(first.next);
      assert first.next == g.(lastButtonTime := first.next.lastButtonTime);
      ExpiredStaysExpired(first.next, events[1..]);
    }
  }

  /** Without an A press the countdown never rises, drops at most once per
      loop iteration (missed seconds are not caught up), and each drop needs a
      full second more on the clock than the one before it. */
  lemma {:induction false} CountdownPace(g: Globals, events: seq<Event>)
    requires !g.buttonAPressed && NoAEdge(events)
    ensures var r := Run(g, events).next;
      && g.countdownValue - Iterations(events) <= r.countdownValue <= g.countdownValue
      && (g.countdownValue - r.countdownValue) * ONE_SECOND_US <= r.lastSecondTime - g.lastSecondTime
      && !r.buttonAPressed
    decreases |events|
  {
    if events != [] {
      var first := Apply(g, events[0]).next;
      NoAEdgeTail(events);
      assert !first.buttonAPressed;
      assert first.countdownValue < g.countdownValue ==>
        first.lastSecondTime - g.lastSecondTime >= ONE_SECOND_US;
      assert first.countdownValue == g.countdownValue ==> first.lastSecondTime == g.lastSecondTime;
      CountdownPace(first, events[1..]);
    }
  }

  /** The pending B flag is a single-slot mailbox: without an A press (and
      away from `uint8_t` wrap-around) the clicks counted plus the one still
      pending never exceed the B edges seen, and never go down. */
  lemma {:induction false} ClicksAtMostBEdges(g: Globals, events: seq<Event>)
    requires !g.buttonAPressed && NoAEdge(events)
    requires g.buttonCount + Pending(g.buttonBPressed) + BEdges(events) < 256
    ensures var r := Run(g, events).next;
      && g.buttonCount <= r.buttonCount
      && r.buttonCount + Pending(r.buttonBPressed)
           <= g.buttonCount + Pending(g.buttonBPressed) + BEdges(events)
    decreases |events|
  {
    if events != [] {
      var first := Apply(g, events[0]).next;
      NoAEdgeTail(events);
      assert !first.buttonAPressed;
      assert first.buttonCount + Pending(first.buttonBPressed)
        <= g.buttonCount + Pending(g.buttonBPressed)
           + (if events[0].Edge? && events[0].pin == BUTTON_B then 1 else 0);
      assert g.buttonCount <= first.buttonCount;
      ClicksAtMostBEdges(first, events[1..]);
    }
  }

  /** The debounce clock is shared: once an edge of either button is accepted,
      any edge of either button within the next 200 ms is ignored. */
  lemma SharedDebounce(g: Globals, pin1: nat, t1: int, pin2: nat, t2: int)
    requires DebounceElapsed(g, t1)
    requires t2 - t1 <= DEBOUNCE_TIME_MS * 1000
    ensures var h := HandleEdge(g, pin1, t1); HandleEdge(h, pin2, t2) == h
  {
  }

  /** The debounce clock starts at 0: every edge in the first 200 ms after
      boot is ignored. */
  lemma EarlyEdgesIgnored(pin: nat, now: int)
    requires now <= DEBOUNCE_TIME_MS * 1000
    ensures HandleEdge(Boot(), pin, now) == Boot()
  {
  }

  /** A pending A press restarts the countdown whatever state it was in; if no
      B press is pending and less than a second passes before the countdown
      phase, the iteration ends counting down from 9 with no clicks and has
      drawn exactly "T:9 C:0". */
  lemma ResetFromAnyState(g: Globals, resetNow: int, tickNow: int)
    requires g.buttonAPressed && !g.buttonBPressed
    requires tickNow - resetNow < ONE_SECOND_US
    ensures var o := LoopBody(g, resetNow, tickNow);
      && o.next == g.(buttonAPressed := false, countdownValue := COUNTDOWN_START,
                      countdownActive := true, countdownFinished := false,
                      buttonCount := 0, lastSecondTime := resetNow)
      && o.frames == ["T:9 C:0"]
  {
  }

  lemma FoldUnfold(step: (Globals, Event) -> Outcome, g: Globals, events: seq<Event>)
    requires events != []
    ensures var a := step(g, events[0]); var rest := Fold(step, a.next, events[1..]);
      Fold(step, g, events) == Outcome(rest.next, a.frames + rest.frames)
  {
  }

  lemma RunUnfold(g: Globals, events: seq<Event>)
    requires events != []
    ensures var a := Apply(g, events[0]); var rest := Run(a.next, events[1..]);
      Run(g, events) == Outcome(rest.next, a.frames + rest.frames)
  {
    FoldUnfold(Apply, g, events);
  }

  /** A run from position `i` on is the event at `i` followed by the run after it. */
  lemma RunFrom(g: Globals, events: seq<Event>, i: nat)
    requires i < |events|
    ensures var a := Apply(g, events[i]); var rest := Run(a.next, events[i + 1..]);
      Run(g, events[i..]) == Outcome(rest.next, a.frames + rest.frames)
  {
    assert events[i..][0] == events[i];
    assert events[i..][1..] == events[i + 1..];
    RunUnfold(g, events[i..]);
  }

  /** Taking events one after the other is taking their concatenation. */
  lemma {:induction false} FoldAppend(step: (Globals, Event) -> Outcome, g: Globals,
                                      first: seq<Event>, second: seq<Event>)
    ensures var x := Fold(step, g, first); var y := Fold(step, x.next, second);
      Fold(step, g, first + second) == Outcome(y.next, x.frames + y.frames)
    decreases |first|
  {
    if first == [] {
      assert first + second == second;
    } else {
      var a := step(g, first[0]);
      var x' := Fold(step, a.next, first[1..]);
      var y := Fold(step, x'.next, second);
      var z := Fold(step, a.next, first[1..] + second);
      assert z == Outcome(y.next, x'.frames + y.frames) by {
        FoldAppend(step, a.next, first[1..], second);
      }
      assert Fold(step, g, first) == Outcome(x'.next, a.frames + x'.frames) by {
        FoldUnfold(step, g, first);
      }
      assert Fold(step, g, first + second) == Outcome(z.next, a.frames + z.frames) by {
        assert (first + second)[0] == first[0];
        assert (first + second)[1..] == first[1..] + second;
        FoldUnfold(step, g, first + second);
      }
      assert a.frames + (x'.frames + y.frames) == (a.frames + x'.frames) + y.frames;
    }
  }

  /** Running events one after the other is running their concatenation. */
  lemma RunAppend(g: Globals, first: seq<Event>, second: seq<Event>)
    ensures var x := Run(g, first); var y := Run(x.next, second);
      Run(g, first + second) == Outcome(y.next, x.frames + y.frames)
  {
    FoldAppend(Apply, g, first, second);
  }

  /** `n` loop iterations one second apart, the first one second after `from`. */
  function SecondTicks(from: int, n: nat): (events: seq<Event>)
    ensures |events| == n && Iterations(events) == n && NoAEdge(events)
    decreases n
  {
    if n == 0 then []
    else
      var rest := SecondTicks(from + ONE_SECOND_US, n - 1);
      var events := [Iteration(from + ONE_SECOND_US, from + ONE_SECOND_US)] + rest;
      assert events[1..] == rest;
      events
  }

  /** The frames an undisturbed countdown draws from `value`: each smaller
      value down to 0, then "ZERO!". */
  function CountdownFrames(value: nat, clicks: int): (frames: seq<string>)
    requires value >= 1
    ensures |frames| == value + 1
    ensures forall i :: 0 <= i < value ==> frames[i] == CountdownFrame(value - 1 - i, clicks)
    ensures frames[value] == ZeroFrame(clicks)
  {
    if value == 1 then [CountdownFrame(0, clicks), ZeroFrame(clicks)]
    else [CountdownFrame(value - 1, clicks)] + CountdownFrames(value - 1, clicks)
  }

  /** Left alone, a countdown at `value` ticks once a second, draws every value
      below it down to 0 and then "ZERO!", and ends expired `value` seconds
      after its last tick, with the clicks unchanged. */
  lemma {:induction false} UndisturbedCountdown(g: Globals, value: nat)
    requires Running(g) && !g.buttonAPressed && !g.buttonBPressed
    requires g.countdownValue == value >= 1
    ensures Run(g, SecondTicks(g.lastSecondTime, value)) == Outcome(
      g.(countdownValue := 0, countdownActive := false, countdownFinished := true,
         lastSecondTime := g.lastSecondTime + value * ONE_SECOND_US),
      CountdownFrames(value, g.buttonCount))
    decreases value
  {
    var events := SecondTicks(g.lastSecondTime, value);
    var now := g.lastSecondTime + ONE_SECOND_US;
    var first := LoopBody(g, now, now);
    assert ConsumeA(g, now) == Outcome(g, []);
    assert ConsumeB(g) == Outcome(g, []);
    assert events[0] == Iteration(now, now);
    RunUnfold(g, events);
    if value == 1 {
      assert events[1..] == [];
      assert Run(first.next, []) == Outcome(first.next, []);
    } else {
      assert first == Outcome(g.(countdownValue := value - 1, lastSecondTime := now),
                              [CountdownFrame(value - 1, g.buttonCount)]);
      assert events[1..] == SecondTicks(now, value - 1);
      UndisturbedCountdown(first.next, value - 1);
    }
  }

  /** A pressed 1 s after boot: the countdown starts and "T:9 C:0" is drawn. */
  lemma SessionPressA(events: seq<Event>)
    requires events == [Edge(BUTTON_A, 1_000_000), Iteration(1_000_000, 1_000_000)]
    ensures Run(Boot(), events) == Outcome(
      Globals(false, false, 0, 1_000_000, 9, true, false, 1_000_000), [CountdownFrame(9, 0)])
  {
    var counting := Globals(false, false, 0, 1_000_000, 9, true, false, 1_000_000);
    var pressed := Boot().(buttonAPressed := true, lastButtonTime := 1_000_000);
    assert Run(counting, events[2..]) == Outcome(counting, []) by {
      assert events[2..] == [];
    }
    assert Run(pressed, events[1..]) == Outcome(counting, [CountdownFrame(9, 0)]) by {
      RunFrom(pressed, events, 1);
    }
    RunFrom(Boot(), events, 0);
    assert events[0..] == events;
  }

  /** A B edge 100 ms after the A press is lost to the shared debounce, and the
      loop iteration after it changes nothing. */
  lemma SessionBouncedClick(events: seq<Event>)
    requires events == [Edge(BUTTON_B, 1_100_000), Iteration(1_120_000, 1_120_000)]
    ensures Run(Globals(false, false, 0, 1_000_000, 9, true, false, 1_000_000), events)
      == Outcome(Globals(false, false, 0, 1_000_000, 9, true, false, 1_000_000), [])
  {
    var counting := Globals(false, false, 0, 1_000_000, 9, true, false, 1_000_000);
    assert Run(counting, events[2..]) == Outcome(counting, []) by {
      assert events[2..] == [];
    }
    assert Run(counting, events[1..]) == Outcome(counting, []) by {
      RunFrom(counting, events, 1);
    }
    RunFrom(counting, events, 0);
    assert events[0..] == events;
  }

  /** A B edge at 1.3 s is counted and draws "T:9 C:1"; one 50 ms later is
      lost to the debounce. */
  lemma SessionCountedClick(events: seq<Event>)
    requires events == [
        Edge(BUTTON_B, 1_300_000), Iteration(1_320_000, 1_320_000),
        Edge(BUTTON_B, 1_350_000), Iteration(1_360_000, 1_360_000)]
    ensures Run(Globals(false, false, 0, 1_000_000, 9, true, false, 1_000_000), events)
      == Outcome(Globals(false, false, 1, 1_300_000, 9, true, false, 1_000_000),
                 [CountdownFrame(9, 1)])
  {
    var counting := Globals(false, false, 0, 1_000_000, 9, true, false, 1_000_000);
    var clickPending := counting.(buttonBPressed := true, lastButtonTime := 1_300_000);
    var clicked := Globals(false, false, 1, 1_300_000, 9, true, false, 1_000_000);
    var one := [CountdownFrame(9, 1)];
    assert Run(clicked, events[4..]) == Outcome(clicked, []) by {
      assert events[4..] == [];
    }
    assert Run(clicked, events[3..]) == Outcome(clicked, []) by {
      RunFrom(clicked, events, 3);
    }
    assert Run(clicked, events[2..]) == Outcome(clicked, []) by {
      RunFrom(clicked, events, 2);
    }
    assert Run(clickPending, events[1..]) == Outcome(clicked, one) by {
      RunFrom(clickPending, events, 1);
    }
    RunFrom(counting, events, 0);
    assert events[0..] == events;
  }

  /** The opening of the session: A pressed 1 s after boot, then three B edges
      of which only the one at 1.3 s is counted. */
  lemma SessionOpening(start: seq<Event>)
    requires start == [
        Edge(BUTTON_A, 1_000_000), Iteration(1_000_000, 1_000_000),
        Edge(BUTTON_B, 1_100_000), Iteration(1_120_000, 1_120_000),
        Edge(BUTTON_B, 1_300_000), Iteration(1_320_000, 1_320_000),
        Edge(BUTTON_B, 1_350_000), Iteration(1_360_000, 1_360_000)]
    ensures Run(Boot(), start) == Outcome(
      Globals(false, false, 1, 1_300_000, 9, true, false, 1_000_000),
      [CountdownFrame(9, 0), CountdownFrame(9, 1)])
  {
    var counting := Globals(false, false, 0, 1_000_000, 9, true, false, 1_000_000);
    assert Run(Boot(), start[..4]) == Outcome(counting, [CountdownFrame(9, 0)]) by {
      SessionPressA(start[..2]);
      SessionBouncedClick(start[2..4]);
      RunAppend(Boot(), start[..2], start[2..4]);
      assert start[..2] + start[2..4] == start[..4];
    }
    SessionCountedClick(start[4..]);
    RunAppend(Boot(), start[..4], start[4..]);
    assert start[..4] + start[4..] == start;
  }

  /** The whole session: after its opening, one loop iteration per second until
      expiry; the display shows 9 with no clicks, 9 with one click, then 8 down
      to 0 and "ZERO!", and the machine ends expired. */
  lemma Session(start: seq<Event>)
    requires start == [
        Edge(BUTTON_A, 1_000_000), Iteration(1_000_000, 1_000_000),
        Edge(BUTTON_B, 1_100_000), Iteration(1_120_000, 1_120_000),
        Edge(BUTTON_B, 1_300_000), Iteration(1_320_000, 1_320_000),
        Edge(BUTTON_B, 1_350_000), Iteration(1_360_000, 1_360_000)]
    ensures Run(Boot(), start + SecondTicks(1_000_000, 9)) == Outcome(
      Globals(false, false, 1, 1_300_000, 0, false, true, 10_000_000),
      [CountdownFrame(9, 0), CountdownFrame(9, 1)] + CountdownFrames(9, 1))
  {
    SessionOpening(start);
    UndisturbedCountdown(Globals(false, false, 1, 1_300_000, 9, true, false, 1_000_000), 9);
    RunAppend(Boot(), start, SecondTicks(1_000_000, 9));
  }
}
