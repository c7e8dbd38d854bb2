/** The counter program as it runs: its static globals as the fields of one
    object, the interrupt handler and one iteration of `main`'s loop as methods
    that update those fields in place, and the display as the list of texts
    `escrever_texto` has drawn. Each method is proved to do what the matching
    function of module Counter specifies. */
module Device {
  import opened Display
  import opened Counter
  import CounterProperties

  class CounterDevice {
    var buttonAPressed: bool
    var buttonBPressed: bool
    var buttonCount: Uint8
    var lastButtonTime: int
    var countdownValue: int
    var countdownActive: bool
    var countdownFinished: bool
    var lastSecondTime: int
    /** Every text drawn on the display so far, oldest first; the display
        shows the last one, as each draw clears the screen first. */
    var display: seq<string>

    /** The globals as a value. */
    function Snapshot(): Globals
      reads this
    {
      Globals(buttonAPressed, buttonBPressed, buttonCount, lastButtonTime,
              countdownValue, countdownActive, countdownFinished, lastSecondTime)
    }

    ghost predicate Valid()
      reads this
    {
      Inv(Snapshot())
    }

    /** The static initialisers, the welcome text `srk_init` draws, and the
        initial state `main` sets before entering its loop. */
    constructor ()
      ensures Valid()
      ensures Snapshot() == Boot()
      ensures display == [WELCOME]
    {
      buttonAPressed, buttonBPressed := false, false;
      buttonCount := 0;
      lastButtonTime := 0;
      lastSecondTime := 0;
      display := [WELCOME];
      countdownValue := 0;
      countdownActive := false;
      countdownFinished := true;
    }

    /** `escrever_texto(text, 20, 5, true)`: clear the screen and draw `text`. */
    method Draw(text: string)
      modifies this`display
      ensures display == old(display) + [text]
    {
      display := display + [text];
    }

    /** `manipulador_interrupcao_gpio`: a falling edge on `pin` at time `now`. */
    method OnGpioEdge(pin: nat, now: int)
      requires Valid()
      modifies this
      ensures Valid()
      ensures Snapshot() == HandleEdge(old(Snapshot()), pin, now)
      ensures display == old(display)
    {
      if now - lastButtonTime > DEBOUNCE_TIME_MS * 1000 {
        if pin == BUTTON_A {
          buttonAPressed := true;
        } else if pin == BUTTON_B && (countdownActive && !countdownFinished) {
          buttonBPressed := true;
        }
        lastButtonTime := now;
      }
    }

    /** First phase of the loop body: consume a pending A press. */
    method HandleButtonA(now: int)
      modifies this
      ensures Snapshot() == ConsumeA(old(Snapshot()), now).next
      ensures display == old(display) + ConsumeA(old(Snapshot()), now).frames
    {
      if buttonAPressed {
        countdownValue := COUNTDOWN_START;
        countdownActive := true;
        countdownFinished := false;
        buttonCount := 0;
        lastSecondTime := now;
        buttonAPressed := false;
        Draw(CountdownFrame(countdownValue, buttonCount));
      }
    }

    /** Second phase of the loop body: consume a pending B press. */
    method HandleButtonB()
      modifies this
      ensures Snapshot() == ConsumeB(old(Snapshot())).next
      ensures display == old(display) + ConsumeB(old(Snapshot())).frames
    {
      if buttonBPressed && countdownActive && !countdownFinished {
        buttonCount := (buttonCount + 1) % 256;
        buttonBPressed := false;
        Draw(CountdownFrame(countdownValue, buttonCount));
      } else if buttonBPressed {
        buttonBPressed := false;
      }
    }

    /** Third phase of the loop body: the once-a-second countdown step. */
    method CountdownStep(now: int)
      modifies this
      ensures Snapshot() == Tick(old(Snapshot()), now).next
      ensures display == old(display) + Tick(old(Snapshot()), now).frames
    {
      if countdownActive && !countdownFinished {
        if now - lastSecondTime >= ONE_SECOND_US {
          if countdownValue > 0 {
            countdownValue := countdownValue - 1;
            lastSecondTime := now;
            Draw(CountdownFrame(countdownValue, buttonCount));
          }
          if countdownValue == 0 {
            countdownActive := false;
            countdownFinished := true;
            Draw(ZeroFrame(buttonCount));
          }
        }
      }
    }

    /** One pass through the body of `main`'s `while (true)` loop; `resetNow`
        and `tickNow` are the two clock reads it makes. */
    method LoopIteration(resetNow: int, tickNow: int)
      requires Valid()
      modifies this
      ensures Valid()
      ensures Snapshot() == LoopBody(old(Snapshot()), resetNow, tickNow).next
      ensures display == old(display) + LoopBody(old(Snapshot()), resetNow, tickNow).frames
    {
      ghost var g0, d0 := Snapshot(), display;
      HandleButtonA(resetNow);
      ghost var a := ConsumeA(g0, resetNow);
      HandleButtonB();
      ghost var b := ConsumeB(a.next);
      CountdownStep(tickNow);
      ghost var t := Tick(b.next, tickNow);
      assert display == d0 + (a.frames + b.frames + t.frames);
      assert LoopBody(g0, resetNow, tickNow) == Outcome(t.next, a.frames + b.frames + t.frames);
      assert Inv(t.next) by {
        CounterProperties.StepPreservesInv(g0, Iteration(resetNow, tickNow));
      }
    }

    /** One event: the interrupt handler taking an edge, or one loop iteration. */
    method Perform(e: Event)
      requires Valid()
      modifies this
      ensures Valid()
      ensures Snapshot() == Apply(old(Snapshot()), e).next
      ensures display == old(display) + Apply(old(Snapshot()), e).frames
    {
      match e {
        case Edge(pin, time) =>
          OnGpioEdge(pin, time);
        case Iteration(resetTime, tickTime) =>
          LoopIteration(resetTime, tickTime);
      }
    }

    /** The firmware over a finite stretch of time: the edges the interrupt
        handler took and the loop iterations, in the order they happened. */
    method Replay(events: seq<Event>)
      requires Valid()
      modifies this
      ensures Valid()
      ensures Snapshot() == Run(old(Snapshot()), events).next
      ensures display == old(display) + Run(old(Snapshot()), events).frames
    {
      ghost var g0, d0 := Snapshot(), display;
      var i := 0;
      while i < |events|
        invariant 0 <= i <= |events|
        invariant Valid()
        invariant Run(Snapshot(), events[i..]).next == Run(g0, events).next
        invariant display + Run(Snapshot(), events[i..]).frames == d0 + Run(g0, events).frames
      {
        ghost var before, shown := Snapshot(), display;
        Perform(events[i]);
        CounterProperties.RunFrom(before, events, i);
        ghost var drawn, rest := Apply(before, events[i]).frames, Run(Snapshot(), events[i + 1..]);
        assert display + rest.frames == shown + (drawn + rest.frames);
        i := i + 1;
      }
      assert events[i..] == [];
    }
  }
}
