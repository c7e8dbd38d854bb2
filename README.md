# Countdown / click counter (`contador_isr`) in Dafny

This project models the counter program of a Raspberry Pi Pico demo. Two
push-buttons, A (GPIO 5) and B (GPIO 6), raise falling-edge interrupts. The
interrupt handler debounces them with one timestamp shared by both buttons,
and it leaves a one-slot "pressed" flag per button. The main loop polls the
flags:

- A restarts a countdown at 9 and clears the click count.
- B adds one click (a `uint8_t`) while the countdown runs.
- Once a second the countdown drops by one.
- At 0 the countdown stops and shows `ZERO!`.

Every change is drawn on an OLED display as `"T:%d C:%d"` or `"ZERO! C:%d"`.

Layout:

- `decimal.dfy` (module `Decimal`): `%d` rendering of integers, with a parser as its inverse.
- `display.dfy` (module `Display`): the two frame formats, a reader that recovers the numbers from a frame, and the bound showing every frame fits the 20-byte `string_contador` buffer.
- `counter.dfy` (module `Counter`): the static globals as a value (`Globals`). The interrupt handler is `HandleEdge`. One loop iteration is `LoopBody`, built from its three phases `ConsumeA`, `ConsumeB` and `Tick`. A finite run of edges and iterations is `Run`.
- `counter_properties.dfy` (module `CounterProperties`): the invariant of reachable states, plus properties of single steps and of whole runs.
- `device.dfy` (module `Device`): class `CounterDevice`. Its fields are the C globals and the list of texts drawn so far. Its methods update those fields in place, statement for statement as the C code does. Each method is proved to match the function that specifies it.

Times are integer microseconds since boot. `absolute_time_diff_us(from, to)` is `to - from`.
Each loop iteration reads the clock twice, once in the A branch (line 121) and once in the countdown branch (line 144). So `LoopBody` and `LoopIteration` take two times, `resetNow` and `tickNow`.

Behaviour the proofs make explicit:

- On the tick that takes the value from 1 to 0, the code draws two frames in order: `"T:0 C:c"`, then `"ZERO! C:c"` (lines 148-163). It does not skip the `T:0` frame.
- `last_button_time` starts at 0 and the debounce test is strict. So every edge in the first 200 ms after boot is ignored. An A press "at t = 0" never starts a countdown.
- The debounce clock is shared by both buttons. An accepted A press makes a B press less than 200 ms later get lost, and the reverse holds too. `Session` shows this: a B press 100 ms after A is dropped.
- A B edge rejected by the "countdown running" gate still moves the debounce clock. An edge on any other pin does too.
- The handler is modelled as running between loop iterations. Under that model, a pending B press always finds the countdown running. So the branch at lines 137-139 (clear a B flag taken while stopped) is never entered.

## Model

| member | source | states |
|---|---|---|
| `Decimal.FormatNat` | contador_isr/contador_isr.c:125 | the `%d` digits of a non-negative value: at least one, all decimal digits, no leading zero |
| `Decimal.FormatInt` | contador_isr/contador_isr.c:125 | `%d` of any int: digits, with a leading `-` exactly for negative values, and never a space |
| `Decimal.ParseNat` | contador_isr/contador_isr.c:125 | not code of the program: a reader used only to show that `%d` output can be read back. It succeeds exactly on non-empty digit strings |
| `Decimal.ParseFormatInt` | contador_isr/contador_isr.c:125 | reading back what `%d` wrote gives the value that was written |
| `Decimal.ParseFormatNat` | contador_isr/contador_isr.c:125 | the same round trip for non-negative values, by induction on the digits |
| `Decimal.FormatIntInjective` | contador_isr/contador_isr.c:125 | two different integers are never rendered as the same text |
| `Decimal.FormatNatLength` | contador_isr/contador_isr.c:18 | a value below 10^k takes at most k digits |
| `Decimal.FormatInt32Length` | contador_isr/contador_isr.c:21 | any 32-bit `int` (`countdown_value`) takes at most 11 characters |
| `Decimal.FormatUint8Length` | contador_isr/contador_isr.c:16 | any `uint8_t` (`button_count`) takes at most 3 characters |
| `Display.FirstSpace` | contador_isr/contador_isr.c:125 | not code of the program: a helper of the frame reader. It gives the index of the first space in a text, or the text's length when there is none |
| `Display.CountdownFrame` | contador_isr/contador_isr.c:125 | `sprintf(string_contador, "T:%d C:%d", value, clicks)`, also at lines 135 and 153. Its meaning is stated by `ReadCountdownFrame`, `FramesAreDistinct` and `CountdownFrameFitsBuffer` |
| `Display.ZeroFrame` | contador_isr/contador_isr.c:162 | `sprintf(string_contador, "ZERO! C:%d", clicks)`. Its meaning is stated by `ReadZeroFrame`, `FramesAreDistinct` and `ZeroFrameFitsBuffer` |
| `Display.ReadFrame` | contador_isr/contador_isr.c:125 | not code of the program: a reader used only to show that frames can be read back unambiguously. A frame read as a countdown starts with `T:`, and a frame read as expired starts with `ZERO! C:` |
| `Display.ReadCountdownFrame` | contador_isr/contador_isr.c:153 | the frame `"T:%d C:%d"` reads back as exactly the value and click count drawn |
| `Display.ReadZeroFrame` | contador_isr/contador_isr.c:162 | the frame `"ZERO! C:%d"` reads back as exactly the click count drawn |
| `Display.FramesAreDistinct` | contador_isr/contador_isr.c:125-163 | different (value, clicks) pairs draw different frames, and no countdown frame equals a `ZERO!` frame |
| `Display.CountdownFrameFitsBuffer` | contador_isr/contador_isr.c:18 | `"T:%d C:%d"` plus its NUL fits the 20-byte buffer for every 32-bit value and every `uint8_t` count |
| `Display.ZeroFrameFitsBuffer` | contador_isr/contador_isr.c:18 | `"ZERO! C:%d"` plus its NUL fits the 20-byte buffer for every `uint8_t` count |
| `Counter.Boot` | contador_isr/contador_isr.c:108-111 | the start state: value 0, stopped and finished, no clicks, no pending press, both clocks at 0; it satisfies the invariant |
| `Counter.DebounceElapsed` | contador_isr/contador_isr.c:66 | the handler's test: strictly more than 200 ms since the last accepted edge of either button. Its consequences are stated by `HandleEdge`, `SharedDebounce` and `EarlyEdgesIgnored` |
| `Counter.HandleEdge` | contador_isr/contador_isr.c:62-75 | an edge within 200 ms of the last accepted one (strict `>`) changes nothing. An accepted edge sets `last_button_time` to its time whatever the pin. The A flag is set exactly by an accepted A edge. The B flag is set exactly by an accepted B edge while running. Nothing else changes |
| `Counter.ConsumeA` | contador_isr/contador_isr.c:116-127 | a pending A press, whatever the prior state, sets value 9, active, not finished, 0 clicks, `last_second_time = now`, clears the flag and draws exactly `"T:9 C:0"`. Without one, nothing happens |
| `Counter.ConsumeB` | contador_isr/contador_isr.c:130-140 | the B flag is always cleared. While running it adds one click mod 256 and draws `"T:v C:c"`. Otherwise only the flag changes and nothing is drawn |
| `Counter.TickDue` | contador_isr/contador_isr.c:143-147 | the countdown phase acts only while running and once at least one second has passed since `last_second_time`. Its consequences are stated by `Tick` and `CountdownPace` |
| `Counter.Tick` | contador_isr/contador_isr.c:143-166 | acts only when running and at least 1 s has passed. A tick from v >= 2 lowers the value to v-1, stamps `last_second_time`, keeps running and draws exactly `"T:v-1 C:c"`. The 1→0 tick stops the countdown and draws `"T:0 C:c"` then `"ZERO! C:c"`. A due tick at 0 only stops it and draws `"ZERO! C:c"`. The value never drops below 0. Clicks, flags and the debounce clock are untouched |
| `Counter.LoopBody` | contador_isr/contador_isr.c:114-170 | after one iteration both flags are clear and the debounce clock is unchanged. Without an A press: clicks change only while running, by one. The value drops by at most one. It drops only when a tick was due, and `last_second_time` moves only with a drop |
| `Counter.Apply` | contador_isr/contador_isr.c:62-170 | one event: an edge taken by the handler draws nothing, and an iteration is `LoopBody`. The handler runs between iterations. Its properties are stated by `StepPreservesInv` and `Device.CounterDevice.Perform` |
| `Counter.Run` | contador_isr/contador_isr.c:62-170 | a finite interleaving of handler edges and loop iterations, from a given state. Its properties are stated by `RunPreservesInv`, `ReachableStatesAreValid`, `RunAppend` and `Device.CounterDevice.Replay` |
| `CounterProperties.StepPreservesInv` | contador_isr/contador_isr.c:62-166 | both the handler and a loop iteration keep the invariant: running with value in 1..9, or stopped and finished at 0; a pending B only while running |
| `CounterProperties.RunPreservesInv` | contador_isr/contador_isr.c:114-170 | any run of edges and iterations from a state satisfying the invariant keeps it |
| `CounterProperties.ReachableStatesAreValid` | contador_isr/contador_isr.c:108-170 | from start-up, every reachable state has `0 <= countdown_value <= 9`. It is never both active and finished. A pending B press is held only while running |
| `CounterProperties.StaleBPressNeverSeen` | contador_isr/contador_isr.c:137-140 | in a reachable state, after the A phase a pending B press always finds the countdown running |
| `CounterProperties.ExpiryOnlyOnLastTick` | contador_isr/contador_isr.c:147-164 | in a reachable state without an A press, an iteration finishes the countdown iff it was running at 1 with a tick due. That iteration ends with the frames `"T:0 C:c"`, `"ZERO! C:c"` |
| `CounterProperties.ExpiredStaysExpired` | contador_isr/contador_isr.c:130-143 | once stopped, with no A edge, any run changes nothing but the debounce clock. It keeps the value and clicks, never runs, holds no pending press and draws nothing |
| `CounterProperties.CountdownPace` | contador_isr/contador_isr.c:143-155 | without an A edge the value never rises and drops at most once per iteration, with no catch-up. k drops move `last_second_time` forward by at least k seconds |
| `CounterProperties.ClicksAtMostBEdges` | contador_isr/contador_isr.c:66-140 | the B flag is a one-slot mailbox: with no A edge, counted plus pending clicks never exceed the B edges seen, and the count never drops |
| `CounterProperties.SharedDebounce` | contador_isr/contador_isr.c:66-73 | after an accepted edge of either button, any edge of either button within 200 ms is ignored |
| `CounterProperties.EarlyEdgesIgnored` | contador_isr/contador_isr.c:17 | with the debounce clock starting at 0, every edge in the first 200 ms after boot is ignored |
| `CounterProperties.ResetFromAnyState` | contador_isr/contador_isr.c:116-126 | a pending A press with no pending B, in any state, ends the iteration at value 9 with 0 clicks, stamped at the reset time, having drawn exactly `"T:9 C:0"`, when less than a second passes before the tick check |
| `CounterProperties.UndisturbedCountdown` | contador_isr/contador_isr.c:143-164 | left alone with one iteration per second, a countdown at v draws v-1 down to 0 and then `ZERO!`. It ends stopped v seconds after its last tick, with the clicks unchanged |
| `CounterProperties.CountdownFrames` | contador_isr/contador_isr.c:147-163 | the frames an undisturbed countdown from v draws: v+1 of them, `T:v-1` down to `T:0`, then `ZERO!` last |
| `CounterProperties.SessionPressA` | contador_isr/contador_isr.c:62-127 | the concrete opening: an A edge at 1 s and the next iteration start the countdown at 9 and draw exactly `T:9 C:0` |
| `CounterProperties.SessionBouncedClick` | contador_isr/contador_isr.c:66-75 | a B edge 100 ms after the accepted A edge is lost to the shared debounce, and the next iteration changes and draws nothing |
| `CounterProperties.SessionCountedClick` | contador_isr/contador_isr.c:66-140 | a B edge at 1.3 s is counted and draws exactly `T:9 C:1`; a B edge 50 ms later is lost |
| `CounterProperties.SessionOpening` | contador_isr/contador_isr.c:62-140 | the eight events of the opening together (four edges, each followed by an iteration): one click counted out of three B edges, and exactly the frames `T:9 C:0`, `T:9 C:1` |
| `CounterProperties.Session` | contador_isr/contador_isr.c:104-170 | the whole concrete session from boot, then one iteration a second: exactly the frames `T:9 C:0`, `T:9 C:1`, then `CountdownFrames(9, 1)` (`T:8 C:1` … `T:0 C:1`, `ZERO! C:1`), ending stopped at 10 s with one click |
| `Device.CounterDevice.constructor` | contador_isr/contador_isr.c:104-111 | the object starts in `Boot()`, satisfies the invariant, and the display shows the welcome text |
| `Device.CounterDevice.Draw` | contador_isr/contador_isr.c:47-54 | `escrever_texto` appends exactly its text to what was drawn |
| `Device.CounterDevice.OnGpioEdge` | contador_isr/contador_isr.c:62-75 | the handler updates the fields in place exactly as `HandleEdge`, keeps the invariant and draws nothing |
| `Device.CounterDevice.HandleButtonA` | contador_isr/contador_isr.c:116-127 | the A branch of the loop updates the fields and the display exactly as `ConsumeA` |
| `Device.CounterDevice.HandleButtonB` | contador_isr/contador_isr.c:130-140 | the B branch updates the fields and the display exactly as `ConsumeB` |
| `Device.CounterDevice.CountdownStep` | contador_isr/contador_isr.c:143-166 | the countdown branch updates the fields and the display exactly as `Tick` |
| `Device.CounterDevice.LoopIteration` | contador_isr/contador_isr.c:114-170 | one pass through the loop body updates the fields and the display exactly as `LoopBody`, and keeps the invariant |
| `Device.CounterDevice.Perform` | contador_isr/contador_isr.c:62-170 | one event, an edge or an iteration, updates the object as `Apply` |
| `Device.CounterDevice.Replay` | contador_isr/contador_isr.c:113-170 | the firmware over a finite interleaving of edges and iterations ends in `Run`'s state, having drawn exactly `Run`'s frames after what was already drawn |

## Left out

- Display and I2C plumbing (`inicializar_display`, the `ssd1306_*` calls, `sleep_ms`, the draw coordinates): a draw is modelled only as appending its text to `display`.
- GPIO and interrupt registration in `srk_init` and `stdio_init_all`: platform bring-up through calls outside this program. Only the welcome text it draws is kept.
- The `evento` argument of the handler, which the handler never reads.
- True preemption of the loop body by the interrupt, and the data race on the `volatile` flags and on `countdown_active`/`countdown_finished`: the handler is an atomic step between iterations. With preemption, the branch at lines 137-139 can be entered; under this model it cannot.
- The 20 ms pause between iterations: iterations are events with arbitrary clock reads. The clock is not assumed monotonic, and no property needs it to be.
- `absolute_time_t` as a 64-bit counter: times are unbounded integers, and `absolute_time_diff_us` is subtraction without wrap-around.
- CounterProperties.ClicksAtMostBEdges: stated only while the count stays below 256, because at the `uint8_t` wrap the count drops to 0 (the wrap itself is modelled in `ConsumeB`).
- `joystick_oled/joystick_oled.c` (ADC reads and `sprintf` of raw values; its countdown globals are never used) and `temp_interna/temp_interna.c` (a floating-point voltage-to-temperature formula): no state machine, not part of this model.
