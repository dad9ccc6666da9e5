# Racing markers: ranking and tick logic of `CarreraSolidariaParar`

The program runs one thread per lane. Each thread moves a label (a racer's marker) to the right,
`SALTO` pixels at a time. Under one shared semaphore, every move writes the new position and
looks up the trailing racer (`ultimo`) and the leader position (`posPrimero`). It then colours
the marker LEADER, TRAILING or NORMAL and shows the racer's gap to the trailing racer. A racer
more than `MAX_SEPARACION` pixels ahead of the trailing racer is disqualified (PENALIZED). A
racer that reaches the right edge stops. Closing the window clears every racer's run flag
(`continuarHilo`).

This project models that logic as one sequential state machine, with each tick as one atomic
step. In the program only lines 280-314 of carrera.java hold the semaphore. The move and the
finish-flag clear (262-276) run outside it, and so does the stop signal (186-191, 250-252).

- `race_config.dfy`, module `RaceConfig`: the constants and the lane layout. There are
  `N_HILOS = 700 / 29 = 24` lanes, and lane `i` sits at `y = 29 * i + 2`.
- `decimal.dfy`, module `Decimal`: Java's `Integer.toString`, used for the label texts, and a
  parser that reads its output back.
- `ranking.dfy`, module `Ranking`: the race state as a value (`Snapshot`). It holds the
  leader-position scan, the trailing-racer scan, the move (`Advance`, `Moved`), the critical
  section (`Rerank`) and the whole tick (`Tick`), with lemmas about them.
- `carrera.dfy`, module `Carrera`: class `Race`. It holds one array per racer attribute
  (position, run flag, colour, label text). Its methods are the source's loops and in-place
  updates: `PosPrimero`, `Ultimo`, `Finaliza`, `FinalizaHilos` and `DesplazaEtiqueta`. Each
  method is proved against the matching function of `Ranking`.

Racer `i` (0-based) is the racer whose label reads `i + 1`. A racer handle (`Hilo`) returned by
`ultimo` becomes its index. The finish line `limit` is the panel width minus the label width. It is
a parameter of each tick, because the source reads it from the GUI on every move. The colours become
the enum `Colour`. It has one extra value, `Unstyled`, for a label that has never been ticked:
the source sets no colour when it creates a label.

Behaviour of the code that the model keeps:
- `ultimo` breaks ties toward the highest index, because its scan uses `<=` (carrera.java:174).
- A racer stops at the limit as soon as `x + SALTO >= limit`, not only when it would pass the
  limit (carrera.java:265).
- With no racer alive, `posPrimero` returns 0, the starting value of its accumulator. For the
  same reason it never returns a negative position (carrera.java:147).
- Positions can tie, so several racers can sit at the leader position at once.
- A racer that reaches the finish clears its flag before the critical section (carrera.java:273).
  So on its last tick the leader position is that of the other racers alone. While another racer
  is still running, it is never its own trailing racer (`TickFinisherExcluded`). When it was the
  last one running, `ultimo` falls back to racer 0 and the tick fails with the dead-trailing
  error (`TickFailsIffNobodyAlive`).
- A tick whose queries run after the stop signal has cleared every flag fails with
  "El último no puede estar muerto" (`TickAfterStopFails`).

## Model

| member | source | states |
|---|---|---|
| `RaceConfig.LaneY` | carrera.java:136-138 | Each racer's marker starts below the top margin. Every one of the `N_HILOS` lanes fits inside the window height. |
| `RaceConfig.LaneCountIsMaximal` | carrera.java:34-50 | There are 24 lanes. 24 lanes of `SIZE_CARRIL` fit in `SIZE_Y` and 25 do not. |
| `RaceConfig.LanesDisjoint` | carrera.java:36-41 | Markers of two different lanes never overlap vertically. |
| `Decimal.NatToString` | carrera.java:138 | A racer's number is rendered as a canonical decimal numeral: digits only, no leading zero. |
| `Decimal.IntToString` | carrera.java:302 | The gap is rendered with a leading minus sign exactly when it is negative, followed by a canonical numeral. |
| `Decimal.NatRoundTrip` | carrera.java:138 | Reading the digits back gives the number that was rendered. |
| `Decimal.IntRoundTrip` | carrera.java:302 | Parsing the rendered gap gives back the gap, sign included. |
| `Decimal.IntToStringInjective` | carrera.java:302 | Two different numbers never render the same text. |
| `Ranking.LeaderPosTo` | carrera.java:147-153 | After k racers, the accumulator is at least 0 and at least every alive racer's x among them. It is one of those x unless it is 0. |
| `Ranking.LeaderPos` | carrera.java:146-155 | The leader position is at least 0 and at least every alive racer's x. It is some alive racer's x unless it is 0. It is 0 when nobody is alive. |
| `Ranking.LeaderPosToIgnoresDead` | carrera.java:150 | The leader scan never looks at the position of a racer that is not alive. |
| `Ranking.FirstAliveFrom` | carrera.java:164-171 | The starting candidate is the first alive racer. It is index 0 when no racer is alive. |
| `Ranking.TrailingRacerTo` | carrera.java:173-178 | Each step of the `<=` scan keeps a valid racer index. |
| `Ranking.TrailingRacer` | carrera.java:157-181 | The trailing racer is a valid racer index. |
| `Ranking.TrailingIsMin` | carrera.java:157-181 | With some racer alive, the trailing racer is alive, nobody alive is behind it, and every alive racer after it is strictly ahead (ties go to the highest index). With nobody alive it is racer 0, which is then dead. |
| `Ranking.Advance` | carrera.java:262-276 | The racer finishes exactly when it lands on the limit, and exactly when `x + SALTO >= limit`. A start at or before the limit neither moves back nor passes the limit. |
| `Ranking.Moved` | carrera.java:262-282 | Racer i's new x is computed before the lock, and its flag is cleared before the lock (273) exactly when it finishes. The x is written at 282, the first step under the lock; the queries see both changes. No other racer and no colour or label changes. |
| `Ranking.Rerank` | carrera.java:280-314 | The critical section keeps the state well formed and picks a valid trailing racer. |
| `Ranking.Tick` | carrera.java:258-315 | A tick keeps the same number of racers and picks a valid trailing racer. |
| `Ranking.TickOnlyTouchesRacer` | carrera.java:258-315 | A tick on racer i leaves every other racer's position, flag, colour and label unchanged. |
| `Ranking.TickAliveMonotone` | carrera.java:273 | No tick sets a run flag back to true. |
| `Ranking.TickMovement` | carrera.java:262-276 | The new x is x + `SALTO` if that is below the limit. Otherwise it is the limit and the racer is out. A start at or before the limit stays between the old x and the limit. |
| `Ranking.TickKeepsOnTrack` | carrera.java:262-276 | If every position lies in [0, limit] before a tick, the same holds after it. |
| `Ranking.TickFailsIffNobodyAlive` | carrera.java:283-290 | A tick fails with "El último no puede estar muerto" exactly when no racer is alive after the move. A failed tick keeps the move but changes no colour or label. |
| `Ranking.TickAfterStopFails` | carrera.java:283-290 | After every flag has been cleared, any racer's tick fails with the dead-trailing error. |
| `Ranking.TickQueries` | carrera.java:283-286 | On success, the trailing racer is alive and minimal with ties going to the highest index. The leader position bounds every alive racer. The gap is the new x minus the trailing x. |
| `Ranking.TickGapNonNegative` | carrera.java:286 | A racer still running after its move makes the tick succeed, with a gap of at least 0. |
| `Ranking.TickPenalty` | carrera.java:302-310 | A successful tick gives PENALIZED exactly when the gap is above 200. The racer is then out and labelled `id<trailing id>`. Otherwise it keeps its flag, gets its rank colour and is labelled `id(gap)`. |
| `Ranking.Id` | carrera.java:138 | A racer's label text is the canonical numeral of its number i + 1 and reads back as i + 1. |
| `Ranking.GapLabelReadsBack` | carrera.java:302 | A gap label starts with the racer's id. What it shows in parentheses reads back as the gap. |
| `Ranking.PenaltyLabelReadsBack` | carrera.java:309 | A penalty label starts with the racer's id. What it shows in angle brackets is the trailing racer's id and reads back as that racer's number. |
| `Ranking.PenaltyLabelInjective` | carrera.java:309 | Two penalty labels of one racer are equal only when they name the same trailing racer. |
| `Ranking.TickColourOfRunningRacer` | carrera.java:292-301 | Starting from a position x >= 0, a running, unpenalized racer is LEADER exactly when nobody alive is ahead of it. It is TRAILING exactly when someone alive is ahead and nobody alive is behind. |
| `Ranking.TickFinisherExcluded` | carrera.java:270-273 | On a finishing racer's last tick, the leader position is that of the other racers with the finisher counted as out. While another racer is alive the tick does not fail, and the finisher is never its own trailing racer. |
| `Ranking.TickBoundaryNotPenalized` | carrera.java:303 | A gap of exactly 200 does not eliminate. |
| `Ranking.PenaltyScenario` | carrera.java:303-310 | Racer 1 moving from 190 to 205 with racer 2 at 0 is penalized: out, PENALIZED, labelled `1<2>`. |
| `Ranking.BoundaryScenario` | carrera.java:292-303 | Racer 1 moving from 185 to 200 with racer 2 at 0 becomes LEADER, stays in the race and is labelled `1(200)`. |
| `Ranking.StopAll` | carrera.java:186-191 | The stop signal clears every flag and leaves positions, colours and labels as they were. |
| `Ranking.StopAllIdempotent` | carrera.java:186-191 | Giving the stop signal twice has the same effect as giving it once. |
| `Carrera.Race.constructor` | carrera.java:136-140 | There are `N_HILOS` racers, all at x = 0 and running, unstyled, each label showing its number. The four arrays are freshly allocated. |
| `Carrera.Race.PosPrimero` | carrera.java:146-155 | The loop computes the leader scan. Its result is at least 0 and at least every alive racer's x, and is an alive racer's x unless it is 0. |
| `Carrera.Race.Ultimo` | carrera.java:157-181 | The two loops compute the trailing scan. With someone alive, the result is alive, minimal, and strictly behind every later alive racer. With nobody alive it is 0. |
| `Carrera.Race.Finaliza` | carrera.java:250-252 | Clears exactly racer i's flag. |
| `Carrera.Race.FinalizaHilos` | carrera.java:186-191 | The new state is `StopAll` of the old one. |
| `Carrera.Race.DesplazaEtiqueta` | carrera.java:258-315 | The new state and the outcome are those of `Tick` on the old state. |
| `Carrera.Race.CriticalSection` | carrera.java:280-314 | The critical section first writes racer i's new x (282). The new state and the outcome are then those of `Rerank` on the old state with that x in place. |

## Left out

- Swing and AWT: the frame, panel, label widgets, borders, colour values and the window listener. The colours are an enum. The window-close event is the call to `FinalizaHilos`.
- Threads, the semaphore, `Thread.sleep` and the `run` loop (`while (continuarHilo)`, with its catch that ends the thread on the exception). Each tick is modelled as one atomic step, and nothing models interleavings.
- A flag cleared by another thread while a tick is inside its critical section can make that tick fail at line 288 while other racers are still alive. The clear can come from a finisher at line 273 or from the stop signal, both outside the lock, and it can land between the `ultimo()` call (283) and the check (288). The atomic model does not show this: in it, a tick fails only when nobody is alive (`TickFailsIffNobodyAlive`).
- The semaphore is not released when the dead-trailing exception propagates, because `release` comes after the `try`. That lock leak is a concurrency matter and is not modelled.
- The random delays, the busy-wait variant that uses `double` timestamps, and all `System.out` logging.
- The real panel width: the finish `limit` is a parameter of each tick.
- The marker's y coordinate and size: the tick never changes them, so `LaneY` gives the y of each lane instead of a stored field.
- The unused field `bloqueadoPor`, and `VELOCIDAD` and `DEMORA_BASE`, which only feed the delay.
- 32-bit `int` wrap-around: positions stay between their start and the limit, so `newX + SALTO` cannot overflow for a window-sized limit.
- The label text `id(gap)` that a penalized racer carries only for an instant inside the critical section. It is overwritten before the lock is released, so the atomic model shows only the final text.
