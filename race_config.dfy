/** Fixed configuration of the race window: sizes, step, gap threshold and lane layout. */
module RaceConfig {

  const SIZE_X: int := 1200          // window width
  const SIZE_Y: int := 700           // window height
  const W_LABEL: int := 25 * 3       // marker width
  const H_LABEL: int := 25           // marker height
  const SALTO: int := 15             // pixels a marker advances per tick
  const SEP_Y: int := 4              // vertical gap between markers
  const SIZE_CARRIL: int := H_LABEL + SEP_Y
  const MAX_SEPARACION: int := 200   // largest gap to the trailing racer that is tolerated

  /** Number of racers: as many lanes as fit in the window height. */
  const N_HILOS: nat := SIZE_Y / SIZE_CARRIL

  /** Vertical position of the marker of racer `i` (0-based), fixed for the whole run. */
  function LaneY(i: nat): (y: int)
    ensures y >= SEP_Y / 2
    ensures i < N_HILOS ==> y + H_LABEL <= SIZE_Y
  {
    i * SIZE_CARRIL + SEP_Y / 2
  }

  /** N_HILOS lanes fit in the window and one more would not. */
  lemma LaneCountIsMaximal()
    ensures N_HILOS == 24
    ensures N_HILOS * SIZE_CARRIL <= SIZE_Y < (N_HILOS + 1) * SIZE_CARRIL
  {
  }

  /** Markers of different racers never overlap vertically: a lower index lies strictly above. */
  lemma LanesDisjoint(i: nat, j: nat)
    requires i < j
    ensures LaneY(i) + H_LABEL < LaneY(j)
  {
  }
}
