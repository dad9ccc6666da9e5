/**
 * The race state as a value and the ranking logic of one tick: the leader position, the
 * trailing racer, the move towards the finish, the colour classification and the penalty.
 * Racer i (0-based) is the racer whose label reads i + 1.
 */
module Ranking {
  import opened RaceConfig
  import opened Decimal

  /** Display state of a marker; Unstyled is the look of a label before its first tick. */
  datatype Colour = Unstyled | Leader | Trailing | Normal | Penalized

  /** One entry per racer: x position, alive flag, colour and label text. */
  datatype Snapshot = Snapshot(pos: seq<int>, alive: seq<bool>, colour: seq<Colour>, text: seq<string>)
  {
    predicate Valid() {
      |pos| >= 1 && |alive| == |pos| && |colour| == |pos| && |text| == |pos|
    }

    function Size(): nat {
      |pos|
    }
  }

  const DEAD_TRAILING: string := "El \U{FA}ltimo no puede estar muerto"

  /** What a tick reports: success, or the exception raised when the trailing racer is not alive. */
  datatype Outcome = Pass | Fail(message: string)

  /** Label text that identifies racer i: the canonical numeral of i + 1. */
  function Id(i: nat): (r: string)
    ensures IsNumeral(r) && Value(r) == i + 1
  {
    NatRoundTrip(i + 1);
    NatToString(i + 1)
  }

  predicate AnyAlive(alive: seq<bool>) {
    exists j :: 0 <= j < |alive| && alive[j]
  }

  // ---------------------------------------------------------------- leader position

  /**
   * The accumulator of the leader scan after looking at the first k racers: at least 0 and at
   * least every alive racer's position among them, and one of those positions unless it is 0.
   */
  function LeaderPosTo(pos: seq<int>, alive: seq<bool>, k: nat): (x: int)
    requires k <= |pos| == |alive|
    ensures x >= 0
    ensures forall j :: 0 <= j < k && alive[j] ==> pos[j] <= x
    ensures x == 0 || exists j :: 0 <= j < k && alive[j] && pos[j] == x
  {
    if k == 0 then 0
    else
      var x := LeaderPosTo(pos, alive, k - 1);
      if alive[k - 1] && pos[k - 1] >= x then pos[k - 1] else x
  }

  /**
   * Leader position: the scan over all racers, starting from 0. It is at least every alive
   * racer's position and at least 0; it is some alive racer's position unless it is 0, and it
   * is 0 when nobody is alive.
   */
  function LeaderPos(pos: seq<int>, alive: seq<bool>): (x: int)
    requires |pos| == |alive|
    ensures x >= 0
    ensures forall j :: 0 <= j < |pos| && alive[j] ==> pos[j] <= x
    ensures x == 0 || exists j :: 0 <= j < |pos| && alive[j] && pos[j] == x
    ensures !AnyAlive(alive) ==> x == 0
  {
    LeaderPosTo(pos, alive, |pos|)
  }

  /** The leader scan does not look at the position of a racer that is not alive. */
  lemma {:induction false} LeaderPosToIgnoresDead(pos: seq<int>, alive: seq<bool>, k: nat, i: nat, x: int)
    requires k <= |pos| == |alive| && i < |pos| && !alive[i]
    ensures LeaderPosTo(pos[i := x], alive, k) == LeaderPosTo(pos, alive, k)
  {
    if k > 0 {
      LeaderPosToIgnoresDead(pos, alive, k - 1, i, x);
    }
  }

  // ---------------------------------------------------------------- trailing racer

  /** The first alive racer at index k or later; 0 when there is none. */
  function FirstAliveFrom(alive: seq<bool>, k: nat): (r: nat)
    requires 1 <= |alive| && k <= |alive|
    ensures r < |alive|
    ensures (exists j :: k <= j < |alive| && alive[j]) ==>
              k <= r && alive[r] && forall j :: k <= j < r ==> !alive[j]
    ensures (forall j :: k <= j < |alive| ==> !alive[j]) ==> r == 0
    decreases |alive| - k
  {
    if k == |alive| then 0
    else if alive[k] then k
    else FirstAliveFrom(alive, k + 1)
  }

  /** The trailing-racer scan after looking at the first k racers, from the first alive racer. */
  function TrailingRacerTo(pos: seq<int>, alive: seq<bool>, k: nat): (r: nat)
    requires 1 <= |pos| == |alive| && k <= |pos|
    ensures r < |pos|
  {
    if k == 0 then FirstAliveFrom(alive, 0)
    else
      var idx := TrailingRacerTo(pos, alive, k - 1);
      if alive[k - 1] && pos[k - 1] <= pos[idx] then k - 1 else idx
  }

  /** The trailing racer. */
  function TrailingRacer(pos: seq<int>, alive: seq<bool>): (r: nat)
    requires 1 <= |pos| == |alive|
    ensures r < |pos|
  {
    TrailingRacerTo(pos, alive, |pos|)
  }

  lemma {:induction false} TrailingRacerToIsMin(pos: seq<int>, alive: seq<bool>, k: nat)
    requires 1 <= |pos| == |alive| && k <= |pos|
    requires AnyAlive(alive)
    ensures alive[TrailingRacerTo(pos, alive, k)]
    ensures forall j :: 0 <= j < k && alive[j] ==> pos[TrailingRacerTo(pos, alive, k)] <= pos[j]
    ensures forall j :: TrailingRacerTo(pos, alive, k) < j < k && alive[j] ==>
              pos[TrailingRacerTo(pos, alive, k)] < pos[j]
  {
    if k > 0 {
      TrailingRacerToIsMin(pos, alive, k - 1);
    }
  }

  /**
   * With some racer alive the trailing racer is alive, no alive racer is behind it, and every
   * alive racer after it is strictly ahead (ties go to the highest index). With nobody alive
   * the scan falls back to racer 0, which is then not alive.
   */
  lemma TrailingIsMin(pos: seq<int>, alive: seq<bool>)
    requires 1 <= |pos| == |alive|
    ensures AnyAlive(alive) ==> alive[TrailingRacer(pos, alive)]
    ensures AnyAlive(alive) ==>
              forall j :: 0 <= j < |pos| && alive[j] ==> pos[TrailingRacer(pos, alive)] <= pos[j]
    ensures AnyAlive(alive) ==>
              forall j :: TrailingRacer(pos, alive) < j < |pos| && alive[j] ==> pos[TrailingRacer(pos, alive)] < pos[j]
    ensures !AnyAlive(alive) ==> TrailingRacer(pos, alive) == 0 && !alive[0]
  {
    if AnyAlive(alive) {
      TrailingRacerToIsMin(pos, alive, |pos|);
    } else {
      TrailingRacerToStaysAtStart(pos, alive, |pos|);
    }
  }

  lemma {:induction false} TrailingRacerToStaysAtStart(pos: seq<int>, alive: seq<bool>, k: nat)
    requires 1 <= |pos| == |alive| && k <= |pos|
    requires !AnyAlive(alive)
    ensures TrailingRacerTo(pos, alive, k) == 0
  {
    if k > 0 {
      TrailingRacerToStaysAtStart(pos, alive, k - 1);
    }
  }

  // ---------------------------------------------------------------- one tick

  /** Where a marker goes on a tick: SALTO further, or to the finish limit, which ends its race. */
  datatype Motion = Motion(x: int, finished: bool)

  function Advance(x: int, limit: int): (m: Motion)
    ensures m.finished <==> m.x == limit
    ensures m.finished <==> x + SALTO >= limit
    ensures x <= limit ==> x <= m.x <= limit
  {
    if x + SALTO < limit then Motion(x + SALTO, false) else Motion(limit, true)
  }

  /** Colour before the penalty check: leader first, then trailing, otherwise normal. */
  function Rank(x: int, leaderX: int, trailingX: int): (c: Colour)
    ensures c == Leader <==> x == leaderX
    ensures c == Trailing <==> x != leaderX && x == trailingX
    ensures c != Penalized && c != Unstyled
  {
    if x == leaderX then Leader else if x == trailingX then Trailing else Normal
  }

  /** Label of a racer that is not penalized: its id, then its gap in parentheses. */
  function GapLabel(i: nat, gap: int): string {
    Id(i) + "(" + IntToString(gap) + ")"
  }

  /** Label of a penalized racer: its id, then the id of the trailing racer in angle brackets. */
  function PenaltyLabel(i: nat, trailing: nat): string {
    Id(i) + "<" + Id(trailing) + ">"
  }

  /** A gap label starts with the racer's id, and what it shows in parentheses reads back as the gap. */
  lemma GapLabelReadsBack(i: nat, gap: int)
    ensures var r := GapLabel(i, gap);
      |r| >= |Id(i)| + 3 && r[..|Id(i)|] == Id(i) && r[|Id(i)|] == '(' && r[|r| - 1] == ')'
      && ParseInt(r[|Id(i)| + 1..|r| - 1]) == gap
  {
    var r := GapLabel(i, gap);
    assert r[|Id(i)| + 1..|r| - 1] == IntToString(gap);
    IntRoundTrip(gap);
  }

  /**
   * A penalty label starts with the racer's id, and what it shows in angle brackets is the
   * trailing racer's id, reading back as that racer's number.
   */
  lemma PenaltyLabelReadsBack(i: nat, trailing: nat)
    ensures var r := PenaltyLabel(i, trailing);
      |r| >= |Id(i)| + 3 && r[..|Id(i)|] == Id(i) && r[|Id(i)|] == '<' && r[|r| - 1] == '>'
      && r[|Id(i)| + 1..|r| - 1] == Id(trailing) && Value(r[|Id(i)| + 1..|r| - 1]) == trailing + 1
  {
    var r := PenaltyLabel(i, trailing);
    assert r[|Id(i)| + 1..|r| - 1] == Id(trailing);
  }

  /** A penalty label names exactly one trailing racer. */
  lemma PenaltyLabelInjective(i: nat, u: nat, v: nat)
    requires PenaltyLabel(i, u) == PenaltyLabel(i, v)
    ensures u == v
  {
    var a := PenaltyLabel(i, u);
    PenaltyLabelReadsBack(i, u);
    PenaltyLabelReadsBack(i, v);
    assert Value(a[|Id(i)| + 1..|a| - 1]) == u + 1;
    assert Value(a[|Id(i)| + 1..|a| - 1]) == v + 1;
  }

  /**
   * The new state, the outcome, and the values computed inside the critical section: the
   * trailing racer, the leader position and the gap.
   */
  datatype TickResult = TickResult(after: Snapshot, outcome: Outcome, trailing: nat, leaderX: int, gap: int)

  /**
   * The move of racer i: its new x and its flag cleared on reaching the finish, both decided
   * before the lock. The x is written as the first step under the lock; the queries see both.
   */
  function Moved(s: Snapshot, i: nat, limit: int): (t: Snapshot)
    requires s.Valid() && i < s.Size()
    ensures t.Valid() && t.Size() == s.Size()
    ensures t.pos == s.pos[i := Advance(s.pos[i], limit).x]
    ensures forall j :: 0 <= j < t.Size() && j != i ==> t.alive[j] == s.alive[j]
    ensures t.alive[i] == (s.alive[i] && !Advance(s.pos[i], limit).finished)
    ensures t.colour == s.colour && t.text == s.text
  {
    var m := Advance(s.pos[i], limit);
    s.(pos := s.pos[i := m.x], alive := if m.finished then s.alive[i := false] else s.alive)
  }

  /**
   * The critical section for racer i on a state where it has already moved: query the
   * trailing racer and the leader position, fail if the trailing racer is not alive, otherwise
   * colour racer i and apply the penalty.
   */
  function Rerank(t: Snapshot, i: nat): (r: TickResult)
    requires t.Valid() && i < t.Size()
    ensures r.after.Valid() && r.after.Size() == t.Size()
    ensures r.trailing < t.Size()
  {
    var u := TrailingRacer(t.pos, t.alive);
    var leaderX := LeaderPos(t.pos, t.alive);
    var gap := t.pos[i] - t.pos[u];
    if !t.alive[u] then
      TickResult(t, Fail(DEAD_TRAILING), u, leaderX, gap)
    else if gap > MAX_SEPARACION then
      TickResult(t.(alive := t.alive[i := false], colour := t.colour[i := Penalized], text := t.text[i := PenaltyLabel(i, u)]),
                 Pass, u, leaderX, gap)
    else
      TickResult(t.(colour := t.colour[i := Rank(t.pos[i], leaderX, t.pos[u])], text := t.text[i := GapLabel(i, gap)]),
                 Pass, u, leaderX, gap)
  }

  /** One tick of racer i against the finish limit: the move, then the critical section. */
  function Tick(s: Snapshot, i: nat, limit: int): (r: TickResult)
    requires s.Valid() && i < s.Size()
    ensures r.after.Valid() && r.after.Size() == s.Size()
    ensures r.trailing < s.Size()
  {
    Rerank(Moved(s, i, limit), i)
  }

  /** A tick changes racer i only: every other racer keeps position, flag, colour and label. */
  lemma TickOnlyTouchesRacer(s: Snapshot, i: nat, limit: int)
    requires s.Valid() && i < s.Size()
    ensures var a := Tick(s, i, limit).after;
      forall j :: 0 <= j < s.Size() && j != i ==>
        a.pos[j] == s.pos[j] && a.alive[j] == s.alive[j] && a.colour[j] == s.colour[j] && a.text[j] == s.text[j]
  {
  }

  /** No tick brings a racer back to life. */
  lemma TickAliveMonotone(s: Snapshot, i: nat, limit: int)
    requires s.Valid() && i < s.Size()
    ensures forall j :: 0 <= j < s.Size() && Tick(s, i, limit).after.alive[j] ==> s.alive[j]
  {
  }

  /**
   * Movement: the new position is SALTO further while that stays short of the limit, and the
   * limit otherwise, which ends the race of racer i; a racer that starts on the track stays
   * on it and never moves back.
   */
  lemma TickMovement(s: Snapshot, i: nat, limit: int)
    requires s.Valid() && i < s.Size()
    ensures var r := Tick(s, i, limit);
      if s.pos[i] + SALTO < limit then r.after.pos[i] == s.pos[i] + SALTO
      else r.after.pos[i] == limit && !r.after.alive[i]
    ensures s.pos[i] <= limit ==> s.pos[i] <= Tick(s, i, limit).after.pos[i] <= limit
  {
  }

  /** A tick keeps every position within [0, limit]. */
  lemma TickKeepsOnTrack(s: Snapshot, i: nat, limit: int)
    requires s.Valid() && i < s.Size()
    requires forall j :: 0 <= j < s.Size() ==> 0 <= s.pos[j] <= limit
    ensures var a := Tick(s, i, limit).after;
      forall j :: 0 <= j < a.Size() ==> 0 <= a.pos[j] <= limit
  {
  }

  /**
   * A tick fails exactly when nobody is alive once racer i has moved, that is when every other
   * racer is out and racer i is out or has just finished. A failing tick leaves colours and
   * labels as they were, but racer i's move and finish are kept.
   */
  lemma TickFailsIffNobodyAlive(s: Snapshot, i: nat, limit: int)
    requires s.Valid() && i < s.Size()
    ensures var r := Tick(s, i, limit);
      r.outcome.Fail? <==>
        (forall j :: 0 <= j < s.Size() && j != i ==> !s.alive[j])
        && (!s.alive[i] || Advance(s.pos[i], limit).finished)
    ensures var r := Tick(s, i, limit);
      r.outcome.Fail? ==>
        r.outcome.message == DEAD_TRAILING && r.after.colour == s.colour && r.after.text == s.text
        && r.after.pos == s.pos[i := Advance(s.pos[i], limit).x] && r.after.alive == Moved(s, i, limit).alive
  {
    var pos := s.pos[i := Advance(s.pos[i], limit).x];
    var alive := Moved(s, i, limit).alive;
    TrailingIsMin(pos, alive);
  }

  /** A stop signal for everybody makes any racer's tick fail with the dead-trailing error. */
  lemma TickAfterStopFails(s: Snapshot, i: nat, limit: int)
    requires s.Valid() && i < s.Size()
    requires forall j :: 0 <= j < s.Size() ==> !s.alive[j]
    ensures Tick(s, i, limit).outcome == Fail(DEAD_TRAILING)
  {
    TickFailsIffNobodyAlive(s, i, limit);
  }

  /**
   * On a successful tick the trailing racer is alive and no alive racer is behind it, ties
   * going to the highest index; the leader position is at least every alive racer's position;
   * and the gap is racer i's new position minus the trailing position.
   */
  lemma TickQueries(s: Snapshot, i: nat, limit: int)
    requires s.Valid() && i < s.Size()
    ensures var r := Tick(s, i, limit); var pos := r.after.pos; var alive := Moved(s, i, limit).alive;
      r.outcome == Pass ==>
        alive[r.trailing]
        && (forall j :: 0 <= j < s.Size() && alive[j] ==> pos[r.trailing] <= pos[j] <= r.leaderX)
        && (forall j :: r.trailing < j < s.Size() && alive[j] ==> pos[r.trailing] < pos[j])
        && r.gap == pos[i] - pos[r.trailing]
  {
    var m := Advance(s.pos[i], limit);
    var pos := s.pos[i := m.x];
    var alive := Moved(s, i, limit).alive;
    TrailingIsMin(pos, alive);
  }

  /** A racer still in the race after its move is never behind the trailing racer. */
  lemma TickGapNonNegative(s: Snapshot, i: nat, limit: int)
    requires s.Valid() && i < s.Size()
    requires s.alive[i] && !Advance(s.pos[i], limit).finished
    ensures Tick(s, i, limit).outcome == Pass && Tick(s, i, limit).gap >= 0
  {
    TickFailsIffNobodyAlive(s, i, limit);
    TickQueries(s, i, limit);
  }

  /**
   * Penalty: a successful tick eliminates racer i exactly when its gap is strictly above
   * MAX_SEPARACION; the eliminated racer is out, PENALIZED and labelled with the trailing
   * racer's id. Otherwise it keeps its flag and gets its rank colour and its gap label.
   */
  lemma TickPenalty(s: Snapshot, i: nat, limit: int)
    requires s.Valid() && i < s.Size()
    ensures var r := Tick(s, i, limit);
      r.outcome == Pass ==> (r.after.colour[i] == Penalized <==> r.gap > MAX_SEPARACION)
    ensures var r := Tick(s, i, limit);
      r.outcome == Pass && r.gap > MAX_SEPARACION ==>
        !r.after.alive[i] && r.after.text[i] == PenaltyLabel(i, r.trailing)
    ensures var r := Tick(s, i, limit);
      r.outcome == Pass && r.gap <= MAX_SEPARACION ==>
        r.after.alive[i] == Moved(s, i, limit).alive[i]
        && r.after.colour[i] == Rank(r.after.pos[i], r.leaderX, r.after.pos[r.trailing])
        && r.after.text[i] == GapLabel(i, r.gap)
  {
  }

  /**
   * Colour of a racer that stays in the race and is not penalized: LEADER exactly when no
   * alive racer is ahead of it, otherwise TRAILING exactly when no alive racer is behind it,
   * otherwise NORMAL.
   */
  lemma TickColourOfRunningRacer(s: Snapshot, i: nat, limit: int)
    requires s.Valid() && i < s.Size()
    requires s.alive[i] && s.pos[i] >= 0 && !Advance(s.pos[i], limit).finished
    requires Tick(s, i, limit).gap <= MAX_SEPARACION
    ensures var r := Tick(s, i, limit); var pos := r.after.pos; var alive := r.after.alive;
      && (r.after.colour[i] == Leader <==> forall j :: 0 <= j < s.Size() && alive[j] ==> pos[j] <= pos[i])
      && (r.after.colour[i] == Trailing <==>
            (exists j :: 0 <= j < s.Size() && alive[j] && pos[i] < pos[j])
            && forall j :: 0 <= j < s.Size() && alive[j] ==> pos[i] <= pos[j])
  {
    var r := Tick(s, i, limit);
    TickGapNonNegative(s, i, limit);
    TickQueries(s, i, limit);
  }

  /**
   * A racer that reaches the finish is out before the queries run: the leader position is the
   * one of the other racers alone, it is never its own trailing racer, and while another racer
   * is alive the tick succeeds.
   */
  lemma TickFinisherExcluded(s: Snapshot, i: nat, limit: int)
    requires s.Valid() && i < s.Size()
    requires Advance(s.pos[i], limit).finished
    requires exists j :: 0 <= j < s.Size() && j != i && s.alive[j]
    ensures Tick(s, i, limit).outcome == Pass && Tick(s, i, limit).trailing != i
    ensures Tick(s, i, limit).leaderX == LeaderPos(s.pos, s.alive[i := false])
  {
    TickFailsIffNobodyAlive(s, i, limit);
    TickQueries(s, i, limit);
    LeaderPosToIgnoresDead(s.pos, s.alive[i := false], |s.pos|, i, Advance(s.pos[i], limit).x);
  }

  /** The gap threshold is strict: a gap of exactly MAX_SEPARACION does not eliminate. */
  lemma TickBoundaryNotPenalized(s: Snapshot, i: nat, limit: int)
    requires s.Valid() && i < s.Size()
    requires Tick(s, i, limit).outcome == Pass && Tick(s, i, limit).gap == MAX_SEPARACION
    ensures Tick(s, i, limit).after.colour[i] != Penalized
    ensures Tick(s, i, limit).after.alive[i] == Moved(s, i, limit).alive[i]
  {
  }

  /** Two racers: racer 1 at 190 moves to 205, more than 200 ahead of racer 2, and is penalized. */
  lemma PenaltyScenario()
    ensures var s := Snapshot([190, 0], [true, true], [Unstyled, Unstyled], ["1", "2"]);
      var r := Tick(s, 0, 1125);
      r.outcome == Pass && r.gap == 205 && r.trailing == 1
      && r.after == Snapshot([205, 0], [false, true], [Penalized, Unstyled], ["1<2>", "2"])
  {
    var s := Snapshot([190, 0], [true, true], [Unstyled, Unstyled], ["1", "2"]);
    var t := Moved(s, 0, 1125);
    assert t.pos == [205, 0] && t.alive == [true, true];
    assert FirstAliveFrom(t.alive, 0) == 0;
    assert TrailingRacerTo(t.pos, t.alive, 1) == 0;
    assert TrailingRacer(t.pos, t.alive) == 1;
    assert Id(0) == "1" && Id(1) == "2";
    assert PenaltyLabel(0, 1) == "1<2>";
    var r := Tick(s, 0, 1125);
    assert r == Rerank(t, 0);
    assert r.after.alive == [false, true];
    assert r.after.text == ["1<2>", "2"];
  }

  /** Racer 1 at 185 moves to exactly 200 ahead of racer 2: it leads and stays in the race. */
  lemma BoundaryScenario()
    ensures var s := Snapshot([185, 0], [true, true], [Unstyled, Unstyled], ["1", "2"]);
      var r := Tick(s, 0, 1125);
      r.outcome == Pass && r.gap == 200
      && r.after == Snapshot([200, 0], [true, true], [Leader, Unstyled], ["1(200)", "2"])
  {
    var s := Snapshot([185, 0], [true, true], [Unstyled, Unstyled], ["1", "2"]);
    var t := Moved(s, 0, 1125);
    assert t.pos == [200, 0] && t.alive == [true, true];
    assert FirstAliveFrom(t.alive, 0) == 0;
    assert TrailingRacerTo(t.pos, t.alive, 1) == 0;
    assert TrailingRacer(t.pos, t.alive) == 1;
    assert LeaderPosTo(t.pos, t.alive, 1) == 200;
    assert LeaderPos(t.pos, t.alive) == 200;
    assert NatToString(20) == "20";
    assert IntToString(200) == "200";
    assert Id(0) == "1";
    assert GapLabel(0, 200) == "1(200)";
    var r := Tick(s, 0, 1125);
    assert r == Rerank(t, 0);
    assert r.after.colour == [Leader, Unstyled];
    assert r.after.text == ["1(200)", "2"];
  }

  // ---------------------------------------------------------------- stop signal

  /** Every racer's flag cleared; nothing else changes. */
  function StopAll(s: Snapshot): (r: Snapshot)
    requires s.Valid()
    ensures r.Valid() && r.Size() == s.Size()
    ensures forall j :: 0 <= j < r.Size() ==> !r.alive[j]
    ensures r.pos == s.pos && r.colour == s.colour && r.text == s.text
  {
    s.(alive := seq(|s.alive|, _ => false))
  }

  /** Signalling the stop twice is the same as signalling it once. */
  lemma StopAllIdempotent(s: Snapshot)
    requires s.Valid()
    ensures StopAll(StopAll(s)) == StopAll(s)
  {
  }
}
