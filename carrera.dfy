/**
 * The race as one sequential state machine: the racers' markers are arrays indexed by racer,
 * updated in place by the per-racer tick and by the stop signal. Each tick is modelled as one
 * atomic step. In the program only the critical section holds the race's lock; the move
 * before it and the stop signal run outside the lock.
 */
module Carrera {
  import opened RaceConfig
  import opened Ranking

  class Race {
    /** x position of each racer's marker. */
    const pos: array<int>
    /** The racer's run flag: cleared when it finishes, is penalized or is told to stop. */
    const alive: array<bool>
    /** Colour of each racer's marker. */
    const colour: array<Colour>
    /** Label text of each racer's marker. */
    const text: array<string>

    predicate Valid() {
      pos.Length == N_HILOS && alive.Length == N_HILOS && colour.Length == N_HILOS && text.Length == N_HILOS
    }

    /** The race state as a value. */
    ghost function View(): (s: Snapshot)
      reads pos, alive, colour, text
      requires Valid()
      ensures s.Valid() && s.Size() == N_HILOS
    {
      Snapshot(pos[..], alive[..], colour[..], text[..])
    }

    /** One racer per lane, all at x = 0 and running, each label showing its number. */
    constructor ()
      ensures Valid()
      ensures fresh(pos) && fresh(alive) && fresh(colour) && fresh(text)
      ensures forall j :: 0 <= j < N_HILOS ==>
        pos[j] == 0 && alive[j] && colour[j] == Unstyled && text[j] == Id(j)
    {
      var ts := new string[N_HILOS];
      for k := 0 to N_HILOS
        invariant forall j :: 0 <= j < k ==> ts[j] == Id(j)
      {
        ts[k] := Id(k);
      }
      pos := new int[N_HILOS](_ => 0);
      alive := new bool[N_HILOS](_ => true);
      colour := new Colour[N_HILOS](_ => Unstyled);
      text := ts;
    }

    /** Leader position: the largest x among running racers, scanning from 0. */
    method PosPrimero() returns (x: int)
      requires Valid()
      ensures x == LeaderPos(pos[..], alive[..])
      ensures x >= 0
      ensures forall j :: 0 <= j < N_HILOS && alive[j] ==> pos[j] <= x
      ensures x == 0 || exists j :: 0 <= j < N_HILOS && alive[j] && pos[j] == x
    {
      x := 0;
      for k := 0 to N_HILOS
        invariant x == LeaderPosTo(pos[..], alive[..], k)
      {
        if alive[k] && pos[k] >= x {
          x := pos[k];
        }
      }
      assert forall j :: 0 <= j < N_HILOS ==> pos[..][j] == pos[j] && alive[..][j] == alive[j];
    }

    /**
     * Trailing racer: from the first running racer, the last index whose x is not above the
     * current candidate's. With nobody running it is racer 0.
     */
    method Ultimo() returns (idx: nat)
      requires Valid()
      ensures idx == TrailingRacer(pos[..], alive[..])
      ensures idx < N_HILOS
      ensures AnyAlive(alive[..]) ==> alive[idx]
      ensures AnyAlive(alive[..]) ==> forall j :: 0 <= j < N_HILOS && alive[j] ==> pos[idx] <= pos[j]
      ensures AnyAlive(alive[..]) ==> forall j :: idx < j < N_HILOS && alive[j] ==> pos[idx] < pos[j]
      ensures !AnyAlive(alive[..]) ==> idx == 0
    {
      idx := 0;
      if !alive[idx] {
        var k := 0;
        while k < N_HILOS
          invariant 0 <= k <= N_HILOS
          invariant idx == 0
          invariant FirstAliveFrom(alive[..], k) == FirstAliveFrom(alive[..], 0)
        {
          if alive[k] {
            idx := k;
            break;
          }
          k := k + 1;
        }
      }
      assert idx == FirstAliveFrom(alive[..], 0);
      for k := 0 to N_HILOS
        invariant idx == TrailingRacerTo(pos[..], alive[..], k)
      {
        if alive[k] && pos[k] <= pos[idx] {
          idx := k;
        }
      }
      TrailingIsMin(pos[..], alive[..]);
      assert forall j :: 0 <= j < N_HILOS ==> pos[..][j] == pos[j] && alive[..][j] == alive[j];
    }

    /** Stop signal for racer i. */
    method Finaliza(i: nat)
      requires Valid() && i < N_HILOS
      modifies alive
      ensures alive[..] == old(alive[..])[i := false]
    {
      alive[i] := false;
    }

    /** Stop signal for every racer; positions, colours and labels are untouched. */
    method FinalizaHilos()
      requires Valid()
      modifies alive
      ensures View() == StopAll(old(View()))
    {
      for k := 0 to N_HILOS
        invariant forall j :: 0 <= j < k ==> !alive[j]
      {
        Finaliza(k);
      }
      assert alive[..] == seq(N_HILOS, _ => false);
    }

    /**
     * One tick of racer i: compute the new x towards the finish limit, clearing the run flag
     * on arrival, then run the critical section, which writes the new x first.
     */
    method DesplazaEtiqueta(i: nat, limit: int) returns (outcome: Outcome)
      requires Valid() && i < N_HILOS
      modifies pos, alive, colour, text
      ensures View() == Tick(old(View()), i, limit).after
      ensures outcome == Tick(old(View()), i, limit).outcome
    {
      var newX := pos[i];
      if newX + SALTO < limit {
        newX := newX + SALTO;
      } else {
        newX := limit;
        alive[i] := false;
      }
      assert View().(pos := pos[..][i := newX]) == Moved(old(View()), i, limit);
      outcome := CriticalSection(i, newX);
    }

    /**
     * The part of a tick done under the race's lock: write racer i's new position, query the
     * trailing racer and the leader position, fail if the trailing racer is not running,
     * colour the marker, write the gap label and apply the penalty.
     */
    method CriticalSection(i: nat, newX: int) returns (outcome: Outcome)
      requires Valid() && i < N_HILOS
      modifies pos, alive, colour, text
      ensures View() == Rerank(old(View()).(pos := old(pos[..])[i := newX]), i).after
      ensures outcome == Rerank(old(View()).(pos := old(pos[..])[i := newX]), i).outcome
    {
      pos[i] := newX;
      ghost var r := Rerank(View(), i);
      var u := Ultimo();
      var primeroX := PosPrimero();
      var ultimoX := pos[u];
      var separacion := newX - ultimoX;
      assert u == r.trailing && primeroX == r.leaderX && separacion == r.gap;

      if !alive[u] {
        assert View() == r.after;
        return Fail(DEAD_TRAILING);
      }

      ghost var t := View();
      var rank := Rank(newX, primeroX, ultimoX);
      var gapText := GapLabel(i, separacion);
      colour[i] := rank;
      text[i] := gapText;
      if separacion > MAX_SEPARACION {
        var penaltyText := PenaltyLabel(i, u);
        colour[i] := Penalized;
        alive[i] := false;
        text[i] := penaltyText;
        assert View() == t.(alive := t.alive[i := false], colour := t.colour[i := Penalized], text := t.text[i := penaltyText]);
      } else {
        assert View() == t.(colour := t.colour[i := rank], text := t.text[i := gapText]);
      }
      outcome := Pass;
    }
  }
}
