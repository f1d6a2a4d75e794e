/** The monsters of game/monsters.go: the two kinds, the occupancy update of
    Move and the action-point spending of Update. The level is the later
    revision's, with a map from positions to monsters; the path Update
    follows, the Attack it may make and IsNextToPlayer are inputs. */
module Monsters {
  import opened Floats
  import G = Grid

  type Pos = G.Pos

  /** What Attack leaves behind: the hitpoints of the monster and of the
      player after the blow. */
  datatype Blow = Blow(monsterHp: int, playerHp: int)

  /** How a turn of Update ends: the path index is out of range (a panic),
      the player died (os.Exit), or the monster spent cost action points. */
  datatype Turn = Panicked | Exited | Spent(cost: int)

  /** The action points Update spends and the index into the path it moves
      to: the points available, but no farther than the end of the path. */
  function StepCost(points: real, pathLength: nat): (cost: int)
    ensures pathLength > 0 && points >= 0.0 ==>
              0 <= cost < pathLength && cost as real <= points &&
              (cost == pathLength - 1 || points < cost as real + 1.0)
    ensures pathLength == 0 ==> cost < 0
  {
    TruncTowardZero(Min(points, (pathLength - 1) as real));
    Trunc(Min(points, (pathLength - 1) as real))
  }

  /** Spending StepCost never drives the action points below zero, and
      leaves less than one point unless the path's end stopped it. */
  lemma StepCostAffordable(points: real, pathLength: nat)
    requires pathLength > 0 && points >= 0.0
    ensures 0.0 <= points - StepCost(points, pathLength) as real
    ensures StepCost(points, pathLength) == pathLength - 1 || points - StepCost(points, pathLength) as real < 1.0
  {
  }

  /** The index is out of range exactly when the path is empty or the
      points are -1 or less. */
  lemma StepCostInRange(points: real, pathLength: nat)
    ensures 0 <= StepCost(points, pathLength) < pathLength <==> pathLength > 0 && points > -1.0
  {
    TruncTowardZero(Min(points, (pathLength - 1) as real));
  }

  class Level {
    var monsters: map<Pos, Monster>
    var player: Pos
    var playerHp: int

    /** Every monster of the map stands on its own key, and no monster
        shares the player's cell; so no two keys hold the same monster. */
    ghost predicate Valid()
      reads this, set q | q in monsters :: monsters[q]
    {
      player !in monsters &&
      forall q :: q in monsters ==> monsters[q].pos == q
    }

    lemma OneKeyEach(m: Monster)
      requires Valid()
      ensures forall q :: q in monsters && monsters[q] == m ==> q == m.pos
    {
    }
  }

  class Monster {
    var pos: Pos
    var symbol: char
    var name: string
    var hitpoints: int
    var strength: int
    var speed: real
    var actionPoints: real

    /** NewRat. */
    constructor Rat(p: Pos)
      ensures pos == p && symbol == 'R' && name == "Rat"
      ensures hitpoints == 50 && strength == 5 && speed == 2.0 && actionPoints == 0.0
    {
      pos := p;
      symbol := 'R';
      name := "Rat";
      hitpoints := 50;
      strength := 5;
      speed := 2.0;
      actionPoints := 0.0;
    }

    /** NewSpider. */
    constructor Spider(p: Pos)
      ensures pos == p && symbol == 'S' && name == "Spider"
      ensures hitpoints == 100 && strength == 10 && speed == 1.0 && actionPoints == 0.0
    {
      pos := p;
      symbol := 'S';
      name := "Spider";
      hitpoints := 100;
      strength := 10;
      speed := 1.0;
      actionPoints := 0.0;
    }

    /** This monster is in the level at its own position. */
    ghost predicate Placed(level: Level)
      reads this, level
    {
      pos in level.monsters && level.monsters[pos] == this
    }

    /** Move: onto a cell that holds neither a monster nor the player the
        monster moves, re-keying the map; otherwise it stays, and when it is
        next to the player it attacks, dies if its hitpoints drop to zero or
        below, and ends the game (exit) if the player's do. */
    method Move(to: Pos, level: Level, nextToPlayer: bool, blow: Blow) returns (exit: bool)
      modifies this, level
      ensures symbol == old(symbol) && name == old(name) && strength == old(strength)
      ensures speed == old(speed) && actionPoints == old(actionPoints) && level.player == old(level.player)
      ensures to !in old(level.monsters) && to != old(level.player) ==>
                level.monsters == (old(level.monsters) - {old(pos)})[to := this] && pos == to &&
                hitpoints == old(hitpoints) && level.playerHp == old(level.playerHp) && !exit
      ensures (to in old(level.monsters) || to == old(level.player)) && !nextToPlayer ==>
                level.monsters == old(level.monsters) && pos == old(pos) &&
                hitpoints == old(hitpoints) && level.playerHp == old(level.playerHp) && !exit
      ensures (to in old(level.monsters) || to == old(level.player)) && nextToPlayer ==>
                pos == old(pos) && hitpoints == blow.monsterHp && level.playerHp == blow.playerHp &&
                level.monsters == (if blow.monsterHp <= 0 then old(level.monsters) - {pos} else old(level.monsters)) &&
                exit == (blow.playerHp <= 0)
      ensures old(level.Valid() && Placed(level)) ==> level.Valid()
      ensures old(level.Valid() && Placed(level)) && to !in old(level.monsters) && to != old(level.player) ==>
                Placed(level)
    {
      var occupied := to in level.monsters;
      exit := false;
      if !occupied && to != level.player {
        ghost var before := level.monsters;
        ghost var wasValid := level.Valid() && Placed(level);
        level.monsters := level.monsters - {pos};
        level.monsters := level.monsters[to := this];
        pos := to;
        if wasValid {
          forall q | q in level.monsters ensures level.monsters[q].pos == q {
            if q != to {
              assert q in before && before[q] != this;
            }
          }
        }
      } else {
        if nextToPlayer {
          hitpoints := blow.monsterHp;
          level.playerHp := blow.playerHp;
          if hitpoints <= 0 {
            level.monsters := level.monsters - {pos};
          }
          if level.playerHp <= 0 {
            exit := true;
          }
        }
      }
    }

    /** Update: gain speed in action points, move StepCost steps along the
        path (one Move to that index), then pay for them. */
    method Update(level: Level, path: seq<Pos>, nextToPlayer: bool, blow: Blow) returns (turn: Turn)
      modifies this, level
      ensures var cost := StepCost(old(actionPoints) + old(speed), |path|);
        (turn.Panicked? <==> !(0 <= cost < |path|)) &&
        (turn.Spent? ==> turn.cost == cost && actionPoints == old(actionPoints) + old(speed) - cost as real)
      ensures |path| == 0 ==> turn.Panicked?
      ensures !turn.Panicked? ==>
                var to := path[StepCost(old(actionPoints) + old(speed), |path|)];
                (to !in old(level.monsters) && to != old(level.player) ==>
                   pos == to && level.monsters == (old(level.monsters) - {old(pos)})[to := this]) &&
                (to in old(level.monsters) || to == old(level.player) ==> pos == old(pos))
      ensures old(actionPoints) >= 0.0 && old(speed) >= 0.0 && turn.Spent? ==> actionPoints >= 0.0
      ensures !turn.Panicked? ==> speed == old(speed) && level.player == old(level.player)
      ensures !turn.Panicked? && old(level.Valid() && Placed(level)) ==> level.Valid()
    {
      actionPoints := actionPoints + speed;
      var cost := Trunc(Min(actionPoints, (|path| - 1) as real));
      if !(0 <= cost < |path|) {
        return Panicked;
      }
      var exit := Move(path[cost], level, nextToPlayer, blow);
      if exit {
        return Exited;
      }
      actionPoints := actionPoints - cost as real;
      turn := Spent(cost);
      if old(actionPoints) >= 0.0 && old(speed) >= 0.0 {
        StepCostAffordable(old(actionPoints) + old(speed), |path|);
      }
    }
  }
}
