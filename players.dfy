/** The players the spell can reach (Player.swift). A player's fixed data
    (position, name, PP) is a value; its search fields (last heal, recorded
    best heal, visited mark, predecessor link, adjacency list) are updated in
    place by the search. The model keeps the fixed data in a sequence and
    each mutable field in an array indexed by the player's position in that
    sequence, so that "player i" stands for the i-th Player object and a
    predecessor link is an index, with -1 for nil. */
module Players {
  import opened Geometry

  /** The reserved name that marks the caster. */
  const CasterName: string := "Urgosa_the_Healing_Shaman"

  /** The fields of a Player that never change after `init`. */
  datatype PlayerInfo = PlayerInfo(position: Point, name: string, maxPP: int, currentPP: int)

  /** The amount `heal(potential)` gives: the smaller of the potential and
      the missing PP. There is no floor at 0. */
  function HealAmount(potential: int, maxPP: int, currentPP: int): (h: int)
    ensures h <= potential && h <= maxPP - currentPP
    ensures h == potential || h == maxPP - currentPP
  {
    if maxPP - currentPP < potential then maxPP - currentPP else potential
  }

  /** With a non-negative potential and a player not above its maximum, the
      heal is never negative. */
  lemma HealNonNegative(potential: int, maxPP: int, currentPP: int)
    requires potential >= 0 && currentPP <= maxPP
    ensures 0 <= HealAmount(potential, maxPP, currentPP) <= potential
  {
  }

  /** A player whose current PP exceeds its maximum receives a negative heal:
      the rule is not floored at 0. */
  lemma HealNotFloored(potential: int, maxPP: int, currentPP: int)
    requires currentPP > maxPP
    ensures HealAmount(potential, maxPP, currentPP) < 0
  {
  }

  /** A player at full PP contributes nothing, whatever the potential, as
      long as the potential is not negative. */
  lemma HealAtFullPP(potential: int, pp: int)
    requires potential >= 0
    ensures HealAmount(potential, pp, pp) == 0
  {
  }

  /** Every Player of one run: fixed data in `info`, mutable fields as arrays. */
  class Roster {
    const info: seq<PlayerInfo>
    const healing: array<int>
    const bestHealing: array<int>
    const visited: array<bool>
    const previousPlayer: array<int>
    const adjacentPlayers: array<seq<int>>

    /** Every array holds one entry per player, and the three integer
        arrays are distinct objects. */
    ghost predicate Valid()
    {
      healing.Length == |info| && bestHealing.Length == |info| &&
      visited.Length == |info| && previousPlayer.Length == |info| &&
      adjacentPlayers.Length == |info| &&
      healing != bestHealing && healing != previousPlayer && bestHealing != previousPlayer
    }

    /** `Player.init` for each player: no heal yet, no recorded best, not
        visited, no predecessor and no adjacent players. */
    constructor (info: seq<PlayerInfo>)
      ensures Valid() && this.info == info
      ensures fresh(healing) && fresh(bestHealing) && fresh(visited)
      ensures fresh(previousPlayer) && fresh(adjacentPlayers)
      ensures forall i :: 0 <= i < |info| ==>
        healing[i] == 0 && bestHealing[i] == 0 && !visited[i] &&
        previousPlayer[i] == -1 && adjacentPlayers[i] == []
    {
      this.info := info;
      healing := new int[|info|](_ => 0);
      bestHealing := new int[|info|](_ => 0);
      visited := new bool[|info|](_ => false);
      previousPlayer := new int[|info|](_ => -1);
      adjacentPlayers := new seq<int>[|info|](_ => []);
    }

    /** `heal(potential)` on player i: stores the clamped amount in the
        player's `healing` field and returns it; no other field of any
        player changes. */
    method Heal(i: int, potential: int) returns (h: int)
      requires Valid() && 0 <= i < |info|
      modifies healing
      ensures h == HealAmount(potential, info[i].maxPP, info[i].currentPP)
      ensures healing[..] == old(healing[..])[i := h]
    {
      healing[i] := HealAmount(potential, info[i].maxPP, info[i].currentPP);
      h := healing[i];
    }
  }
}
