/** The top-level program of main.swift: it builds the adjacency lists
    without self-loops, starts the search at hop 1 from every caster and from
    every other player within initial range of a caster, and adds up the
    recorded heals along the best path. The global `dfs` of main.swift is the
    same code as `ChainInfo.dfs` and is modelled by `ChainInfo.Dfs`. */
module MainProgram {
  import opened Geometry
  import opened Players
  import opened Proximity
  import opened ChainHeal

  /** Player j is a first target of the driver's turn at player u: u is
      named as the caster, and j is u itself or a player not so named within
      initial range of u. */
  ghost predicate StartsNear(ci: ChainInfo, j: int, u: int)
    requires 0 <= j < |ci.players.info| && 0 <= u < |ci.players.info|
  {
    ci.players.info[u].name == CasterName &&
    (j == u ||
     (ci.players.info[j].name != CasterName &&
      Within(ci.players.info[j].position, ci.players.info[u].position, ci.initialRange)))
  }

  /** A first target of the driver's turns at the first `upto` players. */
  ghost predicate MainTarget(ci: ChainInfo, j: int, upto: int)
    requires 0 <= j < |ci.players.info| && upto <= |ci.players.info|
  {
    exists u :: 0 <= u < upto && StartsNear(ci, j, u)
  }

  /** The adjacency block of `parsePlayers`: each player's list becomes the
      other players within jump range of it; the identity check leaves the
      player itself out. */
  method ConnectPlayers(ci: ChainInfo)
    requires ci.Valid()
    modifies ci.players.adjacentPlayers
    ensures ci.players.adjacentPlayers[..] == Adjacency(ci.players.info, ci.jumpRange, false)
    ensures ci.Linked()
  {
    var ps := ci.players.info;
    var adj := Adjacency(ps, ci.jumpRange, false);
    for i := 0 to ci.players.adjacentPlayers.Length
      invariant forall k :: 0 <= k < i ==> ci.players.adjacentPlayers[k] == adj[k]
    {
      ci.players.adjacentPlayers[i] := Nearby(ps, ps[i].position, ci.jumpRange, i, |ps|);
    }
    forall i, k | 0 <= i < |ps| && 0 <= k < |adj[i]|
      ensures 0 <= adj[i][k] < |ps|
    {
      AdjacencyInRoster(ps, ci.jumpRange, false, i, k);
    }
  }

  /** The body of the driver loop for a player u named as the caster: a
      search at hop 1 from u itself, then from every other player not so
      named within initial range of u. Afterwards no candidate chain that
      starts at one of these first targets is worth more than the best
      total. */
  method CastFrom(ci: ChainInfo, u: int, ghost adj: seq<seq<int>>)
    requires ci.Valid() && ci.Linked() && ci.BestRecord() && ci.players.adjacentPlayers[..] == adj
    requires Idle(ci.players.visited[..], ci.players.previousPlayer[..])
    requires 0 <= u < |ci.players.info| && ci.players.info[u].name == CasterName
    modifies ci, ci.players.visited, ci.players.previousPlayer, ci.players.healing, ci.players.bestHealing
    ensures Idle(ci.players.visited[..], ci.players.previousPlayer[..]) && ci.BestRecord()
    ensures old(ci.bestHealing) <= ci.bestHealing
    ensures ci.bestHealing == old(ci.bestHealing) ==> ci.bestPath == old(ci.bestPath)
    ensures ci.bestHealing != old(ci.bestHealing) ==> ci.bestPath != [] && StartsNear(ci, ci.bestPath[0], u)
    ensures forall c {:trigger Continues(c, [])} ::
      Continues(c, []) && ci.Candidate(c, adj) && StartsNear(ci, c[0], u) ==> ci.Value(c) <= ci.bestHealing
  {
    var ps := ci.players.info;
    IdleTrail(u, ci.players.visited[..], ci.players.previousPlayer[..]);
    ci.Dfs(u, 1, 0, [], adj);
    for j := 0 to |ps|
      invariant Idle(ci.players.visited[..], ci.players.previousPlayer[..]) && ci.BestRecord()
      invariant old(ci.bestHealing) <= ci.bestHealing
      invariant ci.bestHealing == old(ci.bestHealing) ==> ci.bestPath == old(ci.bestPath)
      invariant ci.bestHealing != old(ci.bestHealing) ==> ci.bestPath != [] && StartsNear(ci, ci.bestPath[0], u)
      invariant forall c {:trigger Continues(c, [])} ::
        Continues(c, []) && ci.Candidate(c, adj) && StartsNear(ci, c[0], u) && (c[0] == u || c[0] < j) ==>
        ci.Value(c) <= ci.bestHealing
    {
      if ps[j].name != CasterName && Within(ps[j].position, ps[u].position, ci.initialRange) {
        IdleTrail(j, ci.players.visited[..], ci.players.previousPlayer[..]);
        ci.Dfs(j, 1, 0, [], adj);
      }
    }
  }

  /** The driver loop of main.swift: the turn of `CastFrom` at every player
      named as the caster. Afterwards no candidate chain that starts at a
      first target of any turn is worth more than the best total. */
  method SearchFromCaster(ci: ChainInfo)
    requires ci.Valid() && ci.Linked() && ci.BestRecord()
    requires Idle(ci.players.visited[..], ci.players.previousPlayer[..])
    modifies ci, ci.players.visited, ci.players.previousPlayer, ci.players.healing, ci.players.bestHealing
    ensures Idle(ci.players.visited[..], ci.players.previousPlayer[..]) && ci.BestRecord()
    ensures old(ci.bestHealing) <= ci.bestHealing
    ensures ci.bestHealing == old(ci.bestHealing) ==> ci.bestPath == old(ci.bestPath)
    ensures ci.bestHealing != old(ci.bestHealing) ==>
      ci.bestPath != [] && MainTarget(ci, ci.bestPath[0], |ci.players.info|)
    ensures forall c :: (ci.Candidate(c, ci.players.adjacentPlayers[..]) &&
      MainTarget(ci, c[0], |ci.players.info|)) ==> ci.Value(c) <= ci.bestHealing
  {
    var ps := ci.players.info;
    ghost var adj := ci.players.adjacentPlayers[..];
    for i := 0 to |ps|
      invariant Idle(ci.players.visited[..], ci.players.previousPlayer[..]) && ci.BestRecord()
      invariant old(ci.bestHealing) <= ci.bestHealing
      invariant ci.bestHealing == old(ci.bestHealing) ==> ci.bestPath == old(ci.bestPath)
      invariant ci.bestHealing != old(ci.bestHealing) ==> ci.bestPath != [] && MainTarget(ci, ci.bestPath[0], i)
      invariant forall c {:trigger Continues(c, [])} ::
        Continues(c, []) && ci.Candidate(c, adj) && MainTarget(ci, c[0], i) ==> ci.Value(c) <= ci.bestHealing
    {
      if ps[i].name == CasterName {
        CastFrom(ci, i, adj);
      }
      forall c | Continues(c, []) && ci.Candidate(c, adj) && MainTarget(ci, c[0], i + 1)
        ensures ci.Value(c) <= ci.bestHealing
      {
        var u :| 0 <= u < i + 1 && StartsNear(ci, c[0], u);
        if u < i {
          assert MainTarget(ci, c[0], i);
        }
      }
    }
    forall c | ci.Candidate(c, adj) && MainTarget(ci, c[0], |ps|)
      ensures ci.Value(c) <= ci.bestHealing
    {
      assert Continues(c, []);
    }
  }

  /** The closing loop of main.swift: the sum of the recorded best heals of
      the players of `bestPath`, in path order. It equals the best total. */
  method TotalHealing(ci: ChainInfo) returns (total: int)
    requires ci.Valid() && ci.BestRecord()
    ensures total == ci.bestHealing
  {
    ci.RecordedSumIsBest();
    var path := ci.bestPath;
    total := 0;
    for k := 0 to |path|
      invariant total == ci.RecordedSum(path[..k], ci.players.bestHealing[..])
    {
      assert path[..k + 1][..k] == path[..k];
      total := total + ci.players.bestHealing[path[k]];
    }
    assert path[..|path|] == path;
  }

  /** The whole run of main.swift after parsing: build the adjacency lists,
      search from the caster, and add up the heals along the best path.
      The printed total is the best total, which no candidate chain over the
      lists without self-loops from a first target beats. */
  method Run(ci: ChainInfo) returns (total: int)
    requires ci.Valid() && ci.bestHealing == 0 && ci.bestPath == []
    requires Idle(ci.players.visited[..], ci.players.previousPlayer[..])
    modifies ci, ci.players.adjacentPlayers, ci.players.visited, ci.players.previousPlayer
    modifies ci.players.healing, ci.players.bestHealing
    ensures ci.players.adjacentPlayers[..] == Adjacency(ci.players.info, ci.jumpRange, false)
    ensures ci.BestRecord() && total == ci.bestHealing && total >= 0
    ensures Distinct(ci.bestPath) && (ci.bestPath == [] || |ci.bestPath| <= ci.numberOfJumps)
    ensures ci.bestPath != [] ==> MainTarget(ci, ci.bestPath[0], |ci.players.info|)
    ensures forall c :: (ci.Candidate(c, ci.players.adjacentPlayers[..]) &&
      MainTarget(ci, c[0], |ci.players.info|)) ==> ci.Value(c) <= total
  {
    ConnectPlayers(ci);
    SearchFromCaster(ci);
    ci.BestPathShape();
    total := TotalHealing(ci);
  }
}
