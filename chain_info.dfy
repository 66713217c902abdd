/** The chain-heal search (ChainInfo.swift): the spell configuration, the
    record of the best chain found so far, and the bounded-depth
    backtracking search that finds it.

    A chain is a sequence of player indices. The search is exhaustive: the
    chains it considers (`Candidate`) are the non-empty simple paths of the
    proximity graph with at most `numberOfJumps` players, and the value of a
    chain (`Value`) is the sum, over its players, of the heal each receives
    at its hop. */
module ChainHeal {
  import opened Geometry
  import opened Players
  import opened Decay
  import opened Proximity

  datatype Option<T> = None | Some(value: T)

  /** The one failure of `findBestPath`: no player carries the caster's name. */
  datatype SearchError = MissingCaster

  /** What `findBestPath` returns: the best chain and its total healing. */
  datatype Outcome = Found(path: seq<int>, healing: int) | Failed(error: SearchError)

  /** The caster `parsePlayers` remembers: the last player bearing the
      caster's name, since each such player overwrites the previous one. */
  function LastCaster(ps: seq<PlayerInfo>): (u: Option<nat>)
    ensures u.Some? ==> u.value < |ps| && ps[u.value].name == CasterName &&
                        forall j :: u.value < j < |ps| ==> ps[j].name != CasterName
    ensures u.None? ==> forall j :: 0 <= j < |ps| ==> ps[j].name != CasterName
    decreases |ps|
  {
    if ps == [] then None
    else if ps[|ps| - 1].name == CasterName then Some(|ps| - 1)
    else LastCaster(ps[..|ps| - 1])
  }

  /** No player occurs twice. */
  predicate Distinct(s: seq<int>)
  {
    forall i, j :: 0 <= i < j < |s| ==> s[i] != s[j]
  }

  /** The predecessor links spell out the chain `s`: its first player has
      no predecessor (-1) and each later one links to the one before it. */
  ghost predicate Chained(s: seq<int>, prev: seq<int>)
  {
    (forall k :: 0 <= k < |s| ==> 0 <= s[k] < |prev|) &&
    (|s| > 0 ==> prev[s[0]] == -1) &&
    (forall k {:trigger prev[s[k]]} :: 0 < k < |s| ==> prev[s[k]] == s[k - 1])
  }

  /** The last player of a chain, or nil (-1) for the empty chain. */
  function Tip(s: seq<int>): int
  {
    if s == [] then -1 else s[|s| - 1]
  }

  /** `c` continues the chain `s`: `s` is a proper prefix of `c`. */
  ghost predicate Continues(c: seq<int>, s: seq<int>)
  {
    |c| > |s| && c[..|s|] == s
  }

  /** `c` continues the chain `anc` with the player `p`. */
  ghost predicate Extends(c: seq<int>, anc: seq<int>, p: int)
  {
    Continues(c, anc) && c[|anc|] == p
  }

  /** The transient state while the search stands at player p, reached
      through the chain `anc`: exactly the players of `anc` are visited, the
      predecessor links spell out `anc` followed by p, and every other
      player has no predecessor. */
  ghost predicate OnTrail(anc: seq<int>, p: int, vis: seq<bool>, prev: seq<int>)
  {
    |vis| == |prev| && 0 <= p < |vis| &&
    Chained(anc, prev) && Distinct(anc) &&
    (forall i :: 0 <= i < |vis| ==> (vis[i] <==> i in anc)) &&
    (p !in anc ==> prev[p] == Tip(anc)) &&
    (forall i :: 0 <= i < |vis| && i !in anc && i != p ==> prev[i] == -1)
  }

  /** The transient state between searches: nobody visited, no links. */
  ghost predicate Idle(vis: seq<bool>, prev: seq<int>)
  {
    |vis| == |prev| && forall i :: 0 <= i < |vis| ==> !vis[i] && prev[i] == -1
  }

  /** A search started at any player from the idle state stands on the
      empty trail. */
  lemma IdleTrail(p: int, vis: seq<bool>, prev: seq<int>)
    requires Idle(vis, prev) && 0 <= p < |vis|
    ensures OnTrail([], p, vis, prev)
  {
  }

  /** On a trail through an unvisited p, the links spell out `anc + [p]`. */
  lemma TrailLinks(anc: seq<int>, p: int, vis: seq<bool>, prev: seq<int>)
    requires OnTrail(anc, p, vis, prev) && !vis[p]
    ensures Chained(anc + [p], prev)
  {
    var cur := anc + [p];
    forall k | 0 < k < |cur|
      ensures prev[cur[k]] == cur[k - 1]
    {
      assert cur[k - 1] == anc[k - 1];
      if k < |anc| {
        assert cur[k] == anc[k];
        assert prev[anc[k]] == anc[k - 1];
      }
    }
  }

  /** Marking an unvisited p visited puts it at the end of the trail. */
  lemma TrailMark(anc: seq<int>, p: int, vis: seq<bool>, prev: seq<int>)
    requires OnTrail(anc, p, vis, prev) && !vis[p]
    ensures OnTrail(anc + [p], p, vis[p := true], prev)
  {
    TrailLinks(anc, p, vis, prev);
    assert forall i :: i in anc + [p] <==> i in anc || i == p;
  }

  /** Linking an unvisited q to the player at the end of the trail moves
      the search on to q. */
  lemma TrailDescend(cur: seq<int>, q: int, vis: seq<bool>, prev: seq<int>)
    requires cur != [] && OnTrail(cur, Tip(cur), vis, prev)
    requires 0 <= q < |vis| && !vis[q]
    ensures OnTrail(cur, q, vis, prev[q := Tip(cur)])
  {
    assert q !in cur;
    forall k | 0 < k < |cur|
      ensures prev[q := Tip(cur)][cur[k]] == cur[k - 1]
    {
      assert prev[cur[k]] == cur[k - 1];
    }
  }

  lemma TakeOneMore(s: seq<int>, j: int)
    requires 0 <= j < |s|
    ensures forall x :: x in s[..j + 1] <==> x in s[..j] || x == s[j]
  {
    assert s[..j + 1] == s[..j] + [s[j]];
  }

  lemma TakeAll(s: seq<int>)
    ensures s[..|s|] == s
  {
  }

  /** A chain that repeats a player of `anc` is not simple. */
  lemma RepeatedExtension(anc: seq<int>, p: int)
    requires p in anc
    ensures forall c {:trigger Continues(c, anc)} :: Continues(c, anc) && c[|anc|] == p ==> !Distinct(c)
  {
    var i :| 0 <= i < |anc| && anc[i] == p;
    forall c | Continues(c, anc) && c[|anc|] == p
      ensures !Distinct(c)
    {
      assert c[i] == c[..|anc|][i] == anc[i];
    }
  }

  /** A chain continuing `anc` with p is `anc + [p]` itself or continues it. */
  lemma ExtendsCases(anc: seq<int>, p: int)
    ensures forall c {:trigger Continues(c, anc)} :: Continues(c, anc) && c[|anc|] == p ==>
      c == anc + [p] || Continues(c, anc + [p])
  {
    forall c | Continues(c, anc) && c[|anc|] == p
      ensures c == anc + [p] || Continues(c, anc + [p])
    {
      if |c| == |anc| + 1 {
        assert c == c[..|anc|] + [c[|anc|]];
      } else {
        assert c[..|anc| + 1] == c[..|anc|] + [p];
      }
    }
  }

  /** A chain that continues `anc + [p]` also continues `anc` with p. */
  lemma ExtendsLonger(c: seq<int>, anc: seq<int>, p: int, q: int)
    requires Extends(c, anc + [p], q)
    ensures Extends(c, anc, p)
  {
    assert c[..|anc|] == c[..|anc| + 1][..|anc|];
  }

  class ChainInfo {
    const initialRange: int
    const jumpRange: int
    const numberOfJumps: int
    const initialPower: int
    const powerReduction: real

    const players: Roster
    const urgosa: Option<nat>

    /** The power `powerForHop` yields at each hop, fixed at construction. */
    ghost const power: int -> int

    var bestHealing: int
    var bestPath: seq<int>

    ghost predicate Valid()
    {
      players.Valid() &&
      (forall h {:trigger PowerAt(initialPower, powerReduction, h)} ::
         h >= 1 ==> power(h) == PowerAt(initialPower, powerReduction, h)) &&
      (urgosa.Some? ==> urgosa.value < |players.info| && players.info[urgosa.value].name == CasterName)
    }

    /** Every adjacency list names players of the roster. */
    ghost predicate Linked()
      reads players.adjacentPlayers
    {
      forall i, k :: 0 <= i < players.adjacentPlayers.Length && 0 <= k < |players.adjacentPlayers[i]| ==>
        0 <= players.adjacentPlayers[i][k] < |players.info|
    }

    /** Every index of `c` is a player of the roster. */
    predicate InRoster(c: seq<int>)
    {
      forall k :: 0 <= k < |c| ==> 0 <= c[k] < |players.info|
    }

    /** The heal player i receives when the spell reaches it at hop `hop`. */
    ghost function Gain(hop: int, i: int): int
      requires hop >= 1 && 0 <= i < |players.info|
    {
      HealAmount(power(hop), players.info[i].maxPP, players.info[i].currentPP)
    }

    /** The total healing of a chain: each player's heal at its hop. */
    ghost function Value(c: seq<int>): int
      requires InRoster(c)
      decreases |c|
    {
      if c == [] then 0 else Value(c[..|c| - 1]) + Gain(|c|, c[|c| - 1])
    }

    /** A chain the spell can follow over the adjacency lists `adj`:
        non-empty, at most `numberOfJumps` players, no player twice, each
        player adjacent to the one before. */
    ghost predicate Candidate(c: seq<int>, adj: seq<seq<int>>)
    {
      |adj| == |players.info| &&
      0 < |c| <= numberOfJumps && InRoster(c) && Distinct(c) &&
      forall k :: 0 < k < |c| ==> c[k] in adj[c[k - 1]]
    }

    /** Each player of `s` holds, in `heals`, the heal it receives at its
        hop on `s`. */
    ghost predicate HealedAlong(s: seq<int>, heals: seq<int>)
    {
      InRoster(s) && |heals| == |players.info| &&
      forall k :: 0 <= k < |s| ==> heals[s[k]] == Gain(k + 1, s[k])
    }

    /** A best record: either nothing found yet (empty path, total 0), or
        `path` is a candidate chain whose value is `best` and each of whose
        players has recorded the heal it gets at its hop. */
    ghost predicate Record(path: seq<int>, best: int, recorded: seq<int>, adj: seq<seq<int>>)
    {
      (path == [] && best == 0) ||
      (Candidate(path, adj) && best == Value(path) && HealedAlong(path, recorded))
    }

    /** The record held in `bestPath`, `bestHealing` and the players'
        `bestHealing` fields is a best record. */
    ghost predicate BestRecord()
      reads this, players.bestHealing, players.adjacentPlayers
    {
      Record(bestPath, bestHealing, players.bestHealing[..], players.adjacentPlayers[..])
    }

    /** A first target of `findBestPath`: a player within initial range of
        the caster. */
    predicate InitialTarget(i: int)
      requires 0 <= i < |players.info|
    {
      urgosa.Some? && urgosa.value < |players.info| &&
      Within(players.info[i].position, players.info[urgosa.value].position, initialRange)
    }

    /** `init(...)` followed by the part of `parsePlayers` that is not I/O:
        every player is created by `Player.init` and the caster is the last
        player with the caster's name. */
    constructor (initialRange: int, jumpRange: int, numberOfJumps: int, initialPower: int,
                 powerReduction: real, info: seq<PlayerInfo>)
      ensures this.initialRange == initialRange && this.jumpRange == jumpRange
      ensures this.numberOfJumps == numberOfJumps && this.initialPower == initialPower
      ensures this.powerReduction == powerReduction
      ensures players.info == info && urgosa == LastCaster(info)
      ensures fresh(players) && fresh(players.healing) && fresh(players.bestHealing)
      ensures fresh(players.visited) && fresh(players.previousPlayer) && fresh(players.adjacentPlayers)
      ensures Valid() && Linked() && BestRecord()
      ensures Idle(players.visited[..], players.previousPlayer[..])
      ensures bestHealing == 0 && bestPath == []
      ensures forall i :: 0 <= i < |info| ==>
        players.healing[i] == 0 && players.bestHealing[i] == 0 && players.adjacentPlayers[i] == []
    {
      this.initialRange := initialRange;
      this.jumpRange := jumpRange;
      this.numberOfJumps := numberOfJumps;
      this.initialPower := initialPower;
      this.powerReduction := powerReduction;
      players := new Roster(info);
      power := hop => if hop >= 1 then PowerAt(initialPower, powerReduction, hop) else 0;
      urgosa := LastCaster(info);
      bestHealing := 0;
      bestPath := [];
    }

    /** `powerForHop`: the loop multiplies the power by (1 - reduction) once
        for each of the hops 1 ..< hop, then rounds with `rint`. */
    method PowerForHop(hop: int) returns (power: int)
      requires hop >= 1
      ensures power == PowerAt(initialPower, powerReduction, hop)
    {
      var potential := initialPower as real;
      var i := 1;
      while i < hop
        invariant 1 <= i <= hop
        invariant potential == Potential(initialPower, powerReduction, i)
      {
        PotentialStep(initialPower, powerReduction, i);
        potential := potential * (1.0 - powerReduction);
        i := i + 1;
      }
      power := Rint(potential);
    }

    /** `player.heal(chainInfo.powerForHop(hop))`: player i receives its
        heal at hop `hop`, which is stored in its `healing` field. */
    method HealAtHop(i: int, hop: int) returns (gain: int)
      requires Valid() && 0 <= i < |players.info| && hop >= 1
      modifies players.healing
      ensures gain == Gain(hop, i)
      ensures players.healing[..] == old(players.healing[..])[i := gain]
    {
      var power := PowerForHop(hop);
      gain := players.Heal(i, power);
    }

    /** `createAdjacentArrays`: each player's list becomes the players within
        jump range of it, the player itself included. */
    method CreateAdjacentArrays()
      requires Valid()
      modifies players.adjacentPlayers
      ensures players.adjacentPlayers[..] == Adjacency(players.info, jumpRange, true)
      ensures Linked()
    {
      var adj := Adjacency(players.info, jumpRange, true);
      for i := 0 to players.adjacentPlayers.Length
        invariant forall k :: 0 <= k < i ==> players.adjacentPlayers[k] == adj[k]
      {
        players.adjacentPlayers[i] := Nearby(players.info, players.info[i].position, jumpRange, -1, |players.info|);
      }
      forall i, k | 0 <= i < |players.info| && 0 <= k < |adj[i]|
        ensures 0 <= adj[i][k] < |players.info|
      {
        AdjacencyInRoster(players.info, jumpRange, true, i, k);
      }
    }

    /** The sum of the recorded best heals of the players of `path`, the
        figure main.swift prints as the total. */
    function RecordedSum(path: seq<int>, recorded: seq<int>): int
      requires forall k :: 0 <= k < |path| ==> 0 <= path[k] < |recorded|
      decreases |path|
    {
      if path == [] then 0 else RecordedSum(path[..|path| - 1], recorded) + recorded[path[|path| - 1]]
    }

    /** The recorded heals along `bestPath` add up to `bestHealing`. */
    lemma RecordedSumIsBest()
      requires Valid() && BestRecord()
      ensures InRoster(bestPath)
      ensures RecordedSum(bestPath, players.bestHealing[..]) == bestHealing
    {
      if bestPath != [] {
        RecordedPrefix(bestPath, players.bestHealing[..], |bestPath|);
        assert bestPath[..|bestPath|] == bestPath;
      }
    }

    lemma {:induction false} RecordedPrefix(path: seq<int>, recorded: seq<int>, n: nat)
      requires HealedAlong(path, recorded) && n <= |path|
      ensures InRoster(path[..n])
      ensures RecordedSum(path[..n], recorded) == Value(path[..n])
    {
      if n > 0 {
        RecordedPrefix(path, recorded, n - 1);
        assert path[..n][..n - 1] == path[..n - 1];
      }
    }

    /** The best path is simple and no longer than the jump limit, and
        empty only while the best total is 0. */
    lemma BestPathShape()
      requires BestRecord()
      ensures Distinct(bestPath)
      ensures bestPath == [] || |bestPath| <= numberOfJumps
      ensures bestPath == [] ==> bestHealing == 0
    {
    }

    /** Continuing a candidate (or the empty chain) with an adjacent player
        it does not contain, within the jump limit, gives a candidate whose
        value adds that player's heal at the new hop. */
    lemma CandidateStep(anc: seq<int>, p: int, adj: seq<seq<int>>)
      requires anc == [] || Candidate(anc, adj)
      requires |adj| == |players.info|
      requires 0 <= p < |players.info| && p !in anc && |anc| + 1 <= numberOfJumps
      requires anc != [] ==> p in adj[anc[|anc| - 1]]
      ensures Candidate(anc + [p], adj)
      ensures Value(anc + [p]) == Value(anc) + Gain(|anc| + 1, p)
    {
      var cur := anc + [p];
      assert cur[..|cur| - 1] == anc;
      forall k | 0 < k < |cur|
        ensures cur[k] in adj[cur[k - 1]]
      {
        if k < |anc| {
          assert cur[k] == anc[k] && cur[k - 1] == anc[k - 1];
        }
      }
    }

    /** Healing a player not on `anc` with its heal at the next hop extends
        the healed chain by that player. */
    lemma HealStep(anc: seq<int>, p: int, before: seq<int>, after: seq<int>)
      requires HealedAlong(anc, before) && 0 <= p < |players.info| && p !in anc
      requires after == before[p := Gain(|anc| + 1, p)]
      ensures HealedAlong(anc + [p], after)
    {
      var cur := anc + [p];
      forall k | 0 <= k < |cur|
        ensures after[cur[k]] == Gain(k + 1, cur[k])
      {
        if k < |anc| {
          assert cur[k] == anc[k];
        }
      }
    }

    /** A chain healed along is healed along each of its prefixes. */
    lemma HealedPrefix(anc: seq<int>, p: int, heals: seq<int>)
      requires HealedAlong(anc + [p], heals)
      ensures HealedAlong(anc, heals)
    {
      assert forall k :: 0 <= k < |anc| ==> anc[k] == (anc + [p])[k];
      forall k | 0 <= k < |anc|
        ensures heals[anc[k]] == Gain(k + 1, anc[k])
      {
        assert (anc + [p])[k] == anc[k];
      }
    }

    /** A candidate that continues `cur` does so with a player adjacent to
        the last player of `cur`. */
    lemma ExtendsNext(cur: seq<int>, adj: seq<seq<int>>)
      requires cur != []
      ensures forall c {:trigger Continues(c, cur)} :: Continues(c, cur) && Candidate(c, adj) ==>
        c[|cur|] in adj[cur[|cur| - 1]]
    {
      forall c | Continues(c, cur) && Candidate(c, adj)
        ensures c[|cur|] in adj[cur[|cur| - 1]]
      {
        assert c[|cur| - 1] == cur[|cur| - 1];
      }
    }

    /** ChainInfo.swift:199-212, in `dfs`: `total` becomes the best, and `bestPath` is
        rebuilt by walking the predecessor links back from p, inserting each
        player at the front and copying its heal into its recorded best. */
    method SavePath(p: int, total: int, ghost cur: seq<int>)
      requires Valid() && Candidate(cur, players.adjacentPlayers[..]) && cur[|cur| - 1] == p
      requires Chained(cur, players.previousPlayer[..])
      requires HealedAlong(cur, players.healing[..]) && total == Value(cur)
      modifies this, players.bestHealing
      ensures bestHealing == total && bestPath == cur
      ensures forall i :: 0 <= i < players.bestHealing.Length && i in cur ==>
        players.bestHealing[i] == players.healing[i]
      ensures forall i :: 0 <= i < players.bestHealing.Length && i !in cur ==>
        players.bestHealing[i] == old(players.bestHealing[i])
      ensures BestRecord()
    {
      bestHealing := total;
      WalkBack(p, cur);
      forall k | 0 <= k < |cur|
        ensures players.bestHealing[..][cur[k]] == Gain(k + 1, cur[k])
      {
        assert cur[k] in cur;
      }
    }

    /** The walk at ChainInfo.swift:202-212: `bestPath` is emptied and rebuilt by
        following the predecessor links back from p, inserting each player
        at the front and copying its `healing` into its `bestHealing`. */
    method WalkBack(p: int, ghost cur: seq<int>)
      requires Valid() && InRoster(cur) && cur != [] && cur[|cur| - 1] == p
      requires Chained(cur, players.previousPlayer[..])
      modifies `bestPath, players.bestHealing
      ensures bestPath == cur
      ensures forall i :: 0 <= i < players.bestHealing.Length && i in cur ==>
        players.bestHealing[i] == players.healing[i]
      ensures forall i :: 0 <= i < players.bestHealing.Length && i !in cur ==>
        players.bestHealing[i] == old(players.bestHealing[i])
    {
      bestPath := [];
      var b := p;
      ghost var k := |cur|;
      while b != -1
        invariant 0 <= k <= |cur|
        invariant b == if k == 0 then -1 else cur[k - 1]
        invariant bestPath == cur[k..]
        invariant forall i :: 0 <= i < players.bestHealing.Length ==>
          players.bestHealing[i] == if i in bestPath then players.healing[i] else old(players.bestHealing[i])
        decreases k
      {
        assert 0 <= b < |players.info|;
        bestPath := [b] + bestPath;
        players.bestHealing[b] := players.healing[b];
        b := players.previousPlayer[b];
        k := k - 1;
      }
      assert cur[k..] == cur;
    }

    /** `dfs(player, hop, totalHealing)`, with the chain of visited players
        that led to p as the ghost parameter `anc` and the adjacency lists,
        which the search does not change, as `adj`. It leaves the visited
        marks and predecessor links as it found them and the heals along
        `anc` in place, only ever raises the best total, and afterwards no
        candidate chain that continues `anc` through p is worth more than
        the best total. When p is already visited or the hop is past the
        jump limit it changes nothing. */
    method Dfs(p: int, hop: int, total: int, ghost anc: seq<int>, ghost adj: seq<seq<int>>)
      requires Valid() && Linked() && BestRecord() && players.adjacentPlayers[..] == adj
      requires OnTrail(anc, p, players.visited[..], players.previousPlayer[..])
      requires hop == |anc| + 1 && (anc == [] || Candidate(anc, adj))
      requires anc != [] ==> p in adj[anc[|anc| - 1]]
      requires HealedAlong(anc, players.healing[..]) && total == Value(anc)
      modifies this, players.visited, players.previousPlayer, players.healing, players.bestHealing
      ensures players.visited[..] == old(players.visited[..])
      ensures players.previousPlayer[..] == old(players.previousPlayer[..])
      ensures HealedAlong(anc, players.healing[..])
      ensures BestRecord()
      ensures old(bestHealing) <= bestHealing
      ensures bestHealing == old(bestHealing) ==> bestPath == old(bestPath)
      ensures bestHealing != old(bestHealing) ==> Extends(bestPath, anc, p)
      ensures old(players.visited[p]) || hop > numberOfJumps ==>
        bestHealing == old(bestHealing) && bestPath == old(bestPath) &&
        players.healing[..] == old(players.healing[..]) &&
        players.bestHealing[..] == old(players.bestHealing[..])
      ensures forall c {:trigger Continues(c, anc)} :: Continues(c, anc) && c[|anc|] == p && Candidate(c, adj) ==>
        Value(c) <= bestHealing
      decreases numberOfJumps - hop + 1, 3
    {
      if players.visited[p] || hop > numberOfJumps {
        if players.visited[p] {
          RepeatedExtension(anc, p);
        }
        return;
      }
      Reach(p, hop, total, anc, adj);
    }

    /** ChainInfo.swift:193-232, in `dfs`, once p is known to be unvisited and within
        the jump limit: p is healed at this hop, the best record is replaced
        when the new total beats it, and the search goes on through p's
        adjacent players. */
    method Reach(p: int, hop: int, total: int, ghost anc: seq<int>, ghost adj: seq<seq<int>>)
      requires Valid() && Linked() && BestRecord() && players.adjacentPlayers[..] == adj
      requires OnTrail(anc, p, players.visited[..], players.previousPlayer[..]) && !players.visited[p]
      requires hop == |anc| + 1 <= numberOfJumps && (anc == [] || Candidate(anc, adj))
      requires anc != [] ==> p in adj[anc[|anc| - 1]]
      requires HealedAlong(anc, players.healing[..]) && total == Value(anc)
      modifies this, players.visited, players.previousPlayer, players.healing, players.bestHealing
      ensures players.visited[..] == old(players.visited[..])
      ensures players.previousPlayer[..] == old(players.previousPlayer[..])
      ensures HealedAlong(anc, players.healing[..])
      ensures HealedAlong(anc + [p], players.healing[..])
      ensures BestRecord()
      ensures old(bestHealing) <= bestHealing
      ensures bestHealing == old(bestHealing) ==> bestPath == old(bestPath)
      ensures bestHealing != old(bestHealing) ==> Extends(bestPath, anc, p)
      ensures forall c {:trigger Continues(c, anc)} :: Continues(c, anc) && c[|anc|] == p && Candidate(c, adj) ==>
        Value(c) <= bestHealing
      decreases numberOfJumps - hop + 1, 2
    {
      var newTotal := HealAndSave(p, hop, total, anc, adj);
      VisitAdjacent(p, hop, newTotal, anc, adj);
      HealedPrefix(anc, p, players.healing[..]);
      ExtendsCases(anc, p);
    }

    /** ChainInfo.swift:196-213, in `dfs`: p is healed at this hop, and when the new
        total beats the best one, the record becomes the chain `anc + [p]`
        with that total. The visited marks and predecessor links are not
        touched. */
    method HealAndSave(p: int, hop: int, total: int, ghost anc: seq<int>, ghost adj: seq<seq<int>>)
      returns (newTotal: int)
      requires Valid() && BestRecord() && players.adjacentPlayers[..] == adj
      requires OnTrail(anc, p, players.visited[..], players.previousPlayer[..]) && !players.visited[p]
      requires hop == |anc| + 1 <= numberOfJumps && (anc == [] || Candidate(anc, adj))
      requires anc != [] ==> p in adj[anc[|anc| - 1]]
      requires HealedAlong(anc, players.healing[..]) && total == Value(anc)
      modifies this, players.healing, players.bestHealing
      ensures Candidate(anc + [p], adj) && newTotal == Value(anc + [p])
      ensures newTotal == total + Gain(hop, p)
      ensures HealedAlong(anc + [p], players.healing[..])
      ensures players.healing[..] == old(players.healing[..])[p := Gain(hop, p)]
      ensures bestHealing == old(bestHealing) ==> players.bestHealing[..] == old(players.bestHealing[..])
      ensures BestRecord() && newTotal <= bestHealing
      ensures old(bestHealing) <= bestHealing
      ensures bestHealing == old(bestHealing) ==> bestPath == old(bestPath)
      ensures bestHealing != old(bestHealing) ==> bestHealing == newTotal && bestPath == anc + [p]
    {
      ghost var vis0, prev0 := players.visited[..], players.previousPlayer[..];
      ghost var heals0 := players.healing[..];
      var gain := HealAtHop(p, hop);
      newTotal := total + gain;
      ghost var cur := anc + [p];
      CandidateStep(anc, p, adj);
      HealStep(anc, p, heals0, players.healing[..]);
      if newTotal > bestHealing {
        TrailLinks(anc, p, vis0, prev0);
        SavePath(p, newTotal, cur);
      }
    }

    /** ChainInfo.swift:215-232, in `dfs`: mark p visited, search on from each of its
        adjacent players in turn, and unmark p. Afterwards no candidate
        chain that continues `anc + [p]` is worth more than the best total. */
    method VisitAdjacent(p: int, hop: int, total: int, ghost anc: seq<int>, ghost adj: seq<seq<int>>)
      requires Valid() && Linked() && BestRecord() && players.adjacentPlayers[..] == adj
      requires OnTrail(anc, p, players.visited[..], players.previousPlayer[..]) && !players.visited[p]
      requires hop == |anc| + 1 && Candidate(anc + [p], adj)
      requires HealedAlong(anc + [p], players.healing[..]) && total == Value(anc + [p])
      requires total <= bestHealing
      modifies this, players.visited, players.previousPlayer, players.healing, players.bestHealing
      ensures players.visited[..] == old(players.visited[..])
      ensures players.previousPlayer[..] == old(players.previousPlayer[..])
      ensures HealedAlong(anc + [p], players.healing[..])
      ensures BestRecord()
      ensures old(bestHealing) <= bestHealing
      ensures bestHealing == old(bestHealing) ==> bestPath == old(bestPath)
      ensures bestHealing != old(bestHealing) ==> Extends(bestPath, anc, p)
      ensures forall c {:trigger Continues(c, anc + [p])} :: Continues(c, anc + [p]) && Candidate(c, adj) ==>
        Value(c) <= bestHealing
      decreases numberOfJumps - hop + 1, 1
    {
      ghost var cur := anc + [p];
      ghost var vis0 := players.visited[..];
      TrailMark(anc, p, vis0, players.previousPlayer[..]);
      players.visited[p] := true;
      var adjacent := players.adjacentPlayers[p];
      for j := 0 to |adjacent|
        invariant players.visited[..] == vis0[p := true]
        invariant players.previousPlayer[..] == old(players.previousPlayer[..])
        invariant HealedAlong(cur, players.healing[..])
        invariant BestRecord()
        invariant old(bestHealing) <= bestHealing
        invariant bestHealing == old(bestHealing) ==> bestPath == old(bestPath)
        invariant bestHealing != old(bestHealing) ==> Extends(bestPath, anc, p)
        invariant forall c {:trigger Continues(c, cur)} ::
          Continues(c, cur) && c[|cur|] in adjacent[..j] && Candidate(c, adj) ==> Value(c) <= bestHealing
      {
        var q := adjacent[j];
        ghost var before := bestHealing;
        Descend(p, q, hop, total, anc, adj);
        if bestHealing != before {
          ExtendsLonger(bestPath, anc, p, q);
        }
        TakeOneMore(adjacent, j);
      }
      players.visited[p] := false;
      TakeAll(adjacent);
      assert players.visited[..] == vis0;
      ExtendsNext(cur, adj);
    }

    /** One turn of the loop over p's adjacent players (ChainInfo.swift:220-229, in
        `dfs`): an unvisited q is linked to p, searched from at the next hop
        and unlinked again. Afterwards no candidate chain that continues
        `anc + [p]` with q is worth more than the best total. */
    method Descend(p: int, q: int, hop: int, total: int, ghost anc: seq<int>, ghost adj: seq<seq<int>>)
      requires Valid() && Linked() && BestRecord() && players.adjacentPlayers[..] == adj
      requires OnTrail(anc + [p], p, players.visited[..], players.previousPlayer[..])
      requires hop == |anc| + 1 && Candidate(anc + [p], adj)
      requires q in adj[p]
      requires HealedAlong(anc + [p], players.healing[..]) && total == Value(anc + [p])
      modifies this, players.previousPlayer, players.visited, players.healing, players.bestHealing
      ensures players.visited[..] == old(players.visited[..])
      ensures players.previousPlayer[..] == old(players.previousPlayer[..])
      ensures HealedAlong(anc + [p], players.healing[..])
      ensures BestRecord()
      ensures old(bestHealing) <= bestHealing
      ensures bestHealing == old(bestHealing) ==> bestPath == old(bestPath)
      ensures bestHealing != old(bestHealing) ==> Extends(bestPath, anc + [p], q)
      ensures forall c {:trigger Continues(c, anc + [p])} :: Continues(c, anc + [p]) && c[|anc| + 1] == q && Candidate(c, adj) ==>
        Value(c) <= bestHealing
      decreases numberOfJumps - hop + 1, 0
    {
      ghost var cur := anc + [p];
      if !players.visited[q] {
        TrailDescend(cur, q, players.visited[..], players.previousPlayer[..]);
        players.previousPlayer[q] := p;
        Dfs(q, hop + 1, total, cur, adj);
        players.previousPlayer[q] := -1;
        assert players.previousPlayer[..] == old(players.previousPlayer[..]);
      } else {
        RepeatedExtension(cur, q);
      }
    }

    /** `findBestPath`: aborts without a caster; otherwise starts a search at
        hop 1 from every player within initial range of the caster (the
        caster itself included when the range is not negative) and returns
        the best chain and its total. */
    method FindBestPath() returns (r: Outcome)
      requires Valid() && Linked() && BestRecord()
      requires Idle(players.visited[..], players.previousPlayer[..])
      modifies this, players.visited, players.previousPlayer, players.healing, players.bestHealing
      ensures Idle(players.visited[..], players.previousPlayer[..]) && BestRecord()
      ensures urgosa.None? ==>
        r == Failed(MissingCaster) && bestHealing == old(bestHealing) && bestPath == old(bestPath)
      ensures urgosa.Some? ==> r == Found(bestPath, bestHealing)
      ensures old(bestHealing) <= bestHealing
      ensures bestHealing != old(bestHealing) ==> bestPath != [] && InitialTarget(bestPath[0])
      ensures urgosa.Some? ==> forall c :: Candidate(c, players.adjacentPlayers[..]) && InitialTarget(c[0]) ==>
        Value(c) <= bestHealing
    {
      if urgosa.None? {
        return Failed(MissingCaster);
      }
      var u := urgosa.value;
      ghost var adj := players.adjacentPlayers[..];
      for i := 0 to |players.info|
        invariant Idle(players.visited[..], players.previousPlayer[..]) && BestRecord()
        invariant old(bestHealing) <= bestHealing
        invariant bestHealing == old(bestHealing) ==> bestPath == old(bestPath)
        invariant bestHealing != old(bestHealing) ==> bestPath != [] && InitialTarget(bestPath[0])
        invariant forall c {:trigger Continues(c, [])} ::
          Continues(c, []) && Candidate(c, adj) && c[0] < i && InitialTarget(c[0]) ==> Value(c) <= bestHealing
      {
        if Within(players.info[i].position, players.info[u].position, initialRange) {
          IdleTrail(i, players.visited[..], players.previousPlayer[..]);
          Dfs(i, 1, 0, [], adj);
        }
      }
      forall c | Candidate(c, adj) && InitialTarget(c[0])
        ensures Value(c) <= bestHealing
      {
        assert Continues(c, []);
      }
      return Found(bestPath, bestHealing);
    }
  }
}
