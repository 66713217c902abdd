/** The proximity graph: for each player, the players within jump range of
    it, in roster order. There are two variants in the repository:
    `ChainInfo.createAdjacentArrays` keeps a player in its own list, while
    the adjacency block of main.swift filters it out with an identity check.
    `Adjacency(ps, r, withSelf)` describes both. */
module Proximity {
  import opened Geometry
  import opened Players

  /** The indices below `n` of the players within range `r` of `center`,
      skipping index `skip` (-1 skips nobody), in increasing order. This is
      `players.filter { ... }` over the first `n` players. */
  function Nearby(ps: seq<PlayerInfo>, center: Point, r: int, skip: int, n: nat): (s: seq<int>)
    requires n <= |ps|
    ensures forall j :: j in s <==> 0 <= j < n && j != skip && Within(ps[j].position, center, r)
    ensures forall a, b :: 0 <= a < b < |s| ==> s[a] < s[b]
    decreases n
  {
    if n == 0 then []
    else
      var rest := Nearby(ps, center, r, skip, n - 1);
      assert forall a :: 0 <= a < |rest| ==> rest[a] in rest && rest[a] < n - 1;
      if n - 1 != skip && Within(ps[n - 1].position, center, r) then rest + [n - 1] else rest
  }

  /** The adjacency lists of every player: player i's list holds the players
      within range `r` of player i, itself included only when `withSelf`. */
  function Adjacency(ps: seq<PlayerInfo>, r: int, withSelf: bool): (adj: seq<seq<int>>)
    ensures |adj| == |ps|
    ensures forall i, j :: 0 <= i < |ps| ==>
      (j in adj[i] <==> 0 <= j < |ps| && (withSelf || j != i) && Within(ps[j].position, ps[i].position, r))
  {
    seq(|ps|, i requires 0 <= i < |ps| => Nearby(ps, ps[i].position, r, if withSelf then -1 else i, |ps|))
  }

  /** Q is in P's list exactly when Q is a player within range of P, and, in
      the variant without self, Q is not P. */
  lemma AdjacencyMembership(ps: seq<PlayerInfo>, r: int, withSelf: bool, i: int, j: int)
    requires 0 <= i < |ps|
    ensures j in Adjacency(ps, r, withSelf)[i] <==>
            0 <= j < |ps| && (withSelf || j != i) && Within(ps[j].position, ps[i].position, r)
  {
  }

  /** The adjacency relation is symmetric in both variants. */
  lemma AdjacencySymmetric(ps: seq<PlayerInfo>, r: int, withSelf: bool, i: int, j: int)
    requires 0 <= i < |ps| && 0 <= j < |ps|
    ensures j in Adjacency(ps, r, withSelf)[i] <==> i in Adjacency(ps, r, withSelf)[j]
  {
    AdjacencyMembership(ps, r, withSelf, i, j);
    AdjacencyMembership(ps, r, withSelf, j, i);
    WithinSymmetric(ps[i].position, ps[j].position, r);
  }

  /** In the variant with self, a player is in its own list whenever the
      range is non-negative; in the variant without, never. */
  lemma AdjacencySelf(ps: seq<PlayerInfo>, r: int, withSelf: bool, i: int)
    requires 0 <= i < |ps|
    ensures i in Adjacency(ps, r, withSelf)[i] <==> withSelf && r >= 0
  {
    AdjacencyMembership(ps, r, withSelf, i, i);
    WithinSelf(ps[i].position, r);
  }

  /** Every list of either variant names only players of the roster. */
  lemma AdjacencyInRoster(ps: seq<PlayerInfo>, r: int, withSelf: bool, i: int, k: int)
    requires 0 <= i < |ps| && 0 <= k < |Adjacency(ps, r, withSelf)[i]|
    ensures 0 <= Adjacency(ps, r, withSelf)[i][k] < |ps|
  {
    AdjacencyMembership(ps, r, withSelf, i, Adjacency(ps, r, withSelf)[i][k]);
  }

  /** The two variants differ exactly by the player itself. */
  lemma AdjacencyVariants(ps: seq<PlayerInfo>, r: int, i: int, j: int)
    requires 0 <= i < |ps|
    ensures j in Adjacency(ps, r, false)[i] <==> j in Adjacency(ps, r, true)[i] && j != i
  {
    AdjacencyMembership(ps, r, false, i, j);
    AdjacencyMembership(ps, r, true, i, j);
  }
}
