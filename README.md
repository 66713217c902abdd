# chain-heal: a verified model of the optimal chain-heal search

The program simulates a healing spell cast by the shaman
`Urgosa_the_Healing_Shaman`. The spell lands on a first target within
`initialRange` of the caster and then jumps up to `numberOfJumps - 1` more
times between players at most `jumpRange` apart. It loses a fraction
`powerReduction` of its power on every jump. Each player receives the
smaller of the spell's current power and its missing PP (`maxPP - currentPP`).
The program searches every chain exhaustively and reports the one that
heals most.

The model covers:

- `Geometry` (Point.swift): positions and the range test `distanceTo(q) <= r`,
  done on squared integer distances.
- `Players` (Player.swift): a player's fixed data, its mutable search fields
  and the clamped `heal` rule. The Player objects are held as a roster. The
  fixed data is a sequence. Each mutable field (`healing`, `bestHealing`,
  `visited`, `previousPlayer`, `adjacentPlayers`) is an array indexed by the
  player's position. A predecessor link is an index, with -1 for nil.
- `Proximity`: the adjacency lists in both variants. `createAdjacentArrays`
  in ChainInfo.swift keeps a player in its own list (when the range is not
  negative). The block in main.swift
  leaves it out.
- `Decay` (`powerForHop`): the decay of the power, in exact real arithmetic,
  rounded with `rint` (nearest integer, ties to even).
- `ChainHeal` (ChainInfo.swift): the `ChainInfo` class with its fields,
  `powerForHop`, `createAdjacentArrays`, `findBestPath` and the backtracking
  `dfs`. The `dfs` is split into `Dfs`, `Reach`, `HealAndSave`, `SavePath`, `WalkBack`,
  `VisitAdjacent` and `Descend`, following the blocks of its body.
- `MainProgram` (main.swift): the adjacency block without self-loops, the
  driver loop, and the summation of the recorded heals along the best path.
  The global `dfs` of main.swift is the same code as `ChainInfo.dfs`, so
  `ChainHeal.ChainInfo.Dfs` models both copies.

What is proved about the search:

- Every `dfs` call leaves every player's `visited` mark and predecessor link
  as it found them.
- A call on a visited player, or past the jump limit, changes nothing.
- The best total never decreases. When it stays the same, `bestPath` stays
  the same too.
- The record is always consistent. Either nothing has been found (empty
  path, total 0), or `bestPath` is a chain the spell can follow. Such a
  chain is non-empty, simple, at most `numberOfJumps` long and follows the
  adjacency lists. Its value is the best total, and each player on it has
  recorded the heal it gets at its hop.
- The recorded heals along `bestPath` add up to the best total.
- After `findBestPath`, or after the driver of main.swift, no chain from an
  allowed first target is worth more than the best total. The search is
  exhaustive.

Points where the code does something a reader might not expect; the model
follows the code:

- The caster is a legitimate first target. `findBestPath` loops over all
  players, and the caster is at distance 0 from itself, so it starts a search
  at the caster whenever `initialRange` is not negative. The driver in
  main.swift starts a search at the caster explicitly, whatever the range.
- `heal` is `min(potential, maxPP - currentPP)` with no floor at 0. A player
  whose current PP exceeds its maximum gets a negative heal.
- `createAdjacentArrays` keeps each player in its own list whenever
  `jumpRange` is not negative. This is harmless, because the player is
  visited when its list is scanned.
- Power is rounded with `rint`, which breaks ties towards the even integer.
- `ChainInfo` remembers the last player with the caster's name, and
  `findBestPath` fails without one. The driver of main.swift instead runs
  once for every player with that name, and does nothing when there is none.
- `findBestPath` reads `initialRange` from the global `chainInfo` object
  (ChainInfo.swift:173), and `dfs` reads `numberOfJumps` and calls
  `powerForHop` on it (ChainInfo.swift:191, 196). The model reads them from
  the object itself.

## Model

| member | source | states |
|---|---|---|
| `Geometry.DistanceSquared` | Point.swift:22-30 | the squared distance is non-negative and is 0 exactly when the two points coincide |
| `Geometry.DistanceSymmetric` | Point.swift:26-29 | the distance from p to q equals the distance from q to p |
| `Geometry.DistanceToSelf` | Point.swift:26-29 | a point is at distance 0 from itself |
| `Geometry.WithinSymmetric` | Point.swift:22-30 | the range test holds from p to q exactly when it holds from q to p |
| `Geometry.WithinSelf` | Point.swift:22-30 | a point is within range r of itself exactly when r is non-negative |
| `Geometry.WithinMatchesSqrt` | Point.swift:29 | for the non-negative square root s of the squared distance, `s <= r` holds exactly when the integer test `dx*dx + dy*dy <= r*r` (with r >= 0) does |
| `Geometry.Within` | Point.swift:22-30 | the range test `distanceTo(q) <= Double(r)`: the range is not negative and the squared distance is at most its square |
| `Players.HealAmount` | Player.swift:62-65 | the heal is at most the potential and at most the missing PP, and equals one of the two |
| `Players.HealNonNegative` | Player.swift:63 | with a non-negative potential and current PP not above the maximum, the heal lies between 0 and the potential |
| `Players.HealNotFloored` | Player.swift:63 | a player above its maximum PP gets a negative heal: there is no floor at 0 |
| `Players.HealAtFullPP` | Player.swift:63 | a player at full PP gets 0 from any non-negative potential |
| `Players.Roster.constructor` | Player.swift:14-53 | every new player has no heal, no recorded best, no visited mark, no predecessor and an empty adjacency list |
| `Players.Roster.Heal` | Player.swift:62-65 | `heal` stores the clamped amount in the player's `healing` field, returns it, and changes no other field of any player |
| `Proximity.Nearby` | ChainInfo.swift:155-157 | the filter gives exactly the players within range of the centre (skipping the excluded one), in roster order without repeats |
| `Proximity.Adjacency` | ChainInfo.swift:152-157 | there is one list per player, and Q is in P's list exactly when Q is within jump range of P (and Q is not P, in the variant without self) |
| `Proximity.AdjacencySymmetric` | main.swift:88-93 | Q is in P's list exactly when P is in Q's list, in both variants |
| `Proximity.AdjacencySelf` | main.swift:89-91 | a player is in its own list exactly in the variant with self and with a non-negative range; the identity check makes the other variant irreflexive |
| `Proximity.AdjacencyInRoster` | ChainInfo.swift:155 | every list names only players of the roster |
| `Proximity.AdjacencyVariants` | main.swift:88-93 | the list without self is the list with self minus the player itself |
| `Decay.Rint` | ChainInfo.swift:106 | the result is within 0.5 of the argument, and a tie goes to the even integer |
| `Decay.PowerAtFirstHop` | ChainInfo.swift:98-106 | hop 1 gets exactly the initial power, because the loop does not run |
| `Decay.PotentialStep` | ChainInfo.swift:101-103 | each further hop multiplies the unrounded power by (1 - reduction) |
| `Decay.PowerNonIncreasing` | ChainInfo.swift:98-106 | with a reduction in [0, 1] and a non-negative initial power, the power never grows from hop to hop and never drops below 0 |
| `ChainHeal.LastCaster` | ChainInfo.swift:139-142 | the remembered caster is the last player with the caster's name, or none when no player has it |
| `ChainHeal.ChainInfo.constructor` | ChainInfo.swift:41-47 | the configuration is stored, the players start as `Player.init` leaves them, the best total is 0 and the best path empty |
| `ChainHeal.ChainInfo.PowerForHop` | ChainInfo.swift:95-107 | the loop computes the initial power after `hop - 1` reductions, rounded with `rint` |
| `ChainHeal.ChainInfo.HealAtHop` | ChainInfo.swift:196 | the player receives its clamped heal for the power of this hop, and only its `healing` field changes |
| `ChainHeal.ChainInfo.CreateAdjacentArrays` | ChainInfo.swift:149-159 | each player's list becomes exactly the players within jump range of it, itself included when the range is not negative |
| `ChainHeal.ChainInfo.RecordedSumIsBest` | ChainInfo.swift:199-212 | the recorded best heals along `bestPath` add up to `bestHealing` |
| `ChainHeal.ChainInfo.BestPathShape` | ChainInfo.swift:191-221 | `bestPath` is simple, at most `numberOfJumps` long, and empty only while the best total is 0 |
| `ChainHeal.ChainInfo.CandidateStep` | ChainInfo.swift:196-225 | extending a chain by an adjacent unvisited player within the jump limit gives a chain whose value adds that player's heal at the new hop |
| `ChainHeal.ChainInfo.TrailMark` | ChainInfo.swift:216 | marking the current player visited appends it to the visited trail |
| `ChainHeal.ChainInfo.TrailDescend` | ChainInfo.swift:221-223 | linking an unvisited neighbour to the current player moves the search on to it with the links intact |
| `ChainHeal.ChainInfo.HealAndSave` | ChainInfo.swift:196-213 | p receives its heal at this hop and no other player's `healing` changes, the new total is the value of the chain through p, and the record is replaced by that chain and total only when the total is strictly larger; otherwise every recorded best heal is left as it was |
| `ChainHeal.ChainInfo.SavePath` | ChainInfo.swift:199-213 | the walk over the predecessor links rebuilds the current chain in start-to-end order, copies each member's `healing` into its `bestHealing`, and leaves `bestHealing` of every player off the chain unchanged |
| `ChainHeal.ChainInfo.WalkBack` | ChainInfo.swift:202-212 | following the predecessor links from the current player rebuilds `bestPath` as the current chain in start-to-end order, copies `healing` into `bestHealing` for exactly the players on it, and leaves every other player's `bestHealing` unchanged |
| `ChainHeal.ChainInfo.Dfs` | ChainInfo.swift:188-233 | visited marks and predecessor links are restored; nothing changes for a visited player or past the jump limit; the best total only grows, and a new best path continues the current chain through this player; no chain through this player beats the best total |
| `ChainHeal.ChainInfo.Reach` | ChainInfo.swift:195-232 | the player is healed at its hop and still holds that heal on return, the record is replaced only by a strictly larger total, and the search covers every chain through the player |
| `ChainHeal.ChainInfo.VisitAdjacent` | ChainInfo.swift:215-232 | marking, scanning the adjacent players and unmarking restores the marks and links and covers every chain that continues through a neighbour |
| `ChainHeal.ChainInfo.Descend` | ChainInfo.swift:220-228 | an unvisited neighbour is linked, searched and unlinked, so the links come back unchanged |
| `ChainHeal.ChainInfo.InitialTarget` | ChainInfo.swift:172-173 | a first target of `findBestPath`: there is a remembered caster and the player is within `initialRange` of it |
| `ChainHeal.ChainInfo.FindBestPath` | ChainInfo.swift:166-179 | fails without a caster; otherwise returns the best path and total, restores the idle state, and no chain from a player within initial range of the caster (the caster included) beats the total |
| `MainProgram.ConnectPlayers` | main.swift:84-96 | each player's list becomes exactly the other players within jump range of it |
| `MainProgram.StartsNear` | main.swift:161-168 | a first target of the driver's turn at u: u bears the caster's name, and the player is u itself or a player not bearing it within `initialRange` of u |
| `MainProgram.CastFrom` | main.swift:161-171 | for a player named as the caster, searches from it and from every other player not so named within initial range; no chain from those first targets beats the best total |
| `MainProgram.SearchFromCaster` | main.swift:160-173 | runs the caster's turn for every player with the caster's name; the best total only grows, and no chain from any first target beats it |
| `MainProgram.TotalHealing` | main.swift:175-182 | the summed recorded heals along `bestPath` equal `bestHealing` |
| `MainProgram.Run` | main.swift:158-182 | after building the lists without self, searching and summing, the total is the best total: at least 0, achieved by a simple chain no longer than the jump limit, and not beaten by any chain from a first target |

## Left out

- Parsing the command-line arguments and their `fatalError` checks (ChainInfo.swift:56-86, main.swift:14-41): string-to-number conversion and process exit. The configuration is a constructor argument.
- Reading players from standard input (ChainInfo.swift:112-144, main.swift:50-81): I/O. The players are a sequence given to the constructor. What `parsePlayers` does besides reading, creating each player and remembering the caster, is modelled by the constructor and `ChainHeal.LastCaster`.
- The `print` calls (main.swift:179-182) and the `description` debug string (Player.swift:27-36): output only. The summed total is kept.
- IEEE `Double` arithmetic: `powerForHop` is computed in exact real arithmetic, and `sqrt` is replaced by the squared-distance test, which `Geometry.WithinMatchesSqrt` shows equivalent for an exact square root. Floating-point rounding on the way is not modelled.
- Swift's 64-bit `Int` overflow: integers are unbounded. `maxPP - currentPP`, the running totals and `Int(rint(...))` cannot trap here.
- Object identity: a player is its index in the roster, so `===` is index equality and two players with equal data stay distinct.
- The Swift-level conflicts between the two copies (main.swift reaching the private fields of `ChainInfo`): the two drivers are modelled as alternatives over one search.
- Monotonicity of the best total in `numberOfJumps` and `jumpRange`: not stated. It follows from the exhaustiveness proved for `FindBestPath` and `MainProgram.Run`, but relating two configurations is not part of this model.
- `ChainHeal.ChainInfo.PowerForHop` requires `hop >= 1`: Swift's range `1..<hop` traps for `hop < 1` (ChainInfo.swift:101), and `dfs` only ever calls it with `hop >= 1`, so the trap is not modelled.
- `ChainHeal.ChainInfo.FindBestPath`, `MainProgram.SearchFromCaster` and `MainProgram.Run` do not say which chain is kept when several tie for the best total. The source keeps the first one found in search order, because it replaces the record only on a strictly larger total (ChainInfo.swift:199, main.swift:117), and that choice decides which path is printed (main.swift:177-180). The contracts allow any chain of maximal value.
