# FC team generator: a verified model of `generate_teams`

The team generator takes the players selected for a match, a number of teams
and a capacity per team. It seeds one goalkeeper per team while both last,
then walks the ranking from position `len(gks)` and gives each visited player
to the team with room that has the lowest skill total (fewer female members
first on a tie), dropping the player when every team is full. `generate_teams` works in five steps:

1. It shuffles the selection.
2. It keeps the goalkeepers (`GK`) and the field players (`FD`). Each list
   stays in the shuffled order.
3. It ranks the goalkeepers followed by the field players by skill, highest
   first, with a stable sort.
4. It seeds team `i` with goalkeeper `i` for every `i` below the smaller of
   the team count and the number of goalkeepers.
5. It walks the ranking from position `len(gks)` onward. Each player goes to
   the team that has room and counts lowest by (skill total, number of female
   members). A tie goes to the lower index. When every team is full, the
   player is dropped.

The model has six modules:

- `Wrappers`: the `Option` type that the team choice returns.
- `Players`: the player record, the per-team sums, and the order-preserving
  position filters.
- `SkillSort`: the stable descending sort by skill, as a stable insertion sort.
  It is proved non-increasing, a permutation, and order-preserving within each
  skill. A lemma shows that every sequence with these three properties equals
  it.
- `TeamBalancer`: a functional specification of the whole run, on values.
  - `Assignment` holds the three parallel lists.
  - `Seed` models the goalkeeper seeding; `Step` and `Fill` model the greedy
    pass.
  - `Generate` is the whole run.
  - Its lemmas state what the run guarantees: running totals, seeding layout,
    capacity, the exact number of placements, who is placed, and the choice of
    team.
- `Randomize`: `generate_teams` as the procedure it is. The three parallel
  lists are arrays updated in place by a seeding loop and a nested greedy loop.
  Each loop is proved against the functional specification.
- `Scenarios`: concrete cases of the generator, for fixed outcomes of the
  shuffle.

The shuffle is an input: `shuffled` is any rearrangement of the selection
(`multiset(shuffled) == multiset(players)`), and every guarantee holds for every
such order.

Two facts about the code deserve a note:

- **The greedy pass skips the highest-rated players, not the goalkeepers.**
  Line 52 walks the ranking from position `len(gks)`. The ranking holds
  goalkeepers and field players together, so this skips the `len(gks)`
  highest-rated players. A low-rated goalkeeper can then be placed a second
  time, and a high-rated field player may never be placed.
  `Scenarios.KeeperPlacedTwice` shows both on three players. The model follows
  the code: `TeamBalancer.GenerateSelection` states exactly who is placed, and
  the full-coverage lemma `TeamBalancer.GenerateCoverage` is stated for a
  selection without goalkeepers.
- **An even split.** For six field players rated 5, 5, 4, 4, 3, 3 in two teams
  of three, the greedy pass alternates between the teams, and both totals are
  12. `Scenarios.EvenSplit` proves the teams and the totals.

## Model

| member | source | states |
|---|---|---|
| Randomize.GenerateTeams | randomize.py:29-65 | For any shuffled order of the selection, the returned teams and totals are those of the specification `Generate`. There is one team and one total per team (`max(num_teams, 0)` of each). Each total is the sum of its team's skills. With a capacity of at least 1 no team exceeds it. Every member comes from the selection and is a goalkeeper or a field player. |
| Randomize.ChooseTeam | randomize.py:53-57 | The inner scan returns no team exactly when every team is full. Otherwise it returns the unique eligible team that is lowest by (skill total, female count), with ties going to the lowest index. |
| Randomize.AddMember | randomize.py:46-49 | Appending a player to team `i` updates that team's list, skill total and female count, and nothing else. |
| Randomize.SeedGoalkeepers | randomize.py:45-49 | The seeding loop leaves the arrays in the state `Seed` describes: the first `k` goalkeepers are placed one per team, in order. |
| Randomize.GreedyFill | randomize.py:52-63 | The greedy loop leaves the arrays in the state `Fill` describes: one greedy step per visited player, in order. |
| Randomize.GenerateSpec | randomize.py:40-65 | The functional run has `max(num_teams, 0)` teams and totals. The totals match the teams. Capacity holds when it is at least 1. Every member comes from the selection and has position GK or FD. |
| Players.SumSkill | randomize.py:47 | A team's skill total is not negative when every member's skill is not negative. |
| Players.FemaleCount | randomize.py:48-49 | A team's female count is at most its size. |
| Players.WithPosition | randomize.py:33-34 | A position filter is no longer than its input and keeps only players of that position. |
| Players.Goalkeepers | randomize.py:33 | `gks` is no longer than the selection and holds only goalkeepers. |
| Players.FieldPlayers | randomize.py:34 | `fds` is no longer than the selection and holds only field players. |
| Players.AppendMember | randomize.py:47-49 | Appending a player adds its skill to the team's sum, and adds one to the female count exactly when the player is female. |
| Players.WithPositionCounts | randomize.py:33-34 | Each position filter keeps every copy of every player with that position, and nothing else. |
| Players.WithPositionAppend | randomize.py:33-34 | A position filter distributes over concatenation, so it keeps the shuffled order. |
| Players.WithPositionAll | randomize.py:33-34 | A filter keeps a list whose players all have the position unchanged. |
| Players.WithPositionNone | randomize.py:33-34 | A filter maps a list with no player of the position to the empty list. |
| Players.PositionsPartition | randomize.py:33-34 | The goalkeepers, the field players and the players of any other position together are exactly the selection. |
| SkillSort.InsertBySkill | randomize.py:38 | Inserting a player into the sorted prefix lengthens it by one. |
| SkillSort.SortBySkillDesc | randomize.py:38 | The sort keeps the length of its input. Its order and contents are stated by `SortBySkillDescSpec`. |
| SkillSort.NonIncreasingFromNeighbours | randomize.py:38 | A list whose adjacent skills never increase is non-increasing throughout. |
| SkillSort.InsertBySkillPermutes | randomize.py:38 | Inserting a player adds exactly that player. |
| SkillSort.InsertBySkillOrders | randomize.py:38 | Inserting into a non-increasing list keeps it non-increasing. |
| SkillSort.InsertBySkillStable | randomize.py:38 | Insertion puts the new player after every earlier player of equal skill. |
| SkillSort.SortBySkillDescSpec | randomize.py:37-38 | The descending sort is non-increasing in skill and a permutation of its input. Players of equal skill keep their input order. |
| SkillSort.SkillClassesDetermine | randomize.py:38 | Two non-increasing lists with the same players of each skill, in the same order, are equal. |
| SkillSort.StableSortIsUnique | randomize.py:38 | Any non-increasing list that keeps each skill's players in input order equals the sort, so the sort is Python's stable `reverse=True` sort. |
| TeamBalancer.TeamCount | randomize.py:40-42 | The number of teams is `num_teams` when it is non-negative and 0 otherwise, as `range` and list repetition give for a negative count. |
| TeamBalancer.Empty | randomize.py:40-42 | `n` empty teams with zero totals and zero female counts. |
| TeamBalancer.Eligible | randomize.py:55 | A team can take another player while it has fewer than `players_per_team` members. |
| TeamBalancer.Precedes | randomize.py:56 | The replacement test: lower skill total, or equal total and fewer female members. |
| TeamBalancer.PrecedesStrictOrder | randomize.py:56 | The replacement test is a strict order: irreflexive, asymmetric and transitive, and teams neither of which precedes the other have equal (skill total, female count). |
| TeamBalancer.Place | randomize.py:46-49 | Appending a player to one team keeps the three lists the same length as one another and as before. |
| TeamBalancer.Seed | randomize.py:45-49 | Seeding keeps the three lists the same length as one another and as before. Its layout and totals are stated by `SeedLayout`, `SeedTotal` and `SeedMembers`. |
| TeamBalancer.BestAmong | randomize.py:54-57 | A team returned by the scan over teams `0..k-1` is one of them and has room. |
| TeamBalancer.BestTeam | randomize.py:53-57 | A team returned by the scan over all teams exists and has room. |
| TeamBalancer.Step | randomize.py:52-63 | A greedy step keeps the three lists the same length as one another and as before. |
| TeamBalancer.Fill | randomize.py:52-63 | The greedy pass keeps the three lists the same length as one another and as before. |
| TeamBalancer.Ranked | randomize.py:37-38 | `all_players` has one entry per goalkeeper and per field player. Its order is stated by `RankedSpec`. |
| TeamBalancer.GreedyPool | randomize.py:52 | The greedy loop visits as many players as there are field players: all of the ranking after its first `len(gks)` entries. |
| TeamBalancer.Seeded | randomize.py:40-49 | The seeded state has `max(num_teams, 0)` teams, totals and female counts. |
| TeamBalancer.Generate | randomize.py:29-65 | The whole run yields `max(num_teams, 0)` teams, totals and female counts. |
| TeamBalancer.GenerateConsistent | randomize.py:40-63 | After the whole run every total is its team's skill sum and every female count its team's number of female members. |
| TeamBalancer.RankedSpec | randomize.py:37-38 | `all_players` is non-increasing in skill and a permutation of the goalkeepers followed by the field players. Equal skills keep that concatenation order. |
| TeamBalancer.BestAmongSpec | randomize.py:54-57 | Scanning teams `0..k-1` finds nothing exactly when none has room. Otherwise the team it finds has room, no team with room ranks strictly before it, and it ranks strictly before every earlier team with room. |
| TeamBalancer.BestTeamSpec | randomize.py:53-57 | The scan over all teams returns no team exactly when all are full. Otherwise it returns a best team in the sense above. |
| TeamBalancer.BestTeamUnique | randomize.py:54-57 | At most one team is best, so the minimum and its lowest-index tie-break decide the choice. |
| TeamBalancer.StepSpec | randomize.py:52-63 | If every team is full, a greedy step changes nothing (teams, totals and female counts alike). Otherwise the step appends the player to the best team. |
| TeamBalancer.PlaceKeepsConsistent | randomize.py:46-49 | Placing a player keeps every total equal to its team's skill sum and every female count equal to its team's female members. |
| TeamBalancer.SeedKeepsConsistent | randomize.py:45-49 | Seeding keeps the totals and counts equal to their teams' sums. |
| TeamBalancer.StepKeepsConsistent | randomize.py:53-63 | A greedy step keeps the totals and counts equal to their teams' sums. |
| TeamBalancer.FillKeepsConsistent | randomize.py:52-63 | The greedy pass keeps the totals and counts equal to their teams' sums after every step. |
| TeamBalancer.SeedLayout | randomize.py:40-46 | After seeding `k` goalkeepers into `n` empty teams, team `i` is `[gks[i]]` for `i < k` and empty otherwise. |
| TeamBalancer.SeededSpec | randomize.py:40-49 | After seeding, team `i` is `[gks[i]]` for `i < min(num_teams, len(gks))` and every other team is empty. The totals and counts match. |
| TeamBalancer.StepKeepsCapacity | randomize.py:55-60 | A greedy step never takes a team past its capacity. |
| TeamBalancer.FillKeepsCapacity | randomize.py:52-60 | The greedy pass never takes a team past its capacity. |
| TeamBalancer.GenerateCapacity | randomize.py:45-55 | Every final team has at most `players_per_team` members, or at most one (its seeded goalkeeper) when the capacity is below 1. |
| TeamBalancer.TotalSizeWithinCapacity | randomize.py:55 | Teams within capacity `c` hold at most `c` players per team in all. |
| TeamBalancer.SeedTotal | randomize.py:45-46 | Seeding `k` goalkeepers adds exactly `k` placements. |
| TeamBalancer.StepTotal | randomize.py:59-60 | A greedy step places the player at most once: it adds one placement, or none when every team is full. |
| TeamBalancer.FillTotal | randomize.py:52-60 | The greedy pass adds at most one placement per visited player. |
| TeamBalancer.GeneratePlacements | randomize.py:45-60 | There are at most `min(num_teams, len(gks)) + len(fds)` placements in all. With a capacity of at least 1 there are also at most `num_teams * players_per_team`. |
| TeamBalancer.SeedDrawnFrom | randomize.py:45-46 | Every seeded member is a goalkeeper from `gks`. |
| TeamBalancer.FillDrawnFrom | randomize.py:52-60 | The greedy pass only adds players it visits. |
| TeamBalancer.GenerateMembers | randomize.py:33-63 | Every member of every final team comes from the shuffled selection and is a goalkeeper or field player. Players of any other position are in no team. |
| TeamBalancer.FullTotal | randomize.py:55 | Teams within capacity `c` hold exactly `c` players per team in all exactly when every team is full. |
| TeamBalancer.StepCount | randomize.py:53-60 | With a capacity of at least 1, a greedy step adds one placement unless the teams already hold `num_teams * players_per_team`. |
| TeamBalancer.FillCount | randomize.py:52-60 | With a capacity of at least 1, the greedy pass places every visited player until all teams are full: the placements are the smaller of (placements before + players visited) and `num_teams * players_per_team`. |
| TeamBalancer.SeedMembers | randomize.py:45-46 | Seeding `k` goalkeepers adds exactly the first `k` goalkeepers to the members. |
| TeamBalancer.StepMembers | randomize.py:53-60 | A greedy step adds the visited player to the members when some team has room, and nobody otherwise. |
| TeamBalancer.PlacedCount | randomize.py:52-60 | The greedy pass places at most one player per visited player. |
| TeamBalancer.FillPlacedTotal | randomize.py:52-60 | The greedy pass adds exactly `PlacedCount` placements. |
| TeamBalancer.FillDropsOnlyWhenFull | randomize.py:53-60 | If the greedy pass leaves any visited player out, every team is full at the end. |
| TeamBalancer.FillPlacesPrefix | randomize.py:52-60 | The greedy pass adds to the members exactly the first `PlacedCount` players it visits, each once. The players it leaves out are the tail of the visiting order. |
| TeamBalancer.SeededMembers | randomize.py:40-49 | After seeding, the teams hold exactly the first `min(num_teams, len(gks))` goalkeepers, one per team at most. |
| TeamBalancer.GenerateSelection | randomize.py:33-63 | The final members are the first `min(num_teams, len(gks))` goalkeepers plus the first `m` players of `all_players[len(gks):]`, where `m` is the number of greedy placements. Players of the greedy order are left out only when every team is full at the end. |
| TeamBalancer.GeneratePlacementCount | randomize.py:40-63 | With a capacity of at least 1, the number of placements is exactly the smaller of `min(num_teams, len(gks)) + len(fds)` and `num_teams * players_per_team`. |
| TeamBalancer.GenerateCoverage | randomize.py:33-63 | Without goalkeepers and with room for every field player, every field player is on exactly one team and nobody else is. |
| TeamBalancer.EmptySelection | randomize.py:40-63 | An empty selection gives `max(num_teams, 0)` empty teams with zero totals. |
| Scenarios.EvenSplit | randomize.py:29-65 | Six field players rated 5, 5, 4, 4, 3, 3 in two teams of three give teams `[a, c, e]` and `[b, d, f]`, with totals 12 and 12. |
| Scenarios.KeeperPlacedTwice | randomize.py:33-63 | Goalkeepers `g`, `h` (both rated 1) and field player `f` (rated 5), in two teams of three, give teams `[g, h]` and `[h]`. Goalkeeper `h` is placed twice and `f` not at all. |
| Scenarios.KeeperRosterSorted | randomize.py:38 | Sorting `[g, h, f]` gives `[f, g, h]`: the field player moves to the front and the goalkeepers keep their order. |
| Scenarios.KeeperRosterRanked | randomize.py:33-52 | In that case `gks` is `[g, h]`, the ranking is `[f, g, h]`, and the greedy pass visits only `h`. |
| Scenarios.KeeperRosterSeeded | randomize.py:40-49 | In that case seeding puts `g` in the first team and `h` in the second, with totals 1 and 1. |
| Scenarios.EvenRosterRanked | randomize.py:33-52 | With no goalkeepers, the greedy pass visits the whole ranked roster. |
| Scenarios.EvenRosterSeeded | randomize.py:40-49 | With no goalkeepers, seeding leaves two empty teams with zero totals. |
| Scenarios.EvenRosterFill | randomize.py:52-63 | The greedy pass over 5, 5, 4, 4, 3, 3 into two empty teams of three gives `[a, c, e]` and `[b, d, f]`, with totals 12 and 12. |
| Scenarios.SinglePlayer | randomize.py:40-63 | One field player and three teams give three teams: the player in the first, the others empty. |

## Left out

- Loading the roster from Google Sheets (randomize.py:7-27): network I/O and third-party libraries. The players are parameters.
- The conversion of the skill column with `to_numeric(errors='coerce')` (randomize.py:26): floating point and NaN. Skill is an unbounded integer, so a missing or non-numeric rating is not modelled.
- The randomness of `random.shuffle` (randomize.py:30): the shuffled order is an input that must be a rearrangement of the selection. The model also does not show that the caller's list is left in the shuffled order.
- The Streamlit interface, the widgets' bounds on the team count and capacity, the HTML rendering and the DataFrame selection (randomize.py:67-106): presentation. `generate_teams` is modelled for every integer team count and capacity.
- The dictionary records of the source: a player is a record with a name, a skill, a position (GK, FD or any other) and a female flag. The flag stands for a gender field equal to `F`.
- The female counts are not returned by `generate_teams`. They appear only in the state, and in `TeamBalancer.Consistent` and the greedy choice.
- TeamBalancer.GenerateCoverage: stated only for a selection without goalkeepers. With goalkeepers the code can place a goalkeeper twice and leave a field player out (`Scenarios.KeeperPlacedTwice`), so "every selected player is on exactly one team" does not hold in general; `TeamBalancer.GenerateSelection` states who is placed in every case.
