# Empirical selection routines and the Middle Square Weyl generator, in Dafny

This project models two parts of the Empirical library:

- **The selection routines of `source/Evolve/World_select.h`.** These are elite, tournament, roulette (fitness-proportional), lexicase and ecological (EcoSelect) selection. They also include the phenotype-id arithmetic of the MAP-Elites configuration.
- **The random number generator of `include/emp/math/Random.hpp`.** This is `emp::Random`, a Middle Square Weyl Sequence generator, together with `sample_with_replacement`.

Each selection routine gets two inputs:

- a snapshot of the population (`WorldModel.World`): for each slot, whether it is occupied, its genome and its fitness;
- the random choices the routine makes, as explicit inputs: the tournament entrants drawn by `GetRandomOrgID`, the raw 32-bit draws behind `GetUInt`/`GetDouble`, and lexicase's permutations.

Each routine returns the births it asks the world to perform (`WorldModel.Birth(parent, count)`), in the order it asks for them. The routines change no state, so their contracts describe the whole result:

- who is chosen;
- why they are chosen (maximal fitness, first among equals, the owner of a weight slice, a survivor of every criterion applied);
- how many are chosen.

The generator is a class with the same four fields as the C++ object. Each of its methods is proved against two functions:

- `Next`, one step of the Weyl/middle-square recurrence modulo 2^64;
- `Draw`, the 32-bit output of that step.

The `Advance` and `Stream` spec functions describe runs of draws. Every method's postcondition gives the new generator state and the value returned, both as functions of the old state.

Modules:

| file | module | models |
|---|---|---|
| `random.dfy` | `MiddleSquareWeyl` | `emp::Random`, `sample_with_replacement` |
| `world.dfy` | `WorldModel` | what the selection routines read from `World` and the births they request |
| `index_map.dfy` | `WeightedIndex` | the part of `emp::IndexMap` that RouletteSelect uses (weights, total, `Index`) |
| `elite.dfy` | `EliteSelection` | EliteSelect and its fitness multimap |
| `tournament.dfy` | `TournamentSelection` | TournamentSelect; also the tournament stage of EcoSelect |
| `roulette.dfy` | `RouletteSelection` | RouletteSelect |
| `lexicase_groups.dfy` | `LexicaseGroups` | LexicaseSelect's genotype grouping and fitness table |
| `lexicase_filter.dfy` | `LexicaseFilter` | one pass of LexicaseSelect's criterion filter |
| `lexicase.dfy` | `LexicaseSelection` | LexicaseSelect's rounds |
| `eco.dfy` | `EcoSelection` | both EcoSelect overloads |
| `map_elites.dfy` | `MapElitesIds` | `MapElitesPhenotype` and `MapElitesConfig` |

Three points of behaviour are easy to misread. Where the documentation and the code differ, the model follows the code:

- **Full-size tournaments can miss the best organism.** The documentation says a tournament is run on a random sub-set of organisms and keeps the fittest of them, and the code does exactly that: it compares the entrants drawn. The entrants are drawn with replacement, so a tournament whose size equals the population is still not the whole population, and it can miss the fittest organism (`TournamentSelection.FullSizeTournamentCanMissBest`).
- **Lexicase survivors can be counted twice.** The lexicase filter seeds `next_gens` with `cur_gens[0]` and then scans all of `cur_gens`, including `cur_gens[0]` again. When the leading genotype is still among the best, it is kept twice. That raises its share of the winner draw (`LexicaseFilter.LeadingTieKeptTwice`, `LexicaseFilter.TwoTiedGenotypesGiveThreeSurvivors`). The model keeps this behaviour.
- **The `MapElitesPhenotype` constructors.** Both initialiser lists, the default one (`pheno_fun_t()`) and the two-argument one (`pheno_fun_t(_f)`), name the type `pheno_fun_t` rather than the member `pheno_fun`. The model takes the evident intent of each: the default phenotype has no function, and the two-argument one holds the given function and category count.

## Model

| member | source | states |
|---|---|---|
| `WorldModel.World.NumOrgs` | source/Evolve/World_select.h:34 | the number of organisms never exceeds the number of slots |
| `WorldModel.CountTrue` | source/Evolve/World_select.h:39-44 | the count of occupied slots is at most the number of slots, and is positive exactly when some slot is occupied |
| `WorldModel.CountTrueSnoc` | source/Evolve/World_select.h:39-44 | counting one more slot adds one exactly when that slot is occupied |
| `WeightedIndex.SumNonNegative` | source/Evolve/World_select.h:102-105 | a total of non-negative weights is non-negative |
| `WeightedIndex.SumSnoc` | source/Evolve/World_select.h:102-105 | the cumulative weight of a prefix grows by exactly the next weight |
| `WeightedIndex.Index` | source/Evolve/World_select.h:109 | `Index(pos)` returns an id whose half-open cumulative slice contains pos, and that id has positive weight |
| `WeightedIndex.IndexMonotone` | source/Evolve/World_select.h:109 | a larger position never yields a smaller id |
| `WeightedIndex.SumAdjust` | source/Evolve/World_select.h:104 | `Adjust(id, w)` changes the total by exactly the change in that one weight |
| `WeightedIndex.PrefixSumMonotone` | source/Evolve/World_select.h:102-105 | prefix totals of non-negative weights never decrease |
| `WeightedIndex.IndexIsSliceOwner` | source/Evolve/World_select.h:109 | `Index(pos) == j` if and only if j's cumulative slice contains pos |
| `EliteSelection.MultimapInsert` | source/Evolve/World_select.h:42 | `multimap::insert` places the new pair after every entry with a key at most its key, and before every larger key; nothing else changes |
| `EliteSelection.InsertKeepsOrder` | source/Evolve/World_select.h:38-44 | inserting the id just read (larger than every id already loaded) keeps the map ordered by fitness, with equal fitnesses in id order |
| `EliteSelection.InsertEntries` | source/Evolve/World_select.h:40-42 | after inserting slot id, every entry is an occupied slot below id + 1 carrying its own fitness |
| `EliteSelection.InsertCovers` | source/Evolve/World_select.h:40-42 | after inserting slot id, every occupied slot below id + 1 has its entry in the map |
| `EliteSelection.InsertLoaded` | source/Evolve/World_select.h:40-42 | an occupied slot keeps the loading invariant when its pair is inserted at the multimap position |
| `EliteSelection.SkipLoaded` | source/Evolve/World_select.h:40 | an empty slot keeps the loading invariant without touching the map |
| `EliteSelection.LoadFitnessMap` | source/Evolve/World_select.h:37-44 | the loaded multimap is ordered by (fitness, id), holds exactly one entry per occupied slot with that slot's fitness, and holds nothing else |
| `EliteSelection.EliteSelect` | source/Evolve/World_select.h:33-53 | e_count births of copy_count copies each, of distinct occupied organisms in descending (fitness, id) order; every occupied organism not chosen ranks below the last one chosen |
| `TournamentSelection.FirstMaxUnique` | source/Evolve/World_select.h:74-84 | at most one entrant position is the first with the maximal fitness |
| `TournamentSelection.FirstMaxIndex` | source/Evolve/World_select.h:74-84 | the index returned is the first entrant position with the maximal fitness |
| `TournamentSelection.TournamentRunWinners` | source/Evolve/World_select.h:69-88 | one birth per tournament, each a single copy of the entrant that comes first with the tournament's maximal fitness |
| `TournamentSelection.StrictBestWins` | source/Evolve/World_select.h:74-84 | an entrant strictly fitter than every other entrant wins its tournament, wherever it was drawn |
| `TournamentSelection.Winner` | source/Evolve/World_select.h:74-84 | the winner is one of the entrants, and no entrant is fitter |
| `TournamentSelection.TournamentRun` | source/Evolve/World_select.h:68-88 | one single-copy birth per tournament, whose parent is an entrant of that tournament |
| `TournamentSelection.FullSizeTournamentCanMissBest` | source/Evolve/World_select.h:72 | entrants are drawn with replacement, so a tournament of population size can miss the fittest organism |
| `TournamentSelection.TournamentWinner` | source/Evolve/World_select.h:74-84 | the scan with strict `>` returns the first entrant of maximal fitness: an entrant at least as fit as every entrant |
| `TournamentSelection.RunTournaments` | source/Evolve/World_select.h:315-332 | EcoSelect's tournament loop, on the adjusted fitness fixed before it, yields one single-copy birth per tournament, whose parent is an entrant at least as fit as every entrant |
| `TournamentSelection.DrawEntries` | source/Evolve/World_select.h:71-72 | the entries vector is refilled with exactly the ids drawn for the tournament |
| `TournamentSelection.TournamentRunAfter` | source/Evolve/World_select.h:68-88 | the births of TournamentSelect number one per tournament, each scored on the fitness left by the births of the earlier tournaments |
| `TournamentSelection.RunAfterWinners` | source/Evolve/World_select.h:68-88 | tournament t's birth is one copy of the first maximal entrant under the fitness tournament t reads, so no entrant beats it there |
| `TournamentSelection.RunAfterAllWinners` | source/Evolve/World_select.h:68-88 | every birth of the run is one copy of an entrant of its own tournament that no entrant beats under the fitness that tournament reads |
| `TournamentSelection.SynchronousRunIsSnapshot` | source/Evolve/World_select.h:68-88 | in a synchronous world every tournament reads the same fitnesses, and the births are those of one snapshot |
| `TournamentSelection.AsyncBirthChangesLaterTournament` | source/Evolve/World_select.h:74-87 | in an asynchronous world an earlier tournament's offspring can change who wins a later tournament, where a single snapshot would pick another slot |
| `TournamentSelection.TournamentSelect` | source/Evolve/World_select.h:64-89 | tourny_count births, the ones `TournamentRunAfter` names; each parent is drawn from its own tournament and is at least as fit as every entrant of it under the fitness that tournament reads; in a synchronous world that is the fitness before the call |
| `WorldModel.FitnessAfter` | source/Evolve/World_select.h:102-113 | the fitnesses a selection loop reads before round k: the fitnesses before the call, except that in an asynchronous world each offspring slot written so far carries the offspring's fitness; used for roulette's weights and for each tournament's scores |
| `WorldModel.FitnessAfterStep` | source/Evolve/World_select.h:110-113 | one more round writes that round's offspring fitness into its slot in an asynchronous world, and changes nothing in a synchronous one |
| `WorldModel.FitnessAfterUntouched` | source/Evolve/World_select.h:110-113 | a slot no earlier round wrote an offspring into keeps the fitness it had before the call |
| `RouletteSelection.RoulettePick` | source/Evolve/World_select.h:108-109 | the parent's cumulative-weight slice contains `GetDouble(total)`, and the parent's weight is positive |
| `RouletteSelection.RoulettePickIsSlice` | source/Evolve/World_select.h:108-109 | slot j is the parent if and only if its slice contains the scaled draw; a slot of weight zero is never the parent |
| `RouletteSelection.EmptySlotCanBePicked` | source/Evolve/World_select.h:102-110 | in a two-slot world whose first slot is empty and both slots have fitness 1, a draw in the first half of the total makes the empty slot the parent, since weights are loaded for every slot, occupied or not |
| `RouletteSelection.RoundsMatchExtend` | source/Evolve/World_select.h:107-114 | a round performed on the current weights extends the record of rounds |
| `RouletteSelection.LoadWeights` | source/Evolve/World_select.h:102-105 | the IndexMap is loaded with every slot's fitness |
| `RouletteSelection.RouletteSelect` | source/Evolve/World_select.h:96-115 | every round picks the owner of the scaled draw's slice under the weights of that round; the run stops early (ok false) only when the weights cannot be drawn from |
| `LexicaseGroups.GroupStep` | source/Evolve/World_select.h:143-150 | one slot of the grouping loop keeps the index in range and every list non-empty |
| `LexicaseGroups.Groups` | source/Evolve/World_select.h:142-152 | the grouping after n slots has an in-range index and non-empty lists |
| `LexicaseGroups.GroupsGrouped` | source/Evolve/World_select.h:142-152 | after n slots the lists partition the occupied slots below n by genotype, each list is strictly increasing (no slot twice) and starts at its genotype's first slot, and each genotype maps to its own list |
| `LexicaseGroups.EmptyGrouped` | source/Evolve/World_select.h:137-138 | the empty map and empty lists satisfy the grouping invariant before the loop |
| `LexicaseGroups.GroupStepKeeps` | source/Evolve/World_select.h:143-150 | one step of the grouping loop preserves the grouping invariant |
| `LexicaseGroups.SkipKeeps` | source/Evolve/World_select.h:144 | an empty slot leaves the grouping unchanged and still grouped one slot further |
| `LexicaseGroups.AppendIndexMatches` | source/Evolve/World_select.h:145-146 | appending to a known genotype's list keeps every list's first slot, so the map still sends each genotype to its list |
| `LexicaseGroups.AppendListsBelow` | source/Evolve/World_select.h:145-146 | appending to a known genotype's list keeps every list within the occupied slots of that genotype, and strictly increasing |
| `LexicaseGroups.AppendCovers` | source/Evolve/World_select.h:145-146 | after appending, every occupied slot so far is in its genotype's list |
| `LexicaseGroups.NewListsBelow` | source/Evolve/World_select.h:147-149 | a new genotype's list holds just the new slot, and the other lists keep their slots |
| `LexicaseGroups.NewIndexMatches` | source/Evolve/World_select.h:147-149 | the new genotype maps to its new list, and every list's first slot has that list's genotype |
| `LexicaseGroups.NewCovers` | source/Evolve/World_select.h:147-149 | after a new list is opened, every occupied slot so far is in its genotype's list |
| `LexicaseGroups.GroupsPartition` | source/Evolve/World_select.h:142-152 | an occupied slot lies in list g if and only if g is the list its genotype maps to |
| `LexicaseGroups.GroupGenotypes` | source/Evolve/World_select.h:137-152 | the loop builds exactly the grouping of all slots, which partitions the organisms by genotype into strictly increasing lists |
| `LexicaseGroups.FirstMemberIsFirstSlot` | source/Evolve/World_select.h:142-152 | the first member of each genotype list is an occupied slot, and no earlier occupied slot has that genome |
| `LexicaseGroups.CountGenome` | source/Evolve/World_select.h:142-152 | the number of occupied slots below n with a given genome is at most n |
| `LexicaseGroups.CountGenomeNone` | source/Evolve/World_select.h:147-149 | a genome no occupied slot below n carries is counted 0 times |
| `LexicaseGroups.ListSizeCountsOrganisms` | source/Evolve/World_select.h:142-152 | the list of a genotype holds exactly as many slots as there are occupied slots with that genome, so the `genotype_lists[g].size()` that lines 228-231 add up counts its organisms |
| `LexicaseGroups.FitnessTable` | source/Evolve/World_select.h:163-172 | `fitnesses[f][g]` is fitness function f applied to the first organism of genotype g |
| `LexicaseFilter.ScanMax` | source/Evolve/World_select.h:199-213 | the running maximum is at least the leader's value, bounds every value scanned, and is attained |
| `LexicaseFilter.ScanMembers` | source/Evolve/World_select.h:199-213 | an id is kept if and only if it carries the running maximum and is the leader or was scanned |
| `LexicaseFilter.FilterKeepsTheBest` | source/Evolve/World_select.h:199-215 | an id survives a criterion if and only if it was a candidate with a value no smaller than any candidate's; survivors are never empty |
| `LexicaseFilter.LeaderStays` | source/Evolve/World_select.h:199-213 | when the leader is among the best it is never displaced, and it is recorded twice |
| `LexicaseFilter.LeadingTieKeptTwice` | source/Evolve/World_select.h:199-215 | a best leader appears twice among the survivors of a criterion |
| `LexicaseFilter.TwoTiedGenotypesGiveThreeSurvivors` | source/Evolve/World_select.h:199-215 | two genotypes tied at the top survive as three entries |
| `LexicaseFilter.FilterStep` | source/Evolve/World_select.h:199-217 | the filter loop computes exactly the survivors the filter specification names |
| `LexicaseSelection.EffectiveMaxFuns` | source/Evolve/World_select.h:160 | a max_funs of 0 means all the functions; any other value is kept |
| `LexicaseSelection.CriterionOrder` | source/Evolve/World_select.h:181-188 | the order is a permutation of the functions when max_funs is their number, and otherwise max_funs independent draws each naming a function |
| `LexicaseSelection.ChooseOrder` | source/Evolve/World_select.h:181-188 | the ordering code builds that order |
| `LexicaseSelection.AllGens` | source/Evolve/World_select.h:154-158 | `all_gens[i] == i` for every genotype |
| `LexicaseSelection.Stage` | source/Evolve/World_select.h:191-220 | survivors after any number of criteria are non-empty genotype ids |
| `LexicaseSelection.StageKeepsTheBest` | source/Evolve/World_select.h:195-220 | each criterion keeps exactly the previous survivors that are best under it |
| `LexicaseSelection.StopDepth` | source/Evolve/World_select.h:192-223 | the loop stops after the first criterion that leaves one survivor, or after the last criterion |
| `LexicaseSelection.StopDepthIsFirst` | source/Evolve/World_select.h:223 | no criterion before the stopping one leaves a single survivor |
| `LexicaseSelection.Narrow` | source/Evolve/World_select.h:199-220 | one pass of the loop turns the survivors of t criteria into those of t + 1 |
| `LexicaseSelection.StopDepthFrom` | source/Evolve/World_select.h:192-223 | a depth where none of the earlier criteria leaves one survivor, and this or the last one does, is the stopping depth |
| `LexicaseSelection.RunCriteria` | source/Evolve/World_select.h:191-224 | the loop applies its criteria up to the stopping depth and returns those survivors; depth indexes the last criterion applied |
| `LexicaseSelection.ConcatMembers` | source/Evolve/World_select.h:228-242 | an organism is an option if and only if it is in the list of some survivor |
| `LexicaseSelection.ConcatNonEmpty` | source/Evolve/World_select.h:228-231 | every survivor contributes at least one option |
| `LexicaseSelection.PickSurvivor` | source/Evolve/World_select.h:227-243 | options counts the organisms of the survivors with repeats, and is positive; the walk returns option number `GetUInt(options)` |
| `LexicaseSelection.TableOf` | source/Evolve/World_select.h:163-172 | the specification of the fitness table satisfies its defining property |
| `LexicaseSelection.FitnessTableUnique` | source/Evolve/World_select.h:163-172 | the fitness table is determined by the functions and the genotype lists |
| `LexicaseSelection.DrawSurvivor` | source/Evolve/World_select.h:232-242 | the chosen organism belongs to a surviving genotype |
| `LexicaseSelection.RoundSurvivors` | source/Evolve/World_select.h:191-224 | the criteria applied form a non-empty prefix of the order, and the survivors are non-empty genotype ids |
| `LexicaseSelection.RoundSurvivorsOf` | source/Evolve/World_select.h:191-224 | the results of the loop are the applied criteria and survivors that the specification names |
| `LexicaseSelection.RoundOutcome` | source/Evolve/World_select.h:180-249 | a round applies at least one criterion, the criteria used are a prefix of the round's order, and the parent is in some genotype's list |
| `LexicaseSelection.RoundOutcomeIsSurvivor` | source/Evolve/World_select.h:178-250 | a round's parent is an occupied organism of a genotype that survived all the criteria applied, and those criteria are a non-empty prefix of the order |
| `LexicaseSelection.EventsExtend` | source/Evolve/World_select.h:178-250 | appending a round's event extends the record of rounds |
| `LexicaseSelection.ReproduceOnce` | source/Evolve/World_select.h:180-249 | one round of the repro loop produces that round's outcome |
| `LexicaseSelection.LexicaseSelect` | source/Evolve/World_select.h:127-250 | repro_count rounds, each reporting the criteria used and a single-copy birth of that round's outcome; fails only when some round must start with no genotype |
| `LexicaseSelection.ReproduceAll` | source/Evolve/World_select.h:178-250 | the repro loop records each round's outcome and a birth for its parent |
| `EcoSelection.CountEq` | source/Evolve/World_select.h:285-291 | the count of values equal to m is at most the number of values |
| `EcoSelection.CountEqNone` | source/Evolve/World_select.h:297 | the count is 0 when no value equals m |
| `EcoSelection.CountEqSome` | source/Evolve/World_select.h:297 | the count is positive when some value equals m |
| `EcoSelection.CountEqOne` | source/Evolve/World_select.h:300 | the count is 1 when exactly one value equals m |
| `EcoSelection.PoolScanSpec` | source/Evolve/World_select.h:273-291 | the scan that starts at 0 yields a maximum that is non-negative and bounds every value; it is 0 or attained; the count is the number of values equal to it |
| `EcoSelection.NoShareIffAllNegative` | source/Evolve/World_select.h:285-297 | nobody shares a pool if and only if every extra fitness is negative |
| `EcoSelection.ZeroValuesShare` | source/Evolve/World_select.h:273-291 | organisms scoring exactly 0 share a pool when nobody scores higher |
| `EcoSelection.ShareSumCounts` | source/Evolve/World_select.h:296-311 | the bonuses handed out for one function total to the number of best organisms times their share |
| `EcoSelection.PoolSplitExactly` | source/Evolve/World_select.h:296-311 | the bonuses for one function total exactly its pool when someone earns it, and nothing otherwise |
| `EcoSelection.UniqueBestTakesPool` | source/Evolve/World_select.h:296-311 | a unique best organism with a non-negative score takes the whole pool, and every other organism gets nothing |
| `EcoSelection.Adjusted` | source/Evolve/World_select.h:295-312 | readjusting keeps one fitness per slot |
| `EcoSelection.NegativeFunctionAwardsNothing` | source/Evolve/World_select.h:297 | an extra function that is negative everywhere adds nothing to any organism |
| `EcoSelection.CollectFitness` | source/Evolve/World_select.h:270-293 | the collection loop records the base fitness of every slot, the extra fitness table, and for each function its maximum (from 0) and the count of organisms reaching it |
| `EcoSelection.CollectSlot` | source/Evolve/World_select.h:282-292 | the ex_id loop writes one slot's extra fitnesses and advances each function's maximum and count by that slot |
| `EcoSelection.HandOutPools` | source/Evolve/World_select.h:296-312 | the readjust loop yields the base fitnesses with each function's pool split among its best organisms |
| `EcoSelection.EcoFitness` | source/Evolve/World_select.h:270-312 | the adjusted fitness has one value per slot |
| `EcoSelection.EcoSelect` | source/Evolve/World_select.h:258-335 | tourny_count tournaments run on the adjusted fitness; each parent is an entrant at least as fit, after adjustment, as every entrant |
| `EcoSelection.EcoSelectUniform` | source/Evolve/World_select.h:339-344 | the single-pool overload is the general EcoSelect with every pool set to that size |
| `MapElitesIds.DefaultPhenotype` | source/Evolve/World_select.h:353 | a phenotype built by the default constructor is not OK |
| `MapElitesIds.PhenotypeOK` | source/Evolve/World_select.h:356 | a phenotype is OK if and only if it has a function and at least one category |
| `MapElitesIds.PhenotypeID` | source/Evolve/World_select.h:358-362 | an id is produced exactly when the phenotype has a function, and always when it is OK |
| `MapElitesIds.Counts` | source/Evolve/World_select.h:376 | one category count per phenotype |
| `MapElitesIds.Ids` | source/Evolve/World_select.h:374 | one phenotype id per phenotype |
| `MapElitesIds.ProductPositive` | source/Evolve/World_select.h:381-385 | the product of positive category counts is positive |
| `MapElitesIds.MixedRadixBelow` | source/Evolve/World_select.h:371-379 | the combined id of in-range phenotype ids is below the product of the counts |
| `MapElitesIds.MixedRadixInjective` | source/Evolve/World_select.h:371-379 | in-range phenotype ids with the same combined id are equal |
| `MapElitesIds.MixedRadixPrefix` | source/Evolve/World_select.h:371-379 | the combined id of the first n phenotypes depends only on their ids |
| `MapElitesIds.ConfigOK` | source/Evolve/World_select.h:369 | the configuration is OK if and only if every phenotype is OK |
| `MapElitesIds.GetIDCount` | source/Evolve/World_select.h:381-385 | the id count is the product of the category counts modulo 2^64, and 1 with no phenotypes |
| `MapElitesIds.GetID` | source/Evolve/World_select.h:371-379 | an id is produced exactly when every phenotype has a function; it is the mixed-radix number of the phenotype ids (the first phenotype least significant) modulo 2^64 |
| `MapElitesIds.GetIDBelowIDCount` | source/Evolve/World_select.h:371-385 | when every phenotype id is below its count and the product fits in size_t, every id is below GetIDCount |
| `MapElitesIds.GetIDSeparates` | source/Evolve/World_select.h:371-385 | with in-range ids and no overflow, organisms with different phenotype ids get different cells |
| `MapElitesIds.IDCountCanWrap` | source/Evolve/World_select.h:381-385 | two phenotypes of 2^32 categories each give an id count of 0, since size_t wraps |
| `MiddleSquareWeyl.Swap32` | include/emp/math/Random.hpp:50 | the two 32-bit halves of the word change places |
| `MiddleSquareWeyl.Swap32Involution` | include/emp/math/Random.hpp:50 | swapping twice restores the word |
| `MiddleSquareWeyl.DrawIsMiddleOfSquare` | include/emp/math/Random.hpp:47-52 | `Next` steps the Weyl state by STEP_SIZE modulo 2^64 and puts the low half of value squared plus the new Weyl state into the high half of the new value; `Draw` is the high half of that sum, below RAND_CAP |
| `MiddleSquareWeyl.DrawAt` | include/emp/math/Random.hpp:47-52 | the draw made after k steps is the high half of the square of the current value plus the Weyl state k + 1 steps of STEP_SIZE on from the start |
| `MiddleSquareWeyl.Stream` | include/emp/math/Random.hpp:47-52 | n draws give n values |
| `MiddleSquareWeyl.AdvanceSmall` | include/emp/math/Random.hpp:47-52 | advancing 1, 2 or 3 steps is 1, 2 or 3 steps of the recurrence |
| `MiddleSquareWeyl.AdvanceAdd` | include/emp/math/Random.hpp:47-52 | advancing m steps then n steps is advancing m + n steps |
| `MiddleSquareWeyl.StreamAt` | include/emp/math/Random.hpp:47-52 | the i-th value of a run is the draw made from the state after i steps |
| `MiddleSquareWeyl.StreamAppend` | include/emp/math/Random.hpp:47-52 | a run of m + n draws is the first m draws followed by the n draws from where they end |
| `MiddleSquareWeyl.WeylProgression` | include/emp/math/Random.hpp:49 | after n draws the Weyl state has advanced by n times STEP_SIZE modulo 2^64 |
| `MiddleSquareWeyl.UnitInterval` | include/emp/math/Random.hpp:89 | GetDouble's value lies in [0, 1) |
| `MiddleSquareWeyl.ScaledBelow` | include/emp/math/Random.hpp:92 | GetDouble(max) lies in [0, max) for positive max, and is 0 for max 0 |
| `MiddleSquareWeyl.UIntBelow` | include/emp/math/Random.hpp:110-112 | GetUInt(max) is below max for positive max, and is 0 for max 0 |
| `MiddleSquareWeyl.UIntBelowIsFloor` | include/emp/math/Random.hpp:110-112 | GetUInt(max) is the floor of GetDouble() times max |
| `MiddleSquareWeyl.UIntBetween` | include/emp/math/Random.hpp:116-118 | GetUInt(min, max) lies in [min, max) when min < max |
| `MiddleSquareWeyl.IntBelow` | include/emp/math/Random.hpp:168-170 | GetInt(max) lies in [0, max) for positive max |
| `MiddleSquareWeyl.Compose64` | include/emp/math/Random.hpp:150-153 | the high 32 bits of the 64-bit value are the first draw and the low 32 bits are the second |
| `MiddleSquareWeyl.BitwiseAnd` | include/emp/math/Random.hpp:128-134 | a bitwise and never exceeds either operand |
| `MiddleSquareWeyl.BitOr32` | include/emp/math/Random.hpp:134-146 | a bitwise or is at least either operand |
| `MiddleSquareWeyl.BernoulliBounds` | include/emp/math/Random.hpp:233-236 | P(0) is never true and P(1) is always true |
| `MiddleSquareWeyl.Successes` | include/emp/math/Random.hpp:291-298 | the successes among n trials number at most n |
| `MiddleSquareWeyl.Ceil` | include/emp/math/Random.hpp:294 | the number of trials the loop runs is the ceiling of n |
| `MiddleSquareWeyl.Random.GetSeed` | include/emp/math/Random.hpp:64 | the seed returned is the one recorded by the last reseeding |
| `MiddleSquareWeyl.Random.constructor` | include/emp/math/Random.hpp:56-58 | a new generator has value 0; its seed is the given one when positive and entropy otherwise; its Weyl state is twice the seed |
| `MiddleSquareWeyl.Random.ResetSeed` | include/emp/math/Random.hpp:68-83 | reseeding records the seed (or the entropy for a seed <= 0) and sets the Weyl state to twice it modulo 2^64, which is even; value is not reset |
| `MiddleSquareWeyl.Random.Get` | include/emp/math/Random.hpp:47-52 | one step of the recurrence; returns that step's draw |
| `MiddleSquareWeyl.Random.GetDouble` | include/emp/math/Random.hpp:89 | one step; returns the draw divided by RAND_CAP |
| `MiddleSquareWeyl.Random.GetDoubleBelow` | include/emp/math/Random.hpp:92 | one step; returns that fraction scaled by max |
| `MiddleSquareWeyl.Random.GetDoubleBetween` | include/emp/math/Random.hpp:95-97 | one step; returns a value in [min, max) |
| `MiddleSquareWeyl.Random.GetUInt` | include/emp/math/Random.hpp:106 | one step; returns the raw draw |
| `MiddleSquareWeyl.Random.GetUIntBelow` | include/emp/math/Random.hpp:110-112 | one step; returns the floor of the fraction times max, below max |
| `MiddleSquareWeyl.Random.GetUIntBetween` | include/emp/math/Random.hpp:116-118 | one step; returns a value in [min, max) |
| `MiddleSquareWeyl.Random.GetInt` | include/emp/math/Random.hpp:168-170 | one step; returns a value in [0, max) for positive max |
| `MiddleSquareWeyl.Random.GetIntBetween` | include/emp/math/Random.hpp:173 | one step; returns GetInt(max - min) + min, which lies in [min, max) when min < max; min > max is accepted and goes through GetInt of a negative bound |
| `MiddleSquareWeyl.Random.GetBits12_5` | include/emp/math/Random.hpp:128 | three steps; returns the and of the three draws |
| `MiddleSquareWeyl.Random.GetBits25` | include/emp/math/Random.hpp:131 | two steps; returns the and of the two draws |
| `MiddleSquareWeyl.Random.GetBits37_5` | include/emp/math/Random.hpp:134 | three steps; returns (first or second) and third |
| `MiddleSquareWeyl.Random.GetBits50` | include/emp/math/Random.hpp:137 | one step; returns the raw draw |
| `MiddleSquareWeyl.Random.GetBits62_5` | include/emp/math/Random.hpp:140 | three steps; returns (first and second) or third |
| `MiddleSquareWeyl.Random.GetBits75` | include/emp/math/Random.hpp:143 | two steps; returns the or of the two draws |
| `MiddleSquareWeyl.Random.GetBits87_5` | include/emp/math/Random.hpp:146 | three steps; returns the or of the three draws |
| `MiddleSquareWeyl.Random.GetUInt64` | include/emp/math/Random.hpp:150-153 | two steps; the first draw is the high half and the second the low half |
| `MiddleSquareWeyl.Random.GetUInt64Below` | include/emp/math/Random.hpp:156-164 | for max <= RAND_CAP, one step giving GetUInt(max); otherwise masked 64-bit candidates are drawn until one is below max, and every candidate before it was rejected; a found value is below max |
| `MiddleSquareWeyl.Random.RejectionLoop` | include/emp/math/Random.hpp:159-162 | the rejection loop takes two steps per try, rejects every earlier candidate, and stops at the first accepted one |
| `MiddleSquareWeyl.RejectionStep` | include/emp/math/Random.hpp:159-162 | one more rejected try leaves the generator two steps further on and extends the record of rejections |
| `MiddleSquareWeyl.Random.DrawCandidate` | include/emp/math/Random.hpp:161 | one try takes two steps and returns the 64-bit draw masked to the bits of max |
| `MiddleSquareWeyl.AdaptorAgreesBelowHalf` | include/emp/math/Random.hpp:322 | for n below 2^31, the adaptor's GetInt(n) picks the same index as GetUInt(n) |
| `MiddleSquareWeyl.AllRejectedExtend` | include/emp/math/Random.hpp:159-162 | one more rejected candidate extends the record of rejections |
| `MiddleSquareWeyl.Random.P` | include/emp/math/Random.hpp:233-236 | one step; true exactly when the draw is below p times RAND_CAP; P(0) is false and P(1) is true |
| `MiddleSquareWeyl.Random.GetRandBinomial` | include/emp/math/Random.hpp:291-298 | ceil(n) steps; returns the number of successful trials among those draws, at most ceil(n) |
| `MiddleSquareWeyl.Random.GetRandGeometric` | include/emp/math/Random.hpp:300-311 | returns 0 without drawing when p is 0; otherwise the number of trials up to and including the first success, every earlier trial having failed |
| `MiddleSquareWeyl.SampleWithReplacement` | include/emp/math/Random.hpp:330-336 | fills the output with one draw per slot; slot i holds the input element at GetUInt(input size) of the i-th draw, so every output element comes from the input; the generator's seed and cached fields are unchanged |
| `MiddleSquareWeyl.SameSeedSameDraws` | include/emp/math/Random.hpp:56-83 | two generators built from the same positive seed produce the same stream, whatever the entropy |

## Left out

- Floating point: fitnesses, weights, pool sizes and `GetDouble` are exact reals. `GetUInt(max)` is the exact floor of draw times max over 2^32, with no double rounding.
- Seeding from the clock: a seed <= 0 uses `time(NULL) ^ (uint64_t) this` in the source. The model takes this word as the `entropy` parameter of the constructor and of `ResetSeed`.
- `GetRandNormal`, `GetRandPoisson` and the `RandFill*` routines are not modelled. They rely on `log`, `exp` and `sqrt` in floating point, or on raw memory filling.
- The `Range` overloads are not modelled. They only forward to the overloads that are modelled. `RandomStdAdaptor` is not modelled either: it forwards to `GetInt(int)`, whose `int` conversions change behaviour from 2^31 on (see the SampleWithReplacement line below).
- `MaskUsed` (include/emp/bits/bitset_utils.hpp) is not part of this model. `GetUInt64Below` takes the mask as a parameter.
- MiddleSquareWeyl.Random.GetUInt64Below: the rejection loop of the source is unbounded. The model stops after `maxTries` tries and reports `found == false`, with every candidate rejected.
- MiddleSquareWeyl.Random.GetRandGeometric: the source loops until a success. The model stops after `maxTries` trials and reports `found == false`, with every trial failed.
- MiddleSquareWeyl.Random.GetRandBinomial: requires n <= 2^32 - 1. Beyond that the `uint32_t` loop counter of the source wraps around and never reaches n.
- MiddleSquareWeyl.Random.GetUIntBelow: requires max <= 2^32. Beyond that the product can exceed 2^32, and converting such a `double` to `uint32_t` is undefined behaviour in C++.
- MiddleSquareWeyl.Random.GetIntBetween: requires -2^31 <= max - min < 2^31, where the source's `int` subtraction does not overflow. The final `+ min` is computed on unbounded integers; the source's `int32_t` addition could overflow there, which is undefined behaviour in C++.
- Evaluation order: C++ leaves the operand order of `Get() op Get()` unspecified. The model evaluates left to right, so the first draw is the high half in `GetUInt64` and the first operand in the `GetBits*` routines.
- MiddleSquareWeyl.SampleWithReplacement: the source takes its generator by value as a callable `rng(n)`. The model's `rng(n)` is `GetUInt(n)` on a shared `Random`, for input sizes up to 2^32. A `RandomStdAdaptor` holding a reference calls `GetInt(n)` instead (include/emp/math/Random.hpp:322). That agrees with `GetUInt(n)` only for sizes below 2^31 (`MiddleSquareWeyl.AdaptorAgreesBelowHalf`). From 2^31 on, the adaptor's `int` argument and result differ: a size of 2^32 becomes 0, so every slot gets the first element, and a pick of 2^31 or more becomes a negative offset. The model does not capture that.
- `emp::World` (declared in `World.h`) is not part of this model. Three inputs stand for its random choices: `GetRandomOrgID` is the list of tournament entrants, `GetRandom().GetUInt/GetDouble` are raw 32-bit draws, and `GetPermutation` is a permutation. `DoBirth` is recorded as a `Birth` and not performed.
- Random number source of the selection routines: source/Evolve/World_select.h:20 includes `../tools/Random.h`, which is not part of this model. The model assumes that its `GetDouble(max)` and `GetUInt(max)` follow the formulas of include/emp/math/Random.hpp, stated here as `ScaledBelow` and `UIntBelow`.
- RouletteSelection.RouletteSelect: asynchronous offspring placement is an input (the offspring slot and its fitness per round). The model does not decide where a birth goes.
- TournamentSelection.TournamentSelect: the same holds for TournamentSelect, which reads `CalcFitnessID` after the births of the earlier tournaments. The offspring slot and its fitness per tournament are inputs, and `FitnessAfter` gives the fitness each tournament reads.
- RouletteSelection.RouletteSelect: when the total weight is zero, or a weight negative, `IndexMap::Index` (`../tools/IndexMap.h`, included at source/Evolve/World_select.h:19, is not part of this model) has no valid answer. The model stops with `ok == false` instead.
- LexicaseSelection.LexicaseSelect: with no occupied slot, the source reads `cur_gens[0]` of an empty vector. The model reports `ok == false` for that case.
- LexicaseSelection.LexicaseSelect: the `TriggerOnLexicaseSelect` hook is recorded as a `LexicaseEvent` (criteria used, parent) and not called.
- EliteSelection.EliteSelect: the `std::multimap` is a sequence kept sorted by (fitness, id). That is the iteration order of a multimap when equal keys are inserted in increasing id order.
- Bitwise `&` and `|` on draws are written as arithmetic on integers (`|` through De Morgan). Their algebra beyond the bounds stated is not proved.
- EcoSelection.EcoSelect: the extra fitness functions are functions of the slot id. Every slot is evaluated, occupied or not, as the source loops over `GetSize()`. Clearing the fitness cache has no effect on the snapshot and is left out.
- MapElitesIds.PhenotypeID: the `emp_assert(id < id_count)` is a hypothesis (`Digits`) of the lemmas, not a failure of the function. An empty `std::function` is `None`; calling it throws in the source.
- `MapElitesSeed` and `MapElitesGrow` only assert their preconditions and do nothing else, so they are not modelled.
- Concurrency and the printing helpers of the source are not modelled.
