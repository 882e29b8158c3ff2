# aacalc combat odds, modelled in Dafny

`aacalc.py` works out the odds of a battle between two armies. Each army
counts five unit types: Infantry, Artillary, Tanks, Fighters and Bombers.
Every unit rolls one six-sided die per round and scores a hit when the die
shows at most its strength. The strengths are 1, 2, 3, 3, 4 when attacking
and 2, 2, 2, 4, 1 when defending. Hits remove enemy units greedily, in the
listed type order.

`doRound` resolves a state in three steps:

- Terminal states: a win, a loss or a tie.
- Hit tables: for each side, a table from each hit total to a probability,
  built from binomial terms by five nested loops.
- Recursion: every pair of hit totals except (0, 0) leads to the state after
  casualties, which `doRound` resolves in turn. Each outcome is weighted by
  the product of the two table entries.

`normalize` turns results into percentages. `main` promotes infantry that can
pair with artillery before the first round.

The project models:

- the odds table;
- `binPDF`;
- the two battle-state representations (`short_units`, `long_units`);
- `casualties`;
- `normalize`;
- `doRound`, with its hit tables and its recursive fold;
- the promotion step.

It proves:

- round trips between the two state representations;
- the greedy casualty rule, and the fact that it is unique;
- that the binomial terms sum to one;
- what the hit tables actually hold;
- that every battle terminates;
- that `doRound` yields probabilities;
- that the three results of `doRound` never add up to zero, so the percentages never divide by zero;
- the expected values of the `binPDF` tests, of `test_doRound`, `test_doRound1` and `test_doRound2`, and of `test_casualties2`, `3` and `10`. The expected values of `test_doRound3`-`5` and `test_casualties1` and `4` are not proved.

Modules:

- `Forces` (`forces.dfy`): unit types, odds, the per-side dictionary (`Units`), `short_units`, `long_units`, promotion.
- `Binomial` (`binomial.dfy`): `binPDF` and the binomial theorem it rests on.
- `Casualties` (`casualties.dfy`): `casualties` and the greedy-removal properties.
- `HitTable` (`hittable.dfy`): the five nested loops that fill `hits_prob`.
- `HitBounds` (`hitbounds.dfy`): how much probability a hit table carries.
- `Combat` (`combat.dfy`): `doRound`, as the function `Resolve` and as the methods `DoRound` and `Fight`.
- `CombatBounds` (`combatbounds.dfy`): the results of `doRound` are probabilities.
- `Shares` (`normalize.dfy`): `normalize`.
- `CombatExamples` (`combatexamples.dfy`): the doRound tests of `test_aacalc.py`.

### Line 171 assigns; it does not accumulate

The hit table at `aacalc.py:171` is filled with `=`. Adding the products
(`+=`) would make each table a probability distribution over hit totals.
With `=`, each tuple's product overwrites the entry, so the entry that
survives is the product of the last tuple visited with that total. That tuple is the greedy split, which takes as many hits as
possible from Infantry, then Artillary, and so on.

The model follows the code:

- `HitTable.Tabulate` is proved to leave exactly that product.
- `HitTable.GreedyIsLast` shows why the greedy split is the survivor.
- `HitBounds.HitMassAtMostOne` shows that a table then carries probability at most one, rather than exactly one.

The fold also skips the pair (0, 0) and does not renormalise. The three
results of `doRound` add up to exactly one in a terminal state. Otherwise
the model proves only that they add up to at most one
(`CombatBounds.ResolveWithin`) and to more than zero
(`CombatBounds.ResolvePositive`); in the smallest battle they add up to
less than one. For one infantry
against one infantry they are 1/9, 5/18 and 1/18, which `normalize` turns
into 25, 62.5 and 12.5.

## Model

| member | source | states |
|---|---|---|
| Forces.HitChance | aacalc.py:42-50 | The per-die hit probability of each unit type and side, strength over six, lies strictly between zero and one. |
| Forces.LongUnits | aacalc.py:87-97 | `long_units` fails (None) exactly when fewer than ten integers are given; otherwise both sides list five counts, with attacker type i taken from input i and defender type i from input 5 + i. |
| Forces.ShortUnits | aacalc.py:79 | `short_units`: the attacker's five counts followed by the defender's. No requires. |
| Forces.Split | aacalc.py:87-97 | The dictionary `long_units` builds from its first ten integers: the first five are the attacker's, the next five the defender's. Its requires asks for ten integers; with fewer, `Forces.LongUnits` returns None. |
| Forces.RoundTripTuple | aacalc.py:69-97 | Building the dictionary from a ten-integer tuple and flattening it back with `short_units` gives the same tuple. |
| Forces.RoundTripUnits | aacalc.py:69-97 | Flattening a five-per-side state with `short_units` and rebuilding it with `long_units` gives the same state. |
| Forces.SumShortUnits | aacalc.py:79 | The flat tuple holds exactly the units of the state: its sum is the total unit count. |
| Forces.AliveIffPositive | aacalc.py:143-144 | With non-negative counts, a side has some unit alive (`any`) exactly when its unit count is positive. |
| Forces.Promote | aacalc.py:230-232 | Promotion leaves the defender and the non-infantry, non-artillery types alone and keeps the attacker's unit count. It moves units only between Infantry and Artillary. Afterwards either no infantry is left or the artillery count has doubled, and it never more than doubles. Together these force exactly min(infantry, artillery) promotions, one infantry per artillery. |
| Binomial.BinPDF | aacalc.py:52-67 | `binPDF(P, N, K)` over exact reals. It is 1 with no dice, (1 - p)^n with no hits, and otherwise the factorial quotient times p^k (1 - p)^(n-k). Its requires excludes 0 < n < k, where the source raises on a negative factorial. |
| Binomial.BinPDFPositive | aacalc.py:52-67 | With a hit chance strictly between zero and one, every hit count from zero to the number of dice has positive probability. |
| Binomial.BinPDFCases | aacalc.py:60-67 | `binPDF` is 1 with no dice and (1 - p)^n with no hits. Otherwise it is the binomial term C(n, k) p^k (1 - p)^(n-k). |
| Binomial.CoefficientIsChoose | aacalc.py:64-65 | The factorial quotient n! / (k! (n - k)!) is the integer binomial coefficient. |
| Binomial.BinPDFNonNeg | aacalc.py:52-67 | For a probability p, every `binPDF` value is at least zero. |
| Binomial.BinPDFSumsToOne | aacalc.py:52-67 | Over k = 0 .. n, the values of `binPDF(p, n, k)` add up to one, for every p (binomial theorem). |
| Binomial.MassBounds | aacalc.py:52-67 | Each `binPDF` value is at most the cumulative mass of the hit counts up to and including it. |
| Binomial.BinPDFAtMostOne | aacalc.py:52-67 | For a probability p, every `binPDF` value is at most one. |
| Binomial.BinPDFExamples | test_aacalc.py:22-41 | `binPDF(0.5, 3, 2)` is 3/8, `binPDF(4/6, 3, 2)` is 4/9 and `binPDF(1/6, 4, 2)` is 25/216, matching the expected 0.375, 0.444 and 0.116. |
| Binomial.BinPDFTenDice | test_aacalc.py:156-157 | `binPDF(0.5, 10, 5)` is 63/256, the expected 0.24609375. |
| Casualties.Casualties | aacalc.py:99-122 | `casualties(def_hits, att_hits, units)`: the defender's counts are reduced greedily by the first argument and the attacker's by the second, as `Apply` describes. |
| Casualties.Reduce | aacalc.py:115-121 | One side's counts after its hits: type by type, in order, the count loses min(hits left, count) and the hits left drop by that much. No requires. |
| Casualties.Apply | aacalc.py:99-122 | The state after `casualties(def_hits, att_hits, units)`: the defender reduced by the first argument, the attacker by the second. No requires. |
| Casualties.TakeHits | aacalc.py:115-121 | The inner loop leaves the side's greedily reduced counts. The hit dictionary changes only at that side's entry, which ends as the hits left over. |
| Casualties.LeftoverUnused | aacalc.py:118-120 | With non-negative hits and counts, the hits left over are hits - min(hits, units): only hits beyond the side's size remain. |
| Casualties.ReduceBounds | aacalc.py:118-119 | A side never gains units and no count drops below zero. |
| Casualties.ReduceRemoved | aacalc.py:118-120 | The units removed number exactly min(hits, units): every hit kills a unit while any remain. |
| Casualties.ReduceOrder | aacalc.py:115-121 | Casualties follow the type order: if a later type lost a unit, every earlier type has been wiped out. |
| Casualties.ReduceKeeps | aacalc.py:118-119 | No hits, or a negative number of hits, removes nothing. |
| Casualties.ReduceNoHits | aacalc.py:118-120 | Zero hits leave the counts unchanged. |
| Casualties.ReduceUnique | aacalc.py:115-121 | Any reduction that stays within bounds, removes min(hits, units) units and follows the type order is the one `casualties` computes. |
| Casualties.ApplySeparates | aacalc.py:111-121 | Hits on one side never change the other side. |
| Casualties.TotalDecreases | aacalc.py:179-183 | Any hit pair other than (0, 0) against two live armies leaves a valid state with strictly fewer units, so the recursion of `doRound` terminates. |
| CasualtiesExamples.CasualtiesExample | test_aacalc.py:159-162 | Five hits each way on (10,5,3,2,1 / 8,3,2,1,0) leave (5,5,3,2,1 / 3,3,2,1,0). |
| CasualtiesExamples.DefenderHitFirst | test_aacalc.py:85-94 | `casualties(1, 3, ...)` on 10 infantry and 3 tanks a side leaves the attacker 7 infantry and the defender 9: the first argument hits the defender. |
| CasualtiesExamples.HitsCarryOver | test_aacalc.py:96-104 | `casualties(11, 1, ...)` on the same armies leaves the defender no infantry and 2 tanks, and the attacker 9 infantry. |
| HitTable.Tabulate | aacalc.py:162-176 | The five nested loops leave one entry per total from zero to the side's unit count, and no other. Each entry is the product of the per-type binomial chances of the greedy split of that total. |
| HitTable.TableIsTableOf | aacalc.py:162-176 | A table with those keys and entries is the table the recursion uses. |
| HitTable.GreedyIsLast | aacalc.py:166-171 | Among the per-type hit tuples within the counts that share a total, the greedy split comes last in loop order, so its product is the one the assignment leaves. |
| HitTable.GreedyIsLoss | aacalc.py:118-119 | The greedy split of h hits is, type by type, exactly the units h hits remove in `casualties`. |
| HitTable.GreedySum | aacalc.py:166-171 | The greedy split of h hits adds up to min(h, the side's unit count). |
| HitTable.HitProbPositive | aacalc.py:171-176 | With positive chances, every table entry is positive. |
| HitTable.BinomialsPositive | aacalc.py:172-176 | Every factor of lines 172-176 for a hit count within the type's count is positive. |
| HitTable.HitProbNonNeg | aacalc.py:171-176 | With non-negative chances, every table entry is at least zero. |
| HitBounds.BinomialsDistribution | aacalc.py:172-176 | Each unit type's binomial factors are non-negative and add up to one over its hit counts. |
| HitBounds.HitMassAtMostOne | aacalc.py:165-176 | The entries of a side's hit table add up to between zero and one. |
| Combat.Resolve | aacalc.py:131-190 | The result of `doRound` on a state. A tie (0, 0, 1) when neither side has a unit, a loss (0, 1, 0) when only the attacker has none, and a win (1, 0, 0) when only the defender has none. Otherwise it is the fold `Before` over both hit tables. Its requires asks for five non-negative counts a side. |
| Combat.Before | aacalc.py:178-188 | The running totals when the loops of lines 179-180 reach the pair (a, d): every earlier pair in loop order has been visited. Its requires asks for tables with a key for every hit total, and for (a, d) within the loop ranges. |
| Combat.Visit | aacalc.py:181-188 | One pass of the inner loop: the pair (0, 0) adds nothing; any other pair adds the outcome of the state after its casualties, times the product of the two table entries. Same requires as `Before`. |
| Combat.BeforeStep | aacalc.py:181-188 | Each pass of the inner loop, for a pair other than (0, 0), adds the outcome of the state after casualties, weighted by the product of the two table entries. |
| Combat.NextState | aacalc.py:183 | The tuple passed to the recursive `doRound` has ten non-negative entries and describes a strictly smaller battle; rebuilding it gives the state after casualties. |
| Combat.DoRound | aacalc.py:131-190 | `doRound` fails (None) exactly when `long_units` cannot read ten integers. Otherwise it returns the outcome the recursion defines for the state those integers describe. |
| Combat.Fight | aacalc.py:178-190 | The double loop over hit totals accumulates exactly the recursion's weighted sum over every pair except (0, 0). |
| CombatBounds.ResolveWithin | aacalc.py:131-190 | `doRound` returns probabilities: win, lose and tie are each at least zero and add up to at most one. |
| CombatBounds.ResolvePositive | aacalc.py:131-190 | The three results of `doRound` add up to more than zero for every state. A terminal state is certain; otherwise the pair "one attacker hit, no defender hit" has positive weight and leads to such a state. |
| CombatBounds.ResolvePercentages | aacalc.py:240-241 | The percentages of the three results never divide by zero: `normalize` of them succeeds and they add up to 100. The same holds for the test helper at test_aacalc.py:17-20. |
| CombatBounds.FoldWithin | aacalc.py:178-190 | Folding over two tables whose entries are non-negative and add up to at most one yields probabilities. |
| CombatBounds.SpentAtMost | aacalc.py:179-185 | The weight of the pairs visited so far is at most the product of the two tables' masses. |
| CombatBounds.SideTable | aacalc.py:162-176 | Each side's hit table has non-negative entries that add up to at most one. |
| Shares.Normalize | aacalc.py:124-129 | `normalize` fails exactly on a non-empty list summing to zero (division by zero); otherwise the result has one entry per input. |
| Shares.NormalizeShare | aacalc.py:124-129 | Each output entry, times the input sum, is one hundred times its input: the entry is that input's percentage share. |
| Shares.NormalizeSumsTo100 | aacalc.py:124-129 | The entries of a normalised non-empty list add up to 100. |
| Shares.NormalizeIdempotent | aacalc.py:124-129 | Normalising a normalised list changes nothing. |
| Shares.DividedSum | aacalc.py:128-129 | Dividing every element by `total` divides the sum by `total`. |
| CombatExamples.TerminalStates | test_aacalc.py:118-126 | With one infantry against none the attacker wins (1, 0, 0). With none against one it loses (0, 1, 0). With nobody on either side it is a tie (0, 0, 1). |
| CombatExamples.OneInfantryTable | aacalc.py:162-176 | A side with a single infantry has the table {0: 1 - p, 1: p}, with p its infantry hit chance. |
| CombatExamples.OneOnOne | test_aacalc.py:128-133 | One infantry against one infantry resolves to win 1/9, lose 5/18 and tie 1/18. |
| CombatExamples.OneOnOnePercent | test_aacalc.py:128-133 | Those results, normalised, are the expected percentages 25, 62.5 and 12.5. |

## Left out

- Reading the command line, printing, the `VERBOSE` flags, `short_units_hdr` and the default army of `main`: they are I/O and have no bearing on the odds.
- The percentage line of `main` (`aacalc.py:240-241`) divides by the total itself rather than calling `normalize`. `CombatBounds.ResolvePercentages` covers it through `normalize`, which computes the same percentages.
- `functools.lru_cache` memoisation: it changes no result.
- Floating point: probabilities are exact reals, so rounding differences from the source are not modelled.
- Forces.LongUnits: takes integers; the string-to-integer conversion of `int()` and its `ValueError` are not modelled.
- Binomial.BinPDF: requires `k <= n` when `n > 0`; the source raises on the factorial of a negative number there. The loops never make such a call.
- Combat.DoRound: requires the first ten integers to be non-negative. On a negative count, the loops at `aacalc.py:166-170` leave that side's table empty, while `any` counts the side as alive. The source raises `KeyError` at line 185 when the loops at 179-180 reach a hit total missing from a table. It returns (0, 0, 0) whenever those loops add nothing: either side's unit sum is negative, or both sums are zero (for instance 1, -1, 0, 0, 0 on each side). The model does not cover either outcome.
- The `unit in orig_units[side]` test of `casualties` is always true in the model, because every state lists all five unit types.
- The `Units` class that `test_aacalc.py` imports is not part of this model. The tests that use only its API (`test_aacalc.py:43-72, 171-177`) are not modelled. Of the casualty tests, `test_casualties2` and `3` are modelled as examples; `test_casualties1` and `4` apply the same number of hits to both sides and are covered only by the general `Reduce` lemmas.
- The numeric expectations of `test_doRound3`, `4` and `5` are not proved. Their battles are too large to unfold in proofs; they are covered only by the general properties above.
