# Ambulance hospital selection — a Dafny model

`newapp.py` is a small Flask service that, given an ambulance's position, searches for nearby
emergency facilities and recommends one. This project models its decision logic and proves
properties of it:

- **Travel cost** (`compute_weighted_time`): distance at 750 m per minute. The time is raised by 50 %
  when the road address contains 골목, 이면 or 소로, and otherwise by 30 % when it contains 좁.
- **Keyword filter**: a search result is kept iff its name contains none of the exclude keywords and
  at least one include keyword. A kept result becomes a hospital record.
- **Session-pinned availability** (`assign_fixed_availability`, `reset_session`). The process-wide
  `UNAVAILABLE_HOSPITALS` list is drawn once per session and reused until a reset. Every record is
  marked available iff its name is not on the list.
- **Evolutionary bias picker** (`select_best_GA`). It searches over orderings of the available
  records, and fitness looks only at an ordering's first record. Each generation is sorted fittest
  first, keeps the top two, and breeds children by one-point crossover and a swap mutation.
- **Hybrid scoring and selection**: `final_score = (weighted_time or inf) * (0.5 * f + 0.5)`, where
  `f` is 0.8 for the optimizer's pick and 1.0 otherwise. The best record is the first available one
  with the least score.
- **The update handler's decision block** (lines 183-211), which chains the steps above. An
  exception raised inside it is swallowed by the handler's catch-all.

Modules, one file each:

- `Wrappers`: Option and a ValueError-or-value outcome.
- `Text`: Python's substring `in`.
- `Positions`: the positions of a sequence whose flag is set, in order; the filter and the crossover both keep order this way.
- `Hospitals`: the hospital record.
- `TravelCost`, `KeywordFilter`, `Availability`, `Permutations`, `GA`, `Scoring`: one per part above.
- `Revisions`: selects between the code as written and the corrected reading described under Findings.
- `Pipeline`: the handler's decision block.

Modelling choices:

- The handler's hospital list of dicts is an `array<Hospital>`, updated in place by the annotation
  loops. The session global is a field of class `Session`.
- The GA's population is a local list that is sorted and rebuilt, so it is modelled as a `seq`
  that the loop reassigns.
- Random draws are oracle inputs. Their `requires` clauses state exactly the ranges Python's
  `random.uniform`, `random.sample`, `random.randint` and `random.random` guarantee.
- Python's `int()` of a non-negative product is its floor.
- `max` and `min` with a key return the first extremal element.
- `randint(1, 0)` raises ValueError.

Two details of the code that shape the model:

- The blend weights are 0.5/0.5 (`newapp.py:18-19`).
- `unavailable_list` is the session's whole pinned list (`newapp.py:38`, `199`). It may name places
  that are not among this request's results.

## Model

| member | source | states |
|---|---|---|
| Text.Contains | newapp.py:25-27 | Python's `k in s`: true iff `k` occurs in `s` at some position |
| Text.ContainsAny | newapp.py:188-189 | `any(x in s for x in keys)`: true iff some key occurs in `s` |
| TravelCost.Classify | newapp.py:25-28 | alley iff the road name contains 골목, 이면 or 소로; narrow iff it is not alley and contains 좁; otherwise plain (the alley rule takes precedence) |
| TravelCost.WeightedTime | newapp.py:22-29 | for a non-negative distance the time lies between d/750 and 1.5·d/750; a zero distance gives 0 |
| TravelCost.WeightedTimeByRoad | newapp.py:22-29 | the time is exactly d/750·1.5 on alley roads, d/750·1.3 on narrow roads and d/750 otherwise |
| TravelCost.PenaltyOrdering | newapp.py:22-29 | for the same positive distance, alley time > narrow time > unmarked time |
| KeywordFilter.KeepMeaning | newapp.py:183-189 | a name is kept iff no exclude keyword occurs in it and some include keyword does |
| KeywordFilter.ToHospital | newapp.py:190-195 | the record carries the place's name, distance and road address; its address is the road address, or `address_name` when that is empty; no other key is set yet |
| KeywordFilter.KeptPositions | newapp.py:186-189 | the positions of the kept results, strictly increasing; a position is listed iff its name passes the filter |
| KeywordFilter.Filtered | newapp.py:186-195 | one record per kept result, in search order: the k-th record is the record of the k-th kept position; hence every record is a kept result's and every kept result has its record |
| KeywordFilter.CollectHospitals | newapp.py:186-195 | the loop with its two `continue`s builds exactly the filtered records, in order |
| KeywordFilter.ClinicDropped | newapp.py:183-188 | exclusion wins: any name containing 의원 is dropped, even if it also contains 병원 |
| KeywordFilter.HospitalKept | newapp.py:184-189 | a name with 병원 and no exclude keyword is kept |
| Availability.NumUnavailable | newapp.py:36 | `int(n * frac)` is the natural number k with k ≤ n·frac < k + 1 |
| Availability.SampleNames | newapp.py:37-38 | the pinned names are the names of the sampled records, one per pick, in sample order |
| Availability.WithAvailability | newapp.py:39-40 | every record gets `available` = (name not in the pinned list) and nothing else changes |
| Availability.Session.constructor | newapp.py:13 | a session starts with no pinned list |
| Availability.Session.Reset | newapp.py:154-158 | the pinned list becomes None whatever it was, so resetting twice equals resetting once |
| Availability.Session.AssignFixedAvailability | newapp.py:32-41 | a pinned list survives a call unchanged; without one, the sample's names become pinned; the records are exactly WithAvailability of the old records and the returned list |
| Availability.FirstDrawBounds | newapp.py:34-38 | a first draw pins at most n·max_unavail_frac names, each the name of a given record; an empty list pins nothing |
| Availability.FirstDrawLeavesOneAvailable | newapp.py:34-40 | with distinct names, a non-empty list and a fraction bound below 1, some record stays available after the first draw |
| Permutations.Remaining | newapp.py:64 | the genes of p2 not in the prefix, one per position and in p2's order; exactly those genes; without repeats when p2 has none |
| Permutations.Crossover | newapp.py:64 | the child is p1's first `cut` genes followed by Remaining of p2, so it holds exactly the genes of that prefix and of p2 |
| Permutations.CrossoverPreservesPermutation | newapp.py:64 | crossing two reorderings of the available indices gives a reordering of them |
| Permutations.Swap | newapp.py:65-67 | the two positions are exchanged, all others are kept, and the multiset of genes is unchanged |
| GA.Fitness | newapp.py:51-56 | 0 for a record with no time; in (0, 1] for a non-negative time |
| GA.FitnessDecreasing | newapp.py:51-56 | fitness strictly decreases as the travel time grows |
| GA.AvailableIndices | newapp.py:45 | the indices are distinct, and an index is listed iff its record is available (a missing key counts as available) |
| GA.PermutationIsValid | newapp.py:49-53 | a reordering of the available indices starts with an available record that has a fitness |
| GA.Insert | newapp.py:59 | inserting into a fittest-first list keeps it fittest-first and adds exactly that one chromosome |
| GA.SortByFitness | newapp.py:59 | `sort(key=fitness, reverse=True)` yields a fittest-first permutation of the population |
| GA.FittestUpTo | newapp.py:70 | `max(..., key=fitness)`: an index of greatest fitness, and no earlier chromosome is as fit |
| GA.MaxFitnessIsMax | newapp.py:70 | the greatest fitness bounds every chromosome and is reached by one |
| GA.MaxFitnessOfPermutation | newapp.py:59 | sorting leaves the greatest fitness unchanged |
| GA.SortedHeadIsFittest | newapp.py:59-60 | the head of a sorted population has the greatest fitness |
| GA.Breed | newapp.py:63-68 | raises iff the cut range is empty; otherwise the child is a reordering of the available indices |
| GA.ElitismKeepsMax | newapp.py:59-60 | a next generation that starts with the sorted population's head is at least as fit at its best |
| GA.SortedIsPopulation | newapp.py:59 | sorting keeps the population's size and keeps every chromosome an ordering of the available indices |
| GA.Refill | newapp.py:60-68 | the top two survive, the population is refilled to its size with orderings of the available indices, and the loop raises iff a child is needed while the cut range is empty |
| GA.NextGeneration | newapp.py:58-69 | one generation raises iff a child is needed and the cut range is empty; otherwise it keeps the size, keeps every chromosome an ordering of the available indices, keeps the sorted top two, and does not lower the greatest fitness |
| GA.SelectBestGA | newapp.py:44-71 | returns None iff nothing is available; raises iff a population is empty or a child is bred with an empty cut range; otherwise returns an available record at least as fit as the fittest initial ordering |
| Scoring.WithWeightedTimes | newapp.py:200-204 | unavailable records get None, available ones `compute_weighted_time`, and nothing else changes |
| Scoring.AnnotateWeightedTimes | newapp.py:200-204 | the in-place loop leaves the array equal to WithWeightedTimes of its old contents |
| Scoring.FinalScoreCases | newapp.py:206-209 | the score is inf for a None time and, as written, for a zero time; otherwise it is time·0.9 for the optimizer's pick and time·1.0 for the rest |
| Scoring.Scored | newapp.py:206-209 | every record gets its final score and nothing else changes |
| Scoring.AssignFinalScores | newapp.py:206-209 | the in-place loop leaves the array equal to Scored of its old contents |
| Scoring.BestIndexUpTo | newapp.py:210-211 | None iff nothing is available; otherwise an available index that no available record beats, and that beats every earlier available record |
| Scoring.BestOf | newapp.py:210-211 | `best` is None iff nothing is available; otherwise it is the first available record of least final score |
| Pipeline.Annotated | newapp.py:198-204 | records after availability and travel times: same length, every key set, available iff not pinned |
| Pipeline.AnnotatedIsGAReady | newapp.py:51-56 | with non-negative distances, the optimizer's fitness never divides by zero |
| Pipeline.Select | newapp.py:205-213 | if the optimizer raised, no score and no best; otherwise best is None iff nothing is available, and any best is a scored record with `available` true |
| Pipeline.Prepare | newapp.py:198-204 | the session pins its list, and a fresh copy of the records holds exactly the annotated records for that list |
| Pipeline.Conclude | newapp.py:205-211 | the in-place scoring and the choice of best give exactly Select of the annotated records |
| Pipeline.Decide | newapp.py:197-211 | the session pins the list; the response's list is the pinned one; the optimizer raises iff GARaises holds, and otherwise returns None iff no annotated record is available and else an available annotated record; hospitals and best are Select of the annotated records |
| Pipeline.Update | newapp.py:183-213 | with no kept results, the response is empty and the session is untouched; otherwise the session pins the list, the optimizer raises iff GARaises holds and otherwise returns None iff no annotated record is available and else an available one, and hospitals and best are Select of the annotated records |
| Pipeline.PlainRoadBeatsSideStreet | newapp.py:22-29 | two places at 1000 m, one on a 이면 road: the ordinary-road place is best whichever record the optimizer favours |
| Pipeline.SoleAvailableGetsNoBest | newapp.py:63 | as written, when exactly one record is available the response has no best |
| Pipeline.IntendedBestIffAvailable | newapp.py:205-211 | corrected, the optimizer never raises, and a best exists iff some record is available |
| Pipeline.ZeroDistanceLoses | newapp.py:207 | as written, a place at 0 m loses to one at 750 m |
| Pipeline.ZeroDistanceWins | newapp.py:207 | corrected, the place at 0 m is the best |

## Left out

- The Flask app, routes, HTML/JavaScript page and server start-up (`newapp.py:75-152`, `234-235`): user interface and HTTP plumbing.
- The keyword-search HTTP request and JSON decoding (`newapp.py:177-181`): a network client. The model starts from the list of result documents.
- A result without `place_name` and a non-numeric `distance`, which raise inside the handler's try block (`newapp.py:187`, `193`): the documents are modelled already decoded, with the distance as a real.
- Payload parsing, the `coords` global, logging and the clock (`newapp.py:162-174`, `213`): I/O.
- `safe_display` rounding of the response (`newapp.py:215-231`): presentation only, and `round` is floating-point specific.
- The probability distributions of the random draws: each draw is any value in the range the random module guarantees.
- Locking around `UNAVAILABLE_HOSPITALS`: the code has none, and concurrency is out of scope.
- Floating point: times and scores are exact reals, and `math.inf` is a separate `Infinite` score.
- An infinite `weighted_time` cannot arise from finite distances, so the fitness's `== inf` test is not modelled.
- Pipeline.Update: requires non-negative distances. The search API reports distances from the query point, and only for non-negative distances is the fitness denominator known to be non-zero.
- Availability.Session.AssignFixedAvailability: requires `0 <= max_unavail_frac <= 1`. The handler passes 0.5, and outside that range `random.sample` could be asked for more names than there are records.
- GA.SortByFitness: the sort is proved fittest-first and a permutation of the population. Stability (equal keys keep their order) is not stated; it affects which of several equally fit orderings becomes the pick.
- GA.SelectBestGA: states the returned record's fitness against the initial population's best, not against the final population's.
- GA.ValidGADraws: the mutation coin and positions are drawn for every child. The source draws them only when the coin is below the mutation rate, which has no effect on the result.

## Findings

| source | as written | input that shows it | evidently intended | confidence | as-written member | corrected member |
|---|---|---|---|---|---|---|
| newapp.py:63 | `random.randint(1, n - 1)` raises ValueError when exactly one record is available; the catch-all at line 212 swallows it, so no final score is written and `best` stays None | one kept search result, available (for example the first request of a session with one result) | a cut drawn from a non-empty range (`randint(1, max(1, n - 1))`), so the single available record is recommended | high (proved; not executed) | Pipeline.SoleAvailableGetsNoBest | Pipeline.IntendedBestIffAvailable |
| newapp.py:207 | `h["weighted_time"] or math.inf` turns a travel time of 0.0 into infinity | two available places on an ordinary road, at 0 m and at 750 m: the 750 m one is recommended | only a missing time (None) scores infinity | high (proved; not executed) | Pipeline.ZeroDistanceLoses | Pipeline.ZeroDistanceWins |
