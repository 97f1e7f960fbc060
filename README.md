# Base-site search and land-cover scoring, modelled in Dafny

This project models two parts of the repository and proves properties of them.

The first part is the base-site search in `algoritm1_tif.py`. It takes an integer score matrix, where -1 marks a cell that is not buildable. It proposes up to `nr_baze` bases of `patrate` cells each, in four steps:

- **Seed extractor** (`primele100ElementeMaxime`): takes the at most 100 highest cells, keeps the positive ones and sorts them by score, highest first.
- **Seed deconflictor** (`selectareCuRespectareDistanta`): walks the seeds greedily. It keeps a seed unless a kept seed is closer than `int(sqrt(patrate)) + 2` on both axes, and stops after `baze` seeds.
- **Region grower** (`generareOConfiguratie`): a best-first flood fill over 4-neighbours from one seed.
  - A `heapq` is keyed by `(-score, row, col)`.
  - A cell is marked visited when it is enqueued.
  - Cells with a score of 0 or less are dropped when popped.
  - The fill stops at `patrate` cells or when the heap is empty.
- **Region ranker** (`generareConfiguratii`): keeps the regions of exactly `patrate` cells with their score sums. It sorts them by sum with a stable sort, highest first, and keeps the first `baze`.

`BaseSearch.SearchBases` chains the four steps the way `algoritm_baze_gps` does once it has read the matrix, with the same early exits.

The second part is `maskTheMap`, which turns a uint8 raster of CLC+ land-cover codes into int8 tactical scores. It has three copies: `harti/full_generator_harta.py`, `harti/procesare_finala.py` and `harti/descarcare_harti.py`. Each copy:

1. casts the raster to int8;
2. zeroes the codes >= 254;
3. for each `(code, score)` entry of its dict, writes the score wherever the original code equals that code.

The copies differ only in their dict. The one in `descarcare_harti.py` has no entries for 255 and 0.

Layout:

| file | module | what it models |
|---|---|---|
| `grid.dfy` | `Grid` | cells `(value, row, col)`, the matrix, `ravel`, adjacency, Chebyshev distance, sums |
| `sorting.dfy` | `Sorting` | `list.sort(key=..., reverse=True)`: a stable descending sort |
| `seed_extractor.dfy` | `SeedExtractor` | `primele100ElementeMaxime` |
| `seed_deconflictor.dfy` | `SeedDeconflictor` | `selectareCuRespectareDistanta` |
| `region_grower.dfy` | `RegionGrower` | `generareOConfiguratie` |
| `region_ranker.dfy` | `RegionRanker` | `generareConfiguratii` |
| `base_search.dfy` | `BaseSearch` | the search steps of `algoritm_baze_gps` |
| `argpartition_wrap.dfy` | `ArgpartitionWrap` | the int8 negation inside the extractor (see Findings) |
| `land_cover.dfy` | `LandCover` | the body shared by the three `maskTheMap` copies, and the score table |
| `full_generator_harta.dfy`, `procesare_finala.dfy`, `descarcare_harti.dfy` | `FullGeneratorHarta`, `ProcesareFinala`, `DescarcareHarti` | the three copies with their dicts |

The search's state is modelled with sequences and sets that its methods reassign in loops. For example, the heap is a set of cells popped in `(-score, row, col)` order. The rasters of `maskTheMap` are `array2`s updated in place by masked assignments.

## Model

| member | source | states |
|---|---|---|
| `Grid.Ravel` | algoritm1_tif.py:16 | the flattened matrix holds exactly the cells `(mat[r][c], r, c)` of the matrix |
| `Grid.RowCells` | algoritm1_tif.py:16 | row `i` flattens to the cells `(mat[i][j], i, j)` in column order |
| `Grid.RavelFromDistinct` | algoritm1_tif.py:16 | no cell occurs twice in the flattened matrix |
| `Sorting.SortDescStable` | algoritm1_tif.py:29 | the result is sorted by key, highest first, and is a permutation of the input; for every key value, the elements with that key keep their input order (stability) |
| `Sorting.StableSortIsUnique` | algoritm1_tif.py:29 | two lists that are both sorted and stable for the same input are equal, so the sort's result is determined |
| `Sorting.PermutationKeepsDistinct` | algoritm1_tif.py:80 | rearranging a list without repeats (as the sort does) creates no repeats |
| `Sorting.DistinctAppend` | algoritm1_tif.py:16 | two lists without repeats and without common elements concatenate to a list without repeats (the rows of the flattened matrix) |
| `SeedExtractor.IndexOfMax` | algoritm1_tif.py:20 | returns the index of a highest-scoring cell of the unsorted tail |
| `SeedExtractor.Swap` | algoritm1_tif.py:20 | exchanging two entries is a permutation that touches nothing else |
| `SeedExtractor.PartitionTopK` | algoritm1_tif.py:20-21 | `argpartition(-flat, k-1)[:k]` by its contract: a permutation of the cells whose first k entries score at least as high as every later one |
| `SeedExtractor.Positives` | algoritm1_tif.py:24-27 | the filter in order with multiplicities: never longer than its input; a cell is in it exactly when it is in the input with a positive score; an input of positive cells comes back unchanged |
| `SeedExtractor.PositivesDistinct` | algoritm1_tif.py:24-27 | filtering a list without repeats leaves a list without repeats |
| `SeedExtractor.KeepPositive` | algoritm1_tif.py:24-27 | the loop's result is exactly the in-order filter `Positives` of its input |
| `SeedExtractor.TopSeeds` | algoritm1_tif.py:14-30 | `SeedPool`: at most min(100, number of cells) seeds; no cell twice; each is a cell of the matrix with a positive score; sorted by score, highest first; any positive cell left out scores no more than the last seed, and then exactly 100 seeds were returned |
| `SeedExtractor.PoolDistinct` | algoritm1_tif.py:16-29 | the partition is a rearrangement of the flattened matrix, which has no repeats, so the filtered and sorted pool has none |
| `SeedExtractor.PoolComplete` | algoritm1_tif.py:17-27 | a positive cell outside the pool lies past the first k of the partition; then all of the first k are positive and kept, so the pool is full and its last seed scores at least as high |
| `SeedExtractor.SeedPoolFacts` | algoritm1_tif.py:17-29 | the partition, filter and sort together give every part of `SeedPool` |
| `SeedDeconflictor.ISqrtFrom` | algoritm1_tif.py:34 | `int(np.sqrt(n))` is the `s` with `s*s <= n < (s+1)*(s+1)` |
| `SeedDeconflictor.AcceptStep` | algoritm1_tif.py:41-43 | keeping a seed that conflicts with no kept seed preserves the walk invariant: a subsequence, no conflicts among kept seeds, and every dropped seed blocked |
| `SeedDeconflictor.RejectStep` | algoritm1_tif.py:37-40 | a seed that conflicts on both axes with a kept seed is dropped, and that conflict is recorded as what blocks it |
| `SeedDeconflictor.SelectSeparated` | algoritm1_tif.py:32-46 | `GreedyWalk`: the result is an order-preserving subsequence of the seeds that always starts with the first seed; it holds at most `baze` seeds when `baze > 0`; kept seeds are pairwise at Chebyshev distance >= isqrt(patrate)+2; every examined seed that was dropped conflicts with an earlier kept seed; the walk stops only at the end of the input or at `baze` seeds |
| `RegionGrower.NextExists` | algoritm1_tif.py:57 | a non-empty heap has an entry that pops before every other by `(-score, row, col)` |
| `RegionGrower.InitState` | algoritm1_tif.py:52-54 | the heap holding only the start cell, with only it visited, satisfies the loop invariant |
| `RegionGrower.SkipStep` | algoritm1_tif.py:57-60 | popping an entry that scores 0 or less and dropping it keeps the invariant |
| `RegionGrower.AppendStep` | algoritm1_tif.py:57-62 | appending a popped positive entry keeps the region's cells positive, distinct and 4-connected |
| `RegionGrower.PushStep` | algoritm1_tif.py:64-68 | enqueuing an in-bounds, unvisited neighbour and marking it visited keeps the invariant |
| `RegionGrower.PassStep` | algoritm1_tif.py:64-66 | skipping a neighbour that is out of bounds or already visited keeps the invariant |
| `RegionGrower.OffsetsCover` | algoritm1_tif.py:64 | the four offsets reach every 4-neighbour |
| `RegionGrower.PushMeasure` | algoritm1_tif.py:66-68 | an enqueue trades one unvisited cell for one heap entry, so the loop terminates |
| `RegionGrower.FinishGrow` | algoritm1_tif.py:56 | when the loop stops short of `patrate` cells, the heap is empty and the region is a whole positive 4-connected component |
| `RegionGrower.GrowRegion` | algoritm1_tif.py:48-70 | at most `patrate` cells, pairwise distinct, each a positive cell of the matrix; the first is the seed's cell when the seed scores > 0 and `patrate > 0`; the region is empty when the seed scores <= 0; each later cell is 4-adjacent to an earlier one; a region shorter than `patrate` is closed under positive neighbours |
| `RegionRanker.SumOfPositives` | algoritm1_tif.py:77 | the sum of positive scores is at least the number of cells |
| `RegionRanker.Candidates` | algoritm1_tif.py:74-78 | the collected list holds, in seed order, only regions of exactly `patrate` cells, each paired with the sum of its scores |
| `RegionRanker.AllGrownStep` | algoritm1_tif.py:74-75 | growing the next seed's region extends the list of grown regions, one per seed in order |
| `RegionRanker.CandidatesAll` | algoritm1_tif.py:76-78 | when every grown region has `patrate` cells, every one of them becomes a candidate |
| `RegionRanker.CandidateFacts` | algoritm1_tif.py:74-78 | every collected total is the sum of its `patrate` cells and is at least `patrate` |
| `RegionRanker.CandidatesDistinct` | algoritm1_tif.py:74-78 | pairwise different grown regions give pairwise different candidates |
| `RegionRanker.RankRegions` | algoritm1_tif.py:72-81 | the result is the first min(`baze`, n) entries of the stable descending sort of the candidates; it has at most `baze` and at most as many entries as seeds; totals are non-increasing; each entry has exactly `patrate` cells and its total is their sum |
| `BaseSearch.GrownStarts` | algoritm1_tif.py:52-62 | separated positive seeds grow non-empty regions that start at their seeds and differ pairwise |
| `BaseSearch.RankedFromSeeds` | algoritm1_tif.py:74-80 | every ranked entry is the region grown from one of the seeds, with its sum |
| `BaseSearch.RankedStartsSeparated` | algoritm1_tif.py:209-210 | the ranked bases start at pairwise separated seeds |
| `BaseSearch.SeparatedSeedsDiffer` | algoritm1_tif.py:34 | seeds at least `isqrt(patrate) + 2` apart are different cells |
| `BaseSearch.SearchBases` | algoritm1_tif.py:196-210 | the result is the first min(`nr_baze`, n) entries of the stable sort by total of the full-size regions grown from the seeds that the greedy walk keeps from the seed pool; each stage is stated as its own operation promises (`SeedPool`, `GreedyWalk`, `AllGrown`, the stable sort), and an empty or unbuildable area gives empty stages and no base |
| `BaseSearch.KeptSeedsFacts` | algoritm1_tif.py:202-209 | the seeds the walk keeps from the pool are at most 100 positive cells of the matrix, pairwise at Chebyshev distance >= isqrt(patrate)+2 |
| `BaseSearch.CandidateShape` | algoritm1_tif.py:74-80 | every sorted candidate has exactly `patrate` distinct, positive, 4-connected cells, its total is their sum and at least `patrate` |
| `BaseSearch.SearchFacts` | algoritm1_tif.py:196-210 | from those stages (via KeptSeedsFacts): at most `nr_baze` and at most 100 bases, sorted by total; each has exactly `patrate` distinct, positive, 4-connected cells and its total is their sum; the bases' first cells are pairwise at Chebyshev distance >= isqrt(patrate)+2; an area with no positive cell yields none |
| `BaseSearch.SeedKept` | algoritm1_tif.py:196-209 | an area with a positive cell gives a non-empty seed pool, and the walk keeps the pool's first seed |
| `BaseSearch.OneCellBases` | algoritm1_tif.py:196-210 | with `patrate == 1`, every kept seed grows a full region, so exactly min(`nr_baze`, kept seeds) bases come back; with SeedKept, an area with a positive cell and `nr_baze > 0` gets at least one |
| `BaseSearch.SingleCellArea` | algoritm1_tif.py:196-210 | the area `[[10]]` with `patrate = 1` and `nr_baze = 1` gives exactly the one base of that cell, with total 10 |
| `ArgpartitionWrap.WrapInt8` | algoritm1_tif.py:20 | int8 arithmetic wraps into -128..127 and leaves values already in range unchanged |
| `ArgpartitionWrap.NegInt8` | algoritm1_tif.py:20 | int8 negation is exact except that -(-128) is -128 |
| `ArgpartitionWrap.ExampleCells` | algoritm1_tif.py:16 | the example matrix has one cell scoring 5; all its other cells score -128 |
| `ArgpartitionWrap.NegationWrapLosesTopCell` | algoritm1_tif.py:20-27 | for the 1 x 101 example matrix, any argpartition result under the wrapped key leaves the only positive cell out of the top 100, and every cell it keeps scores -128 |
| `LandCover.ToInt8` | harti/full_generator_harta.py:123 | `.astype(np.int8)` is the identity on 0..127 and congruent modulo 256 everywhere |
| `LandCover.MapThroughKey` | harti/full_generator_harta.py:126-127 | when the dict's keys are distinct, a code that is a key gets that entry's score, whatever the loop order |
| `LandCover.MapThroughNonKey` | harti/full_generator_harta.py:123-127 | a code that is no key keeps its value after the cast and the `>= 254` mask |
| `LandCover.KnownCodesScore` | harti/full_generator_harta.py:108-127 | codes 0..11 and 254..255 score in {-1, 0, 2, 3, 5, 7} |
| `LandCover.ScoreTable` | harti/full_generator_harta.py:108-124 | 0 -> 0, 1 -> -1, 2..4 -> 5, 5..6 -> 7, 8..9 -> 3, 10..11 -> 2, >= 254 -> 0 |
| `LandCover.UnmappedCodes` | harti/full_generator_harta.py:123-127 | codes 7 and 12..127 keep their value; 128..253 become value - 256 |
| `LandCover.AssignWhere` | harti/full_generator_harta.py:124-127 | a masked assignment writes the score exactly where the original code is selected and leaves every other cell unchanged |
| `LandCover.CopyAsInt8` | harti/full_generator_harta.py:123 | the copy has the input's shape and holds each code cast to int8 |
| `LandCover.ApplyMapping` | harti/full_generator_harta.py:123-129 | after the cast, the mask and the dict loop, each cell holds the score its own code gets from the entries in dict order |
| `FullGeneratorHarta.MappingScores` | harti/full_generator_harta.py:108-127 | this copy's dict gives every code its score from the land-cover table |
| `FullGeneratorHarta.MaskTheMap` | harti/full_generator_harta.py:105-129 | a fresh array of the input's shape; each cell is the table score of the same input cell |
| `ProcesareFinala.SameDict` | harti/procesare_finala.py:33-46 | this copy's dict is the one of full_generator_harta.py, entry for entry and in the same order |
| `ProcesareFinala.MappingScores` | harti/procesare_finala.py:33-52 | this copy's dict gives every code its score from the land-cover table |
| `ProcesareFinala.AgreesWithFullGenerator` | harti/procesare_finala.py:30-54 | this copy and the one in full_generator_harta.py give every code the same score |
| `ProcesareFinala.MaskTheMap` | harti/procesare_finala.py:30-54 | a fresh array of the input's shape; each cell is the table score of the same input cell |
| `DescarcareHarti.MappingScores` | harti/descarcare_harti.py:49-64 | this dict, without the 255 and 0 entries, still gives every code its score from the land-cover table |
| `DescarcareHarti.NoDataWithoutKeys` | harti/descarcare_harti.py:49-62 | 255 and 0 are not keys, yet 255 scores 0 through the `>= 254` mask and 0 scores 0 through the cast |
| `DescarcareHarti.AgreesWithFullGenerator` | harti/descarcare_harti.py:47-65 | this copy and the one in full_generator_harta.py give every code the same score |
| `DescarcareHarti.MaskTheMap` | harti/descarcare_harti.py:47-65 | a fresh array of the input's shape; each cell is the table score of the same input cell |

## Left out

- Raster I/O is not modelled: reading the GeoTIFF window, the bounding-box and GPS conversions (`transform_bounds`, `pixel_to_gps`), JSON output and printing. These are library calls over floating-point coordinates. `SearchBases` starts from the matrix already read.
- `structurarePentruJSON` (the id, colour and GPS of each base) is left out. Its colour step uses floating-point division and `round`.
- The score matrix of the search is modelled as unbounded integers. Its cells are int8 in the source; that matters only for the negation in `argpartition` (see Findings). The sums in the ranker are Python integers and do not wrap.
- SeedExtractor.PartitionTopK: numpy's introselect decides the order of equal scores inside the top k. The model uses a partial selection instead, so among seeds of equal score, the order (and hence which later seeds the deconflictor keeps) may differ from numpy's. The contract states only what numpy promises.
- SeedDeconflictor.ISqrtFrom: `int(np.sqrt(patrate))` is modelled as the exact integer square root. The floating-point square root agrees with it for base sizes far beyond any raster.
- RegionGrower.GrowRegion: the contract does not say which `patrate` cells are taken when the positive component is larger. The body pops in `(-score, row, col)` order through `IsNext`, as `heapq` does. The binary-heap layout is not modelled; entries are unique, so the pop order is the same.
- RankRegions: relates each region only through `GrownFrom`, the grower's contract. Determinism of the grower is not carried into the ranker's contract.
- BaseSearch.SearchBases: `patrate` and `nr_baze` are natural numbers. Negative command-line values are not modelled; for them, Python's slicing and `np.sqrt` behave differently.
- `maskTheMap` is modelled on two-dimensional rasters (`array2`). numpy would accept any shape.

## Findings

| source | as written | input that shows it | evidently intended | confidence | as-written member | corrected member |
|---|---|---|---|---|---|---|
| algoritm1_tif.py:20 | `np.argpartition(-matrice_aplatizata, k-1)` negates the int8 matrix with wrap-around, so a cell scoring -128 keeps the key -128 and ranks above every other cell | a 1 x 101 matrix of one hundred -128 cells followed by one cell scoring 5: the top 100 are the -128 cells, the positive filter drops them all, and no seed is returned | the top 100 by score, which includes the cell scoring 5 | not executed; latent while the score raster never holds -128 | `ArgpartitionWrap.NegationWrapLosesTopCell` | `SeedExtractor.TopSeeds` |
