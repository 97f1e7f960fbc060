/**
 * The search as `algoritm_baze_gps` runs it on the matrix it has read: the
 * early exits for an empty or unbuildable area, then extractor, deconflictor
 * and ranker in sequence. Reading the raster and converting cells to GPS
 * coordinates are not part of this model.
 */
module BaseSearch {
  import opened Grid
  import opened Sorting
  import opened SeedExtractor
  import opened SeedDeconflictor
  import opened RegionGrower
  import opened RegionRanker

  /** `np.max(mat_local) <= 0`: no cell has a positive score. */
  predicate NothingBuildable(mat: Matrix) {
    forall r, c | 0 <= r < |mat| && 0 <= c < |mat[r]| :: mat[r][c] <= 0
  }

  /** Two kept seeds are at least two cells apart, so they are different cells. */
  lemma SeparatedSeedsDiffer(a: Cell, b: Cell, patrate: nat)
    requires Chebyshev(a, b) >= MinDistance(patrate)
    ensures Pos(a) != Pos(b)
  {
  }

  /** Pairwise separated seeds grow pairwise different regions, each starting at its seed. */
  lemma GrownStarts(mat: Matrix, selected: seq<Cell>, patrate: nat, grown: seq<seq<Cell>>)
    requires patrate > 0
    requires forall i :: 0 <= i < |selected| ==> CellOf(mat, selected[i]) && selected[i].v > 0
    requires forall i, j :: 0 <= i < j < |selected| ==> Chebyshev(selected[i], selected[j]) >= MinDistance(patrate)
    requires AllGrown(mat, selected, patrate, grown)
    ensures forall i :: 0 <= i < |grown| ==> |grown[i]| > 0 && grown[i][0] == selected[i]
    ensures Distinct(grown)
  {
    forall i | 0 <= i < |grown| ensures |grown[i]| > 0 && grown[i][0] == selected[i] {
      assert GrownFrom(mat, selected[i], patrate, grown[i]);
    }
    forall i, j | 0 <= i < j < |grown| ensures grown[i] != grown[j] {
      SeparatedSeedsDiffer(selected[i], selected[j], patrate);
    }
  }

  /** grown[k] with its sum: the candidate grown from seed k. */
  ghost predicate GrownAt(grown: seq<seq<Cell>>, x: Region, k: int) {
    0 <= k < |grown| && x.cells == grown[k] && x.total == SumValues(grown[k])
  }

  /** x is the candidate grown from one of the seeds. */
  ghost predicate FromSomeSeed(grown: seq<seq<Cell>>, x: Region) {
    exists k :: GrownAt(grown, x, k)
  }

  /** Every entry of a rearrangement of the candidates is the region grown from some seed. */
  lemma RankedFromSeeds(grown: seq<seq<Cell>>, patrate: nat, sorted: seq<Region>)
    requires multiset(sorted) == multiset(Candidates(grown, patrate))
    ensures forall i :: 0 <= i < |sorted| ==> FromSomeSeed(grown, sorted[i])
  {
    forall i | 0 <= i < |sorted| ensures FromSomeSeed(grown, sorted[i]) {
      assert sorted[i] in multiset(sorted);
      assert sorted[i] in Candidates(grown, patrate);
      var k :| 0 <= k < |grown| && grown[k] == sorted[i].cells;
      assert GrownAt(grown, sorted[i], k);
    }
  }

  /** The ranked regions start at pairwise separated seeds. */
  lemma RankedStartsSeparated(mat: Matrix, selected: seq<Cell>, patrate: nat, grown: seq<seq<Cell>>,
                              sorted: seq<Region>, ranked: seq<Region>)
    requires patrate > 0
    requires forall i :: 0 <= i < |selected| ==> CellOf(mat, selected[i]) && selected[i].v > 0
    requires forall i, j :: 0 <= i < j < |selected| ==> Chebyshev(selected[i], selected[j]) >= MinDistance(patrate)
    requires AllGrown(mat, selected, patrate, grown)
    requires multiset(sorted) == multiset(Candidates(grown, patrate))
    requires |ranked| <= |sorted| && ranked == sorted[..|ranked|]
    ensures forall i :: 0 <= i < |ranked| ==> |ranked[i].cells| > 0
    ensures forall i, j :: 0 <= i < j < |ranked| ==> Chebyshev(ranked[i].cells[0], ranked[j].cells[0]) >= MinDistance(patrate)
  {
    GrownStarts(mat, selected, patrate, grown);
    CandidatesDistinct(grown, patrate);
    PermutationKeepsDistinct(Candidates(grown, patrate), sorted);
    RankedFromSeeds(grown, patrate, sorted);
    forall i | 0 <= i < |ranked| ensures |ranked[i].cells| > 0 {
      assert ranked[i] == sorted[i];
      assert FromSomeSeed(grown, sorted[i]);
    }
    forall i, j | 0 <= i < j < |ranked|
      ensures Chebyshev(ranked[i].cells[0], ranked[j].cells[0]) >= MinDistance(patrate)
    {
      assert ranked[i] == sorted[i] && ranked[j] == sorted[j];
      assert FromSomeSeed(grown, sorted[i]) && FromSomeSeed(grown, sorted[j]);
      var a :| GrownAt(grown, sorted[i], a);
      var b :| GrownAt(grown, sorted[j], b);
      assert sorted[i] != sorted[j];
      if a < b {
        assert Chebyshev(selected[a], selected[b]) >= MinDistance(patrate);
      } else {
        assert a != b;
        assert Chebyshev(selected[b], selected[a]) >= MinDistance(patrate);
      }
    }
  }

  /** What the later stages use of the kept seeds: at most 100, positive cells of the matrix, pairwise separated. */
  ghost predicate KeptSeeds(mat: Matrix, patrate: nat, selected: seq<Cell>) {
    && |selected| <= PoolSize
    && (forall i :: 0 <= i < |selected| ==> CellOf(mat, selected[i]) && selected[i].v > 0)
    && (forall i, j :: 0 <= i < j < |selected| ==> Chebyshev(selected[i], selected[j]) >= MinDistance(patrate))
  }

  /** The seeds the walk keeps from the pool are at most 100 positive cells, pairwise separated. */
  lemma KeptSeedsFacts(mat: Matrix, patrate: nat, nrBaze: nat, seeds: seq<Cell>, selected: seq<Cell>, picked: seq<nat>, examined: nat)
    requires SeedPool(mat, seeds) && GreedyWalk(nrBaze, patrate, seeds, selected, picked, examined)
    ensures KeptSeeds(mat, patrate, selected)
  {
    forall i | 0 <= i < |selected| ensures CellOf(mat, selected[i]) && selected[i].v > 0 {
      assert selected[i] == seeds[picked[i]] && selected[i] in seeds;
    }
  }

  /** A sorted candidate has `patrate` distinct, positive, 4-connected cells summing to its total, at least `patrate`. */
  lemma CandidateShape(mat: Matrix, patrate: nat, selected: seq<Cell>, grown: seq<seq<Cell>>, sorted: seq<Region>, x: Region)
    requires AllGrown(mat, selected, patrate, grown)
    requires multiset(sorted) == multiset(Candidates(grown, patrate)) && x in sorted
    ensures && |x.cells| == patrate && x.total == SumValues(x.cells) && x.total >= patrate
            && PositiveCellsOf(mat, x.cells) && DistinctPositions(x.cells) && Connected4(x.cells)
  {
    assert x in multiset(Candidates(grown, patrate));
    CandidateFacts(selected, patrate, mat, grown, x);
    var k :| 0 <= k < |grown| && grown[k] == x.cells;
    assert GrownFrom(mat, selected[k], patrate, grown[k]);
  }

  /**
   * What the stages add up to: at most `nr_baze` and at most 100 bases,
   * sorted by total, each of `patrate` distinct, positive, 4-connected cells
   * with its total the sum of their scores, starting at pairwise separated
   * seeds; none for an area without a positive cell.
   */
  lemma SearchFacts(mat: Matrix, patrate: nat, nrBaze: nat, selected: seq<Cell>, grown: seq<seq<Cell>>,
                    sorted: seq<Region>, configuratii: seq<Region>)
    requires KeptSeeds(mat, patrate, selected)
    requires AllGrown(mat, selected, patrate, grown)
    requires SortedDesc(sorted, Total) && multiset(sorted) == multiset(Candidates(grown, patrate))
    requires configuratii == sorted[..Min(nrBaze, |sorted|)]
    ensures |configuratii| <= nrBaze && |configuratii| <= PoolSize
    ensures SortedDesc(configuratii, Total)
    ensures forall x :: x in configuratii ==>
              && |x.cells| == patrate && x.total == SumValues(x.cells) && x.total >= patrate
              && PositiveCellsOf(mat, x.cells) && DistinctPositions(x.cells) && Connected4(x.cells)
    ensures patrate > 0 ==> forall i, j :: 0 <= i < j < |configuratii| ==>
              Chebyshev(configuratii[i].cells[0], configuratii[j].cells[0]) >= MinDistance(patrate)
    ensures NothingBuildable(mat) ==> configuratii == []
  {
    assert |sorted| <= |grown| by {
      assert |multiset(sorted)| == |multiset(Candidates(grown, patrate))|;
    }
    forall x | x in configuratii
      ensures && |x.cells| == patrate && x.total == SumValues(x.cells) && x.total >= patrate
              && PositiveCellsOf(mat, x.cells) && DistinctPositions(x.cells) && Connected4(x.cells)
    {
      assert x in sorted;
      CandidateShape(mat, patrate, selected, grown, sorted, x);
    }
    if patrate > 0 {
      RankedStartsSeparated(mat, selected, patrate, grown, sorted, configuratii);
    }
    if NothingBuildable(mat) && selected != [] {
      assert false;
    }
  }

  /**
   * The search on the matrix `mat_local` with base size `patrate` and base
   * count `nr_baze`: the list `configuratii` the results are built from. The
   * ghost outputs are the stages in between: the seed pool, the seeds the walk
   * kept (at input indices `picked`, after looking at `examined` seeds), the
   * region grown from each kept seed, and the stably sorted candidates.
   * KeptSeedsFacts and SearchFacts state what this gives for the bases
   * returned.
   */
  method SearchBases(mat: Matrix, patrate: nat, nrBaze: nat)
    returns (configuratii: seq<Region>, ghost seeds: seq<Cell>, ghost selected: seq<Cell>, ghost picked: seq<nat>,
             ghost examined: nat, ghost grown: seq<seq<Cell>>, ghost sorted: seq<Region>)
    ensures SeedPool(mat, seeds)
    ensures GreedyWalk(nrBaze, patrate, seeds, selected, picked, examined)
    ensures AllGrown(mat, selected, patrate, grown)
    ensures SortedDesc(sorted, Total) && multiset(sorted) == multiset(Candidates(grown, patrate))
    ensures forall t :: WithKey(sorted, Total, t) == WithKey(Candidates(grown, patrate), Total, t)
    ensures configuratii == sorted[..Min(nrBaze, |sorted|)]
    ensures NothingBuildable(mat) ==> configuratii == []
  {
    seeds, selected, picked, examined, grown, sorted := [], [], [], 0, [], [];
    if |Ravel(mat)| == 0 || NothingBuildable(mat) {
      return [], seeds, selected, picked, examined, grown, sorted;
    }
    var elementeMaxime := TopSeeds(mat);
    seeds := elementeMaxime;
    if elementeMaxime == [] {
      return [], seeds, selected, picked, examined, grown, sorted;
    }
    var selectate;
    selectate, picked, examined := SelectSeparated(nrBaze, patrate, elementeMaxime);
    selected := selectate;
    forall i | 0 <= i < |selectate| ensures InBounds(mat, selectate[i].r, selectate[i].c) {
      assert selectate[i] == elementeMaxime[picked[i]] && selectate[i] in elementeMaxime;
    }
    configuratii, grown, sorted := RankRegions(selectate, patrate, mat, nrBaze);
  }

  /** An area with a positive cell gives a non-empty seed pool, and the walk keeps its first seed. */
  lemma SeedKept(mat: Matrix, patrate: nat, nrBaze: nat, seeds: seq<Cell>, selected: seq<Cell>, picked: seq<nat>, examined: nat)
    requires !NothingBuildable(mat)
    requires SeedPool(mat, seeds) && GreedyWalk(nrBaze, patrate, seeds, selected, picked, examined)
    ensures |selected| > 0 && selected[0] == seeds[0]
  {
    var r, c :| 0 <= r < |mat| && 0 <= c < |mat[r]| && mat[r][c] > 0;
    var x := Cell(mat[r][c], r, c);
    assert CellOf(mat, x);
    if seeds == [] {
      assert false;
    }
  }

  /**
   * With one-cell bases (`patrate == 1`) every kept seed grows a full region,
   * so min(nr_baze, kept seeds) bases come back; with SeedKept, an area with a
   * positive cell and nr_baze > 0 gets at least one.
   */
  lemma OneCellBases(mat: Matrix, nrBaze: nat, selected: seq<Cell>, grown: seq<seq<Cell>>, sorted: seq<Region>,
                     configuratii: seq<Region>)
    requires KeptSeeds(mat, 1, selected)
    requires AllGrown(mat, selected, 1, grown)
    requires multiset(sorted) == multiset(Candidates(grown, 1))
    requires configuratii == sorted[..Min(nrBaze, |sorted|)]
    ensures |configuratii| == Min(nrBaze, |selected|)
  {
    forall i | 0 <= i < |grown| ensures |grown[i]| == 1 {
      assert CellOf(mat, selected[i]) && selected[i].v > 0;
      assert GrownFrom(mat, selected[i], 1, grown[i]);
    }
    CandidatesAll(grown, 1);
    assert |sorted| == |grown| by {
      assert |multiset(sorted)| == |multiset(Candidates(grown, 1))|;
    }
  }

  /** The single-cell area [[10]] with one base of one cell: exactly that cell comes back. */
  lemma SingleCellArea(seeds: seq<Cell>, selected: seq<Cell>, picked: seq<nat>, examined: nat,
                       grown: seq<seq<Cell>>, sorted: seq<Region>, configuratii: seq<Region>)
    requires SeedPool([[10]], seeds) && GreedyWalk(1, 1, seeds, selected, picked, examined)
    requires AllGrown([[10]], selected, 1, grown)
    requires multiset(sorted) == multiset(Candidates(grown, 1))
    requires configuratii == sorted[..Min(1, |sorted|)]
    ensures configuratii == [Region(10, [Cell(10, 0, 0)])]
  {
    var mat: Matrix := [[10]];
    var x := Cell(10, 0, 0);
    assert CellOf(mat, x);
    assert forall y :: CellOf(mat, y) ==> y == x;
    assert seeds == [x] by {
      assert x in seeds;
      assert |seeds| <= |Ravel(mat)| == 1 by {
        assert Ravel(mat) == RowCells(mat, 0) + RavelFrom(mat, 1);
      }
    }
    assert selected == [x] by {
      assert |selected| > 0 && selected[0] == seeds[picked[0]];
    }
    assert grown == [[x]] by {
      assert |grown| == 1 && selected[0] == x;
      assert GrownFrom(mat, x, 1, grown[0]);
      assert mat[0][0] == 10 && StartCell(mat, x) == x;
      assert |grown[0]| == 1 && grown[0][0] == x;
      assert grown[0] == [x];
    }
    var c := Candidates(grown, 1);
    assert c == [Region(10, [x])] by {
      assert Candidates(grown[..0], 1) == [];
      assert SumValues([x]) == 10;
    }
    assert sorted == c by {
      assert |multiset(sorted)| == 1;
      assert sorted[0] in multiset(c);
    }
  }
}
