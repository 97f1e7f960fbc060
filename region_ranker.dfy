/**
 * Region ranker (`generareConfiguratii`): grows a region from every selected
 * seed, keeps the regions that reached exactly `patrate` cells together with
 * their score sums, sorts them by sum (highest first, stable) and keeps the
 * first `baze`.
 */
module RegionRanker {
  import opened Grid
  import opened Sorting
  import opened RegionGrower

  /** A candidate base: the tuple (suma_totala, configuratie). */
  datatype Region = Region(total: int, cells: seq<Cell>)

  /** The sort key of the ranker (`key=lambda x: x[0]`). */
  function Total(x: Region): int {
    x.total
  }

  /** A list of cells, all with positive values, sums to at least its length. */
  lemma {:induction false} SumOfPositives(cells: seq<Cell>)
    requires forall i :: 0 <= i < |cells| ==> cells[i].v > 0
    ensures SumValues(cells) >= |cells|
  {
    if cells != [] {
      SumOfPositives(cells[1..]);
    }
  }

  /**
   * The regions the ranker's loop collects from the grown regions, in seed
   * order: those of exactly `patrate` cells, each paired with its sum.
   */
  function Candidates(grown: seq<seq<Cell>>, patrate: nat): (c: seq<Region>)
    ensures |c| <= |grown|
    ensures forall x :: x in c ==> |x.cells| == patrate && x.total == SumValues(x.cells) && x.cells in grown
  {
    if grown == [] then []
    else
      var last := grown[|grown| - 1];
      Candidates(grown[..|grown| - 1], patrate) + (if |last| == patrate then [Region(SumValues(last), last)] else [])
  }

  /** grown[i] is a region grown from selected[i], for every i. */
  ghost predicate AllGrown(mat: Matrix, selected: seq<Cell>, patrate: nat, grown: seq<seq<Cell>>) {
    && |grown| == |selected|
    && forall i :: 0 <= i < |selected| ==>
         InBounds(mat, selected[i].r, selected[i].c) && GrownFrom(mat, selected[i], patrate, grown[i])
  }

  /** Growing the region of seed i extends the grown regions by one. */
  lemma AllGrownStep(mat: Matrix, selected: seq<Cell>, i: nat, patrate: nat, grown: seq<seq<Cell>>, region: seq<Cell>)
    requires i < |selected| && AllGrown(mat, selected[..i], patrate, grown)
    requires InBounds(mat, selected[i].r, selected[i].c) && GrownFrom(mat, selected[i], patrate, region)
    ensures AllGrown(mat, selected[..i + 1], patrate, grown + [region])
  {
    var s', g' := selected[..i + 1], grown + [region];
    forall k | 0 <= k < |s'| ensures InBounds(mat, s'[k].r, s'[k].c) && GrownFrom(mat, s'[k], patrate, g'[k]) {
      if k < i {
        assert s'[k] == selected[..i][k] && g'[k] == grown[k];
      }
    }
  }

  /** Every candidate's sum is at least `patrate`, its cells being positive. */
  lemma CandidateFacts(selected: seq<Cell>, patrate: nat, mat: Matrix, grown: seq<seq<Cell>>, x: Region)
    requires AllGrown(mat, selected, patrate, grown)
    requires x in Candidates(grown, patrate)
    ensures |x.cells| == patrate && x.total == SumValues(x.cells) && x.total >= patrate
  {
    var k :| 0 <= k < |grown| && grown[k] == x.cells;
    assert GrownFrom(mat, selected[k], patrate, grown[k]);
    SumOfPositives(x.cells);
  }

  /** When every grown region has `patrate` cells, every one of them is a candidate. */
  lemma {:induction false} CandidatesAll(grown: seq<seq<Cell>>, patrate: nat)
    requires forall i :: 0 <= i < |grown| ==> |grown[i]| == patrate
    ensures |Candidates(grown, patrate)| == |grown|
    decreases |grown|
  {
    if grown != [] {
      var front := grown[..|grown| - 1];
      assert forall i :: 0 <= i < |front| ==> front[i] == grown[i];
      CandidatesAll(front, patrate);
    }
  }

  function Min(a: nat, b: nat): nat {
    if a < b then a else b
  }

  /**
   * `generareConfiguratii`. `grown` (ghost) holds the region grown from each
   * seed and `sorted` (ghost) the candidates after the stable sort; the
   * result is the first `baze` of them.
   */
  method RankRegions(selected: seq<Cell>, patrate: nat, mat: Matrix, baze: nat)
    returns (ranked: seq<Region>, ghost grown: seq<seq<Cell>>, ghost sorted: seq<Region>)
    requires forall i :: 0 <= i < |selected| ==> InBounds(mat, selected[i].r, selected[i].c)
    ensures AllGrown(mat, selected, patrate, grown)
    // `sorted` is the stable sort of the candidates, descending by sum
    ensures SortedDesc(sorted, Total)
    ensures multiset(sorted) == multiset(Candidates(grown, patrate))
    ensures forall t :: WithKey(sorted, Total, t) == WithKey(Candidates(grown, patrate), Total, t)
    // the result is its first `baze` entries
    ensures ranked == sorted[..Min(baze, |sorted|)]
    ensures |ranked| <= baze && |ranked| <= |selected|
    ensures SortedDesc(ranked, Total)
    ensures forall x :: x in ranked ==> |x.cells| == patrate && x.total == SumValues(x.cells) && x.total >= patrate
  {
    var toate: seq<Region> := [];
    grown := [];
    for i := 0 to |selected|
      invariant AllGrown(mat, selected[..i], patrate, grown)
      invariant toate == Candidates(grown, patrate)
    {
      var configuratie := GrowRegion(mat, selected[i], patrate);
      ghost var before := grown;
      AllGrownStep(mat, selected, i, patrate, grown, configuratie);
      grown := grown + [configuratie];
      assert grown[..|grown| - 1] == before;
      if |configuratie| == patrate {
        var sumaTotala := SumValues(configuratie);
        toate := toate + [Region(sumaTotala, configuratie)];
      }
    }
    assert selected[..|selected|] == selected;
    var ordonate := SortDescStable(toate, Total);
    ranked := ordonate[..Min(baze, |ordonate|)];
    sorted := ordonate;
    assert |sorted| <= |selected| by {
      assert |multiset(sorted)| == |multiset(toate)|;
    }
    forall x | x in ranked ensures |x.cells| == patrate && x.total == SumValues(x.cells) && x.total >= patrate {
      assert x in ordonate;
      assert x in multiset(ordonate);
      assert x in toate;
      CandidateFacts(selected, patrate, mat, grown, x);
    }
  }

  /** Regions grown from pairwise different seeds give pairwise different candidates. */
  lemma {:induction false} CandidatesDistinct(grown: seq<seq<Cell>>, patrate: nat)
    requires Distinct(grown)
    ensures Distinct(Candidates(grown, patrate))
    decreases |grown|
  {
    if grown != [] {
      var front, last := grown[..|grown| - 1], grown[|grown| - 1];
      assert Distinct(front) by {
        forall i, j | 0 <= i < j < |front| ensures front[i] != front[j] {
          assert front[i] == grown[i] && front[j] == grown[j];
        }
      }
      CandidatesDistinct(front, patrate);
      var c := Candidates(front, patrate);
      if |last| == patrate {
        var y := Region(SumValues(last), last);
        assert last !in front by {
          forall i | 0 <= i < |front| ensures front[i] != last {
            assert front[i] == grown[i];
          }
        }
        assert y !in c;
        var c' := c + [y];
        forall i, j | 0 <= i < j < |c'| ensures c'[i] != c'[j] {
          if j == |c| {
            assert c'[i] == c[i] && c'[j] == y;
          } else {
            assert c'[i] == c[i] && c'[j] == c[j];
          }
        }
      } else {
        assert Candidates(grown, patrate) == c + [];
      }
    }
  }
}
