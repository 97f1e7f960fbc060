/**
 * Seed extractor (`primele100ElementeMaxime`): the up-to-100 highest cells of
 * the score matrix, positive ones only, sorted by value, highest first.
 */
module SeedExtractor {
  import opened Grid
  import opened Sorting

  /** The bound on the seed pool: `k = min(100, len(matrice_aplatizata))`. */
  const PoolSize: nat := 100

  /** The sort key of the extractor (`key=lambda x: x[0]`). */
  function CellValue(x: Cell): int {
    x.v
  }

  /** Index of a highest-valued entry of a[lo..]. */
  method IndexOfMax(a: seq<Cell>, lo: nat) returns (m: nat)
    requires lo < |a|
    ensures lo <= m < |a|
    ensures forall q :: lo <= q < |a| ==> a[q].v <= a[m].v
  {
    m := lo;
    var q := lo + 1;
    while q < |a|
      invariant lo <= m < q <= |a|
      invariant forall p :: lo <= p < q ==> a[p].v <= a[m].v
    {
      if a[q].v > a[m].v {
        m := q;
      }
      q := q + 1;
    }
  }

  lemma UpdateMultiset(s: seq<Cell>, i: nat, x: Cell)
    requires i < |s|
    ensures multiset(s[i := x]) == multiset(s) - multiset{s[i]} + multiset{x}
  {
    assert s == s[..i] + [s[i]] + s[i + 1..];
    assert s[i := x] == s[..i] + [x] + s[i + 1..];
  }

  /** Exchanging two entries rearranges a list and touches nothing else. */
  function Swap(a: seq<Cell>, i: nat, m: nat): (b: seq<Cell>)
    requires i < |a| && m < |a|
    ensures |b| == |a| && multiset(b) == multiset(a)
    ensures b[i] == a[m] && b[m] == a[i]
    ensures forall p :: 0 <= p < |a| && p != i && p != m ==> b[p] == a[p]
  {
    var b1 := a[i := a[m]];
    UpdateMultiset(a, i, a[m]);
    UpdateMultiset(b1, m, a[i]);
    b1[m := a[i]]
  }

  /**
   * `np.argpartition(-flat, k - 1)`, by its contract: a rearrangement of the
   * cells whose first k entries carry values no smaller than any later entry.
   * The order inside the first k (and among equal values) is numpy's choice;
   * this model makes it by a partial selection.
   */
  method PartitionTopK(cells: seq<Cell>, k: nat) returns (a: seq<Cell>)
    requires k <= |cells|
    ensures |a| == |cells| && multiset(a) == multiset(cells)
    ensures forall p, q :: 0 <= p < k <= q < |a| ==> a[q].v <= a[p].v
  {
    a := cells;
    for i := 0 to k
      invariant |a| == |cells| && multiset(a) == multiset(cells)
      invariant forall p, q :: 0 <= p < i <= q < |a| ==> a[q].v <= a[p].v
    {
      var m := IndexOfMax(a, i);
      var before := a;
      a := Swap(before, i, m);
      forall p, q | 0 <= p < i + 1 <= q < |a| ensures a[q].v <= a[p].v {
        if p < i {
          assert a[p] == before[p];
          assert a[q] == before[q] || a[q] == before[i];
        }
      }
    }
  }

  /** The entries of s with a positive value, in order and with their multiplicities. */
  function Positives(s: seq<Cell>): (r: seq<Cell>)
    ensures |r| <= |s|
    ensures forall y :: y in r <==> y in s && y.v > 0
    ensures (forall j :: 0 <= j < |s| ==> s[j].v > 0) ==> r == s
  {
    if s == [] then []
    else
      var last := s[|s| - 1];
      assert s == s[..|s| - 1] + [last];
      Positives(s[..|s| - 1]) + (if last.v > 0 then [last] else [])
  }

  /** Filtering a list without repeats leaves a list without repeats. */
  lemma {:induction false} PositivesDistinct(s: seq<Cell>)
    requires Distinct(s)
    ensures Distinct(Positives(s))
    decreases |s|
  {
    if s != [] {
      var front, last := s[..|s| - 1], s[|s| - 1];
      assert Distinct(front) by {
        forall i, j | 0 <= i < j < |front| ensures front[i] != front[j] {
          assert front[i] == s[i] && front[j] == s[j];
        }
      }
      PositivesDistinct(front);
      var p := Positives(front);
      if last.v > 0 {
        assert last !in front by {
          forall i | 0 <= i < |front| ensures front[i] != last {
            assert front[i] == s[i];
          }
        }
        var p' := p + [last];
        forall i, j | 0 <= i < j < |p'| ensures p'[i] != p'[j] {
          if j == |p| {
            assert p'[i] == p[i] && p[i] in front;
          } else {
            assert p'[i] == p[i] && p'[j] == p[j];
          }
        }
      } else {
        assert Positives(s) == p + [];
      }
    }
  }

  /** The loop at lines 25-27: keep the entries whose value is positive, in order. */
  method KeepPositive(maxime: seq<Cell>) returns (kept: seq<Cell>)
    ensures kept == Positives(maxime)
  {
    kept := [];
    for i := 0 to |maxime|
      invariant kept == Positives(maxime[..i])
    {
      assert maxime[..i + 1][..i] == maxime[..i];
      if maxime[i].v > 0 {
        kept := kept + [maxime[i]];
      }
    }
    assert maxime[..|maxime|] == maxime;
  }

  /**
   * What the extractor promises about its seed pool for `mat`: at most
   * min(100, size) seeds, no cell twice, each a cell of the matrix with a
   * positive value, sorted by value, highest first; and a positive cell left
   * out scores no more than the last seed, which happens only when the pool
   * is full.
   */
  ghost predicate SeedPool(mat: Matrix, seeds: seq<Cell>) {
    && |seeds| <= PoolSize && |seeds| <= |Ravel(mat)|
    && Distinct(seeds)
    && (forall x :: x in seeds ==> CellOf(mat, x) && x.v > 0)
    && SortedDesc(seeds, CellValue)
    && (forall x :: CellOf(mat, x) && x.v > 0 && x !in seeds ==>
          |seeds| == PoolSize && x.v <= seeds[|seeds| - 1].v)
  }

  /** `primele100ElementeMaxime`. */
  method TopSeeds(mat: Matrix) returns (seeds: seq<Cell>)
    ensures SeedPool(mat, seeds)
  {
    var flat := Ravel(mat);
    var k := if |flat| < PoolSize then |flat| else PoolSize;
    if k == 0 {
      return [];
    }
    var part := PartitionTopK(flat, k);
    var maxime := part[..k];
    var kept := KeepPositive(maxime);
    seeds := SortDescStable(kept, CellValue);
    SeedPoolFacts(mat, flat, part, k, kept, seeds);
  }

  /** The partition of the flattened matrix repeats no cell, so neither does the pool. */
  lemma PoolDistinct(mat: Matrix, part: seq<Cell>, k: nat, kept: seq<Cell>, seeds: seq<Cell>)
    requires k <= |part| && multiset(part) == multiset(Ravel(mat))
    requires kept == Positives(part[..k]) && multiset(seeds) == multiset(kept)
    ensures Distinct(seeds)
  {
    var maxime := part[..k];
    RavelFromDistinct(mat, 0);
    PermutationKeepsDistinct(Ravel(mat), part);
    assert Distinct(maxime) by {
      forall i, j | 0 <= i < j < |maxime| ensures maxime[i] != maxime[j] {
        assert maxime[i] == part[i] && maxime[j] == part[j];
      }
    }
    PositivesDistinct(maxime);
    PermutationKeepsDistinct(kept, seeds);
  }

  /** A positive cell outside the pool lost to a full pool of cells at least as high. */
  lemma PoolComplete(mat: Matrix, part: seq<Cell>, k: nat, kept: seq<Cell>, seeds: seq<Cell>, x: Cell)
    requires 0 < k <= |part| && multiset(part) == multiset(Ravel(mat))
    requires forall p, q :: 0 <= p < k <= q < |part| ==> part[q].v <= part[p].v
    requires kept == Positives(part[..k]) && multiset(seeds) == multiset(kept)
    requires forall y :: y in seeds <==> y in kept
    requires CellOf(mat, x) && x.v > 0 && x !in seeds
    ensures k < |part| && |seeds| == k && x.v <= seeds[|seeds| - 1].v
  {
    var maxime := part[..k];
    assert x in multiset(part);
    var idx :| 0 <= idx < |part| && part[idx] == x;
    if idx < k {
      assert false;
    }
    forall j | 0 <= j < k ensures maxime[j].v > 0 {
      assert part[idx].v <= part[j].v;
    }
    assert |seeds| == k by {
      assert |multiset(seeds)| == |multiset(kept)|;
    }
    var last := seeds[|seeds| - 1];
    assert last in maxime;
    var lp :| 0 <= lp < k && maxime[lp] == last;
    assert part[idx].v <= part[lp].v;
  }

  /** What the extractor's three steps add up to. */
  lemma SeedPoolFacts(mat: Matrix, flat: seq<Cell>, part: seq<Cell>, k: nat, kept: seq<Cell>, seeds: seq<Cell>)
    requires flat == Ravel(mat) && 0 < k <= PoolSize && (k == PoolSize || k == |flat|)
    requires k <= |part| && multiset(part) == multiset(flat)
    requires forall p, q :: 0 <= p < k <= q < |part| ==> part[q].v <= part[p].v
    requires kept == Positives(part[..k])
    requires multiset(seeds) == multiset(kept) && SortedDesc(seeds, CellValue)
    ensures SeedPool(mat, seeds)
  {
    var maxime := part[..k];
    assert |part| == |flat| by {
      assert |multiset(part)| == |multiset(flat)|;
    }
    PoolDistinct(mat, part, k, kept, seeds);
    assert forall y :: y in seeds <==> y in kept by {
      forall y ensures y in seeds <==> y in kept {
        assert y in seeds <==> y in multiset(seeds);
        assert y in kept <==> y in multiset(kept);
      }
    }
    forall x | x in seeds ensures CellOf(mat, x) && x.v > 0 {
      assert x in maxime;
      assert x in multiset(part);
    }
    assert |seeds| <= k by {
      assert |multiset(seeds)| == |multiset(kept)|;
    }
    forall x | CellOf(mat, x) && x.v > 0 && x !in seeds
      ensures |seeds| == PoolSize && x.v <= seeds[|seeds| - 1].v
    {
      PoolComplete(mat, part, k, kept, seeds, x);
    }
  }
}
