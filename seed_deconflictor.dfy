/**
 * Seed deconflictor (`selectareCuRespectareDistanta`): walks the seed pool in
 * order and keeps a seed unless an already kept seed is closer than the
 * minimum distance on both axes; stops once `baze` seeds are kept.
 */
module SeedDeconflictor {
  import opened Grid

  /** Integer square root, counting up from r. */
  function ISqrtFrom(n: nat, r: nat): (s: nat)
    requires r * r <= n
    ensures s * s <= n < (s + 1) * (s + 1)
    decreases n - r * r
  {
    if (r + 1) * (r + 1) <= n then ISqrtFrom(n, r + 1) else r
  }

  /** `int(np.sqrt(n))`: the largest s with s * s <= n. */
  function ISqrt(n: nat): nat {
    ISqrtFrom(n, 0)
  }

  /** `distanta_minima = int(np.sqrt(patrate)) + 2`. */
  function MinDistance(patrate: nat): nat {
    ISqrt(patrate) + 2
  }

  /** The rejection test: both axis differences are below d. */
  predicate Conflicts(a: Cell, b: Cell, d: int) {
    Abs(a.r - b.r) < d && Abs(a.c - b.c) < d
  }

  /** Seed q of the input conflicts with a seed kept from an earlier position. */
  ghost predicate Blocked(seeds: seq<Cell>, selected: seq<Cell>, picked: seq<nat>, q: nat, d: int)
    requires q < |seeds| && |picked| == |selected|
  {
    exists i :: 0 <= i < |picked| && picked[i] < q && Conflicts(seeds[q], selected[i], d)
  }

  /** Keeping one more seed does not unblock a seed. */
  lemma BlockedGrows(seeds: seq<Cell>, selected: seq<Cell>, picked: seq<nat>, x: Cell, p: nat, q: nat, d: int)
    requires q < |seeds| && |picked| == |selected|
    requires Blocked(seeds, selected, picked, q, d)
    ensures Blocked(seeds, selected + [x], picked + [p], q, d)
  {
    var i :| 0 <= i < |picked| && picked[i] < q && Conflicts(seeds[q], selected[i], d);
    assert (picked + [p])[i] == picked[i] && (selected + [x])[i] == selected[i];
  }

  /**
   * What the walk has established after examining the first n seeds:
   * `selected` is the subsequence of seeds[..n] at the increasing indices
   * `picked`, starting with seed 0, pairwise free of conflicts, and every
   * seed of seeds[..n] left out conflicts with a seed kept before it.
   */
  ghost predicate Walked(seeds: seq<Cell>, selected: seq<Cell>, picked: seq<nat>, n: nat, d: int) {
    && n <= |seeds| && |picked| == |selected| && |selected| <= n
    && (forall i :: 0 <= i < |picked| ==> picked[i] < n && selected[i] == seeds[picked[i]])
    && (forall i, j :: 0 <= i < j < |picked| ==> picked[i] < picked[j])
    && (n > 0 ==> |picked| > 0 && picked[0] == 0)
    && (forall i, j :: 0 <= i < j < |selected| ==> !Conflicts(selected[j], selected[i], d))
    && (forall q :: 0 <= q < n && q !in picked ==> Blocked(seeds, selected, picked, q, d))
  }

  /** Keeping seed n, which conflicts with no kept seed. */
  lemma AcceptStep(seeds: seq<Cell>, selected: seq<Cell>, picked: seq<nat>, n: nat, d: int)
    requires Walked(seeds, selected, picked, n, d) && n < |seeds|
    requires forall i :: 0 <= i < |selected| ==> !Conflicts(seeds[n], selected[i], d)
    ensures Walked(seeds, selected + [seeds[n]], picked + [n], n + 1, d)
  {
    var selected', picked' := selected + [seeds[n]], picked + [n];
    forall q | 0 <= q < n + 1 && q !in picked' ensures Blocked(seeds, selected', picked', q, d) {
      BlockedGrows(seeds, selected, picked, seeds[n], n, q, d);
    }
    forall i, j | 0 <= i < j < |selected'| ensures !Conflicts(selected'[j], selected'[i], d) {
      assert selected'[i] == selected[i];
    }
  }

  /** Dropping seed n, which conflicts with the kept seed selected[s]. */
  lemma RejectStep(seeds: seq<Cell>, selected: seq<Cell>, picked: seq<nat>, n: nat, d: int, s: nat)
    requires Walked(seeds, selected, picked, n, d) && n < |seeds|
    requires s < |selected| && Conflicts(seeds[n], selected[s], d)
    ensures Walked(seeds, selected, picked, n + 1, d)
  {
    assert Blocked(seeds, selected, picked, n, d) by {
      assert picked[s] < n && Conflicts(seeds[n], selected[s], d);
    }
  }

  /** No conflict means Chebyshev distance at least d. */
  lemma NoConflictApart(a: Cell, b: Cell, d: int)
    requires !Conflicts(a, b, d)
    ensures Chebyshev(b, a) >= d
  {
  }

  /**
   * What the greedy walk promises, with `picked` the input index of each kept
   * seed and `examined` how many input seeds it looked at before it stopped.
   */
  ghost predicate GreedyWalk(baze: nat, patrate: nat, seeds: seq<Cell>, selected: seq<Cell>, picked: seq<nat>, examined: nat) {
    // an order-preserving subsequence of the input
    && examined <= |seeds| && |picked| == |selected| && |selected| <= examined
    && (forall i :: 0 <= i < |picked| ==> picked[i] < examined && selected[i] == seeds[picked[i]])
    && (forall i, j :: 0 <= i < j < |picked| ==> picked[i] < picked[j])
    // the first seed is always kept
    && (|seeds| > 0 ==> |picked| > 0 && picked[0] == 0)
    // at most baze seeds; with baze == 0 the count test never fires and the walk runs to the end
    && (baze > 0 ==> |selected| <= baze)
    && (examined == |seeds| || (baze > 0 && |selected| == baze))
    // kept seeds are pairwise at Chebyshev distance >= MinDistance(patrate)
    && (forall i, j :: 0 <= i < j < |selected| ==> Chebyshev(selected[i], selected[j]) >= MinDistance(patrate))
    // every examined seed that was dropped conflicts with a seed kept before it
    && (forall q :: 0 <= q < examined && q !in picked ==> Blocked(seeds, selected, picked, q, MinDistance(patrate)))
  }

  /** The walk of `selectareCuRespectareDistanta`. */
  method SelectSeparated(baze: nat, patrate: nat, seeds: seq<Cell>)
    returns (selected: seq<Cell>, ghost picked: seq<nat>, ghost examined: nat)
    ensures GreedyWalk(baze, patrate, seeds, selected, picked, examined)
    // hence: every kept seed is an input seed, and a non-empty input keeps its first seed
    ensures forall x :: x in selected ==> x in seeds
    ensures |seeds| > 0 ==> |selected| > 0 && selected[0] == seeds[0]
  {
    var d := MinDistance(patrate);
    selected, picked := [], [];
    var n := 0;
    while n < |seeds|
      invariant Walked(seeds, selected, picked, n, d)
      invariant baze > 0 ==> |selected| < baze
    {
      var cand := seeds[n];
      var bagam := true;
      var s := 0;
      while s < |selected|
        invariant 0 <= s <= |selected|
        invariant bagam
        invariant forall i :: 0 <= i < s ==> !Conflicts(cand, selected[i], d)
      {
        if Conflicts(cand, selected[s], d) {
          bagam := false;
          break;
        }
        s := s + 1;
      }
      if bagam {
        AcceptStep(seeds, selected, picked, n, d);
        selected, picked := selected + [cand], picked + [n];
        n := n + 1;
        if |selected| == baze {
          break;
        }
      } else {
        RejectStep(seeds, selected, picked, n, d, s);
        n := n + 1;
      }
    }
    examined := n;
    forall i, j | 0 <= i < j < |selected| ensures Chebyshev(selected[i], selected[j]) >= d {
      NoConflictApart(selected[j], selected[i], d);
    }
  }
}
