/**
 * Region grower (`generareOConfiguratie`): a best-first flood fill from one
 * seed over 4-neighbours. The priority queue is a `heapq` of tuples
 * (-value, row, col); the set `vizitate` marks a cell when it is enqueued.
 */
module RegionGrower {
  import opened Grid

  /**
   * The order in which `heapq` pops entries: the smallest tuple
   * (-value, row, col) first, that is the highest value, then the smallest
   * row, then the smallest column. A strict total order on cells.
   */
  predicate PopsBefore(a: Cell, b: Cell) {
    a.v > b.v || (a.v == b.v && (a.r < b.r || (a.r == b.r && a.c < b.c)))
  }

  /** x is the entry `heapq.heappop` returns from a heap holding `heap`. */
  predicate IsNext(x: Cell, heap: set<Cell>) {
    x in heap && forall y :: y in heap && y != x ==> PopsBefore(x, y)
  }

  /** A non-empty heap has an entry that pops first. */
  lemma {:induction false} NextExists(heap: set<Cell>)
    requires heap != {}
    ensures exists x :: IsNext(x, heap)
    decreases |heap|
  {
    var y :| y in heap;
    if heap == {y} {
      assert IsNext(y, heap);
    } else {
      var rest := heap - {y};
      NextExists(rest);
      var x :| IsNext(x, rest);
      if PopsBefore(y, x) {
        forall z | z in heap && z != y ensures PopsBefore(y, z) {
          if z != x {
            assert PopsBefore(x, z);
          }
        }
        assert IsNext(y, heap);
      } else {
        forall z | z in heap && z != x ensures PopsBefore(x, z) {
          if z != y {
            assert z in rest;
          }
        }
        assert IsNext(x, heap);
      }
    }
  }

  /** Some cell of `region` sits at position p. */
  ghost predicate InRegion(region: seq<Cell>, p: (int, int)) {
    exists i :: 0 <= i < |region| && Pos(region[i]) == p
  }

  /** Some heap entry sits at position p. */
  ghost predicate InHeap(heap: set<Cell>, p: (int, int)) {
    exists x :: x in heap && Pos(x) == p
  }

  /** Every cell is a cell of the matrix with a positive value. */
  predicate PositiveCellsOf(mat: Matrix, region: seq<Cell>) {
    forall i :: 0 <= i < |region| ==> CellOf(mat, region[i]) && region[i].v > 0
  }

  /** No position occurs twice. */
  predicate DistinctPositions(region: seq<Cell>) {
    forall i, j :: 0 <= i < j < |region| ==> Pos(region[i]) != Pos(region[j])
  }

  /** The k-th cell is 4-adjacent to an earlier one. */
  ghost predicate JoinsEarlier(region: seq<Cell>, k: nat)
    requires k < |region|
  {
    exists j :: 0 <= j < k && Adjacent(region[j], region[k])
  }

  /** Every cell after the first is 4-adjacent to an earlier one. */
  ghost predicate Connected4(region: seq<Cell>) {
    forall k :: 0 < k < |region| ==> JoinsEarlier(region, k)
  }

  /** Every in-bounds positive 4-neighbour of a cell of the region is in the region. */
  ghost predicate Closed(mat: Matrix, region: seq<Cell>) {
    forall i, x :: 0 <= i < |region| && CellOf(mat, x) && x.v > 0 && Adjacent(region[i], x) ==> InRegion(region, Pos(x))
  }

  /** The cell the grower starts from: the seed's position, with its value read from the matrix. */
  function StartCell(mat: Matrix, seed: Cell): Cell
    requires InBounds(mat, seed.r, seed.c)
  {
    Cell(mat[seed.r][seed.c], seed.r, seed.c)
  }

  /**
   * What the grower promises about the region it returns for `seed`:
   * at most `patrate` distinct positive cells of the matrix, starting at the
   * seed (or empty when the seed's value is not positive), each later cell
   * next to an earlier one, and, when it stopped short of `patrate`, the whole
   * positive 4-connected component of the seed.
   */
  ghost predicate GrownFrom(mat: Matrix, seed: Cell, patrate: nat, region: seq<Cell>)
    requires InBounds(mat, seed.r, seed.c)
  {
    && |region| <= patrate
    && PositiveCellsOf(mat, region)
    && DistinctPositions(region)
    && Connected4(region)
    && (mat[seed.r][seed.c] <= 0 ==> region == [])
    && (patrate > 0 && mat[seed.r][seed.c] > 0 ==> |region| > 0 && region[0] == StartCell(mat, seed))
    && (|region| < patrate ==> Closed(mat, region))
  }

  /** Every in-bounds 4-neighbour of x is in `visited`. */
  ghost predicate NeighboursVisited(mat: Matrix, x: Cell, visited: set<(int, int)>) {
    forall y :: CellOf(mat, y) && Adjacent(x, y) ==> Pos(y) in visited
  }

  /** The neighbour of x in direction Offsets[k]. */
  function Neighbour(x: Cell, k: nat): (int, int)
    requires k < |Offsets|
  {
    (x.r + Offsets[k].0, x.c + Offsets[k].1)
  }

  /** The neighbour of x in direction Offsets[k], if in bounds, is in `visited`. */
  ghost predicate OffsetVisited(mat: Matrix, x: Cell, k: nat, visited: set<(int, int)>)
    requires k < |Offsets|
  {
    InBounds(mat, Neighbour(x, k).0, Neighbour(x, k).1) ==> Neighbour(x, k) in visited
  }

  /** The four offsets reach every 4-neighbour. */
  lemma OffsetsCover(mat: Matrix, x: Cell, visited: set<(int, int)>)
    requires forall k :: 0 <= k < |Offsets| ==> OffsetVisited(mat, x, k, visited)
    ensures NeighboursVisited(mat, x, visited)
  {
    forall y | CellOf(mat, y) && Adjacent(x, y) ensures Pos(y) in visited {
      if y.r == x.r && y.c == x.c + 1 {
        assert OffsetVisited(mat, x, 0, visited);
      } else if y.r == x.r && y.c == x.c - 1 {
        assert OffsetVisited(mat, x, 1, visited);
      } else if y.r == x.r + 1 {
        assert OffsetVisited(mat, x, 2, visited);
      } else {
        assert OffsetVisited(mat, x, 3, visited);
      }
    }
  }

  /** Facts the grower's loop keeps both between iterations and while it pushes neighbours. */
  ghost predicate Common(mat: Matrix, heap: set<Cell>, visited: set<(int, int)>, region: seq<Cell>, skipped: set<(int, int)>) {
    && (forall x :: x in heap ==> CellOf(mat, x) && Pos(x) in visited && !InRegion(region, Pos(x)))
    && (forall p :: p in visited ==> InBounds(mat, p.0, p.1))
    && PositiveCellsOf(mat, region)
    && (forall i :: 0 <= i < |region| ==> Pos(region[i]) in visited)
    && DistinctPositions(region)
    && (forall p :: p in skipped ==> InBounds(mat, p.0, p.1) && mat[p.0][p.1] <= 0)
    && (forall p :: p in visited ==> p in skipped || InRegion(region, p) || InHeap(heap, p))
    && Connected4(region)
  }

  /** The cell appended last. */
  function Last(region: seq<Cell>): Cell
    requires |region| > 0
  {
    region[|region| - 1]
  }

  /** Every heap entry is a 4-neighbour of a cell already in the region. */
  ghost predicate HasParents(region: seq<Cell>, heap: set<Cell>) {
    forall x :: x in heap ==> exists j :: 0 <= j < |region| && Adjacent(region[j], x)
  }

  /** The loop invariant of the grower's `while`. */
  ghost predicate GrowState(mat: Matrix, start: Cell, patrate: nat, heap: set<Cell>, visited: set<(int, int)>,
                            region: seq<Cell>, skipped: set<(int, int)>)
  {
    && Common(mat, heap, visited, region, skipped)
    && (forall i :: 0 <= i < |region| ==> NeighboursVisited(mat, region[i], visited))
    && (|region| > 0 ==> HasParents(region, heap) && region[0] == start)
    && (|region| == 0 ==> heap == {start} || (heap == {} && start.v <= 0))
    && |region| <= patrate
  }

  /** The invariant of the inner loop over the four offsets, after k of them. */
  ghost predicate PushState(mat: Matrix, start: Cell, patrate: nat, heap: set<Cell>, visited: set<(int, int)>,
                            region: seq<Cell>, skipped: set<(int, int)>, k: nat)
  {
    && Common(mat, heap, visited, region, skipped)
    && |region| > 0 && k <= |Offsets|
    && (forall i :: 0 <= i < |region| - 1 ==> NeighboursVisited(mat, region[i], visited))
    && (forall k' :: 0 <= k' < k ==> OffsetVisited(mat, Last(region), k', visited))
    && HasParents(region, heap) && region[0] == start
    && |region| <= patrate
  }

  lemma InRegionAppend(region: seq<Cell>, x: Cell, p: (int, int))
    ensures InRegion(region + [x], p) <==> InRegion(region, p) || Pos(x) == p
  {
    if InRegion(region, p) {
      var i :| 0 <= i < |region| && Pos(region[i]) == p;
      assert (region + [x])[i] == region[i];
    }
    if Pos(x) == p {
      assert (region + [x])[|region|] == x;
    }
  }

  /** All positions of the matrix. */
  function Positions(mat: Matrix): set<(int, int)> {
    set r, c | 0 <= r < |mat| && 0 <= c < |mat[r]| :: (r, c)
  }

  /** Marking one more position of the matrix visited leaves one fewer unvisited. */
  lemma VisitOne(mat: Matrix, visited: set<(int, int)>, p: (int, int))
    requires InBounds(mat, p.0, p.1) && p !in visited
    ensures |Positions(mat) - (visited + {p})| == |Positions(mat) - visited| - 1
  {
    var before := Positions(mat) - visited;
    assert p in before;
    assert Positions(mat) - (visited + {p}) == before - {p};
    assert before == (before - {p}) + {p};
  }

  /** Popping an entry leaves one fewer. */
  lemma PopOne(heap: set<Cell>, x: Cell)
    requires x in heap
    ensures |heap - {x}| == |heap| - 1
  {
    assert heap == (heap - {x}) + {x};
  }

  /** The state the grower starts in. */
  lemma InitState(mat: Matrix, start: Cell, patrate: nat)
    requires CellOf(mat, start)
    ensures GrowState(mat, start, patrate, {start}, {Pos(start)}, [], {})
  {
    assert InHeap({start}, Pos(start));
  }

  /** Popping an entry whose value is not positive: it is dropped (`if val <= 0: continue`). */
  lemma SkipStep(mat: Matrix, start: Cell, patrate: nat, heap: set<Cell>, visited: set<(int, int)>,
                 region: seq<Cell>, skipped: set<(int, int)>, x: Cell)
    requires GrowState(mat, start, patrate, heap, visited, region, skipped)
    requires x in heap && x.v <= 0
    ensures GrowState(mat, start, patrate, heap - {x}, visited, region, skipped + {Pos(x)})
  {
    var heap', skipped' := heap - {x}, skipped + {Pos(x)};
    forall p | p in visited ensures p in skipped' || InRegion(region, p) || InHeap(heap', p) {
      if InHeap(heap, p) && p != Pos(x) {
        var y :| y in heap && Pos(y) == p;
        assert y in heap';
      }
    }
    if |region| == 0 {
      assert heap == {start};
      assert heap' == {};
    }
  }

  /** Appending a heap entry to the region keeps the heap, visited and region facts. */
  lemma AppendPositions(mat: Matrix, heap: set<Cell>, visited: set<(int, int)>, region: seq<Cell>,
                        skipped: set<(int, int)>, x: Cell)
    requires Common(mat, heap, visited, region, skipped) && x in heap && x.v > 0
    ensures var heap', region' := heap - {x}, region + [x];
      && (forall y :: y in heap' ==> CellOf(mat, y) && Pos(y) in visited && !InRegion(region', Pos(y)))
      && PositiveCellsOf(mat, region')
      && (forall i :: 0 <= i < |region'| ==> Pos(region'[i]) in visited)
      && DistinctPositions(region')
  {
    var heap', region' := heap - {x}, region + [x];
    forall y | y in heap' ensures !InRegion(region', Pos(y)) {
      InRegionAppend(region, x, Pos(y));
    }
    assert !InRegion(region, Pos(x));
    forall i, j | 0 <= i < j < |region'| ensures Pos(region'[i]) != Pos(region'[j]) {
      assert region'[i] == region[i];
      if j < |region| {
        assert region'[j] == region[j];
      }
    }
  }

  /** Appending a heap entry to the region: every visited position is still accounted for. */
  lemma AppendCover(mat: Matrix, heap: set<Cell>, visited: set<(int, int)>, region: seq<Cell>,
                    skipped: set<(int, int)>, x: Cell)
    requires Common(mat, heap, visited, region, skipped) && x in heap
    ensures forall p :: p in visited ==> p in skipped || InRegion(region + [x], p) || InHeap(heap - {x}, p)
  {
    forall p | p in visited ensures p in skipped || InRegion(region + [x], p) || InHeap(heap - {x}, p) {
      InRegionAppend(region, x, p);
      if InHeap(heap, p) && p != Pos(x) {
        var y :| y in heap && Pos(y) == p;
        assert y in heap - {x};
      }
    }
  }

  /** Appending a cell next to an earlier one keeps the region connected. */
  lemma AppendConnected(region: seq<Cell>, x: Cell)
    requires Connected4(region)
    requires |region| > 0 ==> exists j :: 0 <= j < |region| && Adjacent(region[j], x)
    ensures Connected4(region + [x])
  {
    var region' := region + [x];
    forall k | 0 < k < |region'| ensures JoinsEarlier(region', k) {
      if k < |region| {
        assert JoinsEarlier(region, k);
        var j :| 0 <= j < k && Adjacent(region[j], region[k]);
        assert region'[j] == region[j] && region'[k] == region[k];
        assert 0 <= j < k && Adjacent(region'[j], region'[k]);
      } else {
        var j :| 0 <= j < |region| && Adjacent(region[j], x);
        assert region'[j] == region[j] && region'[k] == x;
        assert 0 <= j < k && Adjacent(region'[j], region'[k]);
      }
    }
  }

  /** Appending a cell keeps every remaining heap entry next to a region cell. */
  lemma AppendParents(region: seq<Cell>, heap: set<Cell>, x: Cell)
    requires HasParents(region, heap)
    ensures HasParents(region + [x], heap - {x})
  {
    forall y | y in heap - {x} ensures exists j :: 0 <= j < |region + [x]| && Adjacent((region + [x])[j], y) {
      var j :| 0 <= j < |region| && Adjacent(region[j], y);
      assert (region + [x])[j] == region[j];
    }
  }

  /** Popping an entry with a positive value: it is appended to the region. */
  lemma AppendStep(mat: Matrix, start: Cell, patrate: nat, heap: set<Cell>, visited: set<(int, int)>,
                   region: seq<Cell>, skipped: set<(int, int)>, x: Cell)
    requires GrowState(mat, start, patrate, heap, visited, region, skipped)
    requires x in heap && x.v > 0 && |region| < patrate
    ensures PushState(mat, start, patrate, heap - {x}, visited, region + [x], skipped, 0)
  {
    var heap', region' := heap - {x}, region + [x];
    AppendPositions(mat, heap, visited, region, skipped, x);
    AppendCover(mat, heap, visited, region, skipped, x);
    if |region| == 0 {
      assert heap == {start} && heap' == {};
      assert x == start;
    } else {
      assert HasParents(region, heap);
      AppendParents(region, heap, x);
    }
    AppendConnected(region, x);
    assert region'[0] == start;
    forall i | 0 <= i < |region'| - 1 ensures NeighboursVisited(mat, region'[i], visited) {
      assert region'[i] == region[i];
    }
  }

  /** Marking a position visited keeps the earlier offsets visited. */
  lemma OffsetsGrow(mat: Matrix, x: Cell, k: nat, visited: set<(int, int)>, p: (int, int))
    requires k <= |Offsets|
    requires forall k' :: 0 <= k' < k ==> OffsetVisited(mat, x, k', visited)
    ensures forall k' :: 0 <= k' < k ==> OffsetVisited(mat, x, k', visited + {p})
  {
    forall k' | 0 <= k' < k ensures OffsetVisited(mat, x, k', visited + {p}) {
      assert OffsetVisited(mat, x, k', visited);
    }
  }

  /** Marking a position visited keeps every cell's neighbours visited. */
  lemma NeighboursGrow(mat: Matrix, region: seq<Cell>, n: nat, visited: set<(int, int)>, p: (int, int))
    requires n <= |region|
    requires forall i :: 0 <= i < n ==> NeighboursVisited(mat, region[i], visited)
    ensures forall i :: 0 <= i < n ==> NeighboursVisited(mat, region[i], visited + {p})
  {
  }

  /** Enqueuing a new position keeps the heap and cover facts. */
  lemma PushCommon(mat: Matrix, heap: set<Cell>, visited: set<(int, int)>, region: seq<Cell>,
                   skipped: set<(int, int)>, p: (int, int))
    requires Common(mat, heap, visited, region, skipped)
    requires InBounds(mat, p.0, p.1) && p !in visited
    ensures Common(mat, heap + {Cell(mat[p.0][p.1], p.0, p.1)}, visited + {p}, region, skipped)
  {
    var y := Cell(mat[p.0][p.1], p.0, p.1);
    var heap', visited' := heap + {y}, visited + {p};
    assert Pos(y) == p;
    assert !InRegion(region, p);
    assert InHeap(heap', p);
    forall q | q in visited ensures InHeap(heap', q) || q in skipped || InRegion(region, q) {
      if InHeap(heap, q) {
        var z :| z in heap && Pos(z) == q;
        assert z in heap';
      }
    }
  }

  /** Enqueuing the neighbour in direction Offsets[k], in bounds and not yet visited. */
  lemma PushStep(mat: Matrix, start: Cell, patrate: nat, heap: set<Cell>, visited: set<(int, int)>,
                 region: seq<Cell>, skipped: set<(int, int)>, k: nat, p: (int, int))
    requires PushState(mat, start, patrate, heap, visited, region, skipped, k) && k < |Offsets|
    requires p == Neighbour(Last(region), k) && InBounds(mat, p.0, p.1) && p !in visited
    ensures PushState(mat, start, patrate, heap + {Cell(mat[p.0][p.1], p.0, p.1)}, visited + {p}, region, skipped, k + 1)
  {
    var x, y := Last(region), Cell(mat[p.0][p.1], p.0, p.1);
    PushCommon(mat, heap, visited, region, skipped, p);
    OffsetsGrow(mat, x, k, visited, p);
    NeighboursGrow(mat, region, |region| - 1, visited, p);
    assert Adjacent(x, y);
    assert HasParents(region, heap + {y}) by {
      assert region[|region| - 1] == x;
    }
  }

  /** Passing over the neighbour in direction Offsets[k]: out of bounds or already visited. */
  lemma PassStep(mat: Matrix, start: Cell, patrate: nat, heap: set<Cell>, visited: set<(int, int)>,
                 region: seq<Cell>, skipped: set<(int, int)>, k: nat, p: (int, int))
    requires PushState(mat, start, patrate, heap, visited, region, skipped, k) && k < |Offsets|
    requires p == Neighbour(Last(region), k) && !(InBounds(mat, p.0, p.1) && p !in visited)
    ensures PushState(mat, start, patrate, heap, visited, region, skipped, k + 1)
  {
  }

  /** Enqueuing one more position keeps the measure of the loop fixed. */
  lemma PushMeasure(mat: Matrix, heap: set<Cell>, visited: set<(int, int)>, region: seq<Cell>,
                    skipped: set<(int, int)>, p: (int, int))
    requires Common(mat, heap, visited, region, skipped)
    requires InBounds(mat, p.0, p.1) && p !in visited
    ensures |Positions(mat) - (visited + {p})| + |heap + {Cell(mat[p.0][p.1], p.0, p.1)}|
         == |Positions(mat) - visited| + |heap|
  {
    VisitOne(mat, visited, p);
    var y := Cell(mat[p.0][p.1], p.0, p.1);
    assert y !in heap;
  }

  /** After the four offsets the appended cell has all its neighbours visited. */
  lemma FinishPush(mat: Matrix, start: Cell, patrate: nat, heap: set<Cell>, visited: set<(int, int)>,
                   region: seq<Cell>, skipped: set<(int, int)>)
    requires PushState(mat, start, patrate, heap, visited, region, skipped, |Offsets|)
    ensures GrowState(mat, start, patrate, heap, visited, region, skipped)
  {
    OffsetsCover(mat, Last(region), visited);
  }

  /** When the loop stops, the state meets the grower's promise. */
  lemma FinishGrow(mat: Matrix, seed: Cell, patrate: nat, heap: set<Cell>, visited: set<(int, int)>,
                   region: seq<Cell>, skipped: set<(int, int)>)
    requires InBounds(mat, seed.r, seed.c)
    requires GrowState(mat, StartCell(mat, seed), patrate, heap, visited, region, skipped)
    requires |region| >= patrate || heap == {}
    ensures GrownFrom(mat, seed, patrate, region)
  {
    var start := StartCell(mat, seed);
    if |region| < patrate {
      forall i, x | 0 <= i < |region| && CellOf(mat, x) && x.v > 0 && Adjacent(region[i], x)
        ensures InRegion(region, Pos(x))
      {
        assert NeighboursVisited(mat, region[i], visited);
        assert Pos(x) in visited;
        assert Pos(x) !in skipped;
        assert !InHeap(heap, Pos(x));
      }
    }
  }

  /**
   * Grows one region from `seed` (`generareOConfiguratie`). Returns at most
   * `patrate` cells; see GrownFrom for everything it promises.
   */
  method GrowRegion(mat: Matrix, seed: Cell, patrate: nat) returns (configuratie: seq<Cell>)
    requires InBounds(mat, seed.r, seed.c)
    ensures GrownFrom(mat, seed, patrate, configuratie)
  {
    var start := StartCell(mat, seed);
    var heap: set<Cell> := {start};
    var vizitate: set<(int, int)> := {Pos(start)};
    ghost var skipped: set<(int, int)> := {};
    configuratie := [];
    InitState(mat, start, patrate);
    while |configuratie| < patrate && heap != {}
      invariant GrowState(mat, start, patrate, heap, vizitate, configuratie, skipped)
      decreases |Positions(mat) - vizitate| + |heap|
    {
      ghost var measure := |Positions(mat) - vizitate| + |heap|;
      NextExists(heap);
      var x :| IsNext(x, heap);
      PopOne(heap, x);
      if x.v <= 0 {
        SkipStep(mat, start, patrate, heap, vizitate, configuratie, skipped, x);
        heap := heap - {x};
        skipped := skipped + {Pos(x)};
        continue;
      }
      AppendStep(mat, start, patrate, heap, vizitate, configuratie, skipped, x);
      heap := heap - {x};
      configuratie := configuratie + [x];
      for k := 0 to |Offsets|
        invariant PushState(mat, start, patrate, heap, vizitate, configuratie, skipped, k)
        invariant x == Last(configuratie)
        invariant |Positions(mat) - vizitate| + |heap| == measure - 1
      {
        var (nr, nc) := Neighbour(x, k);
        if 0 <= nr < |mat| && 0 <= nc < |mat[nr]| && (nr, nc) !in vizitate {
          PushStep(mat, start, patrate, heap, vizitate, configuratie, skipped, k, (nr, nc));
          PushMeasure(mat, heap, vizitate, configuratie, skipped, (nr, nc));
          vizitate := vizitate + {(nr, nc)};
          heap := heap + {Cell(mat[nr][nc], nr, nc)};
        } else {
          PassStep(mat, start, patrate, heap, vizitate, configuratie, skipped, k, (nr, nc));
        }
      }
      FinishPush(mat, start, patrate, heap, vizitate, configuratie, skipped);
    }
    FinishGrow(mat, seed, patrate, heap, vizitate, configuratie, skipped);
  }
}
