/**
 * The extractor ranks cells with `np.argpartition(-matrice_aplatizata, k - 1)`
 * on an int8 matrix. numpy negates int8 with two's-complement wrap-around, so
 * -(-128) is -128: a cell scoring -128 ranks as if it scored more than any
 * other cell. This module states that key as written and shows, on a
 * 1 x 101 matrix, that it pushes the only positive cell out of the top 100.
 * The rest of the model ranks by the unbounded negation instead (PartitionTopK
 * and TopSeeds in SeedExtractor).
 */
module ArgpartitionWrap {
  import opened Grid
  import opened Sorting

  /** Two's-complement wrap of an integer into int8. */
  function WrapInt8(x: int): (y: int)
    ensures -128 <= y < 128
    ensures -128 <= x < 128 ==> y == x
  {
    (x + 128) % 256 - 128
  }

  /** numpy's unary minus on an int8 value. */
  function NegInt8(v: int): (n: int)
    ensures -127 <= v <= 127 ==> n == -v
    ensures v == -128 ==> n == -128
  {
    WrapInt8(-v)
  }

  /** A 1 x 101 score matrix: a hundred cells scoring -128, then one cell scoring 5. */
  const WrapExample: Matrix := [seq(101, c => if c < 100 then -128 else 5)]

  /** Its one positive cell. */
  const TopCell: Cell := Cell(5, 0, 100)

  lemma ExampleCells(x: Cell)
    requires x in Ravel(WrapExample)
    ensures x == TopCell || x.v == -128
  {
  }

  /**
   * Any ranking that argpartition may return for the wrapped key with
   * k = min(100, 101) = 100 leaves the positive cell out of the first 100, and
   * every cell it keeps there scores -128, so the positive filter leaves no
   * seed at all, although TopCell is a positive cell of the matrix.
   */
  lemma NegationWrapLosesTopCell(a: seq<Cell>)
    requires multiset(a) == multiset(Ravel(WrapExample))
    requires forall p, q :: 0 <= p < 100 <= q < |a| ==> NegInt8(a[p].v) <= NegInt8(a[q].v)
    ensures CellOf(WrapExample, TopCell) && TopCell.v > 0
    ensures |a| == 101 && TopCell !in a[..100]
    ensures forall p :: 0 <= p < 100 ==> a[p].v <= 0
  {
    var flat := Ravel(WrapExample);
    RavelFromDistinct(WrapExample, 0);
    PermutationKeepsDistinct(flat, a);
    assert |a| == |flat| by {
      assert |multiset(a)| == |multiset(flat)|;
    }
    assert |flat| == 101 by {
      assert flat == RowCells(WrapExample, 0) + RavelFrom(WrapExample, 1);
    }
    assert a[100] in multiset(flat);
    ExampleCells(a[100]);
    forall p | 0 <= p < 100 ensures a[p] != TopCell && a[p].v <= 0 {
      assert a[p] in multiset(flat);
      ExampleCells(a[p]);
      assert a[p] != a[100];
      assert NegInt8(a[p].v) <= NegInt8(a[100].v);
    }
  }
}
