/** `maskTheMap` of harti/full_generator_harta.py: the CLC+ mapping with entries for 255 and 0. */
module FullGeneratorHarta {
  import opened LandCover

  /** The `mapping` dict of `maskTheMap`, in insertion order. */
  const Mapping: seq<(u8, i8)> := [(1, -1), (2, 5), (3, 5), (4, 5), (5, 7), (6, 7), (8, 3), (9, 3), (10, 2), (11, 2), (255, 0), (0, 0)]

  /** Every code scores as ClcScore says: the copy computes the land-cover score table. */
  lemma MappingScores(x: u8)
    ensures MapThrough(Mapping, x) == ClcScore(x)
  {
    assert DistinctKeys(Mapping);
    if x == 1 {
      MapThroughKey(Mapping, 0);
    } else if x == 2 {
      MapThroughKey(Mapping, 1);
    } else if x == 3 {
      MapThroughKey(Mapping, 2);
    } else if x == 4 {
      MapThroughKey(Mapping, 3);
    } else if x == 5 {
      MapThroughKey(Mapping, 4);
    } else if x == 6 {
      MapThroughKey(Mapping, 5);
    } else if x == 8 {
      MapThroughKey(Mapping, 6);
    } else if x == 9 {
      MapThroughKey(Mapping, 7);
    } else if x == 10 {
      MapThroughKey(Mapping, 8);
    } else if x == 11 {
      MapThroughKey(Mapping, 9);
    } else if x == 255 {
      MapThroughKey(Mapping, 10);
    } else if x == 0 {
      MapThroughKey(Mapping, 11);
    } else {
      assert x !in Keys(Mapping);
      MapThroughNonKey(Mapping, x);
    }
  }

  /**
   * `maskTheMap`: a fresh int8 array of the input's shape whose every cell is
   * the score of the same cell's land-cover code.
   */
  method MaskTheMap(matriceValori: array2<u8>) returns (flavoured: array2<i8>)
    ensures fresh(flavoured)
    ensures flavoured.Length0 == matriceValori.Length0 && flavoured.Length1 == matriceValori.Length1
    ensures forall i, j :: 0 <= i < matriceValori.Length0 && 0 <= j < matriceValori.Length1 ==>
              flavoured[i, j] == ClcScore(matriceValori[i, j])
  {
    flavoured := ApplyMapping(matriceValori, Mapping);
    forall x: u8 ensures MapThrough(Mapping, x) == ClcScore(x) {
      MappingScores(x);
    }
  }
}
