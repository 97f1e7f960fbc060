/** `maskTheMap` of harti/procesare_finala.py: the same mapping as full_generator_harta.py. */
module ProcesareFinala {
  import opened LandCover
  import FullGeneratorHarta

  /** The `mapping` dict of `maskTheMap`, in insertion order. */
  const Mapping: seq<(u8, i8)> := [(1, -1), (2, 5), (3, 5), (4, 5), (5, 7), (6, 7), (8, 3), (9, 3), (10, 2), (11, 2), (255, 0), (0, 0)]

  /** The dict is the one of full_generator_harta.py, entry for entry and in the same order. */
  lemma SameDict()
    ensures Mapping == FullGeneratorHarta.Mapping
  {
  }

  /** Every code scores as ClcScore says: the copy computes the land-cover score table. */
  lemma MappingScores(x: u8)
    ensures MapThrough(Mapping, x) == ClcScore(x)
  {
    SameDict();
    FullGeneratorHarta.MappingScores(x);
  }

  /** This copy and the one in full_generator_harta.py give every code the same score. */
  lemma AgreesWithFullGenerator(x: u8)
    ensures MapThrough(Mapping, x) == MapThrough(FullGeneratorHarta.Mapping, x)
  {
    SameDict();
  }

  /**
   * `maskTheMap`: a fresh int8 array of the input's shape whose every cell is
   * the score of the same cell's land-cover code.
   */
  method MaskTheMap(matriceValori: array2<u8>) returns (flavoured: array2<i8>)
    ensures fresh(flavoured)
    ensures flavoured.Length0 == matriceValori.Length0 && flavoured.Length1 == matriceValori.Length1
    ensures forall i, j :: 0 <= i < matriceValori.Length0 && 0 <= j < matriceValori.Length1 ==>
              flavoured[i, j] == ClcScore(matriceValori[i, j])
  {
    flavoured := ApplyMapping(matriceValori, Mapping);
    forall x: u8 ensures MapThrough(Mapping, x) == ClcScore(x) {
      MappingScores(x);
    }
  }
}
