/**
 * The land-cover to score mapping shared by the three `maskTheMap` copies.
 * Each copy takes a uint8 raster of CLC+ land-cover codes, copies it as int8,
 * zeroes the codes >= 254, then, for every (code, score) pair of its mapping
 * in dict order, writes the score into every cell whose ORIGINAL code is that
 * code. The three copies differ only in their mapping.
 */
module LandCover {

  /** numpy uint8. */
  newtype u8 = x: int | 0 <= x < 256

  /** numpy int8. */
  newtype i8 = x: int | -128 <= x < 128

  /** `.astype(np.int8)` on a uint8: two's-complement wrap, 128..255 become x - 256. */
  function ToInt8(x: u8): (y: i8)
    ensures y as int % 256 == x as int
    ensures x < 128 ==> y as int == x as int
  {
    if x < 128 then x as int as i8 else (x as int - 256) as i8
  }

  /** The value a cell holds after the copy and the `>= 254` mask. */
  function Masked(x: u8): i8 {
    if x >= 254 then 0 else ToInt8(x)
  }

  /**
   * The value a cell with code x holds after the loop has applied the
   * entries of `mapping` in order: the last entry whose key is x wins, and
   * a code that is no key keeps its masked value.
   */
  function MapThrough(mapping: seq<(u8, i8)>, x: u8): i8 {
    if mapping == [] then Masked(x)
    else if mapping[|mapping| - 1].0 == x then mapping[|mapping| - 1].1
    else MapThrough(mapping[..|mapping| - 1], x)
  }

  /** The keys of a mapping, as a set. */
  function Keys(mapping: seq<(u8, i8)>): set<u8> {
    set i | 0 <= i < |mapping| :: mapping[i].0
  }

  /** No key occurs twice, as in a Python dict. */
  predicate DistinctKeys(mapping: seq<(u8, i8)>) {
    forall i, j :: 0 <= i < j < |mapping| ==> mapping[i].0 != mapping[j].0
  }

  /** With distinct keys, a code that is a key gets its entry's score, whatever the loop order. */
  lemma {:induction false} MapThroughKey(mapping: seq<(u8, i8)>, i: nat)
    requires DistinctKeys(mapping) && i < |mapping|
    ensures MapThrough(mapping, mapping[i].0) == mapping[i].1
    decreases |mapping|
  {
    var n := |mapping| - 1;
    if i < n {
      assert mapping[n].0 != mapping[i].0;
      var front := mapping[..n];
      assert DistinctKeys(front) by {
        forall a, b | 0 <= a < b < |front| ensures front[a].0 != front[b].0 {
          assert front[a] == mapping[a] && front[b] == mapping[b];
        }
      }
      MapThroughKey(front, i);
      assert front[i] == mapping[i];
    }
  }

  /** A code that is no key of the mapping keeps its masked value. */
  lemma {:induction false} MapThroughNonKey(mapping: seq<(u8, i8)>, x: u8)
    requires x !in Keys(mapping)
    ensures MapThrough(mapping, x) == Masked(x)
    decreases |mapping|
  {
    if mapping != [] {
      var front := mapping[..|mapping| - 1];
      assert x !in Keys(front) by {
        forall i | 0 <= i < |front| ensures front[i].0 != x {
          assert front[i] == mapping[i];
        }
      }
      MapThroughNonKey(front, x);
    }
  }

  /**
   * The score each land-cover code stands for: buildings -1, forest 5,
   * fields 7, shrubs and open land 3, water 2, no-data (>= 254) 0, and every
   * other code its own value read as int8.
   */
  function ClcScore(x: u8): i8 {
    if x == 1 then -1
    else if 2 <= x <= 4 then 5
    else if 5 <= x <= 6 then 7
    else if 8 <= x <= 9 then 3
    else if 10 <= x <= 11 then 2
    else if x >= 254 then 0
    else ToInt8(x)
  }

  /** The codes the mapping and the no-data mask give scores to. */
  predicate KnownCode(x: u8) {
    x <= 11 || x >= 254
  }

  /** Known codes score in {-1, 0, 2, 3, 5, 7}. */
  lemma KnownCodesScore(x: u8)
    requires KnownCode(x)
    ensures ClcScore(x) in {-1, 0, 2, 3, 5, 7}
  {
  }

  /** The scores: 1 -> -1, 2..4 -> 5, 5..6 -> 7, 8..9 -> 3, 10..11 -> 2, 0 and >= 254 -> 0. */
  lemma ScoreTable(x: u8)
    ensures x == 0 ==> ClcScore(x) == 0
    ensures x == 1 ==> ClcScore(x) == -1
    ensures 2 <= x <= 4 ==> ClcScore(x) == 5
    ensures 5 <= x <= 6 ==> ClcScore(x) == 7
    ensures 8 <= x <= 9 ==> ClcScore(x) == 3
    ensures 10 <= x <= 11 ==> ClcScore(x) == 2
    ensures x >= 254 ==> ClcScore(x) == 0
  {
  }

  /** Codes 7 and 12..127 keep their value; 128..253 wrap to x - 256. */
  lemma UnmappedCodes(x: u8)
    requires x == 7 || 12 <= x <= 253
    ensures x < 128 ==> ClcScore(x) as int == x as int
    ensures x >= 128 ==> ClcScore(x) as int == x as int - 256
  {
  }

  /** Writes `score` into every cell of `flavoured` whose code in `values` is selected by `mask`. */
  method AssignWhere(values: array2<u8>, flavoured: array2<i8>, mask: u8 -> bool, score: i8)
    requires flavoured.Length0 == values.Length0 && flavoured.Length1 == values.Length1
    modifies flavoured
    ensures forall i, j :: 0 <= i < values.Length0 && 0 <= j < values.Length1 ==>
              flavoured[i, j] == if mask(values[i, j]) then score else old(flavoured[i, j])
  {
    for i := 0 to values.Length0
      invariant forall r, c :: 0 <= r < i && 0 <= c < values.Length1 ==>
                  flavoured[r, c] == if mask(values[r, c]) then score else old(flavoured[r, c])
      invariant forall r, c :: i <= r < values.Length0 && 0 <= c < values.Length1 ==>
                  flavoured[r, c] == old(flavoured[r, c])
    {
      for j := 0 to values.Length1
        invariant forall r, c :: 0 <= r < i && 0 <= c < values.Length1 ==>
                    flavoured[r, c] == if mask(values[r, c]) then score else old(flavoured[r, c])
        invariant forall c :: 0 <= c < j ==>
                    flavoured[i, c] == if mask(values[i, c]) then score else old(flavoured[i, c])
        invariant forall r, c :: (i < r < values.Length0 && 0 <= c < values.Length1) || (r == i && j <= c < values.Length1) ==>
                    flavoured[r, c] == old(flavoured[r, c])
      {
        if mask(values[i, j]) {
          flavoured[i, j] := score;
        }
      }
    }
  }

  /** `np.copy(matrice_valori).astype(np.int8)`. */
  method CopyAsInt8(values: array2<u8>) returns (flavoured: array2<i8>)
    ensures fresh(flavoured)
    ensures flavoured.Length0 == values.Length0 && flavoured.Length1 == values.Length1
    ensures forall i, j :: 0 <= i < values.Length0 && 0 <= j < values.Length1 ==>
              flavoured[i, j] == ToInt8(values[i, j])
  {
    flavoured := new i8[values.Length0, values.Length1];
    for i := 0 to values.Length0
      invariant forall r, c :: 0 <= r < i && 0 <= c < values.Length1 ==> flavoured[r, c] == ToInt8(values[r, c])
    {
      for j := 0 to values.Length1
        invariant forall r, c :: 0 <= r < i && 0 <= c < values.Length1 ==> flavoured[r, c] == ToInt8(values[r, c])
        invariant forall c :: 0 <= c < j ==> flavoured[i, c] == ToInt8(values[i, c])
      {
        flavoured[i, j] := ToInt8(values[i, j]);
      }
    }
  }

  /**
   * The body of `maskTheMap` for a given mapping (in dict order). The result
   * has the input's shape and each cell depends only on the same cell of the
   * input, through MapThrough.
   */
  method ApplyMapping(values: array2<u8>, mapping: seq<(u8, i8)>) returns (flavoured: array2<i8>)
    ensures fresh(flavoured)
    ensures flavoured.Length0 == values.Length0 && flavoured.Length1 == values.Length1
    ensures forall i, j :: 0 <= i < values.Length0 && 0 <= j < values.Length1 ==>
              flavoured[i, j] == MapThrough(mapping, values[i, j])
  {
    flavoured := CopyAsInt8(values);
    AssignWhere(values, flavoured, x => x >= 254, 0);
    for m := 0 to |mapping|
      invariant forall i, j :: 0 <= i < values.Length0 && 0 <= j < values.Length1 ==>
                  flavoured[i, j] == MapThrough(mapping[..m], values[i, j])
    {
      var (orig, score) := mapping[m];
      AssignWhere(values, flavoured, x => x == orig, score);
      assert mapping[..m + 1][..m] == mapping[..m];
    }
    assert mapping[..|mapping|] == mapping;
  }
}
