/** Dense real matrices as sequences of rows, the shape of numpy's 2-d float arrays. */
module Matrix {

  /** `m` has `rows` rows of `cols` entries each. */
  predicate IsMatrix(m: seq<seq<real>>, rows: nat, cols: nat)
  {
    |m| == rows && forall i :: 0 <= i < rows ==> |m[i]| == cols
  }

  /** `m` with the single entry at (i, j) replaced by `v` (numpy's `m[i, j] = v`). */
  function Update(m: seq<seq<real>>, i: nat, j: nat, v: real): (r: seq<seq<real>>)
    requires i < |m| && j < |m[i]|
    ensures |r| == |m|
    ensures forall a :: 0 <= a < |r| ==> |r[a]| == |m[a]|
    ensures forall a, b :: 0 <= a < |r| && 0 <= b < |r[a]| ==>
      r[a][b] == (if a == i && b == j then v else m[a][b])
  {
    m[i := m[i][j := v]]
  }
}
