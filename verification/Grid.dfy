/** Row-major positions in a flat array. */
module Grid {

  /** The flat index of row r, column j. */
  function At(r: nat, width: nat, j: nat): nat {
    r * width + j
  }

  lemma AtBound(r: nat, rows: nat, width: nat, j: nat)
    requires r < rows && j < width
    ensures At(r, width, j) < rows * width
  {
    assert (rows - 1 - r) * width >= 0;
    assert rows * width == r * width + width + (rows - 1 - r) * width;
  }

  lemma AtInjective(r: nat, j: nat, r': nat, j': nat, width: nat)
    requires j < width && j' < width && At(r, width, j) == At(r', width, j')
    ensures r == r' && j == j'
  {
    if r < r' {
      AtBound(r, r', width, j);
    } else if r' < r {
      AtBound(r', r, width, j');
    }
  }
}
