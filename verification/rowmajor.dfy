/** Row-major addressing of an nx-by-ny grid (FDTD::idx): cell (i, j) is stored at j*nx + i. */
module RowMajor {

  predicate InGrid(nx: int, ny: int, i: int, j: int) {
    0 <= i < nx && 0 <= j < ny
  }

  /** The address of cell (i, j): row j occupies the nx addresses starting at j*nx. */
  function Idx(nx: int, i: int, j: int): (k: int)
    ensures 0 <= i < nx ==> j * nx <= k < j * nx + nx
  {
    j * nx + i
  }

  /** Column of flat index k. */
  function Col(nx: int, k: int): int
    requires nx > 0
  {
    k % nx
  }

  /** Row of flat index k. */
  function Row(nx: int, k: int): int
    requires nx > 0
  {
    k / nx
  }

  /** A grid that has a cell has at least one column. */
  lemma HasColumns(nx: int, ny: int, k: int)
    requires 0 <= nx && 0 <= ny && 0 <= k < nx * ny
    ensures nx > 0
  {
  }

  lemma MulMonotone(a: int, b: int, c: int)
    requires 0 <= c && a <= b
    ensures a * c <= b * c
  {
    assert b * c - a * c == (b - a) * c;
  }

  lemma MulSucc(a: int, c: int)
    ensures (a + 1) * c == a * c + c
  {
  }

  /** Every grid cell is addressed inside the buffer. */
  lemma IdxInRange(nx: int, ny: int, i: int, j: int)
    requires InGrid(nx, ny, i, j)
    ensures 0 <= Idx(nx, i, j) < nx * ny
  {
    MulMonotone(0, j, nx);
    MulMonotone(j + 1, ny, nx);
    MulSucc(j, nx);
  }

  /** Column and row recover the cell an index was computed from. */
  lemma CellOfIdx(nx: int, i: int, j: int)
    requires 0 <= i < nx
    ensures Col(nx, Idx(nx, i, j)) == i && Row(nx, Idx(nx, i, j)) == j
  {
    var k := Idx(nx, i, j);
    var q, r := k / nx, k % nx;
    assert k == q * nx + r && 0 <= r < nx;
    if q > j {
      MulSucc(j, nx);
      MulMonotone(j + 1, q, nx);
    } else if q < j {
      MulSucc(q, nx);
      MulMonotone(q + 1, j, nx);
    }
  }

  /** Every index of an nx*ny buffer is the address of exactly the cell (Col, Row). */
  lemma IdxOfCell(nx: int, ny: int, k: int)
    requires 0 <= nx && 0 <= ny && 0 <= k < nx * ny
    ensures nx > 0
    ensures InGrid(nx, ny, Col(nx, k), Row(nx, k))
    ensures Idx(nx, Col(nx, k), Row(nx, k)) == k
  {
    HasColumns(nx, ny, k);
    var q := k / nx;
    assert k == q * nx + k % nx;
    if q >= ny {
      MulMonotone(ny, q, nx);
    }
  }

  /** FDTD::idx is injective on grid cells. */
  lemma IdxInjective(nx: int, ny: int, i: int, j: int, i': int, j': int)
    requires InGrid(nx, ny, i, j) && InGrid(nx, ny, i', j')
    requires Idx(nx, i, j) == Idx(nx, i', j')
    ensures i == i' && j == j'
  {
    CellOfIdx(nx, i, j);
    CellOfIdx(nx, i', j');
  }
}
