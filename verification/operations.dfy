/** Grid geometry: rectangular grids, columns, row-major flattening, and the
    partition of an n-by-n grid (n = b*b) into a b-by-b arrangement of
    b-by-b blocks, together with its inverse (numpy's block assembly). */
module Operations {

  /** `g` has `rows` rows of exactly `cols` entries each. */
  predicate IsGrid<T>(g: seq<seq<T>>, rows: nat, cols: nat) {
    |g| == rows && forall i :: 0 <= i < rows ==> |g[i]| == cols
  }

  /** Column `j` of a grid, top to bottom (a row of the transposed grid). */
  function Column<T>(g: seq<seq<T>>, j: nat): seq<T>
    requires forall i :: 0 <= i < |g| ==> j < |g[i]|
  {
    seq(|g|, i requires 0 <= i < |g| => g[i][j])
  }

  /** Row-major concatenation of a sequence of sequences. */
  function Flatten<T>(ss: seq<seq<T>>): seq<T> {
    if |ss| == 0 then [] else ss[0] + Flatten(ss[1..])
  }

  /** Flattening rows of width `w` gives |ss| * w entries. */
  lemma {:induction false} FlattenLength<T>(ss: seq<seq<T>>, w: nat)
    requires forall x :: 0 <= x < |ss| ==> |ss[x]| == w
    ensures |Flatten(ss)| == |ss| * w
  {
    if |ss| > 0 {
      FlattenLength(ss[1..], w);
      assert |ss| * w == w + (|ss| - 1) * w;
    }
  }

  /** Flattening rows of width `w` puts entry (x, y) at index x*w + y. */
  lemma {:induction false} FlattenAt<T>(ss: seq<seq<T>>, w: nat, x: nat, y: nat)
    requires forall x :: 0 <= x < |ss| ==> |ss[x]| == w
    requires x < |ss| && y < w
    ensures x * w + y < |Flatten(ss)| && Flatten(ss)[x * w + y] == ss[x][y]
  {
    FlattenLength(ss, w);
    MulLe(x + 1, |ss|, w);
    if x > 0 {
      FlattenAt(ss[1..], w, x - 1, y);
      assert x * w + y == w + ((x - 1) * w + y);
    }
  }

  lemma MulLe(a: int, a': int, b: int)
    requires 0 <= a <= a' && 0 <= b
    ensures a * b <= a' * b
  {
    assert a' * b == a * b + (a' - a) * b;
  }

  /** Every index below b*b is (i / b) * b + i % b with both parts below b. */
  lemma DivModBlock(i: int, b: int)
    requires 0 < b && 0 <= i < b * b
    ensures 0 <= i / b < b && 0 <= i % b < b
    ensures i == (i / b) * b + i % b
  {
    var q := i / b;
    assert i == q * b + i % b;
    if q >= b {
      MulLe(b, q, b);
    }
  }

  /** An index below b*b split into its block and its offset in the block. */
  lemma Decompose(i: nat, b: nat) returns (q: nat, m: nat)
    requires 0 < b && i < b * b
    ensures q == i / b && m == i % b && q < b && m < b && i == q * b + m
  {
    DivModBlock(i, b);
    q, m := i / b, i % b;
  }

  /** One more block row or column moves the offset by b. */
  lemma MulSucc(a: nat, b: nat)
    ensures (a + 1) * b == a * b + b
  {
  }

  /** Entry x of block-row r (0 <= r, x < b) lies below b*b. */
  lemma BlockIndexBound(r: int, x: int, b: int)
    requires 0 <= r < b && 0 <= x < b
    ensures r * b + x < b * b && r * b + b <= b * b
  {
    MulLe(r + 1, b, b);
  }

  /** Block coordinates of an index are unique. */
  lemma BlockCoordsUnique(r: int, x: int, r': int, x': int, b: int)
    requires 0 <= x < b && 0 <= x' < b && 0 <= r && 0 <= r'
    requires r * b + x == r' * b + x'
    ensures r == r' && x == x'
  {
    if r < r' {
      MulLe(r + 1, r', b);
    } else if r' < r {
      MulLe(r' + 1, r, b);
    }
  }

  /** The grid position of entry (x, y) of block (r, c). */
  function CellOf(b: nat, r: nat, c: nat, x: nat, y: nat): (nat, nat) {
    (r * b + x, c * b + y)
  }

  /** Columns c*b .. c*b+b-1 of a row of width b*b. */
  function Piece<T>(row: seq<T>, b: nat, c: nat): (piece: seq<T>)
    requires |row| == b * b && c < b
    ensures |piece| == b
  {
    BlockIndexBound(c, 0, b);
    row[c * b .. c * b + b]
  }

  lemma PieceAt<T>(row: seq<T>, b: nat, c: nat, y: nat)
    requires |row| == b * b && c < b && y < b
    ensures c * b + y < b * b && Piece(row, b, c)[y] == row[c * b + y]
  {
    BlockIndexBound(c, y, b);
  }

  /** Row x of block-row r, that is row r*b + x of a grid of height b*b. */
  function RowOf<T>(g: seq<seq<T>>, b: nat, r: nat, x: nat): (row: seq<T>)
    requires IsGrid(g, b * b, b * b) && r < b && x < b
    ensures |row| == b * b
  {
    BlockIndexBound(r, x, b);
    g[r * b + x]
  }

  /** The region of rows r*b .. r*b+b-1 and columns c*b .. c*b+b-1. */
  function Block<T>(g: seq<seq<T>>, b: nat, r: nat, c: nat): (block: seq<seq<T>>)
    requires IsGrid(g, b * b, b * b) && r < b && c < b
    ensures IsGrid(block, b, b)
  {
    seq(b, x requires 0 <= x < b => Piece(RowOf(g, b, r, x), b, c))
  }

  /** Entry (x, y) of block (r, c) is grid cell (r*b + x, c*b + y). */
  lemma BlockAt<T>(g: seq<seq<T>>, b: nat, r: nat, c: nat, x: nat, y: nat)
    requires IsGrid(g, b * b, b * b) && r < b && c < b && x < b && y < b
    ensures r * b + x < b * b && c * b + y < b * b
    ensures Block(g, b, r, c)[x][y] == g[r * b + x][c * b + y]
  {
    BlockIndexBound(r, x, b);
    PieceAt(RowOf(g, b, r, x), b, c, y);
  }

  /** Entry (x, y) of block (r, c) sits at index x*b + y of the flattened block. */
  lemma FlatBlockAt<T>(g: seq<seq<T>>, b: nat, r: nat, c: nat, x: nat, y: nat)
    requires IsGrid(g, b * b, b * b) && r < b && c < b && x < b && y < b
    ensures r * b + x < b * b && c * b + y < b * b
    ensures x * b + y < |Flatten(Block(g, b, r, c))|
    ensures Flatten(Block(g, b, r, c))[x * b + y] == g[r * b + x][c * b + y]
  {
    BlockAt(g, b, r, c, x, y);
    FlattenAt(Block(g, b, r, c), b, x, y);
  }

  /** A flattened block has b*b entries. */
  lemma FlatBlockLength<T>(g: seq<seq<T>>, b: nat, r: nat, c: nat)
    requires IsGrid(g, b * b, b * b) && r < b && c < b
    ensures |Flatten(Block(g, b, r, c))| == b * b
  {
    FlattenLength(Block(g, b, r, c), b);
  }

  /** The rows r*b .. r*b+b-1 of `g` (one slab of numpy's vsplit). */
  function Slab<T>(g: seq<seq<T>>, b: nat, r: nat): (slab: seq<seq<T>>)
    requires IsGrid(g, b * b, b * b) && r < b
    ensures |slab| == b
    ensures forall x :: 0 <= x < b ==> slab[x] == RowOf(g, b, r, x)
  {
    BlockIndexBound(r, 0, b);
    g[r * b .. r * b + b]
  }

  /** numpy's hsplit of a slab into `b` pieces of `b` columns each. */
  function HSplit<T>(slab: seq<seq<T>>, b: nat): (pieces: seq<seq<seq<T>>>)
    requires forall x :: 0 <= x < |slab| ==> |slab[x]| == b * b
    ensures |pieces| == b
  {
    seq(b, c requires 0 <= c < b => seq(|slab|, x requires 0 <= x < |slab| => Piece(slab[x], b, c)))
  }

  /** split_in_subblocks: vsplit the grid into `b` slabs, then hsplit every
      slab into `b` blocks. Block (r, c) of the result is the grid region of
      rows r*b .. r*b+b-1 and columns c*b .. c*b+b-1. */
  function SplitInSubblocks<T>(data: seq<seq<T>>, b: nat): (blocks: seq<seq<seq<seq<T>>>>)
    requires 0 < b && IsGrid(data, b * b, b * b)
    ensures |blocks| == b
    ensures forall r :: 0 <= r < b ==> |blocks[r]| == b
    ensures forall r, c :: 0 <= r < b && 0 <= c < b ==> blocks[r][c] == Block(data, b, r, c)
  {
    var blocks := seq(b, r requires 0 <= r < b => HSplit(Slab(data, b, r), b));
    assert forall r, c :: 0 <= r < b && 0 <= c < b ==> blocks[r][c] == Block(data, b, r, c);
    blocks
  }

  /** The split is a b-by-b arrangement of b-by-b blocks, and entry (x, y)
      of block (r, c) is cell (r*b + x, c*b + y) of the grid. */
  lemma SplitAt<T>(data: seq<seq<T>>, b: nat, r: nat, c: nat, x: nat, y: nat)
    requires 0 < b && IsGrid(data, b * b, b * b) && r < b && c < b && x < b && y < b
    ensures IsBlockGrid(SplitInSubblocks(data, b), b)
    ensures CellOf(b, r, c, x, y).0 < b * b && CellOf(b, r, c, x, y).1 < b * b
    ensures SplitInSubblocks(data, b)[r][c][x][y] == data[r * b + x][c * b + y]
  {
    BlockAt(data, b, r, c, x, y);
  }

  /** The blocks partition the grid: cell (i, j) is entry (x, y) = (i % b, j % b)
      of block (r, c) = (i / b, j / b), and no other block position names it. */
  lemma SplitPartitions<T>(data: seq<seq<T>>, b: nat, i: nat, j: nat) returns (r: nat, c: nat, x: nat, y: nat)
    requires 0 < b && IsGrid(data, b * b, b * b) && i < b * b && j < b * b
    ensures r == i / b && c == j / b && x == i % b && y == j % b
    ensures r < b && c < b && x < b && y < b && CellOf(b, r, c, x, y) == (i, j)
    ensures SplitInSubblocks(data, b)[r][c][x][y] == data[i][j]
    ensures forall r': nat, c': nat, x': nat, y': nat ::
              r' < b && c' < b && x' < b && y' < b && CellOf(b, r', c', x', y') == (i, j) ==>
              r' == r && c' == c && x' == x && y' == y
  {
    r, x := Decompose(i, b);
    c, y := Decompose(j, b);
    BlockAt(data, b, r, c, x, y);
    forall r': nat, c': nat, x': nat, y': nat | r' < b && c' < b && x' < b && y' < b && CellOf(b, r', c', x', y') == (i, j)
      ensures r' == r && c' == c && x' == x && y' == y
    {
      BlockCoordsUnique(r', x', r, x, b);
      BlockCoordsUnique(c', y', c, y, b);
    }
  }

  /** `blocks` is a b-by-b arrangement of b-by-b blocks. */
  predicate IsBlockGrid<T>(blocks: seq<seq<seq<seq<T>>>>, b: nat) {
    |blocks| == b &&
    forall r :: 0 <= r < b ==> |blocks[r]| == b && forall c :: 0 <= c < b ==> IsGrid(blocks[r][c], b, b)
  }

  /** Row x of block-row r of the assembled grid: the x-th rows of the
      blocks of that block-row, side by side. */
  function AssembledRow<T>(blocks: seq<seq<seq<seq<T>>>>, b: nat, r: nat, x: nat): seq<T>
    requires IsBlockGrid(blocks, b) && r < b && x < b
  {
    Flatten(seq(b, c requires 0 <= c < b => blocks[r][c][x]))
  }

  /** The rows of the assembled grid, grouped by block-row. */
  function AssembledRows<T>(blocks: seq<seq<seq<seq<T>>>>, b: nat): seq<seq<seq<T>>>
    requires IsBlockGrid(blocks, b)
  {
    seq(b, r requires 0 <= r < b => seq(b, x requires 0 <= x < b => AssembledRow(blocks, b, r, x)))
  }

  /** numpy's block assembly of a b-by-b arrangement of b-by-b blocks. */
  function Assemble<T>(blocks: seq<seq<seq<seq<T>>>>, b: nat): seq<seq<T>>
    requires IsBlockGrid(blocks, b)
  {
    Flatten(AssembledRows(blocks, b))
  }

  /** Entry (x, y) of block (r, c) lands at (r*b + x, c*b + y) of the assembly. */
  lemma AssembleAt<T>(blocks: seq<seq<seq<seq<T>>>>, b: nat, r: nat, c: nat, x: nat, y: nat)
    requires IsBlockGrid(blocks, b) && r < b && c < b && x < b && y < b
    ensures r * b + x < |Assemble(blocks, b)|
    ensures c * b + y < |Assemble(blocks, b)[r * b + x]|
    ensures Assemble(blocks, b)[r * b + x][c * b + y] == blocks[r][c][x][y]
  {
    FlattenAt(AssembledRows(blocks, b), b, r, x);
    FlattenAt(seq(b, c requires 0 <= c < b => blocks[r][c][x]), b, c, y);
  }

  /** The assembly of a b-by-b arrangement of b-by-b blocks is b*b by b*b. */
  lemma AssembleShape<T>(blocks: seq<seq<seq<seq<T>>>>, b: nat)
    requires 0 < b && IsBlockGrid(blocks, b)
    ensures IsGrid(Assemble(blocks, b), b * b, b * b)
  {
    var rows := AssembledRows(blocks, b);
    FlattenLength(rows, b);
    forall i | 0 <= i < b * b
      ensures |Assemble(blocks, b)[i]| == b * b
    {
      DivModBlock(i, b);
      FlattenAt(rows, b, i / b, i % b);
      FlattenLength(seq(b, c requires 0 <= c < b => blocks[i / b][c][i % b]), b);
    }
  }

  /** Reassembling the blocks gives back the grid that was split. */
  lemma AssembleSplit<T>(data: seq<seq<T>>, b: nat)
    requires 0 < b && IsGrid(data, b * b, b * b)
    ensures IsBlockGrid(SplitInSubblocks(data, b), b)
    ensures Assemble(SplitInSubblocks(data, b), b) == data
  {
    var blocks := SplitInSubblocks(data, b);
    SplitAt(data, b, 0, 0, 0, 0);
    AssembleShape(blocks, b);
    var a := Assemble(blocks, b);
    forall i | 0 <= i < b * b
      ensures a[i] == data[i]
    {
      forall j | 0 <= j < b * b
        ensures a[i][j] == data[i][j]
      {
        var r, c, x, y := SplitPartitions(data, b, i, j);
        AssembleAt(blocks, b, r, c, x, y);
      }
    }
  }

  /** Splitting an assembled grid gives back the blocks it was built from. */
  lemma SplitAssemble<T>(blocks: seq<seq<seq<seq<T>>>>, b: nat)
    requires 0 < b && IsBlockGrid(blocks, b)
    ensures IsGrid(Assemble(blocks, b), b * b, b * b)
    ensures SplitInSubblocks(Assemble(blocks, b), b) == blocks
  {
    AssembleShape(blocks, b);
    var a := Assemble(blocks, b);
    var s := SplitInSubblocks(a, b);
    forall r | 0 <= r < b
      ensures s[r] == blocks[r]
    {
      forall c | 0 <= c < b
        ensures s[r][c] == blocks[r][c]
      {
        forall x | 0 <= x < b
          ensures s[r][c][x] == blocks[r][c][x]
        {
          forall y | 0 <= y < b
            ensures s[r][c][x][y] == blocks[r][c][x][y]
          {
            BlockAt(a, b, r, c, x, y);
            AssembleAt(blocks, b, r, c, x, y);
          }
        }
      }
    }
  }
}
