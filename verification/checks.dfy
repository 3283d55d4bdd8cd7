/** The constraint checker: one group (a row, a column or a flattened block)
    is acceptable when no known value repeats in it and every known value
    is a valid symbol; unknown cells are ignored. */
module Checks {
  import opened Constants
  import opened Operations

  /** No known value occurs twice in `a`. */
  predicate NoRepeats(a: seq<int>) {
    forall i, j :: 0 <= i < j < |a| && a[i] != Unknown ==> a[i] != a[j]
  }

  /** Every known value of `a` is a valid symbol. */
  predicate InDomain(a: seq<int>, valid: set<int>) {
    forall i :: 0 <= i < |a| && a[i] != Unknown ==> a[i] in valid
  }

  /** A group passes both tests. */
  predicate GroupOk(a: seq<int>, valid: set<int>) {
    NoRepeats(a) && InDomain(a, valid)
  }

  /** The known entries of a group, in order (the masked, flattened array). */
  function Known(a: seq<int>): (k: seq<int>)
    ensures forall v :: v in k <==> v in a && v != Unknown
    ensures forall v :: v != Unknown ==> multiset(k)[v] == multiset(a)[v]
  {
    if |a| == 0 then []
    else
      assert a == [a[0]] + a[1..];
      (if a[0] == Unknown then [] else [a[0]]) + Known(a[1..])
  }

  /** The distinct values of a sequence (what numpy's unique keeps). */
  function Elements(s: seq<int>): set<int> {
    set v | v in s
  }

  lemma {:induction false} ElementsBound(s: seq<int>)
    ensures |Elements(s)| <= |s|
  {
    if |s| > 0 {
      ElementsBound(s[1..]);
      assert Elements(s) == {s[0]} + Elements(s[1..]);
    }
  }

  /** Repeats in `a` are repeats of its head or repeats in its tail. */
  lemma NoRepeatsCons(a: seq<int>)
    requires |a| > 0
    ensures NoRepeats(a) <==> NoRepeats(a[1..]) && (a[0] == Unknown || a[0] !in a[1..])
  {
    var t := a[1..];
    if NoRepeats(a) {
      forall i, j | 0 <= i < j < |t| && t[i] != Unknown
        ensures t[i] != t[j]
      {
        assert a[i + 1] == t[i] && a[j + 1] == t[j];
      }
    }
  }

  /** Counting distinct known values detects exactly the repeats. */
  lemma {:induction false} UniqueCount(a: seq<int>)
    ensures |Elements(Known(a))| == |Known(a)| <==> NoRepeats(a)
  {
    if |a| > 0 {
      var t := a[1..];
      UniqueCount(t);
      NoRepeatsCons(a);
      if a[0] != Unknown {
        assert Known(a) == [a[0]] + Known(t);
        assert Elements(Known(a)) == {a[0]} + Elements(Known(t));
        if a[0] in t {
          assert Elements(Known(a)) == Elements(Known(t));
          ElementsBound(Known(t));
        }
      } else {
        assert Known(a) == Known(t);
      }
    }
  }

  /** _check_all_unique: the number of distinct known values equals the
      number of known entries, that is, no known value repeats. */
  function AllUnique(a: seq<int>): (ok: bool)
    ensures ok <==> NoRepeats(a)
  {
    UniqueCount(a);
    |Elements(Known(a))| == |Known(a)|
  }

  /** The known values outside `valid` are exactly the out-of-domain entries. */
  lemma DifferenceEmpty(a: seq<int>, valid: set<int>)
    ensures |Elements(Known(a)) - valid| == 0 <==> InDomain(a, valid)
  {
    if !InDomain(a, valid) {
      var i :| 0 <= i < |a| && a[i] != Unknown && a[i] !in valid;
      assert a[i] in Elements(Known(a)) - valid;
    }
  }

  /** _check_all_valid: the set of known values minus the valid symbols is
      empty, that is, every known value is a valid symbol. */
  function AllValid(a: seq<int>, valid: set<int>): (ok: bool)
    ensures ok <==> InDomain(a, valid)
  {
    DifferenceEmpty(a, valid);
    |Elements(Known(a)) - valid| == 0
  }

  /** Every row passes both tests. */
  predicate RowsValid(data: seq<seq<int>>, valid: set<int>) {
    forall i :: 0 <= i < |data| ==> GroupOk(data[i], valid)
  }

  /** Every column passes both tests. */
  predicate ColumnsValid(data: seq<seq<int>>, cols: nat, valid: set<int>)
    requires IsGrid(data, |data|, cols)
  {
    forall j :: 0 <= j < cols ==> GroupOk(Column(data, j), valid)
  }

  /** Every b-by-b block, flattened row-major, passes both tests. */
  predicate BlocksValid(data: seq<seq<int>>, b: nat, valid: set<int>)
    requires IsGrid(data, b * b, b * b)
  {
    forall r, c :: 0 <= r < b && 0 <= c < b ==> GroupOk(Flatten(Block(data, b, r, c)), valid)
  }

  /** check_horizontals: stops at the first row that fails a test. */
  method CheckHorizontals(data: seq<seq<int>>, valid: set<int>) returns (ok: bool)
    ensures ok <==> forall i :: 0 <= i < |data| ==> NoRepeats(data[i]) && InDomain(data[i], valid)
  {
    var i := 0;
    while i < |data|
      invariant 0 <= i <= |data|
      invariant forall i' :: 0 <= i' < i ==> GroupOk(data[i'], valid)
    {
      var allUnique := AllUnique(data[i]);
      var allValid := AllValid(data[i], valid);
      if !allUnique || !allValid {
        return false;
      }
      i := i + 1;
    }
    return true;
  }

  /** check_verticals: the same test on the columns (the rows of the transpose). */
  method CheckVerticals(data: seq<seq<int>>, cols: nat, valid: set<int>) returns (ok: bool)
    requires IsGrid(data, |data|, cols)
    ensures ok <==> forall j :: 0 <= j < cols ==> NoRepeats(Column(data, j)) && InDomain(Column(data, j), valid)
  {
    var j := 0;
    while j < cols
      invariant 0 <= j <= cols
      invariant forall j' :: 0 <= j' < j ==> GroupOk(Column(data, j'), valid)
    {
      var col := Column(data, j);
      var allUnique := AllUnique(col);
      var allValid := AllValid(col, valid);
      if !allUnique || !allValid {
        return false;
      }
      j := j + 1;
    }
    return true;
  }

  /** check_subblocks: the same test on every block of split_in_subblocks,
      block-row by block-row. */
  method CheckSubblocks(data: seq<seq<int>>, b: nat, valid: set<int>) returns (ok: bool)
    requires 0 < b && IsGrid(data, b * b, b * b)
    ensures ok <==> BlocksValid(data, b, valid)
  {
    var subblocks := SplitInSubblocks(data, b);
    var r := 0;
    while r < b
      invariant 0 <= r <= b
      invariant forall r', c :: 0 <= r' < r && 0 <= c < b ==> GroupOk(Flatten(Block(data, b, r', c)), valid)
    {
      var c := 0;
      while c < b
        invariant 0 <= c <= b
        invariant forall r', c' :: 0 <= r' < r && 0 <= c' < b ==> GroupOk(Flatten(Block(data, b, r', c')), valid)
        invariant forall c' :: 0 <= c' < c ==> GroupOk(Flatten(Block(data, b, r, c')), valid)
      {
        var block := Flatten(subblocks[r][c]);
        var allUnique := AllUnique(block);
        var allValid := AllValid(block, valid);
        if !allUnique || !allValid {
          return false;
        }
        c := c + 1;
      }
      r := r + 1;
    }
    return true;
  }

  /** `a2` is `a` with some of its entries replaced by the unknown sentinel. */
  predicate Forgets(a2: seq<int>, a: seq<int>) {
    |a2| == |a| && forall k :: 0 <= k < |a| ==> a2[k] == a[k] || a2[k] == Unknown
  }

  /** Grid version of Forgets, cell by cell. */
  predicate GridForgets(d2: seq<seq<int>>, d: seq<seq<int>>) {
    |d2| == |d| && forall i :: 0 <= i < |d| ==> Forgets(d2[i], d[i])
  }

  lemma GroupOkForgets(a2: seq<int>, a: seq<int>, valid: set<int>)
    requires Forgets(a2, a) && GroupOk(a, valid)
    ensures GroupOk(a2, valid)
  {
    forall i, j | 0 <= i < j < |a2| && a2[i] != Unknown
      ensures a2[i] != a2[j]
    {
      assert a2[i] == a[i];
    }
  }

  lemma {:induction false} FlattenForgets(ss2: seq<seq<int>>, ss: seq<seq<int>>)
    requires GridForgets(ss2, ss)
    ensures Forgets(Flatten(ss2), Flatten(ss))
  {
    if |ss| > 0 {
      FlattenForgets(ss2[1..], ss[1..]);
      var f2, f := Flatten(ss2), Flatten(ss);
      assert f2 == ss2[0] + Flatten(ss2[1..]);
      assert f == ss[0] + Flatten(ss[1..]);
      forall k | 0 <= k < |f|
        ensures f2[k] == f[k] || f2[k] == Unknown
      {
        if k >= |ss[0]| {
          assert f2[k] == Flatten(ss2[1..])[k - |ss[0]|];
        }
      }
    }
  }

  /** Setting known cells to unknown never makes a check fail: a grid that
      passes all three checks still passes them after any cells are
      cleared. */
  lemma ForgettingKeepsValid(d2: seq<seq<int>>, d: seq<seq<int>>, b: nat, valid: set<int>)
    requires IsGrid(d, b * b, b * b) && GridForgets(d2, d)
    requires RowsValid(d, valid) && ColumnsValid(d, b * b, valid) && BlocksValid(d, b, valid)
    ensures IsGrid(d2, b * b, b * b)
    ensures RowsValid(d2, valid) && ColumnsValid(d2, b * b, valid) && BlocksValid(d2, b, valid)
  {
    forall i | 0 <= i < |d2|
      ensures GroupOk(d2[i], valid)
    {
      GroupOkForgets(d2[i], d[i], valid);
    }
    forall j | 0 <= j < b * b
      ensures GroupOk(Column(d2, j), valid)
    {
      GroupOkForgets(Column(d2, j), Column(d, j), valid);
    }
    forall r, c | 0 <= r < b && 0 <= c < b
      ensures GroupOk(Flatten(Block(d2, b, r, c)), valid)
    {
      BlockForgets(d2, d, b, r, c);
      GroupOkForgets(Flatten(Block(d2, b, r, c)), Flatten(Block(d, b, r, c)), valid);
    }
  }

  /** Clearing cells of a grid clears the same cells of each flattened block. */
  lemma BlockForgets(d2: seq<seq<int>>, d: seq<seq<int>>, b: nat, r: nat, c: nat)
    requires IsGrid(d, b * b, b * b) && GridForgets(d2, d) && r < b && c < b
    ensures IsGrid(d2, b * b, b * b)
    ensures Forgets(Flatten(Block(d2, b, r, c)), Flatten(Block(d, b, r, c)))
  {
    var k2, k := Block(d2, b, r, c), Block(d, b, r, c);
    forall x | 0 <= x < b
      ensures Forgets(k2[x], k[x])
    {
      forall y | 0 <= y < b
        ensures k2[x][y] == k[x][y] || k2[x][y] == Unknown
      {
        BlockAt(d2, b, r, c, x, y);
        BlockAt(d, b, r, c, x, y);
      }
    }
    FlattenForgets(k2, k);
  }

  /** The grid with cell (i, j) set to the unknown sentinel. */
  function ClearCell(d: seq<seq<int>>, i: nat, j: nat): seq<seq<int>>
    requires i < |d| && j < |d[i]|
  {
    d[i := d[i][j := Unknown]]
  }

  /** A grid that passes all three checks still passes them once one of its
      cells is set to unknown. */
  lemma ClearCellKeepsValid(d: seq<seq<int>>, b: nat, valid: set<int>, i: nat, j: nat)
    requires IsGrid(d, b * b, b * b) && i < b * b && j < b * b
    requires RowsValid(d, valid) && ColumnsValid(d, b * b, valid) && BlocksValid(d, b, valid)
    ensures IsGrid(ClearCell(d, i, j), b * b, b * b)
    ensures RowsValid(ClearCell(d, i, j), valid)
    ensures ColumnsValid(ClearCell(d, i, j), b * b, valid)
    ensures BlocksValid(ClearCell(d, i, j), b, valid)
  {
    ForgettingKeepsValid(ClearCell(d, i, j), d, b, valid);
  }

  /** A second copy of a known value in a row makes the row check fail. */
  lemma DuplicateInRowFails(d: seq<seq<int>>, valid: set<int>, i: nat, j1: nat, j2: nat)
    requires i < |d| && j1 < |d[i]| && j2 < |d[i]| && j1 != j2
    requires d[i][j1] == d[i][j2] != Unknown
    ensures !RowsValid(d, valid)
  {
    if j1 < j2 {
      assert !NoRepeats(d[i]);
    } else {
      assert d[i][j2] == d[i][j1];
    }
  }

  /** A second copy of a known value in a column makes the column check fail. */
  lemma DuplicateInColumnFails(d: seq<seq<int>>, cols: nat, valid: set<int>, j: nat, i1: nat, i2: nat)
    requires IsGrid(d, |d|, cols) && j < cols && i1 < |d| && i2 < |d| && i1 != i2
    requires d[i1][j] == d[i2][j] != Unknown
    ensures !ColumnsValid(d, cols, valid)
  {
    var col := Column(d, j);
    if i1 < i2 {
      assert col[i1] == col[i2];
    } else {
      assert col[i2] == col[i1];
    }
    assert !NoRepeats(col);
  }

  /** A second copy of a known value in a block makes the block check fail:
      (i1, j1) and (i2, j2) are distinct cells of the same block holding the
      same known value. */
  lemma DuplicateInBlockFails(d: seq<seq<int>>, b: nat, valid: set<int>, i1: nat, j1: nat, i2: nat, j2: nat)
    requires 0 < b && IsGrid(d, b * b, b * b)
    requires i1 < b * b && j1 < b * b && i2 < b * b && j2 < b * b && (i1, j1) != (i2, j2)
    requires i1 / b == i2 / b && j1 / b == j2 / b
    requires d[i1][j1] == d[i2][j2] != Unknown
    ensures !BlocksValid(d, b, valid)
  {
    var r, x1 := Decompose(i1, b);
    var c, y1 := Decompose(j1, b);
    var r2, x2 := Decompose(i2, b);
    var c2, y2 := Decompose(j2, b);
    DuplicateInFlatBlock(d, b, valid, r, c, x1, y1, x2, y2, i1, j1, i2, j2);
  }

  /** Two different entries of block (r, c), at grid cells (i1, j1) and (i2, j2),
      holding the same known value make that block fail. */
  lemma DuplicateInFlatBlock(d: seq<seq<int>>, b: nat, valid: set<int>, r: nat, c: nat,
                             x1: nat, y1: nat, x2: nat, y2: nat, i1: nat, j1: nat, i2: nat, j2: nat)
    requires IsGrid(d, b * b, b * b) && r < b && c < b && x1 < b && y1 < b && x2 < b && y2 < b
    requires (x1, y1) != (x2, y2)
    requires i1 == r * b + x1 && j1 == c * b + y1 && i2 == r * b + x2 && j2 == c * b + y2
    requires i1 < b * b && j1 < b * b && i2 < b * b && j2 < b * b
    requires d[i1][j1] == d[i2][j2] != Unknown
    ensures !GroupOk(Flatten(Block(d, b, r, c)), valid)
  {
    FlatBlockAt(d, b, r, c, x1, y1);
    FlatBlockAt(d, b, r, c, x2, y2);
    PlacesDiffer(x1, y1, x2, y2, b);
    RepeatBreaks(Flatten(Block(d, b, r, c)), x1 * b + y1, x2 * b + y2);
  }

  /** Distinct entries of a b-by-b block have distinct row-major places. */
  lemma PlacesDiffer(x1: nat, y1: nat, x2: nat, y2: nat, b: nat)
    requires y1 < b && y2 < b
    ensures (x1, y1) != (x2, y2) ==> x1 * b + y1 != x2 * b + y2
  {
    if x1 * b + y1 == x2 * b + y2 {
      BlockCoordsUnique(x1, y1, x2, y2, b);
    }
  }

  /** A known value at two places breaks uniqueness. */
  lemma RepeatBreaks(f: seq<int>, t1: nat, t2: nat)
    requires t1 < |f| && t2 < |f| && t1 != t2 && f[t1] == f[t2] != Unknown
    ensures !NoRepeats(f)
  {
    if t1 < t2 {
      assert f[t1] != Unknown && f[t1] == f[t2];
    } else {
      assert f[t2] != Unknown && f[t2] == f[t1];
    }
  }
}
