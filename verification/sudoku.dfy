/** The puzzle state: construction from an input array, the initial candidate
    array, the solved and unsolved cell lists, the optional checks, and the
    classic (block) puzzle with its perfect-square size test. */
module Sudoku {
  import opened Constants
  import opened Operations
  import opened Checks
  import opened Rules

  datatype Option<T> = None | Some(value: T)

  /** The validators a puzzle class may list. */
  datatype CheckKind = Horizontals | Verticals | Subblocks

  /** Why construction fails. */
  datatype PuzzleError =
    | NotTwoDimensional             // ValueError: the data is not 2-D
    | SymbolNotValid                // IndexError: a given value is not a valid symbol
    | FailedCheck(check: CheckKind) // ValueError: a listed check fails
    | NotSquare                     // ValueError: rows and columns differ
    | NotPerfectSquare              // ValueError: the row count is not a perfect square

  datatype Result<T> = Success(value: T) | Failure(error: PuzzleError)

  /** An n-dimensional integer array: its shape and its cells in row-major order. */
  datatype NdArray = NdArray(shape: seq<nat>, cells: seq<int>)

  /** A constructed puzzle: the 2-D data (unknown cells hold Unknown), the number
      of columns, the sorted valid symbols, the candidate array over those
      symbols and the block size, which only a classic puzzle sets. */
  datatype Puzzle = Puzzle(data: seq<seq<int>>, cols: nat, valid: seq<int>,
                           options: seq<seq<seq<bool>>>, blockSize: Option<nat>)

  /** The checks the base puzzle runs: none. */
  const PuzzleChecks: seq<CheckKind> := []

  /** The validators the classic puzzle lists. */
  const ClassicValidators: seq<CheckKind> := [Horizontals, Verticals, Subblocks]

  // ---------------------------------------------------------------------
  // Shape of the input
  // ---------------------------------------------------------------------

  /** Number of cells of an array of this shape. */
  function Product(shape: seq<nat>): nat {
    if |shape| == 0 then 1 else shape[0] * Product(shape[1..])
  }

  /** The shape after removing every axis of length one. */
  function Squeeze(shape: seq<nat>): (r: seq<nat>)
    ensures Product(r) == Product(shape)
    ensures forall d :: d in r <==> d in shape && d != 1
    ensures |r| <= |shape|
  {
    if |shape| == 0 then []
    else if shape[0] == 1 then Squeeze(shape[1..])
    else [shape[0]] + Squeeze(shape[1..])
  }

  /** `pos` is a strictly increasing list of positions of `shape` whose lengths
      are `r`, and every axis not listed has length one. */
  predicate Picks(shape: seq<nat>, r: seq<nat>, pos: seq<nat>) {
    |pos| == |r|
    && (forall k :: 0 <= k < |pos| ==> pos[k] < |shape| && shape[pos[k]] == r[k])
    && (forall k, l :: 0 <= k < l < |pos| ==> pos[k] < pos[l])
    && (forall t :: 0 <= t < |shape| && t !in pos ==> shape[t] == 1)
  }

  /** Positions into the tail, moved one axis to the right. */
  function Shift(rest: seq<nat>): (shifted: seq<nat>)
    ensures |shifted| == |rest|
    ensures forall k :: 0 <= k < |rest| ==> shifted[k] == rest[k] + 1
  {
    seq(|rest|, k requires 0 <= k < |rest| => rest[k] + 1)
  }

  /** A position above 0 that the shifted positions miss is one position
      further right than a position `rest` misses. */
  lemma ShiftMisses(rest: seq<nat>, t: nat)
    requires 0 < t && t !in Shift(rest)
    ensures t - 1 !in rest
  {
  }

  /** A new leading axis of length one is skipped. */
  lemma PicksSkip(tail: seq<nat>, r: seq<nat>, rest: seq<nat>)
    requires Picks(tail, r, rest)
    ensures Picks([1] + tail, r, Shift(rest))
  {
    var shape := [1] + tail;
    var pos := Shift(rest);
    forall k | 0 <= k < |pos|
      ensures pos[k] < |shape| && shape[pos[k]] == r[k]
    {
      assert shape[pos[k]] == tail[rest[k]];
    }
    forall t | 0 < t < |shape| && t !in pos
      ensures shape[t] == 1
    {
      ShiftMisses(rest, t);
      assert shape[t] == tail[t - 1];
    }
  }

  /** A new leading axis of another length is listed first. */
  lemma PicksKeep(x: nat, tail: seq<nat>, r: seq<nat>, rest: seq<nat>)
    requires Picks(tail, r, rest) && x != 1
    ensures Picks([x] + tail, [x] + r, [0] + Shift(rest))
  {
    KeepEntries(x, tail, r, rest);
    KeepMissing(x, tail, rest);
    var pos := [0] + Shift(rest);
    forall k, l | 0 <= k < l < |pos|
      ensures pos[k] < pos[l]
    {
    }
  }

  /** The listed axes of [x] + tail have the lengths [x] + r. */
  lemma KeepEntries(x: nat, tail: seq<nat>, r: seq<nat>, rest: seq<nat>)
    requires Picks(tail, r, rest)
    ensures forall k :: 0 <= k < |rest| + 1 ==>
              ([0] + Shift(rest))[k] < |tail| + 1 && ([x] + tail)[([0] + Shift(rest))[k]] == ([x] + r)[k]
  {
    var shape, pos, kept := [x] + tail, [0] + Shift(rest), [x] + r;
    forall k | 0 <= k < |pos|
      ensures pos[k] < |shape| && shape[pos[k]] == kept[k]
    {
      if k > 0 {
        assert pos[k] == rest[k - 1] + 1 && kept[k] == r[k - 1];
        assert shape[pos[k]] == tail[rest[k - 1]];
      }
    }
  }

  /** Every axis of [x] + tail missing from [0] + Shift(rest) has length one. */
  lemma KeepMissing(x: nat, tail: seq<nat>, rest: seq<nat>)
    requires forall t :: 0 <= t < |tail| && t !in rest ==> tail[t] == 1
    ensures forall t :: 0 <= t < |tail| + 1 && t !in [0] + Shift(rest) ==> ([x] + tail)[t] == 1
  {
    var shape, pos := [x] + tail, [0] + Shift(rest);
    forall t | 0 <= t < |shape| && t !in pos
      ensures shape[t] == 1
    {
      assert t != 0 && t !in Shift(rest);
      ShiftMisses(rest, t);
      assert shape[t] == tail[t - 1];
    }
  }

  /** Squeezing keeps the other axes in their original order: a strictly
      increasing list of positions of `shape` picks them out, and every axis
      not picked has length one. */
  lemma {:induction false} SqueezeKeepsOrder(shape: seq<nat>) returns (pos: seq<nat>)
    ensures Picks(shape, Squeeze(shape), pos)
  {
    if |shape| == 0 {
      pos := [];
    } else {
      var rest := SqueezeKeepsOrder(shape[1..]);
      assert shape == [shape[0]] + shape[1..];
      if shape[0] == 1 {
        PicksSkip(shape[1..], Squeeze(shape[1..]), rest);
        pos := Shift(rest);
      } else {
        PicksKeep(shape[0], shape[1..], Squeeze(shape[1..]), rest);
        pos := [0] + Shift(rest);
      }
    }
  }

  /** Axes p < q are the only ones whose length is not one. */
  predicate OnlyAxes(shape: seq<nat>, p: nat, q: nat)
    requires p < q < |shape|
  {
    shape[p] != 1 && shape[q] != 1
    && forall t :: 0 <= t < |shape| && t != p && t != q ==> shape[t] == 1
  }

  /** The squeezed shape has two axes exactly when two axes of the input have a
      length other than one; it is then those two lengths, the earlier axis first. */
  lemma SqueezeTwoAxes(shape: seq<nat>)
    ensures |Squeeze(shape)| == 2 <==> exists p, q :: 0 <= p < q < |shape| && OnlyAxes(shape, p, q)
    ensures forall p, q :: 0 <= p < q < |shape| && OnlyAxes(shape, p, q) ==>
              Squeeze(shape) == [shape[p], shape[q]]
  {
    var r := Squeeze(shape);
    var pos := SqueezeKeepsOrder(shape);
    // every picked axis has a length other than one
    forall k | 0 <= k < |pos|
      ensures shape[pos[k]] != 1
    {
      assert r[k] in r;
    }
    if |r| == 2 {
      assert OnlyAxes(shape, pos[0], pos[1]);
    }
    forall p, q | 0 <= p < q < |shape| && OnlyAxes(shape, p, q)
      ensures r == [shape[p], shape[q]]
    {
      assert p in pos && q in pos;
      assert forall k :: 0 <= k < |pos| ==> pos[k] == p || pos[k] == q;
      var kp :| 0 <= kp < |pos| && pos[kp] == p;
      var kq :| 0 <= kq < |pos| && pos[kq] == q;
      assert kp < kq;
      assert kp == 0 && kq == 1;
    }
  }

  /** A cell sequence read as a rows-by-cols grid; flattening gives the cells back. */
  function Reshape(cells: seq<int>, rows: nat, cols: nat): (g: seq<seq<int>>)
    requires |cells| == rows * cols
    ensures IsGrid(g, rows, cols)
    ensures Flatten(g) == cells
    decreases rows
  {
    if rows == 0 then []
    else
      MulSucc(rows - 1, cols);
      [cells[..cols]] + Reshape(cells[cols..], rows - 1, cols)
  }

  /** The caller's unknown sentinel u becomes Unknown. */
  function ReplaceUnknown(g: seq<seq<int>>, u: int): (r: seq<seq<int>>)
    ensures |r| == |g| && forall i :: 0 <= i < |g| ==> |r[i]| == |g[i]|
    ensures forall i, j :: 0 <= i < |g| && 0 <= j < |g[i]| ==>
              (r[i][j] == Unknown <==> g[i][j] == u || g[i][j] == Unknown)
    ensures forall i, j :: 0 <= i < |g| && 0 <= j < |g[i]| && r[i][j] != Unknown ==> r[i][j] == g[i][j]
  {
    seq(|g|, i requires 0 <= i < |g| =>
      seq(|g[i]|, j requires 0 <= j < |g[i]| => if g[i][j] == u then Unknown else g[i][j]))
  }

  /** Replacing twice changes nothing more. */
  lemma ReplaceUnknownIdempotent(g: seq<seq<int>>, u: int)
    ensures ReplaceUnknown(ReplaceUnknown(g, u), u) == ReplaceUnknown(g, u)
  {
    var r := ReplaceUnknown(g, u);
    var rr := ReplaceUnknown(r, u);
    forall i | 0 <= i < |g|
      ensures rr[i] == r[i]
    {
      forall j | 0 <= j < |g[i]|
        ensures rr[i][j] == r[i][j]
      {
        if r[i][j] != Unknown {
          assert r[i][j] == g[i][j] != u;
        }
      }
    }
  }

  // ---------------------------------------------------------------------
  // The valid symbols
  // ---------------------------------------------------------------------

  predicate Increasing(s: seq<int>) {
    forall a, b :: 0 <= a < b < |s| ==> s[a] < s[b]
  }

  /** Insert e into an increasing sequence, keeping it increasing and duplicate-free. */
  function Insert(e: int, s: seq<int>): (r: seq<int>)
    requires Increasing(s)
    ensures Increasing(r)
    ensures forall k :: 0 <= k < |r| ==> r[k] >= (if |s| == 0 || e < s[0] then e else s[0])
    ensures forall x :: x in r <==> x == e || x in s
  {
    if |s| == 0 then [e]
    else if e < s[0] then [e] + s
    else if e == s[0] then s
    else [s[0]] + Insert(e, s[1..])
  }

  /** The symbols sorted ascending with duplicates removed. */
  function SortedUnique(symbols: seq<int>): (r: seq<int>)
    ensures Increasing(r)
    ensures forall x :: x in r <==> x in symbols
  {
    if |symbols| == 0 then [] else Insert(symbols[0], SortedUnique(symbols[1..]))
  }

  /** Two increasing sequences with the same elements are equal: the sorted
      symbols depend only on the set of symbols given. */
  lemma {:induction false} IncreasingUnique(s: seq<int>, t: seq<int>)
    requires Increasing(s) && Increasing(t)
    requires forall x :: x in s <==> x in t
    ensures s == t
    decreases |s|
  {
    if |t| > 0 {
      assert t[0] in t;
      assert t[0] in s;
    }
    if |s| > 0 {
      assert s[0] in s;
      assert s[0] in t;
    }
    if |s| > 0 && |t| > 0 {
      assert s[0] == t[0];
      forall x
        ensures x in s[1..] <==> x in t[1..]
      {
        if x in s[1..] {
          var k :| 1 <= k < |s| && s[k] == x;
          assert x in t && x != t[0];
        }
        if x in t[1..] {
          var k :| 1 <= k < |t| && t[k] == x;
          assert x in s && x != s[0];
        }
      }
      IncreasingUnique(s[1..], t[1..]);
    }
  }

  /** Sorting the symbols gives the same result for every listing of the same set. */
  lemma SortedUniqueOrderFree(a: seq<int>, b: seq<int>)
    requires forall x :: x in a <==> x in b
    ensures SortedUnique(a) == SortedUnique(b)
  {
    IncreasingUnique(SortedUnique(a), SortedUnique(b));
  }

  /** Position of e among the valid symbols: the first index holding it, or
      None when e is not a valid symbol. */
  function IndexOf(valid: seq<int>, e: int): (r: Option<nat>)
    ensures r.None? <==> e !in valid
    ensures r.Some? ==> r.value < |valid| && valid[r.value] == e
    ensures r.Some? ==> forall t :: 0 <= t < r.value ==> valid[t] != e
  {
    if |valid| == 0 then None
    else if valid[0] == e then Some(0)
    else match IndexOf(valid[1..], e)
      case None => None
      case Some(t) => Some(t + 1)
  }

  /** In a duplicate-free symbol list the index of a symbol is the one place holding it. */
  lemma IndexOfIncreasing(valid: seq<int>, e: int, t: nat)
    requires Increasing(valid) && t < |valid|
    ensures IndexOf(valid, e) == Some(t) <==> valid[t] == e
  {
  }

  // ---------------------------------------------------------------------
  // The initial candidate array
  // ---------------------------------------------------------------------

  /** Every given (known) value is a valid symbol. */
  predicate SymbolsKnown(data: seq<seq<int>>, valid: seq<int>) {
    forall i, j :: 0 <= i < |data| && 0 <= j < |data[i]| && data[i][j] != Unknown ==> data[i][j] in valid
  }

  /** Initial candidates of one cell: all symbols when unknown, otherwise only the
      index of its value. */
  function CellMask(value: int, valid: seq<int>): (mask: seq<bool>)
    ensures |mask| == |valid|
  {
    if value == Unknown then seq(|valid|, _ => true)
    else seq(|valid|, t => IndexOf(valid, value) == Some(t))
  }

  /** The candidate array of a fresh puzzle; fails on the first given value that is
      not a valid symbol. */
  function Initialize(data: seq<seq<int>>, cols: nat, valid: seq<int>): (r: Result<seq<seq<seq<bool>>>>)
    requires IsGrid(data, |data|, cols) && Increasing(valid)
    ensures r.Success? <==> SymbolsKnown(data, valid)
    ensures r.Failure? ==> r.error == SymbolNotValid
    ensures r.Success? ==> IsGrid(r.value, |data|, cols)
    ensures r.Success? ==> forall i, j :: 0 <= i < |data| && 0 <= j < cols ==> |r.value[i][j]| == |valid|
    ensures r.Success? ==> forall i, j, t :: 0 <= i < |data| && 0 <= j < cols && 0 <= t < |valid| ==>
              (r.value[i][j][t] <==> data[i][j] == Unknown || valid[t] == data[i][j])
  {
    if SymbolsKnown(data, valid) then
      Success(seq(|data|, i requires 0 <= i < |data| =>
        seq(cols, j requires 0 <= j < cols => CellMask(data[i][j], valid))))
    else Failure(SymbolNotValid)
  }

  /** Count of a mask whose candidates are all open. */
  lemma {:induction false} CountFull(mask: seq<bool>)
    requires forall t :: 0 <= t < |mask| ==> mask[t]
    ensures Count(mask) == |mask|
  {
    if |mask| > 0 {
      CountFull(mask[1..]);
    }
  }

  /** After initialisation an unknown cell has all k candidates and a given cell is
      collapsed onto the index of its value. */
  lemma InitialCandidates(data: seq<seq<int>>, cols: nat, valid: seq<int>, i: nat, j: nat)
    requires IsGrid(data, |data|, cols) && Increasing(valid) && SymbolsKnown(data, valid)
    requires i < |data| && j < cols
    ensures Initialize(data, cols, valid).Success?
    ensures data[i][j] == Unknown ==> Count(Initialize(data, cols, valid).value[i][j]) == |valid|
    ensures data[i][j] != Unknown ==>
              Collapsed(Initialize(data, cols, valid).value[i][j])
              && Admits(Initialize(data, cols, valid).value[i][j], IndexOf(valid, data[i][j]).value)
  {
    var mask := Initialize(data, cols, valid).value[i][j];
    if data[i][j] == Unknown {
      CountFull(mask);
    } else {
      var t := IndexOf(valid, data[i][j]).value;
      CountSingle(mask, t);
    }
  }

  /** A completion of the givens: one symbol index per cell, agreeing with every
      given value. */
  predicate Completes(sol: seq<seq<nat>>, data: seq<seq<int>>, cols: nat, valid: seq<int>)
    requires IsGrid(data, |data|, cols)
  {
    IsGrid(sol, |data|, cols)
    && forall i, j :: 0 <= i < |data| && 0 <= j < cols ==>
         sol[i][j] < |valid| && (data[i][j] != Unknown ==> valid[sol[i][j]] == data[i][j])
  }

  /** The initial candidate array rules out no completion of the givens, so the
      elimination rules start from a sound state. */
  lemma InitialAdmitsCompletions(data: seq<seq<int>>, cols: nat, valid: seq<int>, sol: seq<seq<nat>>)
    requires IsGrid(data, |data|, cols) && Increasing(valid) && SymbolsKnown(data, valid)
    requires Completes(sol, data, cols, valid)
    ensures Initialize(data, cols, valid).Success?
    ensures forall i, j :: 0 <= i < |data| && 0 <= j < cols ==>
              Admits(Initialize(data, cols, valid).value[i][j], sol[i][j])
  {
  }

  // ---------------------------------------------------------------------
  // Solved and unsolved cells
  // ---------------------------------------------------------------------

  /** Row-major order on cell positions. */
  predicate Before(p: (nat, nat), q: (nat, nat)) {
    p.0 < q.0 || (p.0 == q.0 && p.1 < q.1)
  }

  /** Strictly increasing in row-major order (so also free of duplicates). */
  predicate RowMajor(ids: seq<(nat, nat)>) {
    forall a, b :: 0 <= a < b < |ids| ==> Before(ids[a], ids[b])
  }

  /** The cell is solved (holds a known value). */
  predicate IsSolved(data: seq<seq<int>>, p: (nat, nat)) {
    p.0 < |data| && p.1 < |data[p.0]| && data[p.0][p.1] != Unknown
  }

  /** The cell is unsolved (holds Unknown). */
  predicate IsUnsolved(data: seq<seq<int>>, p: (nat, nat)) {
    p.0 < |data| && p.1 < |data[p.0]| && data[p.0][p.1] == Unknown
  }

  /** Positions (i, j') with j <= j' in row i whose solved state is `solved`. */
  function RowIds(data: seq<seq<int>>, i: nat, j: nat, solved: bool): seq<(nat, nat)>
    requires i < |data| && j <= |data[i]|
    decreases |data[i]| - j
  {
    if j == |data[i]| then []
    else (if (data[i][j] != Unknown) == solved then [(i, j)] else []) + RowIds(data, i, j + 1, solved)
  }

  /** RowIds holds exactly the matching positions of the row from j on, in order. */
  lemma {:induction false} RowIdsSpec(data: seq<seq<int>>, i: nat, j: nat, solved: bool)
    requires i < |data| && j <= |data[i]|
    ensures forall p :: p in RowIds(data, i, j, solved) <==>
              p.0 == i && j <= p.1 < |data[i]| && (data[i][p.1] != Unknown) == solved
    ensures RowMajor(RowIds(data, i, j, solved))
    decreases |data[i]| - j
  {
    if j < |data[i]| {
      RowIdsSpec(data, i, j + 1, solved);
      var rest := RowIds(data, i, j + 1, solved);
      if (data[i][j] != Unknown) == solved {
        assert RowIds(data, i, j, solved) == [(i, j)] + rest;
        assert forall a :: 0 <= a < |rest| ==> rest[a] in rest;
      } else {
        assert RowIds(data, i, j, solved) == rest;
      }
    }
  }

  /** Positions in rows i.. whose solved state is `solved`, row-major. */
  function IdsFrom(data: seq<seq<int>>, i: nat, solved: bool): seq<(nat, nat)>
    requires i <= |data|
    decreases |data| - i
  {
    if i == |data| then [] else RowIds(data, i, 0, solved) + IdsFrom(data, i + 1, solved)
  }

  /** IdsFrom holds exactly the matching positions of rows i.., in order. */
  lemma {:induction false} IdsFromSpec(data: seq<seq<int>>, i: nat, solved: bool)
    requires i <= |data|
    ensures forall p :: p in IdsFrom(data, i, solved) <==>
              i <= p.0 < |data| && p.1 < |data[p.0]| && (data[p.0][p.1] != Unknown) == solved
    ensures RowMajor(IdsFrom(data, i, solved))
    decreases |data| - i
  {
    if i < |data| {
      RowIdsSpec(data, i, 0, solved);
      IdsFromSpec(data, i + 1, solved);
      var row := RowIds(data, i, 0, solved);
      var rest := IdsFrom(data, i + 1, solved);
      assert forall a :: 0 <= a < |row| ==> row[a] in row;
      assert forall b :: 0 <= b < |rest| ==> rest[b] in rest;
    }
  }

  /** Positions of the solved cells, row-major. */
  function SolvedIds(data: seq<seq<int>>): (ids: seq<(nat, nat)>)
    ensures forall p :: p in ids <==> IsSolved(data, p)
    ensures RowMajor(ids)
  {
    IdsFromSpec(data, 0, true);
    IdsFrom(data, 0, true)
  }

  /** Positions of the unsolved cells, row-major. */
  function UnsolvedIds(data: seq<seq<int>>): (ids: seq<(nat, nat)>)
    ensures forall p :: p in ids <==> IsUnsolved(data, p)
    ensures RowMajor(ids)
  {
    IdsFromSpec(data, 0, false);
    IdsFrom(data, 0, false)
  }

  /** The solved and unsolved cells of a row split its cells between them. */
  lemma {:induction false} RowIdsCount(data: seq<seq<int>>, i: nat, j: nat)
    requires i < |data| && j <= |data[i]|
    ensures |RowIds(data, i, j, true)| + |RowIds(data, i, j, false)| == |data[i]| - j
    decreases |data[i]| - j
  {
    if j < |data[i]| {
      RowIdsCount(data, i, j + 1);
      if data[i][j] != Unknown {
        assert RowIds(data, i, j, true) == [(i, j)] + RowIds(data, i, j + 1, true);
        assert RowIds(data, i, j, false) == RowIds(data, i, j + 1, false);
      } else {
        assert RowIds(data, i, j, true) == RowIds(data, i, j + 1, true);
        assert RowIds(data, i, j, false) == [(i, j)] + RowIds(data, i, j + 1, false);
      }
    }
  }

  /** Number of cells in rows i.. . */
  function CellsFrom(data: seq<seq<int>>, i: nat): nat
    requires i <= |data|
    decreases |data| - i
  {
    if i == |data| then 0 else |data[i]| + CellsFrom(data, i + 1)
  }

  lemma {:induction false} IdsFromCount(data: seq<seq<int>>, i: nat)
    requires i <= |data|
    ensures |IdsFrom(data, i, true)| + |IdsFrom(data, i, false)| == CellsFrom(data, i)
    decreases |data| - i
  {
    if i < |data| {
      RowIdsCount(data, i, 0);
      IdsFromCount(data, i + 1);
    }
  }

  /** The two lists partition the cell positions: none is in both, every cell is in
      one, and together they hold rows * cols positions. */
  lemma SolvedUnsolvedPartition(data: seq<seq<int>>, rows: nat, cols: nat)
    requires IsGrid(data, rows, cols)
    ensures forall p :: !(p in SolvedIds(data) && p in UnsolvedIds(data))
    ensures forall p: (nat, nat) :: p.0 < rows && p.1 < cols ==> p in SolvedIds(data) || p in UnsolvedIds(data)
    ensures |SolvedIds(data)| + |UnsolvedIds(data)| == rows * cols
  {
    IdsFromCount(data, 0);
    GridCells(data, 0, cols);
  }

  lemma {:induction false} GridCells(data: seq<seq<int>>, i: nat, cols: nat)
    requires IsGrid(data, |data|, cols) && i <= |data|
    ensures CellsFrom(data, i) == (|data| - i) * cols
    decreases |data| - i
  {
    if i < |data| {
      GridCells(data, i + 1, cols);
      MulSucc(|data| - i - 1, cols);
    }
  }

  // ---------------------------------------------------------------------
  // Checks and validation
  // ---------------------------------------------------------------------

  /** The set of valid symbols. */
  function SymbolSet(valid: seq<int>): (s: set<int>)
    ensures forall x :: x in s <==> x in valid
  {
    set x | x in valid
  }

  /** Integer square root by counting up. */
  function ISqrt(n: nat): (r: nat)
    ensures r * r <= n < (r + 1) * (r + 1)
  {
    if n == 0 then 0
    else
      var s := ISqrt(n - 1);
      if (s + 1) * (s + 1) <= n then s + 1 else s
  }

  /** n is the square of an integer. */
  predicate IsPerfectSquare(n: nat) {
    ISqrt(n) * ISqrt(n) == n
  }

  /** Squaring is monotone on naturals. */
  lemma SquareLe(x: nat, y: nat)
    ensures x <= y ==> x * x <= y * y
  {
    if x <= y {
      MulLe(x, y, x);
      MulLe(x, y, y);
    }
  }

  /** The integer square root is the only candidate root. */
  lemma PerfectSquareRoot(n: nat, b: nat)
    ensures b * b == n <==> IsPerfectSquare(n) && b == ISqrt(n)
  {
    var r := ISqrt(n);
    assert r * r <= n < (r + 1) * (r + 1);
    SquareLe(b + 1, r);
    SquareLe(r + 1, b);
    assert b * b < (b + 1) * (b + 1);
  }

  /** The groups a validator inspects: rows, columns, or blocks whose side is
      the integer root of the row count. */
  function Inspected(kind: CheckKind, rows: nat): GroupKind {
    match kind
    case Horizontals => Rows
    case Verticals => Columns
    case Subblocks => Blocks(ISqrt(rows))
  }

  /** One validator holds on the data: the grid has a shape its groups can be cut
      from, and the row, column or block of every cell passes both group tests. */
  predicate Passes(kind: CheckKind, data: seq<seq<int>>, cols: nat, valid: seq<int>): (ok: bool)
    requires IsGrid(data, |data|, cols)
    ensures ok <==> Fits(data, cols, Inspected(kind, |data|))
                    && forall i, j :: 0 <= i < |data| && 0 <= j < cols ==>
                         GroupOk(GroupOf(data, cols, Inspected(kind, |data|), i, j), SymbolSet(valid))
  {
    match kind
    case Horizontals =>
      RowsGroupwise(data, cols, SymbolSet(valid));
      RowsValid(data, SymbolSet(valid))
    case Verticals =>
      ColumnsGroupwise(data, cols, SymbolSet(valid));
      ColumnsValid(data, cols, SymbolSet(valid))
    case Subblocks =>
      var b := ISqrt(|data|);
      if 0 < b && b * b == |data| && cols == |data| then
        BlocksGroupwise(data, b, SymbolSet(valid));
        BlocksValid(data, b, SymbolSet(valid))
      else false
  }

  /** Every row passes exactly when the row of every cell passes. */
  lemma RowsGroupwise(data: seq<seq<int>>, cols: nat, valid: set<int>)
    requires IsGrid(data, |data|, cols)
    ensures RowsValid(data, valid) <==>
              forall i, j :: 0 <= i < |data| && 0 <= j < cols ==> GroupOk(GroupOf(data, cols, Rows, i, j), valid)
  {
    if forall i, j :: 0 <= i < |data| && 0 <= j < cols ==> GroupOk(GroupOf(data, cols, Rows, i, j), valid) {
      forall i | 0 <= i < |data|
        ensures GroupOk(data[i], valid)
      {
        if cols > 0 {
          assert GroupOk(GroupOf(data, cols, Rows, i, 0), valid);
        } else {
          assert data[i] == [];
        }
      }
    }
  }

  /** Every column passes exactly when the column of every cell passes. */
  lemma ColumnsGroupwise(data: seq<seq<int>>, cols: nat, valid: set<int>)
    requires IsGrid(data, |data|, cols)
    ensures ColumnsValid(data, cols, valid) <==>
              forall i, j :: 0 <= i < |data| && 0 <= j < cols ==> GroupOk(GroupOf(data, cols, Columns, i, j), valid)
  {
    if forall i, j :: 0 <= i < |data| && 0 <= j < cols ==> GroupOk(GroupOf(data, cols, Columns, i, j), valid) {
      forall j | 0 <= j < cols
        ensures GroupOk(Column(data, j), valid)
      {
        if |data| > 0 {
          assert GroupOk(GroupOf(data, cols, Columns, 0, j), valid);
        } else {
          assert Column(data, j) == [];
        }
      }
    }
  }

  /** Every block passes exactly when the block of every cell passes. */
  lemma BlocksGroupwise(data: seq<seq<int>>, b: nat, valid: set<int>)
    requires 0 < b && IsGrid(data, b * b, b * b)
    ensures BlocksValid(data, b, valid) <==>
              forall i, j :: 0 <= i < b * b && 0 <= j < b * b ==> GroupOk(GroupOf(data, b * b, Blocks(b), i, j), valid)
  {
    if BlocksValid(data, b, valid) {
      forall i, j | 0 <= i < b * b && 0 <= j < b * b
        ensures GroupOk(GroupOf(data, b * b, Blocks(b), i, j), valid)
      {
        CellBlockOk(data, b, valid, i, j);
      }
    } else {
      var r, c :| 0 <= r < b && 0 <= c < b && !GroupOk(Flatten(Block(data, b, r, c)), valid);
      CornerGroup(data, b, r, c);
    }
  }

  /** When every block passes, so does the block of cell (i, j). */
  lemma CellBlockOk(data: seq<seq<int>>, b: nat, valid: set<int>, i: nat, j: nat)
    requires 0 < b && IsGrid(data, b * b, b * b) && i < b * b && j < b * b
    requires BlocksValid(data, b, valid)
    ensures GroupOk(GroupOf(data, b * b, Blocks(b), i, j), valid)
  {
    var r, x := Decompose(i, b);
    var c, y := Decompose(j, b);
    assert GroupOk(Flatten(Block(data, b, r, c)), valid);
  }

  /** The block (r, c) is the block of its top-left cell. */
  lemma CornerGroup(data: seq<seq<int>>, b: nat, r: nat, c: nat)
    requires 0 < b && IsGrid(data, b * b, b * b) && r < b && c < b
    ensures r * b < b * b && c * b < b * b
    ensures GroupOf(data, b * b, Blocks(b), r * b, c * b) == Flatten(Block(data, b, r, c))
  {
    BlockIndexBound(r, 0, b);
    BlockIndexBound(c, 0, b);
    DivInBlock(r * b, r, b);
    DivInBlock(c * b, c, b);
  }

  /** Run the checks in order, stopping at the first that fails. */
  function Check(data: seq<seq<int>>, cols: nat, valid: seq<int>, checks: seq<CheckKind>): (ok: bool)
    requires IsGrid(data, |data|, cols)
    ensures ok <==> forall t :: 0 <= t < |checks| ==> Passes(checks[t], data, cols, valid)
  {
    if |checks| == 0 then true
    else if !Passes(checks[0], data, cols, valid) then false
    else Check(data, cols, valid, checks[1..])
  }

  /** Validation: None when every check passes, otherwise the first failing check
      (the one the raised error names). */
  function Validate(data: seq<seq<int>>, cols: nat, valid: seq<int>, checks: seq<CheckKind>): (r: Option<CheckKind>)
    requires IsGrid(data, |data|, cols)
    ensures r.None? <==> Check(data, cols, valid, checks)
    ensures r.Some? ==> r.value in checks && !Passes(r.value, data, cols, valid)
    ensures r.Some? ==> exists t :: (0 <= t < |checks| && checks[t] == r.value
              && forall s :: 0 <= s < t ==> Passes(checks[s], data, cols, valid))
  {
    if |checks| == 0 then None
    else if !Passes(checks[0], data, cols, valid) then Some(checks[0])
    else
      var r := Validate(data, cols, valid, checks[1..]);
      if r.Some? then
        var t :| 0 <= t < |checks| - 1 && checks[1..][t] == r.value
                 && forall s :: 0 <= s < t ==> Passes(checks[1..][s], data, cols, valid);
        assert checks[t + 1] == r.value;
        r
      else r
  }

  /** With the empty list of checks the base puzzle carries, checking always
      succeeds and validation never fails. */
  lemma NoChecksAlwaysPass(data: seq<seq<int>>, cols: nat, valid: seq<int>)
    requires IsGrid(data, |data|, cols)
    ensures Check(data, cols, valid, PuzzleChecks) && Validate(data, cols, valid, PuzzleChecks).None?
  {
  }

  // ---------------------------------------------------------------------
  // Construction
  // ---------------------------------------------------------------------

  /** The squeezed array is two-dimensional: exactly two axes of the input have
      a length other than one, and the earlier of them gives the rows. */
  predicate TwoDimensional(a: NdArray): (two: bool)
    ensures two <==> exists p, q :: 0 <= p < q < |a.shape| && OnlyAxes(a.shape, p, q)
    ensures forall p, q :: 0 <= p < q < |a.shape| && OnlyAxes(a.shape, p, q) ==>
              Squeeze(a.shape) == [a.shape[p], a.shape[q]]
  {
    SqueezeTwoAxes(a.shape);
    |Squeeze(a.shape)| == 2
  }

  /** The 2-D data of a two-dimensional input, before the sentinel is replaced. */
  function Grid(a: NdArray): (g: seq<seq<int>>)
    requires Product(a.shape) == |a.cells| && TwoDimensional(a)
    ensures IsGrid(g, Squeeze(a.shape)[0], Squeeze(a.shape)[1])
    ensures Flatten(g) == a.cells
  {
    var shape := Squeeze(a.shape);
    ProductOfTwo(shape);
    Reshape(a.cells, shape[0], shape[1])
  }

  /** A two-dimensional shape holds rows * cols cells. */
  lemma ProductOfTwo(shape: seq<nat>)
    requires |shape| == 2
    ensures Product(shape) == shape[0] * shape[1]
  {
    assert Product(shape[1..][1..]) == 1;
    assert Product(shape[1..]) == shape[1];
  }

  /** The base puzzle constructor, with the list of checks of the class:
      squeeze, reject non-2-D data, replace the sentinel, sort the symbols,
      build the candidates, then validate. */
  function NewPuzzle(a: NdArray, u: int, symbols: seq<int>, checks: seq<CheckKind>): (r: Result<Puzzle>)
    requires Product(a.shape) == |a.cells|
    ensures !TwoDimensional(a) ==> r == Failure(NotTwoDimensional)
    ensures r.Success? <==>
              TwoDimensional(a)
              && SymbolsKnown(ReplaceUnknown(Grid(a), u), symbols)
              && Check(ReplaceUnknown(Grid(a), u), Squeeze(a.shape)[1], SortedUnique(symbols), checks)
    ensures r.Success? ==>
              var p := r.value;
              p.data == ReplaceUnknown(Grid(a), u)
              && IsGrid(p.data, Squeeze(a.shape)[0], Squeeze(a.shape)[1]) && p.cols == Squeeze(a.shape)[1]
              && Increasing(p.valid) && (forall x :: x in p.valid <==> x in symbols)
              && Initialize(p.data, p.cols, p.valid) == Success(p.options)
              && p.blockSize == None
    ensures r.Failure? && TwoDimensional(a) && !SymbolsKnown(ReplaceUnknown(Grid(a), u), symbols) ==>
              r.error == SymbolNotValid
  {
    if !TwoDimensional(a) then Failure(NotTwoDimensional)
    else
      var cols := Squeeze(a.shape)[1];
      var data := ReplaceUnknown(Grid(a), u);
      var valid := SortedUnique(symbols);
      assert SymbolsKnown(data, valid) <==> SymbolsKnown(data, symbols);
      match Initialize(data, cols, valid)
      case Failure(e) => Failure(e)
      case Success(options) =>
        match Validate(data, cols, valid, checks)
        case Some(k) => Failure(FailedCheck(k))
        case None => Success(Puzzle(data, cols, valid, options, None))
  }

  /** The classic puzzle as written: the base constructor with the base (empty)
      checks, a square test that compares the row count with itself, the
      perfect-square test on the row count, and the block size. */
  function NewClassic(a: NdArray, u: int, symbols: seq<int>): (r: Result<Puzzle>)
    requires Product(a.shape) == |a.cells|
    ensures r.Success? <==>
              TwoDimensional(a) && SymbolsKnown(ReplaceUnknown(Grid(a), u), symbols)
              && IsPerfectSquare(Squeeze(a.shape)[0])
    ensures r.Success? ==> (r.value.blockSize.Some?
              && r.value.blockSize.value * r.value.blockSize.value == |r.value.data|)
    ensures r.Success? ==> r.value.(blockSize := None) == NewPuzzle(a, u, symbols, PuzzleChecks).value
  {
    NoChecksPass(a, u, symbols);
    match NewPuzzle(a, u, symbols, PuzzleChecks)
    case Failure(e) => Failure(e)
    case Success(p) =>
      var size := |p.data|;
      if size != size then Failure(NotSquare)
      else if ISqrt(size) * ISqrt(size) != size then Failure(NotPerfectSquare)
      else Success(p.(blockSize := Some(ISqrt(size))))
  }

  /** The base constructor with no checks only rejects non-2-D data and unknown symbols. */
  lemma NoChecksPass(a: NdArray, u: int, symbols: seq<int>)
    requires Product(a.shape) == |a.cells|
    ensures NewPuzzle(a, u, symbols, PuzzleChecks).Success? <==>
              TwoDimensional(a) && SymbolsKnown(ReplaceUnknown(Grid(a), u), symbols)
  {
    if TwoDimensional(a) {
      NoChecksAlwaysPass(ReplaceUnknown(Grid(a), u), Squeeze(a.shape)[1], SortedUnique(symbols));
    }
  }

  /** A puzzle that is square, has a block size whose square is its size, and
      passes all three checks over the given symbols. */
  predicate SquareAndValid(p: Puzzle, valid: set<int>) {
    p.cols == |p.data| && IsGrid(p.data, |p.data|, |p.data|)
    && p.blockSize.Some? && 0 < p.blockSize.value && p.blockSize.value * p.blockSize.value == |p.data|
    && RowsValid(p.data, valid)
    && ColumnsValid(p.data, p.cols, valid)
    && BlocksValid(p.data, p.blockSize.value, valid)
  }

  /** The classic puzzle as evidently intended: a real square test, the
      perfect-square test, then the three validators the class lists. It
      accepts exactly the inputs the as-written constructor accepts that are
      square and pass every validator. */
  function NewClassicFixed(a: NdArray, u: int, symbols: seq<int>): (r: Result<Puzzle>)
    requires Product(a.shape) == |a.cells|
    ensures r.Success? <==>
              NewClassic(a, u, symbols).Success?
              && SquareAndValid(NewClassic(a, u, symbols).value, SymbolSet(symbols))
    ensures r.Success? ==> r == NewClassic(a, u, symbols)
    ensures r.Failure? && NewClassic(a, u, symbols).Success? ==>
              r.error == NotSquare || r.error.FailedCheck?
  {
    match NewClassic(a, u, symbols)
    case Failure(e) => Failure(e)
    case Success(p) =>
      if |p.data| != p.cols then Failure(NotSquare)
      else
        var b := p.blockSize.value;
        PerfectSquareRoot(|p.data|, b);
        assert SymbolSet(p.valid) == SymbolSet(symbols);
        match Validate(p.data, p.cols, p.valid, ClassicValidators)
        case Some(k) => Failure(FailedCheck(k))
        case None =>
          assert Passes(ClassicValidators[2], p.data, p.cols, p.valid);
          Success(p)
  }

  // ---------------------------------------------------------------------
  // What the as-written classic constructor lets through
  // ---------------------------------------------------------------------

  /** A 4-by-2 array of unknown cells, which is not square. */
  const Wide: NdArray := NdArray([4, 2], seq(8, _ => Unknown))

  /** A 4-by-4 array whose first row holds the symbol 1 twice. */
  const Repeated: NdArray := NdArray([4, 4], [1, 1] + seq(14, _ => Unknown))

  /** The classic puzzle accepts a 4-by-2 grid; the intended one rejects it as not square. */
  lemma ClassicAcceptsNonSquare()
    ensures NewClassic(Wide, Unknown, [1, 2, 3, 4]).Success?
    ensures NewClassic(Wide, Unknown, [1, 2, 3, 4]).value.cols == 2
    ensures NewClassicFixed(Wide, Unknown, [1, 2, 3, 4]) == Failure(NotSquare)
  {
    assert Squeeze(Wide.shape) == [4, 2];
    assert ISqrt(4) == 2;
    var g := ReplaceUnknown(Grid(Wide), Unknown);
    forall i, j | 0 <= i < |g| && 0 <= j < |g[i]|
      ensures g[i][j] == Unknown
    {
      FlattenAt(Grid(Wide), 2, i, j);
    }
  }

  /** The classic puzzle accepts a grid with a repeated symbol in a row, because
      its validators are never run; the intended one rejects it. */
  lemma ClassicAcceptsRepeats()
    ensures NewClassic(Repeated, Unknown, [1, 2, 3, 4]).Success?
    ensures NewClassicFixed(Repeated, Unknown, [1, 2, 3, 4]).Failure?
  {
    assert Squeeze(Repeated.shape) == [4, 4];
    assert ISqrt(4) == 2;
    var raw := Grid(Repeated);
    var g := ReplaceUnknown(raw, Unknown);
    forall i, j | 0 <= i < 4 && 0 <= j < 4
      ensures raw[i][j] == Repeated.cells[i * 4 + j]
    {
      FlattenAt(raw, 4, i, j);
    }
    assert g[0][0] == 1 && g[0][1] == 1;
    assert SymbolsKnown(g, [1, 2, 3, 4]) by {
      forall i, j | 0 <= i < 4 && 0 <= j < 4 && g[i][j] != Unknown
        ensures g[i][j] in [1, 2, 3, 4]
      {
        assert i * 4 + j < 2;
      }
    }
    var fixed := NewClassicFixed(Repeated, Unknown, [1, 2, 3, 4]);
    if fixed.Success? {
      DuplicateInRowFails(fixed.value.data, SymbolSet([1, 2, 3, 4]), 0, 0, 1);
    }
  }
}
