/** Constraint propagation over the candidate array.

    A cell of the candidate array is a mask over the puzzle's valid symbols:
    mask[v] says that symbol v is still possible there. A cell is collapsed
    when exactly one symbol is left. Each rule walks over one kind of group
    (rows, columns or blocks) and, inside a group, removes from every
    non-collapsed cell each symbol that exactly one collapsed cell of the
    group holds. */
module Rules {
  import opened Operations

  /** Number of open candidates of a cell. */
  function Count(mask: seq<bool>): (n: nat)
    ensures n <= |mask|
  {
    if |mask| == 0 then 0 else (if mask[0] then 1 else 0) + Count(mask[1..])
  }

  /** Exactly one candidate is left: some symbol is the cell's sole candidate. */
  predicate Collapsed(mask: seq<bool>): (c: bool)
    ensures c <==> exists v :: SoleCandidate(mask, v)
  {
    CountIsOne(mask);
    Count(mask) == 1
  }

  /** Symbol v is open and no other symbol is. */
  predicate SoleCandidate(mask: seq<bool>, v: nat) {
    Admits(mask, v) && forall w: nat :: w < |mask| && Admits(mask, w) ==> w == v
  }

  /** Symbol v is an open candidate of the cell. */
  predicate Admits(mask: seq<bool>, v: nat) {
    v < |mask| && mask[v]
  }

  /** Cell t of the group is collapsed onto symbol v. */
  predicate Holds(group: seq<seq<bool>>, t: int, v: nat)
    requires 0 <= t < |group|
  {
    Collapsed(group[t]) && Admits(group[t], v)
  }

  /** Number of collapsed cells of the group whose remaining symbol is v. */
  function Holders(group: seq<seq<bool>>, v: nat): (n: nat)
    ensures n <= |group|
  {
    if |group| == 0 then 0
    else (if Holds(group, 0, v) then 1 else 0) + Holders(group[1..], v)
  }

  /** The group claims v: exactly one collapsed cell holds it. */
  predicate Claimed(group: seq<seq<bool>>, v: nat): (c: bool)
    ensures c <==> exists t :: OnlyHolder(group, v, t)
  {
    ClaimedIffOnlyHolder(group, v);
    Holders(group, v) == 1
  }

  /** Cell t is the one and only collapsed cell of the group holding v. */
  predicate OnlyHolder(group: seq<seq<bool>>, v: nat, t: int) {
    0 <= t < |group| && Holds(group, t, v)
    && forall t' :: 0 <= t' < |group| && Holds(group, t', v) ==> t' == t
  }

  // ---------------------------------------------------------------------
  // Counting lemmas
  // ---------------------------------------------------------------------

  /** A mask with two different open candidates is not collapsed. */
  lemma {:induction false} CountTwo(mask: seq<bool>, v: nat, w: nat)
    requires Admits(mask, v) && Admits(mask, w) && v != w
    ensures Count(mask) >= 2
    decreases |mask|
  {
    if v > 0 && w > 0 {
      CountTwo(mask[1..], v - 1, w - 1);
    } else if v == 0 {
      CountOne(mask[1..], w - 1);
    } else {
      CountOne(mask[1..], v - 1);
    }
  }

  /** A mask with an open candidate has a positive count. */
  lemma {:induction false} CountOne(mask: seq<bool>, v: nat)
    requires Admits(mask, v)
    ensures Count(mask) >= 1
    decreases |mask|
  {
    if v > 0 {
      CountOne(mask[1..], v - 1);
    }
  }

  /** Count of a mask with the single candidate t. */
  lemma {:induction false} CountSingle(mask: seq<bool>, t: nat)
    requires t < |mask| && forall s :: 0 <= s < |mask| ==> (mask[s] <==> s == t)
    ensures Count(mask) == 1
  {
    if t == 0 {
      CountNone(mask[1..]);
    } else {
      CountSingle(mask[1..], t - 1);
    }
  }

  /** Count of a mask with no open candidate. */
  lemma {:induction false} CountNone(mask: seq<bool>)
    requires forall s :: 0 <= s < |mask| ==> !mask[s]
    ensures Count(mask) == 0
  {
    if |mask| > 0 {
      CountNone(mask[1..]);
    }
  }

  /** A count of one means a single open symbol. */
  lemma CountIsOne(mask: seq<bool>)
    ensures Count(mask) == 1 <==> exists v :: SoleCandidate(mask, v)
  {
    if Count(mask) == 1 {
      if forall s :: 0 <= s < |mask| ==> !mask[s] {
        CountNone(mask);
      }
      var v :| 0 <= v < |mask| && mask[v];
      forall w | Admits(mask, w)
        ensures w == v
      {
        if w != v {
          CountTwo(mask, v, w);
        }
      }
      assert SoleCandidate(mask, v);
    }
    if v :| SoleCandidate(mask, v) {
      forall s | 0 <= s < |mask|
        ensures mask[s] <==> s == v
      {
        if mask[s] {
          assert Admits(mask, s);
        }
      }
      CountSingle(mask, v);
    }
  }

  /** A collapsed cell holds a single symbol. */
  lemma CollapsedSingle(mask: seq<bool>, v: nat, w: nat)
    requires Collapsed(mask) && Admits(mask, v) && Admits(mask, w)
    ensures v == w
  {
    if v != w {
      CountTwo(mask, v, w);
    }
  }

  /** Dropping the first cell shifts the holders by one. */
  lemma ShiftHolds(group: seq<seq<bool>>, v: nat)
    requires |group| > 0
    ensures forall t :: 0 <= t < |group| - 1 ==> (Holds(group[1..], t, v) <==> Holds(group, t + 1, v))
  {
    forall t | 0 <= t < |group| - 1
      ensures Holds(group[1..], t, v) <==> Holds(group, t + 1, v)
    {
      assert group[1..][t] == group[t + 1];
    }
  }

  /** No holder counted means no cell holds v. */
  lemma {:induction false} NoHolders(group: seq<seq<bool>>, v: nat)
    ensures Holders(group, v) == 0 <==> forall t :: 0 <= t < |group| ==> !Holds(group, t, v)
    decreases |group|
  {
    if |group| > 0 {
      NoHolders(group[1..], v);
      ShiftHolds(group, v);
      if Holders(group, v) == 0 {
        forall t | 1 <= t < |group|
          ensures !Holds(group, t, v)
        {
          assert !Holds(group[1..], t - 1, v);
        }
      }
    }
  }

  /** Two different holders of v count at least twice. */
  lemma {:induction false} TwoHolders(group: seq<seq<bool>>, v: nat, t1: nat, t2: nat)
    requires t1 < |group| && t2 < |group| && t1 != t2
    requires Holds(group, t1, v) && Holds(group, t2, v)
    ensures Holders(group, v) >= 2
    decreases |group|
  {
    if t1 > 0 && t2 > 0 {
      assert Holds(group[1..], t1 - 1, v) && Holds(group[1..], t2 - 1, v);
      TwoHolders(group[1..], v, t1 - 1, t2 - 1);
    } else {
      var t := if t1 == 0 then t2 else t1;
      assert Holds(group[1..], t - 1, v);
      NoHolders(group[1..], v);
    }
  }

  /** When every holder of v is cell t, v is counted at most once. */
  lemma {:induction false} AtMostOneHolder(group: seq<seq<bool>>, v: nat, t: int)
    requires forall t' :: 0 <= t' < |group| && Holds(group, t', v) ==> t' == t
    ensures Holders(group, v) <= 1
    decreases |group|
  {
    if |group| > 0 {
      ShiftHolds(group, v);
      if Holds(group, 0, v) {
        NoHolders(group[1..], v);
      } else {
        AtMostOneHolder(group[1..], v, t - 1);
      }
    }
  }

  /** The count-based test of the rules (sum over the collapsed cells equal to one)
      means: some collapsed cell holds v and no other collapsed cell does. */
  lemma ClaimedIffOnlyHolder(group: seq<seq<bool>>, v: nat)
    ensures Holders(group, v) == 1 <==> exists t :: OnlyHolder(group, v, t)
  {
    if Holders(group, v) == 1 {
      NoHolders(group, v);
      var t :| 0 <= t < |group| && Holds(group, t, v);
      forall t' | 0 <= t' < |group| && Holds(group, t', v)
        ensures t' == t
      {
        if t' != t {
          TwoHolders(group, v, t, t');
        }
      }
      assert OnlyHolder(group, v, t);
    }
    if t :| OnlyHolder(group, v, t) {
      NoHolders(group, v);
      AtMostOneHolder(group, v, t);
    }
  }

  // ---------------------------------------------------------------------
  // One group
  // ---------------------------------------------------------------------

  /** Update of one cell against the collapsed cells of its group: a collapsed
      cell is left alone, any other cell loses every claimed symbol. */
  function EliminateCell(mask: seq<bool>, group: seq<seq<bool>>): (r: seq<bool>)
    ensures |r| == |mask|
    ensures forall v :: 0 <= v < |r| && r[v] ==> mask[v]
  {
    if Collapsed(mask) then mask
    else seq(|mask|, v requires 0 <= v < |mask| => mask[v] && !Claimed(group, v))
  }

  /** Update of all cells of one group; the collapsed masks are computed once,
      before any cell changes. */
  function EliminateGroup(group: seq<seq<bool>>): (r: seq<seq<bool>>)
    ensures |r| == |group|
    ensures forall t :: 0 <= t < |r| ==> |r[t]| == |group[t]|
    ensures forall t, v :: 0 <= t < |r| && 0 <= v < |r[t]| && r[t][v] ==> group[t][v]
    ensures forall t :: 0 <= t < |r| && Collapsed(group[t]) ==> r[t] == group[t]
  {
    seq(|group|, t requires 0 <= t < |group| => EliminateCell(group[t], group))
  }

  /** Update of one block; the collapsed masks are read over the whole block. */
  function EliminateBlock(block: seq<seq<seq<bool>>>): (r: seq<seq<seq<bool>>>)
    ensures |r| == |block|
    ensures forall x :: 0 <= x < |r| ==> |r[x]| == |block[x]|
  {
    seq(|block|, x requires 0 <= x < |block| =>
      seq(|block[x]|, y requires 0 <= y < |block[x]| => EliminateCell(block[x][y], Flatten(block))))
  }

  /** A candidate survives the update of its group exactly when it was open and
      the cell is collapsed or no other cell is the only collapsed holder of it. */
  lemma EliminateCellKeeps(mask: seq<bool>, group: seq<seq<bool>>, v: nat)
    requires v < |mask|
    ensures EliminateCell(mask, group)[v] <==>
              mask[v] && (Collapsed(mask) || !exists t :: OnlyHolder(group, v, t))
  {
    ClaimedIffOnlyHolder(group, v);
  }

  /** Exactly the symbols a group claims are removed from its other cells. */
  lemma EliminateGroupKeeps(group: seq<seq<bool>>, t: nat, v: nat)
    requires t < |group| && v < |group[t]|
    ensures EliminateGroup(group)[t][v] <==>
              group[t][v] && (Collapsed(group[t]) || !exists t' :: OnlyHolder(group, v, t'))
  {
    EliminateCellKeeps(group[t], group, v);
  }

  /** Exactly the symbols the whole block claims are removed from its other cells. */
  lemma EliminateBlockKeeps(block: seq<seq<seq<bool>>>, x: nat, y: nat, v: nat)
    requires x < |block| && y < |block[x]| && v < |block[x][y]|
    ensures |EliminateBlock(block)[x][y]| == |block[x][y]|
    ensures EliminateBlock(block)[x][y][v] <==>
              block[x][y][v] && (Collapsed(block[x][y]) || !exists t :: OnlyHolder(Flatten(block), v, t))
  {
    assert EliminateBlock(block)[x][y] == EliminateCell(block[x][y], Flatten(block));
    EliminateCellKeeps(block[x][y], Flatten(block), v);
  }

  /** The rule only removes what some collapsed cell of a valid solution could not
      share: if every cell admits its solution symbol and the solution symbols of
      the group are pairwise different, each cell still admits its symbol. */
  lemma EliminateSound(group: seq<seq<bool>>, sol: seq<nat>, t0: nat)
    requires |sol| == |group| && t0 < |group|
    requires forall t :: 0 <= t < |group| ==> Admits(group[t], sol[t])
    requires Distinct(sol)
    ensures Admits(EliminateCell(group[t0], group), sol[t0])
  {

  }

  /** The count must be exactly one: a symbol held by two collapsed cells of a
      group is not removed from any cell of that group. */
  lemma DoubleHolderNotRemoved(group: seq<seq<bool>>, v: nat, t1: nat, t2: nat)
    requires t1 < |group| && t2 < |group| && t1 != t2
    requires Holds(group, t1, v) && Holds(group, t2, v)
    ensures forall t :: 0 <= t < |group| && Admits(group[t], v) ==> Admits(EliminateGroup(group)[t], v)
  {
    TwoHolders(group, v, t1, t2);
  }

  // ---------------------------------------------------------------------
  // The three kinds of groups and the order-free reference pass
  // ---------------------------------------------------------------------

  /** Pairwise different entries. */
  predicate Distinct<T(==)>(s: seq<T>) {
    forall t, t' :: 0 <= t < t' < |s| ==> s[t] != s[t']
  }

  datatype GroupKind = Rows | Columns | Blocks(b: nat)

  /** The grid has the shape a rule of this kind accepts. */
  predicate Fits<T>(g: seq<seq<T>>, cols: nat, kind: GroupKind) {
    IsGrid(g, |g|, cols)
    && (kind.Blocks? ==> 0 < kind.b && |g| == kind.b * kind.b && cols == kind.b * kind.b)
  }

  /** The group of this kind that contains cell (i, j), in row-major order. */
  function GroupOf<T>(g: seq<seq<T>>, cols: nat, kind: GroupKind, i: nat, j: nat): (group: seq<T>)
    requires Fits(g, cols, kind) && i < |g| && j < cols
    ensures |group| == if kind.Columns? then |g| else cols
  {
    match kind
    case Rows => g[i]
    case Columns => Column(g, j)
    case Blocks(b) =>
      DivModBlock(i, b);
      DivModBlock(j, b);
      FlatBlockLength(g, b, i / b, j / b);
      Flatten(Block(g, b, i / b, j / b))
  }

  /** Position of cell (i, j) inside its group. */
  function PlaceInGroup(kind: GroupKind, i: nat, j: nat): nat {
    match kind
    case Rows => j
    case Columns => i
    case Blocks(b) => if b == 0 then 0 else (i % b) * b + j % b
  }

  /** Cell (i, j) sits at PlaceInGroup of its group. */
  lemma GroupPlace<T>(g: seq<seq<T>>, cols: nat, kind: GroupKind, i: nat, j: nat)
    requires Fits(g, cols, kind) && i < |g| && j < cols
    ensures PlaceInGroup(kind, i, j) < |GroupOf(g, cols, kind, i, j)|
    ensures GroupOf(g, cols, kind, i, j)[PlaceInGroup(kind, i, j)] == g[i][j]
  {
    if kind.Blocks? {
      var b := kind.b;
      DivModBlock(i, b);
      DivModBlock(j, b);
      var r: nat, x: nat, c: nat, y: nat := i / b, i % b, j / b, j % b;
      FlatBlockAt(g, b, r, c, x, y);
    }
  }

  /** Grid coordinates of entry t of the group of this kind that contains (i, j). */
  function GroupCell(kind: GroupKind, i: nat, j: nat, t: nat): (nat, nat) {
    match kind
    case Rows => (i, t)
    case Columns => (t, j)
    case Blocks(b) => if b == 0 then (i, j) else ((i / b) * b + t / b, (j / b) * b + t % b)
  }

  /** Entry t of the group of (i, j) is the grid cell GroupCell names; the same
      holds for every grid of the same shape, which lines the groups of two such
      grids up entry by entry. */
  lemma GroupEntry<T>(g: seq<seq<T>>, cols: nat, kind: GroupKind, i: nat, j: nat, t: nat)
    requires Fits(g, cols, kind) && i < |g| && j < cols && t < |GroupOf(g, cols, kind, i, j)|
    ensures GroupCell(kind, i, j, t).0 < |g| && GroupCell(kind, i, j, t).1 < cols
    ensures GroupOf(g, cols, kind, i, j)[t] == g[GroupCell(kind, i, j, t).0][GroupCell(kind, i, j, t).1]
  {
    if kind.Blocks? {
      var b := kind.b;
      DivModBlock(i, b);
      DivModBlock(j, b);
      DivModBlock(t, b);
      var r: nat, c: nat, x: nat, y: nat := i / b, j / b, t / b, t % b;
      FlatBlockAt(g, b, r, c, x, y);
    }
  }

  /** The result of one rule, stated cell by cell: every cell is updated against
      its group as the group stood before the rule ran. */
  function Pass(o: seq<seq<seq<bool>>>, cols: nat, kind: GroupKind): (r: seq<seq<seq<bool>>>)
    requires Fits(o, cols, kind)
    ensures IsGrid(r, |o|, cols)
    ensures forall i, j :: 0 <= i < |o| && 0 <= j < cols ==> |r[i][j]| == |o[i][j]|
    ensures forall i, j, v :: 0 <= i < |o| && 0 <= j < cols && 0 <= v < |r[i][j]| && r[i][j][v] ==> o[i][j][v]
    ensures forall i, j :: 0 <= i < |o| && 0 <= j < cols && Collapsed(o[i][j]) ==> r[i][j] == o[i][j]
  {
    seq(|o|, i requires 0 <= i < |o| =>
      seq(cols, j requires 0 <= j < cols => PassCell(o, cols, kind, i, j)))
  }

  /** One cell of the reference pass: the cell updated against its own group. */
  function PassCell(o: seq<seq<seq<bool>>>, cols: nat, kind: GroupKind, i: nat, j: nat): seq<bool>
    requires Fits(o, cols, kind) && i < |o| && j < cols
  {
    EliminateCell(o[i][j], GroupOf(o, cols, kind, i, j))
  }

  /** A candidate of a non-collapsed cell is removed exactly when one and only
      one collapsed cell of its group holds that symbol. */
  lemma PassRemovesIffOnlyHolder(o: seq<seq<seq<bool>>>, cols: nat, kind: GroupKind, i: nat, j: nat, v: nat)
    requires Fits(o, cols, kind) && i < |o| && j < cols && v < |o[i][j]|
    requires !Collapsed(o[i][j]) && o[i][j][v]
    ensures !Pass(o, cols, kind)[i][j][v] <==> exists t :: OnlyHolder(GroupOf(o, cols, kind, i, j), v, t)
  {
    EliminateCellKeeps(o[i][j], GroupOf(o, cols, kind, i, j), v);
  }

  /** A solution of the puzzle: every cell is filled with one symbol index. */
  predicate Solution(sol: seq<seq<nat>>, rows: nat, cols: nat, kind: GroupKind)
    requires IsGrid(sol, rows, cols) && Fits(sol, cols, kind)
  {
    forall i, j :: 0 <= i < rows && 0 <= j < cols ==> Distinct(GroupOf(sol, cols, kind, i, j))
  }

  /** Soundness of a rule: a candidate array that admits a solution whose groups
      of this kind hold pairwise different symbols still admits it afterwards. */
  lemma PassKeepsSolution(o: seq<seq<seq<bool>>>, cols: nat, kind: GroupKind, sol: seq<seq<nat>>)
    requires Fits(o, cols, kind) && IsGrid(sol, |o|, cols) && Fits(sol, cols, kind)
    requires forall i, j :: 0 <= i < |o| && 0 <= j < cols ==> Admits(o[i][j], sol[i][j])
    requires Solution(sol, |o|, cols, kind)
    ensures forall i, j :: 0 <= i < |o| && 0 <= j < cols ==> Admits(Pass(o, cols, kind)[i][j], sol[i][j])
  {
    forall i, j | 0 <= i < |o| && 0 <= j < cols
      ensures Admits(Pass(o, cols, kind)[i][j], sol[i][j])
    {
      var group := GroupOf(o, cols, kind, i, j);
      var sols := GroupOf(sol, cols, kind, i, j);
      GroupPlace(o, cols, kind, i, j);
      GroupPlace(sol, cols, kind, i, j);
      forall t | 0 <= t < |group|
        ensures Admits(group[t], sols[t])
      {
        GroupEntry(o, cols, kind, i, j, t);
        GroupEntry(sol, cols, kind, i, j, t);
      }
      EliminateSound(group, sols, PlaceInGroup(kind, i, j));
    }
  }

  // ---------------------------------------------------------------------
  // The three rules, group by group
  // ---------------------------------------------------------------------

  /** Rule over the rows: each row is updated in turn. */
  method UpdateHorizontals(o: seq<seq<seq<bool>>>, cols: nat) returns (r: seq<seq<seq<bool>>>)
    requires IsGrid(o, |o|, cols)
    ensures Fits(o, cols, Rows) && r == Pass(o, cols, Rows)
  {
    ghost var target := Pass(o, cols, Rows);
    r := o;
    var i := 0;
    while i < |o|
      invariant 0 <= i <= |o| && |r| == |o|
      invariant forall x :: 0 <= x < i ==> r[x] == target[x]
      invariant forall x :: i <= x < |o| ==> r[x] == o[x]
    {
      var row := r[i];
      r := r[i := EliminateGroup(row)];
      assert r[i] == target[i];
      i := i + 1;
    }
  }

  /** Replace column j of a grid. */
  function SetColumn<T>(g: seq<seq<T>>, j: nat, col: seq<T>): (r: seq<seq<T>>)
    requires |col| == |g| && forall i :: 0 <= i < |g| ==> j < |g[i]|
    ensures |r| == |g|
    ensures forall i :: 0 <= i < |g| ==> r[i] == g[i][j := col[i]]
  {
    seq(|g|, i requires 0 <= i < |g| => g[i][j := col[i]])
  }

  /** Rule over the columns: each column is updated in turn. */
  method UpdateVerticals(o: seq<seq<seq<bool>>>, cols: nat) returns (r: seq<seq<seq<bool>>>)
    requires IsGrid(o, |o|, cols)
    ensures Fits(o, cols, Columns) && r == Pass(o, cols, Columns)
  {
    ghost var target := Pass(o, cols, Columns);
    r := o;
    var j := 0;
    while j < cols
      invariant 0 <= j <= cols && IsGrid(r, |o|, cols)
      invariant forall x, y :: 0 <= x < |o| && 0 <= y < cols ==>
                  r[x][y] == (if y < j then target[x][y] else o[x][y])
    {
      var col := Column(r, j);
      assert col == Column(o, j);
      r := SetColumn(r, j, EliminateGroup(col));
      j := j + 1;
    }
    assert forall x :: 0 <= x < |o| ==> r[x] == target[x];
  }

  /** Replace the b-by-b block whose top-left cell is (top, left). */
  function SetBlock<T>(g: seq<seq<T>>, b: nat, top: nat, left: nat, nb: seq<seq<T>>): (r: seq<seq<T>>)
    requires top + b <= |g| && IsGrid(nb, b, b)
    requires forall i :: 0 <= i < |g| ==> left + b <= |g[i]|
    ensures |r| == |g| && forall i :: 0 <= i < |g| ==> |r[i]| == |g[i]|
    ensures forall i, j :: 0 <= i < |g| && 0 <= j < |g[i]| ==>
              r[i][j] == if top <= i < top + b && left <= j < left + b then nb[i - top][j - left] else g[i][j]
  {
    seq(|g|, i requires 0 <= i < |g| =>
      seq(|g[i]|, j requires 0 <= j < |g[i]| =>
        if top <= i < top + b && left <= j < left + b then nb[i - top][j - left] else g[i][j]))
  }

  /** A row index inside block row r has quotient r. */
  lemma DivInBlock(i: nat, r: nat, b: nat)
    requires r < b && r * b <= i < r * b + b
    ensures i / b == r
  {
    BlockIndexBound(r, 0, b);
    DivModBlock(i, b);
    var q := i / b;
    if q < r {
      MulLe(q + 1, r, b);
    } else if q > r {
      MulLe(r + 1, q, b);
    }
  }

  /** Cell (i, j) lies in a block that comes before the block with top-left
      cell (top, left) in row-major order. */
  predicate Done(i: int, j: int, top: int, left: int, b: int) {
    i < top || (i < top + b && j < left)
  }

  /** Two grids that agree on the cells of block (br, bc) have that block in common. */
  lemma SameBlock<T>(o: seq<seq<T>>, r: seq<seq<T>>, b: nat, n: nat, br: nat, bc: nat, top: nat, left: nat)
    requires n == b * b && IsGrid(o, n, n) && IsGrid(r, n, n) && br < b && bc < b
    requires top == br * b && left == bc * b
    requires forall i, j :: 0 <= i < n && 0 <= j < n && top <= i < top + b && left <= j < left + b ==> r[i][j] == o[i][j]
    ensures Block(r, b, br, bc) == Block(o, b, br, bc)
  {
    forall x | 0 <= x < b
      ensures Block(r, b, br, bc)[x] == Block(o, b, br, bc)[x]
    {
      forall y | 0 <= y < b
        ensures Block(r, b, br, bc)[x][y] == Block(o, b, br, bc)[x][y]
      {
        BlockAt(r, b, br, bc, x, y);
        BlockAt(o, b, br, bc, x, y);
      }
    }
  }

  /** Cell (i, j) of block (br, bc) has that block as its group. */
  lemma BlockGroup<T>(o: seq<seq<T>>, b: nat, n: nat, br: nat, bc: nat, top: nat, left: nat, i: nat, j: nat)
    requires n == b * b && Fits(o, n, Blocks(b)) && br < b && bc < b && top == br * b && left == bc * b
    requires top <= i < top + b && left <= j < left + b
    ensures i < n && j < n
    ensures GroupOf(o, n, Blocks(b), i, j) == Flatten(Block(o, b, br, bc))
    ensures Block(o, b, br, bc)[i - top][j - left] == o[i][j]
  {
    BlockIndexBound(br, 0, b);
    BlockIndexBound(bc, 0, b);
    DivInBlock(i, br, b);
    DivInBlock(j, bc, b);
    BlockAt(o, b, br, bc, i - top, j - left);
  }

  /** Updating block (br, bc) on its own gives, cell by cell, the reference pass. */
  lemma BlockCell(o: seq<seq<seq<bool>>>, b: nat, n: nat, br: nat, bc: nat, top: nat, left: nat, i: nat, j: nat)
    requires n == b * b && Fits(o, n, Blocks(b)) && br < b && bc < b && top == br * b && left == bc * b
    requires top <= i < top + b && left <= j < left + b
    ensures i < n && j < n
    ensures EliminateBlock(Block(o, b, br, bc))[i - top][j - left] == PassCell(o, n, Blocks(b), i, j)
  {
    BlockGroup(o, b, n, br, bc, top, left, i, j);
    var block := Block(o, b, br, bc);
    var x: nat, y: nat := i - top, j - left;
    assert EliminateBlock(block)[x][y] == EliminateCell(block[x][y], Flatten(block));
  }

  /** One step of the block rule: updating block (br, bc) of a grid that agrees with
      the reference pass on the blocks before it and with the original elsewhere
      extends that agreement by one block. */
  lemma BlockStep(o: seq<seq<seq<bool>>>, r: seq<seq<seq<bool>>>, target: seq<seq<seq<bool>>>,
                  b: nat, n: nat, br: nat, bc: nat, top: nat, left: nat)
    requires n == b * b && Fits(o, n, Blocks(b)) && IsGrid(r, n, n) && br < b && bc < b
    requires target == Pass(o, n, Blocks(b))
    requires top == br * b && left == bc * b && top + b <= n && left + b <= n
    requires forall i, j :: 0 <= i < n && 0 <= j < n ==>
               r[i][j] == (if Done(i, j, top, left, b) then target[i][j] else o[i][j])
    ensures var nr := SetBlock(r, b, top, left, EliminateBlock(Block(r, b, br, bc)));
            IsGrid(nr, n, n)
            && forall i, j :: 0 <= i < n && 0 <= j < n ==>
                 nr[i][j] == (if Done(i, j, top, left + b, b) then target[i][j] else o[i][j])
  {
    SameBlock(o, r, b, n, br, bc, top, left);
    forall i, j | 0 <= i < n && 0 <= j < n
      ensures SetBlock(r, b, top, left, EliminateBlock(Block(r, b, br, bc)))[i][j]
              == (if Done(i, j, top, left + b, b) then target[i][j] else o[i][j])
    {
      assert target[i][j] == PassCell(o, n, Blocks(b), i, j);
      StepCell(o, r, target, b, n, br, bc, top, left, i, j);
    }
  }

  /** BlockStep at one cell. */
  lemma StepCell(o: seq<seq<seq<bool>>>, r: seq<seq<seq<bool>>>, target: seq<seq<seq<bool>>>,
                 b: nat, n: nat, br: nat, bc: nat, top: nat, left: nat, i: nat, j: nat)
    requires n == b * b && Fits(o, n, Blocks(b)) && IsGrid(r, n, n) && IsGrid(target, n, n) && br < b && bc < b
    requires Block(r, b, br, bc) == Block(o, b, br, bc)
    requires top == br * b && left == bc * b && top + b <= n && left + b <= n && i < n && j < n
    requires target[i][j] == PassCell(o, n, Blocks(b), i, j)
    requires r[i][j] == (if Done(i, j, top, left, b) then target[i][j] else o[i][j])
    ensures SetBlock(r, b, top, left, EliminateBlock(Block(r, b, br, bc)))[i][j]
              == (if Done(i, j, top, left + b, b) then target[i][j] else o[i][j])
  {
    if top <= i < top + b && left <= j < left + b {
      BlockCell(o, b, n, br, bc, top, left, i, j);
    }
  }

  /** Rule over the blocks: each block is updated in turn, in row-major order. */
  method UpdateBlocks(o: seq<seq<seq<bool>>>, b: nat) returns (r: seq<seq<seq<bool>>>)
    requires 0 < b && IsGrid(o, b * b, b * b)
    ensures Fits(o, b * b, Blocks(b)) && r == Pass(o, b * b, Blocks(b))
  {
    var n := b * b;
    ghost var target := Pass(o, n, Blocks(b));
    r := o;
    var br := 0;
    var top := 0;
    while br < b
      invariant 0 <= br <= b && top == br * b && IsGrid(r, n, n)
      invariant forall i, j :: 0 <= i < n && 0 <= j < n ==>
                  r[i][j] == (if i < top then target[i][j] else o[i][j])
    {
      r := UpdateBlockRow(o, r, b, n, br, top);
      MulSucc(br, b);
      br := br + 1;
      top := top + b;
    }
    assert forall i :: 0 <= i < n ==> r[i] == target[i];
  }

  /** The blocks of block-row br, updated left to right, on a grid whose earlier
      block-rows already agree with the reference pass. */
  method UpdateBlockRow(o: seq<seq<seq<bool>>>, r0: seq<seq<seq<bool>>>, b: nat, n: nat, br: nat, top: nat)
    returns (r: seq<seq<seq<bool>>>)
    requires 0 < b && n == b * b && IsGrid(o, n, n) && IsGrid(r0, n, n) && br < b && top == br * b
    requires forall i, j :: 0 <= i < n && 0 <= j < n ==>
               r0[i][j] == (if i < top then Pass(o, n, Blocks(b))[i][j] else o[i][j])
    ensures IsGrid(r, n, n)
    ensures forall i, j :: 0 <= i < n && 0 <= j < n ==>
              r[i][j] == (if i < top + b then Pass(o, n, Blocks(b))[i][j] else o[i][j])
  {
    ghost var target := Pass(o, n, Blocks(b));
    r := r0;
    var bc := 0;
    var left := 0;
    while bc < b
      invariant 0 <= bc <= b && left == bc * b && IsGrid(r, n, n)
      invariant forall i, j :: 0 <= i < n && 0 <= j < n ==>
                  r[i][j] == (if Done(i, j, top, left, b) then target[i][j] else o[i][j])
    {
      BlockIndexBound(br, 0, b);
      BlockIndexBound(bc, 0, b);
      BlockStep(o, r, target, b, n, br, bc, top, left);
      r := SetBlock(r, b, top, left, EliminateBlock(Block(r, b, br, bc)));
      MulSucc(bc, b);
      bc := bc + 1;
      left := left + b;
    }
  }
}
