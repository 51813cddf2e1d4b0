/**
 * Linear probing over a cyclic array of cells, on values.  A cell holds the index of an
 * item or EMPTY; `cellIxs[t]` is the cell of item `t` and `homes[t]` the cell its hash
 * selects.  All cyclic reasoning of the hash table lives here.
 */
module Probing {
  import opened Members

  const EMPTY: int := -1

  // ---- Masks ----------------------------------------------------------------

  /** Bitwise and of two unsigned numbers. */
  function BitAnd(a: nat, b: nat): nat {
    if a == 0 || b == 0 then 0
    else (if a % 2 == 1 && b % 2 == 1 then 1 else 0) + 2 * BitAnd(a / 2, b / 2)
  }

  predicate PowerOfTwo(n: nat) {
    n == 1 || (n > 1 && n % 2 == 0 && PowerOfTwo(n / 2))
  }

  lemma ModUnique(a: nat, n: nat, q: nat, r: nat)
    requires a == n * q + r && r < n
    ensures a % n == r
  {
    var d := a / n - q;
    assert n * d == r - a % n;
    assert (d >= 1 ==> n * d >= n) && (d <= -1 ==> n * d <= -1 * n);
  }

  lemma ModDouble(a: nat, m: nat)
    requires m > 0
    ensures a % (2 * m) == a % 2 + 2 * (a / 2 % m)
  {
    var q, r := a / 2 / m, a / 2 % m;
    assert 2 * (m * q) == 2 * m * q;
    ModUnique(a, 2 * m, q, a % 2 + 2 * r);
  }

  /** Masking with capacity - 1 is reduction modulo a power-of-two capacity. */
  lemma {:induction false} MaskIsMod(a: nat, n: nat)
    requires PowerOfTwo(n)
    ensures BitAnd(a, n - 1) == a % n
    decreases n
  {
    if n == 1 {
    } else if a == 0 {
    } else {
      assert (n - 1) / 2 == n / 2 - 1 && (n - 1) % 2 == 1;
      MaskIsMod(a / 2, n / 2);
      ModDouble(a, n / 2);
    }
  }

  /** The cell after `x` steps past the end of the array, for less than one full turn. */
  function Wrap(x: nat, n: nat): nat {
    if x < n then x else x - n
  }

  lemma MaskWraps(x: nat, n: nat)
    requires PowerOfTwo(n) && x < 2 * n
    ensures BitAnd(x, n - 1) == Wrap(x, n)
  {
    MaskIsMod(x, n);
    if x < n {
      ModUnique(x, n, 0, x);
    } else {
      ModUnique(x, n, 1, x - n);
    }
  }

  // ---- Invariants -----------------------------------------------------------

  /** Cell `c` is visited on the way from `h` up to but excluding `p`, wrapping at the end. */
  predicate OnPath(h: int, c: int, p: int) {
    if h <= p then h <= c < p else c >= h || c < p
  }

  /** Cell `c` lies after `i` up to and including `j`, wrapping at the end. */
  predicate Passed(i: int, c: int, j: int) {
    if i <= j then i < c <= j else c > i || c <= j
  }

  /** `cells` and `cellIxs` are mutually inverse. */
  ghost predicate Linked(cells: seq<int>, cellIxs: seq<nat>) {
    && (forall c :: 0 <= c < |cells| && cells[c] != EMPTY ==>
          0 <= cells[c] < |cellIxs| && cellIxs[cells[c]] == c)
    && (forall t :: 0 <= t < |cellIxs| ==> cellIxs[t] < |cells| && cells[cellIxs[t]] == t)
  }

  /** Every home is a cell and there is one for every item. */
  ghost predicate Homed(cells: seq<int>, homes: seq<nat>, cellIxs: seq<nat>) {
    && |homes| == |cellIxs|
    && forall t :: 0 <= t < |homes| ==> homes[t] < |cells|
  }

  /** Every item is reached from its home through occupied cells only. */
  ghost predicate Probed(cells: seq<int>, homes: seq<nat>, cellIxs: seq<nat>)
    requires |homes| == |cellIxs|
  {
    forall t, c :: 0 <= t < |homes| && 0 <= c < |cells| && OnPath(homes[t], c, cellIxs[t]) ==> cells[c] != EMPTY
  }

  /**
   * The same while a hole is being closed: the hole may interrupt a path, but only
   * towards items that the scan, now at `scan`, has not passed yet.
   */
  ghost predicate ProbedPastHole(cells: seq<int>, homes: seq<nat>, cellIxs: seq<nat>, hole: int, scan: int)
    requires |homes| == |cellIxs|
  {
    && (forall t, c :: 0 <= t < |homes| && 0 <= c < |cells| && OnPath(homes[t], c, cellIxs[t]) ==>
          cells[c] != EMPTY || c == hole)
    && (forall t :: 0 <= t < |homes| && OnPath(homes[t], hole, cellIxs[t]) ==>
          !Passed(hole, cellIxs[t], scan))
  }

  // ---- Pigeonhole -----------------------------------------------------------

  ghost function EmptyCells(cells: seq<int>): set<int> {
    set c | 0 <= c < |cells| && cells[c] == EMPTY
  }

  lemma {:induction false} AllEmpty(cells: seq<int>)
    requires forall c :: 0 <= c < |cells| ==> cells[c] == EMPTY
    ensures |EmptyCells(cells)| == |cells|
  {
    if |cells| > 0 {
      var n := |cells| - 1;
      AllEmpty(cells[..n]);
      assert EmptyCells(cells) == EmptyCells(cells[..n]) + {n};
    }
  }

  /** Every item takes exactly one cell. */
  lemma {:induction false} EmptyCellCount(cells: seq<int>, cellIxs: seq<nat>)
    requires Linked(cells, cellIxs)
    ensures |EmptyCells(cells)| == |cells| - |cellIxs|
    decreases |cellIxs|
  {
    if |cellIxs| == 0 {
      AllEmpty(cells);
    } else {
      var last := |cellIxs| - 1;
      var cells' := cells[cellIxs[last] := EMPTY];
      EmptyCellCount(cells', cellIxs[..last]);
      assert EmptyCells(cells') == EmptyCells(cells) + {cellIxs[last]};
    }
  }

  /** With more cells than items, and one cell set aside, an empty cell remains. */
  lemma EmptyCellBesides(cells: seq<int>, cellIxs: seq<nat>, hole: int) returns (c: int)
    requires Linked(cells, cellIxs) && |cellIxs| + 1 < |cells|
    ensures 0 <= c < |cells| && cells[c] == EMPTY && c != hole
  {
    EmptyCellCount(cells, cellIxs);
    var rest := EmptyCells(cells) - {hole};
    assert EmptyCells(cells) <= rest + {hole};
    assert |rest + {hole}| <= |rest| + 1;
    assert |EmptyCells(cells)| <= |rest + {hole}| by {
      SubsetSize(EmptyCells(cells), rest + {hole});
    }
    c :| c in rest;
  }

  lemma SubsetSize(a: set<int>, b: set<int>)
    requires a <= b
    ensures |a| <= |b|
  {
    assert b == a + (b - a);
  }

  // ---- Insertion ------------------------------------------------------------

  /** Filling the empty cell at the end of a key's probe path keeps all paths. */
  lemma InsertKeeps(cells: seq<int>, homes: seq<nat>, cellIxs: seq<nat>, home: nat, ix: nat)
    requires Linked(cells, cellIxs) && Homed(cells, homes, cellIxs) && Probed(cells, homes, cellIxs)
    requires home < |cells| && ix < |cells| && cells[ix] == EMPTY
    requires forall c :: 0 <= c < |cells| && OnPath(home, c, ix) ==> cells[c] != EMPTY
    ensures Linked(cells[ix := |cellIxs|], cellIxs + [ix])
    ensures Homed(cells[ix := |cellIxs|], homes + [home], cellIxs + [ix])
    ensures Probed(cells[ix := |cellIxs|], homes + [home], cellIxs + [ix])
  {
  }

  // ---- Removal --------------------------------------------------------------

  /** The item of `cell` gives its number to the last item and leaves a hole. */
  lemma SwapRemoveKeeps(cells: seq<int>, homes: seq<nat>, cellIxs: seq<nat>, cell: nat)
    requires Linked(cells, cellIxs) && Homed(cells, homes, cellIxs) && Probed(cells, homes, cellIxs)
    requires cell < |cells| && cells[cell] != EMPTY
    ensures
      var x, last := cells[cell], |cellIxs| - 1;
      var cells' := cells[cellIxs[last] := x][cell := EMPTY];
      && Linked(cells', SwapRemove(cellIxs, x))
      && Homed(cells', SwapRemove(homes, x), SwapRemove(cellIxs, x))
      && ProbedPastHole(cells', SwapRemove(homes, x), SwapRemove(cellIxs, x), cell, cell)
  {
    var x, last := cells[cell], |cellIxs| - 1;
    var cells' := cells[cellIxs[last] := x][cell := EMPTY];
    var ixs', homes' := SwapRemove(cellIxs, x), SwapRemove(homes, x);
    assert forall t :: 0 <= t < last ==>
      ixs'[t] == cellIxs[if t == x then last else t] && homes'[t] == homes[if t == x then last else t];
    forall t, c | 0 <= t < last && 0 <= c < |cells| && OnPath(homes'[t], c, ixs'[t])
      ensures cells'[c] != EMPTY || c == cell
    {
      var u := if t == x then last else t;
      assert OnPath(homes[u], c, cellIxs[u]);
    }
  }

  /** One backward shift: the item found at `j` moves into the hole, and `j` is the new hole. */
  lemma ShiftMoves(cells: seq<int>, homes: seq<nat>, cellIxs: seq<nat>, hole: nat, scan: nat, j: nat)
    requires Linked(cells, cellIxs) && Homed(cells, homes, cellIxs)
    requires ProbedPastHole(cells, homes, cellIxs, hole, scan)
    requires hole < |cells| && cells[hole] == EMPTY && j < |cells| && cells[j] != EMPTY
    requires OnPath(homes[cells[j]], hole, j)
    ensures
      var cells', ixs' := cells[hole := cells[j]][j := EMPTY], cellIxs[cells[j] := hole];
      && Linked(cells', ixs') && Homed(cells', homes, ixs')
      && ProbedPastHole(cells', homes, ixs', j, j)
  {
    var t := cells[j];
    var cells', ixs' := cells[hole := t][j := EMPTY], cellIxs[t := hole];
    forall u, c | 0 <= u < |homes| && 0 <= c < |cells| && OnPath(homes[u], c, ixs'[u])
      ensures cells'[c] != EMPTY || c == j
    {
      if u == t {
        assert OnPath(homes[t], c, cellIxs[t]);
      } else {
        assert OnPath(homes[u], c, cellIxs[u]);
      }
    }
  }

  /** An item whose path does not cross the hole stays where it is. */
  lemma ShiftSkips(cells: seq<int>, homes: seq<nat>, cellIxs: seq<nat>, hole: nat, scan: nat, j: nat)
    requires Linked(cells, cellIxs) && Homed(cells, homes, cellIxs)
    requires ProbedPastHole(cells, homes, cellIxs, hole, scan)
    requires hole < |cells| && scan < |cells| && j == Wrap(scan + 1, |cells|) && j != hole && cells[j] != EMPTY
    requires !OnPath(homes[cells[j]], hole, j)
    ensures ProbedPastHole(cells, homes, cellIxs, hole, j)
  {
    forall t | 0 <= t < |homes| && OnPath(homes[t], hole, cellIxs[t])
      ensures !Passed(hole, cellIxs[t], j)
    {
      assert cellIxs[t] != j;
    }
  }

  /** An empty cell ends the scan: no path is interrupted any more. */
  lemma ShiftEnds(cells: seq<int>, homes: seq<nat>, cellIxs: seq<nat>, hole: nat, scan: nat, j: nat)
    requires Linked(cells, cellIxs) && Homed(cells, homes, cellIxs)
    requires ProbedPastHole(cells, homes, cellIxs, hole, scan)
    requires hole < |cells| && scan < |cells| && j == Wrap(scan + 1, |cells|) && j != hole && cells[j] == EMPTY
    ensures Probed(cells, homes, cellIxs)
  {
    forall t, c | 0 <= t < |homes| && 0 <= c < |cells| && OnPath(homes[t], c, cellIxs[t])
      ensures cells[c] != EMPTY
    {
      if c == hole {
        assert !Passed(hole, cellIxs[t], scan);
        assert cellIxs[t] != j;
        assert OnPath(homes[t], j, cellIxs[t]);
      }
    }
  }
}
