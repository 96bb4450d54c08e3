/** Dark ("on") and light ("off") module counts over a module grid
    (get_module_counts and get_row_module_counts). Rows may have any length
    here: neither function relies on the grid being square. */
module ModuleStats {

  /** All cells of the grid, row after row. */
  function Flatten(g: seq<seq<bool>>): (cells: seq<bool>) {
    if g == [] then [] else g[0] + Flatten(g[1..])
  }

  /** reduce(lambda x, y: x + y, row, acc): a left fold adding True as 1.
      Python's sum(row) over a row of booleans is SumBools(0, row). */
  function SumBools(acc: int, row: seq<bool>): (total: int)
    decreases |row|
  {
    if row == [] then acc else SumBools(acc + (if row[0] then 1 else 0), row[1..])
  }

  /** reduce(lambda x, y: x + sum(y), rows, acc). */
  function OnFold(acc: int, rows: seq<seq<bool>>): (total: int)
    decreases |rows|
  {
    if rows == [] then acc else OnFold(acc + SumBools(0, rows[0]), rows[1..])
  }

  /** reduce(lambda x, y: x + len(y), rows, acc). */
  function LenFold(acc: int, rows: seq<seq<bool>>): (total: int)
    decreases |rows|
  {
    if rows == [] then acc else LenFold(acc + |rows[0]|, rows[1..])
  }

  /** get_module_counts: (on, off) for the whole grid. */
  function ModuleCounts(g: seq<seq<bool>>): (r: (int, int)) {
    var on := OnFold(0, g);
    (on, LenFold(0, g) - on)
  }

  // ---------------------------------------------------------------------
  // Lemmas connecting the folds to the multiset of cells

  lemma {:induction false} SumBoolsCount(acc: int, row: seq<bool>)
    ensures SumBools(acc, row) == acc + multiset(row)[true]
    decreases |row|
  {
    if row != [] {
      assert row == [row[0]] + row[1..];
      SumBoolsCount(acc + (if row[0] then 1 else 0), row[1..]);
    }
  }

  lemma {:induction false} BoolCountsSplit(s: seq<bool>)
    ensures multiset(s)[true] + multiset(s)[false] == |s|
  {
    if s != [] {
      assert s == [s[0]] + s[1..];
      var rest := multiset(s[1..]);
      assert multiset(s) == multiset{s[0]} + rest;
      if s[0] {
        assert multiset(s)[true] == rest[true] + 1 && multiset(s)[false] == rest[false];
      } else {
        assert multiset(s)[false] == rest[false] + 1 && multiset(s)[true] == rest[true];
      }
      BoolCountsSplit(s[1..]);
    }
  }

  lemma {:induction false} OnFoldCount(acc: int, rows: seq<seq<bool>>)
    ensures OnFold(acc, rows) == acc + multiset(Flatten(rows))[true]
    decreases |rows|
  {
    if rows != [] {
      SumBoolsCount(0, rows[0]);
      OnFoldCount(acc + SumBools(0, rows[0]), rows[1..]);
    }
  }

  lemma {:induction false} LenFoldCount(acc: int, rows: seq<seq<bool>>)
    ensures LenFold(acc, rows) == acc + |Flatten(rows)|
    decreases |rows|
  {
    if rows != [] {
      LenFoldCount(acc + |rows[0]|, rows[1..]);
    }
  }

  lemma {:induction false} FlattenAppend(g: seq<seq<bool>>, r: seq<bool>)
    ensures Flatten(g + [r]) == Flatten(g) + r
  {
    if g == [] {
      assert [] + [r] == [r];
    } else {
      assert (g + [r])[1..] == g[1..] + [r];
      FlattenAppend(g[1..], r);
    }
  }

  lemma {:induction false} FlattenLength(g: seq<seq<bool>>, n: nat)
    requires forall i :: 0 <= i < |g| ==> |g[i]| == n
    ensures |Flatten(g)| == |g| * n
  {
    if g != [] {
      FlattenLength(g[1..], n);
    }
  }

  /** on is the number of dark cells, off the number of light cells; both
      are non-negative and together they are the number of cells. */
  lemma ModuleCountsCorrect(g: seq<seq<bool>>)
    ensures ModuleCounts(g).0 == multiset(Flatten(g))[true]
    ensures ModuleCounts(g).1 == multiset(Flatten(g))[false]
    ensures ModuleCounts(g).0 >= 0 && ModuleCounts(g).1 >= 0
    ensures ModuleCounts(g).0 + ModuleCounts(g).1 == |Flatten(g)|
  {
    OnFoldCount(0, g);
    LenFoldCount(0, g);
    BoolCountsSplit(Flatten(g));
  }

  /** For an N x N grid on + off == N * N. */
  lemma ModuleCountsSquare(g: seq<seq<bool>>)
    requires forall i :: 0 <= i < |g| ==> |g[i]| == |g|
    ensures ModuleCounts(g).0 + ModuleCounts(g).1 == |g| * |g|
  {
    ModuleCountsCorrect(g);
    FlattenLength(g, |g|);
  }

  // ---------------------------------------------------------------------
  // Per-row counts

  /** Dark and light cells of a sequence of modules. */
  function Dark(s: seq<bool>): (k: nat) { multiset(s)[true] }

  function Light(s: seq<bool>): (k: nat) { multiset(s)[false] }

  /** The (on, off) pair of one row: its dark and its light cells. */
  function RowPair(row: seq<bool>): (p: (int, int)) {
    (Dark(row), Light(row))
  }

  /** The sum of the first (on) and second (off) components of the pairs. */
  function SumOn(ps: seq<(int, int)>): (total: int) {
    if ps == [] then 0 else SumOn(ps[..|ps| - 1]) + ps[|ps| - 1].0
  }

  function SumOff(ps: seq<(int, int)>): (total: int) {
    if ps == [] then 0 else SumOff(ps[..|ps| - 1]) + ps[|ps| - 1].1
  }

  /** What one turn of the loop in get_row_module_counts establishes. */
  lemma RowStep(g: seq<seq<bool>>, i: nat, ret: seq<(int, int)>, on: int, off: int)
    requires i < |g| && on == SumBools(0, g[i]) && off == |g[i]| - on
    ensures (on, off) == RowPair(g[i]) && on + off == |g[i]|
    ensures SumOn(ret + [(on, off)]) == SumOn(ret) + on
    ensures SumOff(ret + [(on, off)]) == SumOff(ret) + off
    ensures Dark(Flatten(g[..i + 1])) == Dark(Flatten(g[..i])) + on
    ensures Light(Flatten(g[..i + 1])) == Light(Flatten(g[..i])) + off
  {
    SumBoolsCount(0, g[i]);
    BoolCountsSplit(g[i]);
    assert (ret + [(on, off)])[..|ret|] == ret;
    assert g[..i + 1] == g[..i] + [g[i]];
    FlattenAppend(g[..i], g[i]);
  }

  /** Appending the pair of row i keeps "pair k is the pair of row k". */
  lemma RowPairsAppend(g: seq<seq<bool>>, ret: seq<(int, int)>, i: nat, p: (int, int))
    requires i < |g| && |ret| == i && p == RowPair(g[i])
    requires forall k :: 0 <= k < i ==> ret[k] == RowPair(g[k])
    ensures forall k :: 0 <= k < i + 1 ==> (ret + [p])[k] == RowPair(g[k])
  {
  }

  /** get_row_module_counts: one (on, off) pair per row, in row order; the
      pairs add up to the totals of get_module_counts. */
  method RowModuleCounts(g: seq<seq<bool>>) returns (ret: seq<(int, int)>)
    ensures |ret| == |g|
    ensures forall i :: 0 <= i < |g| ==> ret[i] == RowPair(g[i])
    ensures forall i :: 0 <= i < |g| ==> ret[i].0 >= 0 && ret[i].1 >= 0 && ret[i].0 + ret[i].1 == |g[i]|
    ensures SumOn(ret) == ModuleCounts(g).0 && SumOff(ret) == ModuleCounts(g).1
  {
    ret := [];
    var i := 0;
    while i < |g|
      invariant 0 <= i <= |g|
      invariant |ret| == i
      invariant forall k :: 0 <= k < i ==> ret[k] == RowPair(g[k])
      invariant SumOn(ret) == Dark(Flatten(g[..i])) && SumOff(ret) == Light(Flatten(g[..i]))
    {
      var row := g[i];
      var on := SumBools(0, row);
      var off := |row| - on;
      RowStep(g, i, ret, on, off);
      RowPairsAppend(g, ret, i, (on, off));
      ret := ret + [(on, off)];
      i := i + 1;
    }
    forall k | 0 <= k < |g|
      ensures ret[k].0 + ret[k].1 == |g[k]|
    {
      BoolCountsSplit(g[k]);
    }
    assert g[..i] == g;
    ModuleCountsCorrect(g);
  }
}
