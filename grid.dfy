// generate_grid_combinations: the Cartesian product of a grid's value lists,
// one dict per combination, keys in grid order, in itertools.product order.
module Grid {
  import opened Dicts
  import opened Values

  /** A grid.yaml mapping: parameter name to its list of candidate values. */
  type GridConfig = Dict<seq<Value>>

  /** One point of the sweep: every grid key with one of its values. */
  type Combination = Dict<Value>

  // ---------------------------------------------------------------------
  // itertools.product

  /** itertools.product(*lists): the first list varies slowest. */
  function Product<T>(lists: seq<seq<T>>): seq<seq<T>>
    decreases |lists|
  {
    if |lists| == 0 then [[]] else Extend(lists[0], Product(lists[1..]))
  }

  /** Every choice from heads, in order, placed in front of every tail. */
  function Extend<T>(heads: seq<T>, tails: seq<seq<T>>): seq<seq<T>>
    decreases |heads|
  {
    if |heads| == 0 then [] else Prepend(heads[0], tails) + Extend(heads[1..], tails)
  }

  function Prepend<T>(x: T, tails: seq<seq<T>>): (r: seq<seq<T>>)
    ensures |r| == |tails|
    ensures forall j :: 0 <= j < |tails| ==> r[j] == [x] + tails[j]
  {
    seq(|tails|, j requires 0 <= j < |tails| => [x] + tails[j])
  }

  // ---------------------------------------------------------------------
  // Mixed-radix numbering of the combinations

  /** The length of each value list: the radix of each digit. */
  function Radices<T>(lists: seq<seq<T>>): (r: seq<nat>)
    ensures |r| == |lists| && forall k :: 0 <= k < |lists| ==> r[k] == |lists[k]|
  {
    seq(|lists|, k requires 0 <= k < |lists| => |lists[k]|)
  }

  /** The product of the radices: how many combinations there are. */
  function Count(radices: seq<nat>): nat
  {
    if |radices| == 0 then 1 else radices[0] * Count(radices[1..])
  }

  /** The number whose mixed-radix digits are ds, most significant first. */
  function Rank(radices: seq<nat>, ds: seq<nat>): nat
    requires |ds| == |radices|
  {
    if |ds| == 0 then 0 else ds[0] * Count(radices[1..]) + Rank(radices[1..], ds[1..])
  }

  predicate InRange(radices: seq<nat>, ds: seq<nat>) {
    |ds| == |radices| && forall k :: 0 <= k < |ds| ==> ds[k] < radices[k]
  }

  /** The mixed-radix digits of i: the inverse of Rank. */
  function MixedRadix(radices: seq<nat>, i: nat): (ds: seq<nat>)
    requires i < Count(radices)
    ensures InRange(radices, ds) && Rank(radices, ds) == i
    decreases |radices|
  {
    if |radices| == 0 then []
    else
      var w := Count(radices[1..]);
      DigitSplit(i, w, radices[0]);
      var rest := MixedRadix(radices[1..], i % w);
      PrependDigit(radices, i / w, rest);
      [i / w] + rest
  }

  /** The leading digit and the remainder of i, for place value w. */
  lemma DigitSplit(i: nat, w: nat, r: nat)
    requires i < r * w
    ensures w > 0 && i / w < r && i % w < w && (i / w) * w + i % w == i
  {
    assert w > 0;
    DivBound(i, w, r);
  }

  lemma PrependDigit(radices: seq<nat>, d: nat, rest: seq<nat>)
    requires |radices| > 0 && d < radices[0] && InRange(radices[1..], rest)
    ensures InRange(radices, [d] + rest)
    ensures Rank(radices, [d] + rest) == d * Count(radices[1..]) + Rank(radices[1..], rest)
  {
    var ds := [d] + rest;
    assert ds[0] == d && ds[1..] == rest;
    forall k | 0 < k < |ds| ensures ds[k] < radices[k] {
      assert ds[k] == rest[k - 1] && radices[k] == radices[1..][k - 1];
    }
  }

  /** The values chosen by digits ds. */
  function Pick<T>(lists: seq<seq<T>>, ds: seq<nat>): (r: seq<T>)
    requires InRange(Radices(lists), ds)
    ensures |r| == |lists| && forall k :: 0 <= k < |lists| ==> r[k] == lists[k][ds[k]]
  {
    seq(|lists|, k requires 0 <= k < |lists| => lists[k][ds[k]])
  }

  // ---------------------------------------------------------------------
  // Arithmetic helpers

  lemma DivBound(i: nat, w: nat, r: nat)
    requires w > 0 && i < r * w
    ensures i / w < r
  {
    if i / w >= r {
      Numerals.MulMonotone(r, i / w, w);
    }
  }

  lemma PlaceValueBound(d: nat, r: nat, p: nat, rest: nat)
    requires d < r && rest < p
    ensures d * p + rest < r * p
  {
    Numerals.MulMonotone(d + 1, r, p);
    Numerals.DistributeOne(d, p);
  }

  lemma ShiftBlock(d: nat, n: nat, j: nat)
    requires d > 0
    ensures d * n + j - n == (d - 1) * n + j
  {
    Numerals.DistributeOne(d - 1, n);
  }

  // ---------------------------------------------------------------------
  // Facts about the product

  lemma {:induction false} ExtendLength<T>(heads: seq<T>, tails: seq<seq<T>>)
    ensures |Extend(heads, tails)| == |heads| * |tails|
    decreases |heads|
  {
    if |heads| > 0 {
      ExtendLength(heads[1..], tails);
      Numerals.DistributeOne(|heads| - 1, |tails|);
    }
  }

  /** Block d of Extend holds heads[d] before every tail, in order. */
  lemma {:induction false} ExtendAt<T>(heads: seq<T>, tails: seq<seq<T>>, d: nat, j: nat)
    requires d < |heads| && j < |tails|
    ensures d * |tails| + j < |Extend(heads, tails)|
    ensures Extend(heads, tails)[d * |tails| + j] == [heads[d]] + tails[j]
    decreases d
  {
    ExtendLength(heads, tails);
    PlaceValueBound(d, |heads|, |tails|, j);
    var n := |tails|;
    if d > 0 {
      ExtendAt(heads[1..], tails, d - 1, j);
      ShiftBlock(d, n, j);
      Numerals.MulMonotone(1, d, n);
    }
  }

  lemma RadicesTail<T>(lists: seq<seq<T>>)
    requires |lists| > 0
    ensures Radices(lists)[1..] == Radices(lists[1..])
  {
  }

  /** There are as many combinations as the product of the list lengths. */
  lemma {:induction false} ProductLength<T>(lists: seq<seq<T>>)
    ensures |Product(lists)| == Count(Radices(lists))
    decreases |lists|
  {
    if |lists| > 0 {
      ProductLength(lists[1..]);
      ExtendLength(lists[0], Product(lists[1..]));
      RadicesTail(lists);
    }
  }

  lemma {:induction false} RankBound(radices: seq<nat>, ds: seq<nat>)
    requires InRange(radices, ds)
    ensures Rank(radices, ds) < Count(radices)
    decreases |ds|
  {
    if |ds| > 0 {
      RankBound(radices[1..], ds[1..]);
      PlaceValueBound(ds[0], radices[0], Count(radices[1..]), Rank(radices[1..], ds[1..]));
    }
  }

  /** The combination numbered Rank(ds) picks, for every key k, value ds[k]. */
  lemma {:induction false} ProductAtRank<T>(lists: seq<seq<T>>, ds: seq<nat>)
    requires InRange(Radices(lists), ds)
    ensures Rank(Radices(lists), ds) < |Product(lists)|
    ensures Product(lists)[Rank(Radices(lists), ds)] == Pick(lists, ds)
    decreases |lists|
  {
    ProductLength(lists);
    RankBound(Radices(lists), ds);
    if |lists| > 0 {
      var tail := lists[1..];
      RadicesTail(lists);
      ProductAtRank(tail, ds[1..]);
      ProductLength(tail);
      ExtendAt(lists[0], Product(tail), ds[0], Rank(Radices(tail), ds[1..]));
      assert Pick(lists, ds) == [lists[0][ds[0]]] + Pick(tail, ds[1..]);
    }
  }

  /** Combination i is the mixed-radix decomposition of i: first key slowest, last key fastest. */
  lemma ProductAt<T>(lists: seq<seq<T>>, i: nat)
    requires i < |Product(lists)|
    ensures i < Count(Radices(lists))
    ensures Product(lists)[i] == Pick(lists, MixedRadix(Radices(lists), i))
  {
    ProductLength(lists);
    ProductAtRank(lists, MixedRadix(Radices(lists), i));
  }

  /** The product is empty exactly when some value list is empty. */
  lemma {:induction false} CountZero(radices: seq<nat>)
    ensures Count(radices) == 0 <==> exists k :: 0 <= k < |radices| && radices[k] == 0
    decreases |radices|
  {
    if |radices| > 0 {
      CountZero(radices[1..]);
      if Count(radices[1..]) == 0 {
        var k :| 0 <= k < |radices[1..]| && radices[1..][k] == 0;
        assert radices[k + 1] == 0;
      }
      if radices[0] != 0 && Count(radices[1..]) != 0 {
        Numerals.MulMonotone(1, radices[0], Count(radices[1..]));
        forall k | 0 < k < |radices| ensures radices[k] != 0 {
          assert radices[1..][k - 1] == radices[k];
        }
      }
    }
  }

  // ---------------------------------------------------------------------
  // Combinations of a grid

  /** The grid's value lists, in key order (grid_config.values()). */
  function ValueLists(grid: GridConfig): (r: seq<seq<Value>>)
    ensures |r| == |grid| && forall k :: 0 <= k < |grid| ==> r[k] == grid[k].1
  {
    seq(|grid|, k requires 0 <= k < |grid| => grid[k].1)
  }

  /** dict(zip(keys, values)) for the grid's keys. */
  function Assign(grid: GridConfig, values: seq<Value>): (c: Combination)
    requires |values| == |grid|
    ensures Keys(c) == Keys(grid)
    ensures forall k :: 0 <= k < |grid| ==> c[k] == (grid[k].0, values[k])
  {
    seq(|grid|, k requires 0 <= k < |grid| => (grid[k].0, values[k]))
  }

  /** The number of combinations the grid has: the product of its list lengths. */
  function GridSize(grid: GridConfig): nat {
    Count(Radices(ValueLists(grid)))
  }

  /** The combination that picks, for every key k, value number ds[k] of its list. */
  function CombinationAt(grid: GridConfig, ds: seq<nat>): (c: Combination)
    requires InRange(Radices(ValueLists(grid)), ds)
    ensures Keys(c) == Keys(grid)
    ensures forall k :: 0 <= k < |grid| ==> c[k].1 == grid[k].1[ds[k]]
  {
    Assign(grid, Pick(ValueLists(grid), ds))
  }

  /** Every combination of the grid, numbered by the mixed-radix digits of its position. */
  function Combinations(grid: GridConfig): seq<Combination> {
    seq(GridSize(grid), i requires 0 <= i < GridSize(grid) => CombinationAt(grid, MixedRadix(Radices(ValueLists(grid)), i)))
  }

  /**
   * generate_grid_combinations: every combination of the grid, in product
   * order. An empty grid gives one empty combination; a key with an empty
   * list gives none at all (no error is raised).
   */
  method GenerateGridCombinations(grid: GridConfig) returns (combinations: seq<Combination>)
    ensures |combinations| == GridSize(grid)
    ensures forall i :: 0 <= i < |combinations| ==>
      Keys(combinations[i]) == Keys(grid) &&
      forall k :: 0 <= k < |grid| ==> combinations[i][k].1 in grid[k].1
    ensures combinations == Combinations(grid)
  {
    var lists := ValueLists(grid);
    var tuples := Product(lists);
    ProductLength(lists);
    combinations := [];
    var j := 0;
    while j < |tuples|
      invariant 0 <= j <= |tuples|
      invariant |combinations| == j
      invariant forall n :: 0 <= n < j ==>
        n < GridSize(grid) && combinations[n] == CombinationAt(grid, MixedRadix(Radices(lists), n))
    {
      ProductAt(lists, j);
      combinations := combinations + [Assign(grid, tuples[j])];
      j := j + 1;
    }
  }

  /** An empty grid has exactly one combination, the empty one. */
  lemma EmptyGrid(grid: GridConfig)
    requires |grid| == 0
    ensures GridSize(grid) == 1
    ensures Product(ValueLists(grid)) == [[]]
  {
  }

  /** A grid has no combination exactly when one of its lists is empty. */
  lemma GridSizeZero(grid: GridConfig)
    ensures GridSize(grid) == 0 <==> exists k :: 0 <= k < |grid| && grid[k].1 == []
  {
    var r := Radices(ValueLists(grid));
    CountZero(r);
    if GridSize(grid) == 0 {
      var k :| 0 <= k < |r| && r[k] == 0;
      assert grid[k].1 == [];
    }
    if exists k :: 0 <= k < |grid| && grid[k].1 == [] {
      var k :| 0 <= k < |grid| && grid[k].1 == [];
      assert r[k] == 0;
    }
  }
}
