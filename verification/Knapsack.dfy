// The knapsack benchmark: branch and bound with a shared incumbent, and the split
// into independent tasks.
module Knapsack {
  import opened Wrappers

  const INT_MAX := 0x7FFF_FFFF
  const INT_MIN := -0x8000_0000

  datatype Item = Item(weight: int, value: int) {
    function UnitValue(): real
      requires weight != 0
    {
      value as real / weight as real
    }
  }

  function Max(a: int, b: int): int {
    if a >= b then a else b
  }

  /* ----- the optimum ----- */

  function TotalWeight(items: seq<Item>): int {
    if items == [] then 0 else items[0].weight + TotalWeight(items[1..])
  }

  function TotalValue(items: seq<Item>): int {
    if items == [] then 0 else items[0].value + TotalValue(items[1..])
  }

  // A selection takes every item at most once.
  ghost predicate IsSelection(chosen: seq<Item>, items: seq<Item>, c: int) {
    multiset(chosen) <= multiset(items) && TotalWeight(chosen) <= c
  }

  // x is the largest value of any selection within capacity c.
  ghost predicate IsOptimum(items: seq<Item>, c: int, x: int) {
    && (exists chosen :: IsSelection(chosen, items, c) && TotalValue(chosen) == x)
    && (forall chosen :: IsSelection(chosen, items, c) ==> TotalValue(chosen) <= x)
  }

  predicate Proper(items: seq<Item>) {
    forall i :: 0 <= i < |items| ==> items[i].weight > 0 && items[i].value >= 0
  }

  // The optimum, item by item.
  function Best(items: seq<Item>, c: int): int
    requires c >= 0
  {
    if items == [] then 0
    else
      var without := Best(items[1..], c);
      if items[0].weight > c || items[0].weight <= 0 then without
      else Max(without, items[0].value + Best(items[1..], c - items[0].weight))
  }

  // What a search started with capacity c and value v should return.
  function Opt(items: seq<Item>, c: int, v: int): int {
    if c < 0 then INT_MIN else v + Best(items, c)
  }

  lemma {:induction false} BestBounds(items: seq<Item>, c: int)
    requires Proper(items) && c >= 0
    ensures 0 <= Best(items, c) <= TotalValue(items)
    ensures c == 0 ==> Best(items, c) == 0
  {
    if items != [] {
      BestBounds(items[1..], c);
      if items[0].weight <= c { BestBounds(items[1..], c - items[0].weight); }
    }
  }

  lemma {:induction false} TotalsOfRemoval(s: seq<Item>, k: nat)
    requires k < |s|
    ensures TotalWeight(s) == s[k].weight + TotalWeight(s[..k] + s[k + 1..])
    ensures TotalValue(s) == s[k].value + TotalValue(s[..k] + s[k + 1..])
  {
    if k == 0 {
      assert s[..0] + s[1..] == s[1..];
    } else {
      TotalsOfRemoval(s[1..], k - 1);
      var r := s[..k] + s[k + 1..];
      assert s[1..][..k - 1] + s[1..][k..] == r[1..];
    }
  }

  lemma {:induction false} TotalsNonNegative(s: seq<Item>)
    requires Proper(s)
    ensures TotalWeight(s) >= 0 && TotalValue(s) >= 0
  {
    if s != [] { TotalsNonNegative(s[1..]); }
  }

  lemma SelectionIsProper(chosen: seq<Item>, items: seq<Item>)
    requires Proper(items) && multiset(chosen) <= multiset(items)
    ensures Proper(chosen)
  {
    forall i | 0 <= i < |chosen| ensures chosen[i].weight > 0 && chosen[i].value >= 0 {
      assert chosen[i] in multiset(chosen);
      assert chosen[i] in multiset(items);
      assert chosen[i] in items;
    }
  }

  // Taking one copy of an item out of a selection.
  lemma RemoveItem(chosen: seq<Item>, item: Item) returns (others: seq<Item>)
    requires item in chosen
    ensures multiset(chosen) == multiset{item} + multiset(others)
    ensures TotalWeight(chosen) == item.weight + TotalWeight(others)
    ensures TotalValue(chosen) == item.value + TotalValue(others)
    ensures |others| < |chosen|
  {
    hide TotalWeight, TotalValue;
    var k :| 0 <= k < |chosen| && chosen[k] == item;
    others := chosen[..k] + chosen[k + 1..];
    TotalsOfRemoval(chosen, k);
    assert chosen == chosen[..k] + [item] + chosen[k + 1..];
  }

  lemma CancelItem(item: Item, a: multiset<Item>, b: multiset<Item>)
    requires multiset{item} + a <= multiset{item} + b
    ensures a <= b
  {
    forall x ensures a[x] <= b[x] {
      assert (multiset{item} + a)[x] <= (multiset{item} + b)[x];
    }
  }

  lemma SelectionWithHead(chosen: seq<Item>, items: seq<Item>, c: int) returns (others: seq<Item>)
    requires items != [] && Proper(items) && IsSelection(chosen, items, c) && items[0] in chosen
    ensures items[0].weight <= c && IsSelection(others, items[1..], c - items[0].weight)
    ensures TotalValue(chosen) == items[0].value + TotalValue(others)
  {
    hide TotalWeight, TotalValue;
    others := RemoveItem(chosen, items[0]);
    assert items == [items[0]] + items[1..];
    CancelItem(items[0], multiset(others), multiset(items[1..]));
    SelectionIsProper(others, items[1..]);
    TotalsNonNegative(others);
  }

  lemma SelectionWithoutHead(chosen: seq<Item>, items: seq<Item>, c: int)
    requires items != [] && IsSelection(chosen, items, c) && items[0] !in chosen
    ensures IsSelection(chosen, items[1..], c)
  {
    hide TotalWeight;
    assert items == [items[0]] + items[1..];
    assert multiset(items) == multiset{items[0]} + multiset(items[1..]);
    assert multiset(chosen)[items[0]] == 0;
  }

  lemma SelectionOfNothing(chosen: seq<Item>, c: int)
    requires IsSelection(chosen, [], c)
    ensures chosen == []
  {
    assert |multiset(chosen)| == 0;
  }

  lemma {:induction false} NoSelectionBeatsBest(items: seq<Item>, c: int, chosen: seq<Item>)
    requires Proper(items) && c >= 0 && IsSelection(chosen, items, c)
    ensures TotalValue(chosen) <= Best(items, c)
  {
    if items == [] {
      SelectionOfNothing(chosen, c);
    } else {
      hide IsSelection, TotalValue;
      if items[0] in chosen {
        var others := SelectionWithHead(chosen, items, c);
        NoSelectionBeatsBest(items[1..], c - items[0].weight, others);
      } else {
        SelectionWithoutHead(chosen, items, c);
        NoSelectionBeatsBest(items[1..], c, chosen);
      }
    }
  }

  lemma {:induction false} SomeSelectionIsBest(items: seq<Item>, c: int) returns (chosen: seq<Item>)
    requires Proper(items) && c >= 0
    ensures IsSelection(chosen, items, c) && TotalValue(chosen) == Best(items, c)
  {
    if items == [] {
      chosen := [];
    } else {
      var head, rest := items[0], items[1..];
      assert items == [head] + rest;
      var without := SomeSelectionIsBest(rest, c);
      chosen := without;
      if head.weight <= c {
        var others := SomeSelectionIsBest(rest, c - head.weight);
        if head.value + Best(rest, c - head.weight) > Best(rest, c) {
          chosen := [head] + others;
          assert chosen[1..] == others;
        }
      }
    }
  }

  // Best is the optimum over all subsets.
  lemma BestIsOptimum(items: seq<Item>, c: int)
    requires Proper(items) && c >= 0
    ensures IsOptimum(items, c, Best(items, c))
  {
    var chosen := SomeSelectionIsBest(items, c);
    forall other | IsSelection(other, items, c) ensures TotalValue(other) <= Best(items, c) {
      NoSelectionBeatsBest(items, c, other);
    }
  }

  /* ----- the bound ----- */

  // No item is worth more per weight than an earlier one.
  predicate RatioSorted(items: seq<Item>) {
    forall i, j :: 0 <= i < j < |items| ==> items[j].value * items[i].weight <= items[i].value * items[j].weight
  }

  // load_input sorts by falling unit value; that is the order the bound needs.
  lemma SortedByUnitValue(items: seq<Item>)
    requires Proper(items)
    ensures (forall i, j :: 0 <= i < j < |items| ==> items[i].UnitValue() >= items[j].UnitValue()) <==>
            RatioSorted(items)
  {
    forall i, j | 0 <= i < j < |items|
      ensures items[i].UnitValue() >= items[j].UnitValue() <==>
              items[j].value * items[i].weight <= items[i].value * items[j].weight
    {
      CompareQuotients(items[i].value, items[i].weight, items[j].value, items[j].weight);
    }
  }

  // After load_input the search solves the problem that was read: sorting keeps the
  // items, and the optimum does not depend on their order.
  lemma LoadedOptimum(input: seq<Item>, items: seq<Item>, c: int)
    requires Proper(input) && c >= 0 && multiset(items) == multiset(input)
    requires Proper(items) ==>
               forall i, j :: 0 <= i < j < |items| ==> items[i].UnitValue() >= items[j].UnitValue()
    ensures Proper(items) && RatioSorted(items) && IsOptimum(input, c, Best(items, c))
  {
    hide TotalWeight, TotalValue;
    SelectionIsProper(items, input);
    SortedByUnitValue(items);
    BestIsOptimum(items, c);
    forall chosen ensures IsSelection(chosen, items, c) <==> IsSelection(chosen, input, c) {}
  }

  lemma CompareQuotients(a: int, b: int, c: int, d: int)
    requires b > 0 && d > 0
    ensures a as real / b as real >= c as real / d as real <==> c * b <= a * d
  {
    var x, y := a as real / b as real, c as real / d as real;
    assert x * b as real == a as real && y * d as real == c as real;
    assert a as real * d as real == x * (b as real * d as real);
    assert c as real * b as real == y * (b as real * d as real);
    assert b as real * d as real > 0.0;
    assert (a * d) as real == a as real * d as real && (c * b) as real == c as real * b as real;
    if x >= y { assert x * (b as real * d as real) >= y * (b as real * d as real); }
    if x < y { assert x * (b as real * d as real) < y * (b as real * d as real); }
  }

  lemma {:induction false} BestIsBounded(items: seq<Item>, c: int, weight: int, value: int)
    requires Proper(items) && c >= 0 && value >= 0
    requires forall i :: 0 <= i < |items| ==> items[i].value * weight <= value * items[i].weight
    ensures Best(items, c) * weight <= value * c
  {
    if items == [] {
      NoBound(weight, value, c);
    } else {
      BestIsBounded(items[1..], c, weight, value);
      var head := items[0];
      if head.weight <= c {
        BestIsBounded(items[1..], c - head.weight, weight, value);
        AddBound(head.value, head.weight, Best(items[1..], c - head.weight), c, weight, value);
      }
    }
  }

  lemma NoBound(weight: int, value: int, c: int)
    requires value >= 0 && c >= 0
    ensures 0 * weight <= value * c
  {
  }

  lemma AddBound(v: int, w: int, b: int, c: int, weight: int, value: int)
    requires v * weight <= value * w && b * weight <= value * (c - w)
    ensures (v + b) * weight <= value * c
  {
    assert (v + b) * weight == v * weight + b * weight;
    assert value * (c - w) == value * c - value * w;
  }

  // The truncated quotient of the first item still bounds the optimum.
  lemma BoundIsSafe(items: seq<Item>, c: int)
    requires Proper(items) && RatioSorted(items) && items != [] && c >= 0
    ensures Best(items, c) <= c * items[0].value / items[0].weight
  {
    var w, v := items[0].weight, items[0].value;
    BestIsBounded(items, c, w, v);
    assert c * v == v * c;
    DivideBound(Best(items, c), w, c * v);
  }

  lemma DivideBound(a: int, w: int, x: int)
    requires w > 0 && a * w <= x
    ensures a <= x / w
  {
    var q := x / w;
    assert x < q * w + w;
    if a > q { NextMultiple(q, a, w); }
  }

  /* ----- the search ----- */

  // The arithmetic of a search stays within int.
  predicate NoOverflow(items: seq<Item>, c: int, v: int) {
    && INT_MIN <= c <= INT_MAX && 0 <= v && v + TotalValue(items) <= INT_MAX
    && forall i :: 0 <= i < |items| ==> items[i].weight <= INT_MAX && (c >= 0 ==> c * items[i].value <= INT_MAX)
  }

  lemma NoOverflowBelow(items: seq<Item>, c: int, v: int)
    requires Proper(items) && RatioSorted(items) && NoOverflow(items, c, v) && items != [] && c >= 0
    ensures Proper(items[1..]) && RatioSorted(items[1..])
    ensures NoOverflow(items[1..], c, v) && NoOverflow(items[1..], c - items[0].weight, v + items[0].value)
  {
    hide TotalWeight;
    forall i | 0 <= i < |items| - 1
      ensures items[1..][i].weight <= INT_MAX && c * items[1..][i].value <= INT_MAX
      ensures (c - items[0].weight) * items[1..][i].value <= INT_MAX
    {
      assert items[1..][i] == items[i + 1];
      ProductBelow(c, items[0].weight, items[i + 1].value);
    }
  }

  lemma ProductBelow(c: int, w: int, x: int)
    requires w >= 0 && x >= 0
    ensures (c - w) * x <= c * x
  {
    assert (c - w) * x == c * x - w * x;
  }

  // Full, or nothing left to choose from.
  predicate IsLeaf(items: seq<Item>, c: int) {
    c >= 0 && (items == [] || c == 0)
  }

  // The bound says the incumbent cannot be reached.
  predicate IsCut(bestSoFar: int, items: seq<Item>, c: int, v: int)
    requires Proper(items)
  {
    c > 0 && items != [] && v + c * items[0].value / items[0].weight < bestSoFar
  }

  // Without the division.
  lemma CutIs(bestSoFar: int, items: seq<Item>, c: int, v: int)
    requires Proper(items) && items != []
    ensures IsCut(bestSoFar, items, c, v) <==>
            c > 0 && c * items[0].value < (bestSoFar - v) * items[0].weight
  {
    var w, x := items[0].weight, c * items[0].value;
    var q := x / w;
    assert q * w <= x < q * w + w;
    if v + q < bestSoFar {
      NextMultiple(q, bestSoFar - v, w);
    } else {
      ProductOrder(bestSoFar - v, q, w);
    }
  }

  // knapsack_serial. If the optimum is not below the incumbent, it is returned, and a
  // branch that cannot reach the incumbent is cut off; the incumbent rises exactly to
  // the result, except at a leaf.
  method SerialSearch(bestSoFar: int, items: seq<Item>, c: int, v: int) returns (r: int, bestSoFar': int)
    requires Proper(items) && RatioSorted(items) && NoOverflow(items, c, v) && INT_MIN <= bestSoFar
    ensures INT_MIN <= r <= Opt(items, c, v)
    ensures bestSoFar <= Opt(items, c, v) ==> r == Opt(items, c, v)
    ensures IsCut(bestSoFar, items, c, v) ==> r == -0x8000_0000
    ensures bestSoFar' == if IsLeaf(items, c) then bestSoFar else Max(bestSoFar, r)
    decreases |items|
  {
    bestSoFar' := bestSoFar;
    if c < 0 {
      return INT_MIN, bestSoFar';
    }
    BestBounds(items, c);
    if items == [] || c == 0 {
      return v, bestSoFar';
    }
    var ub := v + c * items[0].value / items[0].weight;
    BoundIsSafe(items, c);
    if ub < bestSoFar' {
      return INT_MIN, bestSoFar';
    }
    NoOverflowBelow(items, c, v);
    var without, with;
    without, bestSoFar' := SerialSearch(bestSoFar', items[1..], c, v);
    with, bestSoFar' := SerialSearch(bestSoFar', items[1..], c - items[0].weight, v + items[0].value);
    var best := if with > without then with else without;
    if best > bestSoFar' {
      bestSoFar' := best;
    }
    return best, bestSoFar';
  }

  // knapsack (serial): the incumbent starts below everything.
  method Serial(items: seq<Item>, capacity: int) returns (r: int)
    requires Proper(items) && RatioSorted(items) && NoOverflow(items, capacity, 0)
    ensures r == Opt(items, capacity, 0)
    ensures if capacity >= 0 then IsOptimum(items, capacity, r) else r == -0x8000_0000
  {
    var bestSoFar;
    r, bestSoFar := SerialSearch(INT_MIN, items, capacity, 0);
    if capacity >= 0 {
      BestBounds(items, capacity);
      BestIsOptimum(items, capacity);
    }
  }
}
