// The parallel N-queens drivers: the conflict-free prefixes are cut into one
// contiguous block per worker, and the blocks are counted independently.
module NQueensSplit {
  import opened Wrappers
  import opened Words
  import opened NQueensBoard
  import opened NQueens

  /* ----- the flat prefix array ----- */

  // k * length, as the index of the k-th item.
  function At(k: nat, length: nat): nat {
    if k == 0 then 0 else At(k - 1, length) + length
  }

  lemma {:induction false} AtIsProduct(k: nat, length: nat)
    ensures At(k, length) == k * length
  {
    if k > 0 {
      AtIsProduct(k - 1, length);
      assert k * length == (k - 1) * length + length;
    }
  }

  lemma {:induction false} AtMonotone(a: nat, b: nat, length: nat)
    requires a <= b
    ensures At(a, length) <= At(b, length)
    ensures a < b ==> At(a, length) + length == At(a + 1, length) <= At(b, length)
  {
    if a < b { AtMonotone(a, b - 1, length); }
  }

  lemma {:induction false} AtSum(a: nat, b: nat, length: nat)
    ensures At(a + b, length) == At(a, length) + At(b, length)
  {
    if b > 0 { AtSum(a, b - 1, length); }
  }

  lemma {:induction false} FlatLength(items: seq<Board>, length: nat)
    requires forall x :: 0 <= x < |items| ==> |items[x]| == length
    ensures |Flatten(items, 0)| == At(|items|, length)
  {
    if items != [] {
      FlatLength(items[1..], length);
    }
  }

  lemma {:induction false} FlatItem(items: seq<Board>, length: nat, k: nat)
    requires (forall x :: 0 <= x < |items| ==> |items[x]| == length) && k < |items|
    ensures At(k, length) + length <= |Flatten(items, 0)|
    ensures Flatten(items, 0)[At(k, length)..At(k, length) + length] == items[k]
  {
    var head, rest := items[0], Flatten(items[1..], 0);
    assert head[0..] == head;
    assert Flatten(items, 0) == head + rest;
    hide Flatten;
    if k > 0 {
      FlatItem(items[1..], length, k - 1);
      SliceBehind(head, rest, At(k - 1, length), length);
    }
  }

  lemma SliceBehind(head: seq<nat>, rest: seq<nat>, offset: nat, length: nat)
    requires offset + length <= |rest|
    ensures (head + rest)[|head| + offset..|head| + offset + length] == rest[offset..offset + length]
  {
  }

  /* ----- the blocks ----- */

  // First item of block t: the remainder goes to the first blocks, one item each.
  function BlockStart(total: nat, workers: nat, t: nat): nat
    requires workers > 0
  {
    At(t, total / workers) + (if t < total % workers then t else total % workers)
  }

  lemma BlocksPartition(total: nat, workers: nat, t: nat)
    requires t < workers
    ensures BlockStart(total, workers, 0) == 0 && BlockStart(total, workers, workers) == total
    ensures BlockStart(total, workers, t + 1) ==
            BlockStart(total, workers, t) + total / workers + if t < total % workers then 1 else 0
    ensures BlockStart(total, workers, t) <= BlockStart(total, workers, t + 1) <= total
  {
    hide At;
    var q := total / workers;
    AtIsProduct(workers, q);
    AtIsProduct(0, q);
    AtMonotone(t, t + 1, q);
    AtMonotone(t + 1, workers, q);
    assert total == workers * q + total % workers;
  }

  // int arithmetic: the value wraps to 32 bits with a sign.
  function ToInt(x: int): int {
    var r := x % UINT;
    if r < UINT / 2 then r else r - UINT
  }

  lemma ToIntIs(x: int)
    ensures var r := ToInt(x); -0x8000_0000 <= r < 0x8000_0000 && (x - r) % 0x1_0000_0000 == 0
  {
  }

  lemma WrapAdd(a: int, b: int)
    ensures ToInt(ToInt(a) + b) == ToInt(a + b)
  {
  }

  // An index survives being stored in an int exactly when it is below 2^31.
  lemma StoredExactly(x: nat)
    ensures ToInt(x) == x <==> x < UINT / 2
  {
  }

  // The index list both drivers build; the end is pushed once more at the end. The
  // indices are stored in ints, so they are right exactly when the prefix array has
  // fewer than 2^31 entries.
  method BlockIndices(total: nat, workers: nat, length: nat) returns (indices: seq<int>)
    requires workers > 0 && total < UINT / 2
    ensures |indices| == workers + 2 && indices[workers] == indices[workers + 1]
    ensures forall t :: 0 <= t <= workers ==> indices[t] == ToInt(At(BlockStart(total, workers, t), length))
    ensures (forall t :: 0 <= t <= workers ==> indices[t] == At(BlockStart(total, workers, t), length)) <==>
            At(total, length) < UINT / 2
  {
    hide BlockStart, At, ToInt;
    var workSize, leftover := total / workers, total % workers;
    BlocksPartition(total, workers, 0);
    AtIsProduct(0, length);
    StoredExactly(0);
    var idx: int := 0;
    indices := [0];
    for t := 0 to workers
      invariant |indices| == t + 1 && idx == ToInt(At(BlockStart(total, workers, t), length))
      invariant forall u :: 0 <= u <= t ==> indices[u] == ToInt(At(BlockStart(total, workers, u), length))
    {
      var size := if t < leftover then workSize + 1 else workSize;
      NextIndex(total, workers, length, t, size);
      idx := ToInt(idx + size * length);
      indices := indices + [idx];
    }
    indices := indices + [idx];
    IndicesExactly(total, workers, length, indices);
  }

  lemma NextIndex(total: nat, workers: nat, length: nat, t: nat, size: nat)
    requires t < workers && size == if t < total % workers then total / workers + 1 else total / workers
    ensures ToInt(ToInt(At(BlockStart(total, workers, t), length)) + size * length) ==
            ToInt(At(BlockStart(total, workers, t + 1), length))
  {
    hide BlockStart, At, ToInt;
    BlocksPartition(total, workers, t);
    AtSum(BlockStart(total, workers, t), size, length);
    AtIsProduct(size, length);
    WrapAdd(At(BlockStart(total, workers, t), length), size * length);
  }

  lemma BlockStartBelow(total: nat, workers: nat, t: nat)
    requires workers > 0 && t <= workers
    ensures BlockStart(total, workers, t) <= total && BlockStart(total, workers, workers) == total
  {
    hide BlockStart;
    BlocksPartition(total, workers, if t < workers then t else 0);
  }

  lemma IndexFits(total: nat, workers: nat, length: nat, t: nat)
    requires workers > 0 && t <= workers && At(total, length) < UINT / 2
    ensures var i := At(BlockStart(total, workers, t), length); ToInt(i) == i
  {
    hide BlockStart, At, ToInt;
    BlockStartBelow(total, workers, t);
    AtMonotone(BlockStart(total, workers, t), total, length);
    StoredExactly(At(BlockStart(total, workers, t), length));
  }

  lemma IndicesExactly(total: nat, workers: nat, length: nat, indices: seq<int>)
    requires workers > 0 && |indices| > workers
    requires forall t :: 0 <= t <= workers ==> indices[t] == ToInt(At(BlockStart(total, workers, t), length))
    ensures (forall t :: 0 <= t <= workers ==> indices[t] == At(BlockStart(total, workers, t), length)) <==>
            At(total, length) < UINT / 2
  {
    hide BlockStart, At, ToInt;
    if At(total, length) < UINT / 2 {
      forall t | 0 <= t <= workers ensures indices[t] == At(BlockStart(total, workers, t), length) {
        IndexFits(total, workers, length, t);
      }
    } else {
      BlockStartBelow(total, workers, workers);
      StoredExactly(At(total, length));
      assert indices[workers] != At(BlockStart(total, workers, workers), length);
    }
  }

  // The prefix array has fewer than 2^31 entries, so that ints can index it.
  predicate IndicesFit(n: nat, length: nat) {
    At(|PrefixList(n, length, [])|, length) < UINT / 2
  }

  // The number of prefixes fits an int, and unsigned ints can index the array.
  predicate UnsignedFit(n: nat, length: nat) {
    |PrefixList(n, length, [])| < UINT / 2 && At(|PrefixList(n, length, [])|, length) < UINT
  }

  // Read back as an unsigned int, an int that was stored from below 2^32 is what it was.
  lemma ReadBack(x: nat)
    requires x < UINT
    ensures ToInt(x) % UINT == x
  {
  }

  function Power(n: nat, k: nat): nat {
    if k == 0 then 1 else n * Power(n, k - 1)
  }

  lemma {:induction false} PrefixCount(n: nat, end: nat, p: Board)
    requires |p| <= end
    ensures |PrefixList(n, end, p)| <= Power(n, end - |p|)
    decreases end - |p|, n + 1
  {
    if |p| < end {
      PrefixFromCount(n, end, p, 0);
      AtIsProduct(n, Power(n, end - |p| - 1));
    }
  }

  lemma {:induction false} PrefixFromCount(n: nat, end: nat, p: Board, c: nat)
    requires |p| < end && c <= n
    ensures |PrefixListFrom(n, end, p, c)| <= At(n - c, Power(n, end - |p| - 1))
    decreases end - |p|, n - c
  {
    hide Power, Ok;
    if c < n {
      PrefixCount(n, end, p + [c]);
      PrefixFromCount(n, end, p, c + 1);
    }
  }

  // In particular up to six rows of the boards that are covered.
  lemma SixRowsFit(n: nat, length: nat)
    requires n <= MAX_SIZE && length <= 6
    ensures IndicesFit(n, length)
  {
    hide PrefixList, At;
    PrefixCount(n, length, []);
    PowerMonotone(n, MAX_SIZE, length);
    PowerRises(length, 6);
    assert Power(MAX_SIZE, 3) == 8000;
    assert Power(MAX_SIZE, 6) == 64000000;
    var count := |PrefixList(n, length, [])|;
    AtMonotone(count, 64000000, length);
    AtIsProduct(64000000, length);
  }

  lemma {:induction false} PowerMonotone(n: nat, m: nat, k: nat)
    requires n <= m
    ensures Power(n, k) <= Power(m, k)
  {
    if k > 0 {
      PowerMonotone(n, m, k - 1);
      ProductOrder(n, m, Power(n, k - 1));
      ProductOrder(Power(n, k - 1), Power(m, k - 1), m);
    }
  }

  lemma {:induction false} PowerRises(k: nat, l: nat)
    requires k <= l
    ensures Power(MAX_SIZE, k) <= Power(MAX_SIZE, l)
  {
    if k < l { PowerRises(k, l - 1); }
  }

  /* ----- what the workers add up ----- */

  // Sum of the weights of items lo..hi.
  function Sum(weights: seq<nat>, lo: nat, hi: nat): nat
    requires lo <= hi <= |weights|
    decreases hi - lo
  {
    if lo == hi then 0 else weights[lo] + Sum(weights, lo + 1, hi)
  }

  lemma {:induction false} SumSplit(weights: seq<nat>, lo: nat, mid: nat, hi: nat)
    requires lo <= mid <= hi <= |weights|
    ensures Sum(weights, lo, hi) == Sum(weights, lo, mid) + Sum(weights, mid, hi)
    decreases mid - lo
  {
    if lo < mid { SumSplit(weights, lo + 1, mid, hi); }
  }

  // What the search reports for each item.
  function Weights(n: nat, items: seq<Board>): (r: seq<nat>)
    requires forall k :: 0 <= k < |items| ==> |items[k]| <= n
    ensures |r| == |items| && forall k :: 0 <= k < |r| ==> r[k] == Counted(n, items[k])
  {
    if items == [] then [] else [Counted(n, items[0])] + Weights(n, items[1..])
  }

  lemma {:induction false} WeightsSum(n: nat, items: seq<Board>, lo: nat)
    requires lo <= |items| && forall x :: x in items ==> |x| <= n
    requires forall x :: x in items[lo..] ==> |x| <= n
    ensures Sum(Weights(n, items), lo, |items|) == if Covered(n) then SumCounts(n, items[lo..]) else 0
    decreases |items| - lo
  {
    if lo < |items| {
      assert items[lo..][1..] == items[lo + 1..];
      assert items[lo] in items;
      WeightsSum(n, items, lo + 1);
    }
  }

  // The prefixes of the chosen length: all of them conflict-free, and their
  // weights sum up to the serial result.
  lemma PrefixesSumToSerial(n: nat, length: nat)
    requires length <= n
    ensures var items := PrefixList(n, length, []);
            (forall k :: 0 <= k < |items| ==> |items[k]| == length && Ok(items[k]) && Fits(items[k], n)) &&
            Sum(Weights(n, items), 0, |items|) == Counted(n, [])
  {
    var items := PrefixList(n, length, []);
    PrefixListLengths(n, length, []);
    forall k | 0 <= k < |items| ensures Ok(items[k]) && Fits(items[k], n) {
      PrefixListIs(n, length, [], items[k]);
    }
    PrefixesCoverCount(n, length, []);
    assert items[0..] == items;
    WeightsSum(n, items, 0);
  }

  // Worker u will do the items from next[u] to the end of its block.
  ghost predicate InBlocks(total: nat, workers: nat, next: seq<nat>) {
    workers > 0 && |next| == workers &&
    forall u :: 0 <= u < workers ==> InBlock(total, workers, next[u], u)
  }

  ghost predicate InBlock(total: nat, workers: nat, k: nat, u: nat)
    requires workers > 0
  {
    k <= BlockStart(total, workers, u + 1) <= total
  }

  // Weight of what workers t and later have left to do.
  ghost function Left(weights: seq<nat>, workers: nat, next: seq<nat>, t: nat): nat
    requires InBlocks(|weights|, workers, next) && t <= workers
    decreases workers - t
  {
    if t == workers then 0
    else Sum(weights, next[t], BlockStart(|weights|, workers, t + 1)) + Left(weights, workers, next, t + 1)
  }

  lemma {:induction false} LeftStep(weights: seq<nat>, workers: nat, next: seq<nat>, t: nat, w: nat)
    requires InBlocks(|weights|, workers, next) && t <= workers && w < workers
    requires next[w] < BlockStart(|weights|, workers, w + 1)
    ensures InBlocks(|weights|, workers, next[w := next[w] + 1])
    ensures Left(weights, workers, next, t) ==
            Left(weights, workers, next[w := next[w] + 1], t) + if t <= w then weights[next[w]] else 0
    decreases workers - t
  {
    hide BlockStart, InBlocks;
    StillInBlocks(|weights|, workers, next, w);
    if t < workers {
      WithinBlock(|weights|, workers, next, t);
      LeftStep(weights, workers, next, t + 1, w);
    }
  }

  lemma StillInBlocks(total: nat, workers: nat, next: seq<nat>, w: nat)
    requires InBlocks(total, workers, next) && w < workers
    requires next[w] < BlockStart(total, workers, w + 1)
    ensures InBlocks(total, workers, next[w := next[w] + 1])
  {
    hide BlockStart;
    var after := next[w := next[w] + 1];
    assert InBlock(total, workers, next[w], w);
    forall u | 0 <= u < workers ensures InBlock(total, workers, after[u], u) {
      assert InBlock(total, workers, next[u], u);
    }
  }

  lemma WithinBlock(total: nat, workers: nat, next: seq<nat>, t: nat)
    requires InBlocks(total, workers, next) && t < workers
    ensures |next| == workers && next[t] <= BlockStart(total, workers, t + 1) <= total
  {
    assert InBlock(total, workers, next[t], t);
  }

  lemma {:induction false} LeftNothing(weights: seq<nat>, workers: nat, next: seq<nat>, t: nat)
    requires InBlocks(|weights|, workers, next) && t <= workers
    requires forall u :: 0 <= u < workers ==> next[u] == BlockStart(|weights|, workers, u + 1)
    ensures Left(weights, workers, next, t) == 0
    decreases workers - t
  {
    hide BlockStart;
    if t < workers { LeftNothing(weights, workers, next, t + 1); }
  }

  function BlockStarts(total: nat, workers: nat): seq<nat>
    requires workers > 0
  {
    seq(workers, t requires 0 <= t < workers => BlockStart(total, workers, t))
  }

  lemma StartsInBlocks(total: nat, workers: nat)
    requires workers > 0
    ensures InBlocks(total, workers, BlockStarts(total, workers))
  {
    var starts := BlockStarts(total, workers);
    forall t | 0 <= t < workers
      ensures starts[t] <= BlockStart(total, workers, t + 1) <= total
    {
      BlocksPartition(total, workers, t);
    }
  }

  // Main result on the split: the blocks partition the items, so the work of all
  // workers together is all the work.
  lemma {:induction false} LeftEverything(weights: seq<nat>, workers: nat, t: nat)
    requires workers > 0 && t <= workers && InBlocks(|weights|, workers, BlockStarts(|weights|, workers))
    ensures BlockStart(|weights|, workers, t) <= |weights|
    ensures Left(weights, workers, BlockStarts(|weights|, workers), t) ==
            Sum(weights, BlockStart(|weights|, workers, t), |weights|)
    decreases workers - t
  {
    BlocksPartition(|weights|, workers, 0);
    hide BlockStart;
    if t < workers {
      LeftEverything(weights, workers, t + 1);
      SumSplit(weights, BlockStart(|weights|, workers, t), BlockStart(|weights|, workers, t + 1), |weights|);
    }
  }

  /* ----- threads ----- */

  // The workers in any interleaving: whichever worker still has an item counts its
  // next one and adds the result to the shared counter.
  method RunWorkers(n: nat, length: nat, workers: nat, prefixes: seq<nat>, indices: seq<nat>, ghost items: seq<Board>)
    returns (res: nat)
    requires workers > 0 && 0 < length <= n <= 64
    requires forall k :: 0 <= k < |items| ==> |items[k]| == length && Ok(items[k]) && Fits(items[k], n)
    requires prefixes == Flatten(items, 0) && |indices| > workers
    requires forall t :: 0 <= t <= workers ==> indices[t] == At(BlockStart(|items|, workers, t), length)
    ensures res == Sum(Weights(n, items), 0, |items|)
  {
    hide Ok, Fits, Flatten, Counted, BlockStart, Sum, Weights, At;
    var position := indices[..workers];
    ghost var next, weights, ones := BlockStarts(|items|, workers), Weights(n, items), seq(|items|, _ => 1);
    StartsInBlocks(|items|, workers);
    LeftEverything(weights, workers, 0);
    StartAtZero(|items|, workers);
    res := 0;
    while exists t :: 0 <= t < workers && position[t] < indices[t + 1]
      invariant |position| == workers && InBlocks(|items|, workers, next)
      invariant forall u :: 0 <= u < workers ==> position[u] == At(next[u], length)
      invariant res + Left(weights, workers, next, 0) == Sum(weights, 0, |items|)
      decreases Left(ones, workers, next, 0)
    {
      var t :| 0 <= t < workers && position[t] < indices[t + 1];
      WorkerHasItem(items, length, next[t], BlockStart(|items|, workers, t + 1));
      LeftStep(weights, workers, next, 0, t);
      LeftStep(ones, workers, next, 0, t);
      var r := SerialPrefix(n, prefixes[position[t]..position[t] + length]);
      res := res + r;
      position := position[t := position[t] + length];
      next := next[t := next[t] + 1];
    }
    forall u | 0 <= u < workers
      ensures next[u] == BlockStart(|items|, workers, u + 1)
    {
      assert !(position[u] < indices[u + 1]);
      AtMonotone(next[u], BlockStart(|items|, workers, u + 1), length);
    }
    LeftNothing(weights, workers, next, 0);
  }

  // A worker that has not reached the end of its block reads a whole prefix.
  lemma WorkerHasItem(items: seq<Board>, length: nat, k: nat, end: nat)
    requires forall x :: 0 <= x < |items| ==> |items[x]| == length
    requires k <= end <= |items| && At(k, length) < At(end, length)
    ensures k < end && At(k + 1, length) == At(k, length) + length <= |Flatten(items, 0)|
    ensures Flatten(items, 0)[At(k, length)..At(k, length) + length] == items[k]
  {
    hide Flatten;
    FlatItem(items, length, k);
    AtMonotone(k, k + 1, length);
  }

  lemma StartAtZero(total: nat, workers: nat)
    requires workers > 0
    ensures BlockStart(total, workers, 0) == 0
  {
  }

  // nqueens (threads): the result is returned as a 32-bit number. It is the number of
  // accepted boards exactly when the size is covered and the number fits 32 bits.
  method Threads(n: nat, length: nat, workers: nat) returns (r: nat)
    requires workers > 0 && 0 < length <= n <= 64 && UnsignedFit(n, length)
    ensures r == Counted(n, []) % 0x1_0000_0000
    ensures r == |Placements(n)| <==> 1 <= n <= 20 && |Placements(n)| < 0x1_0000_0000
  {
    hide Placements, Ok, Fits, Emitted, Counted, PrefixList, BlockStart, ToInt, At;
    CountedExactly(n);
    UncoveredIsZero(n);
    ghost var items := PrefixList(n, length, []);
    var prefixes, stored := PrefixBlocks(n, length, workers);
    PrefixesSumToSerial(n, length);
    var indices: seq<nat> := seq(|stored|, t requires 0 <= t < |stored| => stored[t] % UINT);
    forall t | 0 <= t <= workers
      ensures indices[t] == At(BlockStart(|items|, workers, t), length)
    {
      BlockStartBelow(|items|, workers, t);
      AtMonotone(BlockStart(|items|, workers, t), |items|, length);
      ReadBack(At(BlockStart(|items|, workers, t), length));
    }
    var res := RunWorkers(n, length, workers, prefixes, indices, items);
    r := res % UINT;
  }

  // The part both drivers share: enumerate the prefixes and cut them into blocks, with
  // the boundaries stored in ints.
  method PrefixBlocks(n: nat, length: nat, workers: nat) returns (prefixes: seq<nat>, indices: seq<int>)
    requires workers > 0 && 0 < length <= n <= 64 && |PrefixList(n, length, [])| < UINT / 2
    ensures var items := PrefixList(n, length, []);
            && (forall x :: 0 <= x < |items| ==> |items[x]| == length)
            && prefixes == Flatten(items, 0)
            && |indices| == workers + 2
            && (forall t :: 0 <= t <= workers ==> indices[t] == ToInt(At(BlockStart(|items|, workers, t), length)))
            && (IndicesFit(n, length) ==>
                  forall t :: 0 <= t <= workers ==> indices[t] == At(BlockStart(|items|, workers, t), length))
  {
    hide ToInt, BlockStart;
    var scratchpad := new nat[n](_ => 0);
    assert scratchpad[..0] == [];
    prefixes := Prefixes(0, length, 0, n, scratchpad, []);
    ghost var items := PrefixList(n, length, []);
    PrefixListLengths(n, length, []);
    FlatLength(items, length);
    Quotient(|items|, length);
    StoredExactly(|items|);
    var total := ToInt(|prefixes| / length);
    indices := BlockIndices(total, workers, length);
  }

  lemma StoredTotal(m: nat, length: nat)
    requires length > 0 && At(m, length) < UINT / 2
    ensures m < UINT / 2
  {
    AtIsProduct(m, length);
    ProductOrder(1, length, m);
  }

  lemma Quotient(m: nat, length: nat)
    requires length > 0
    ensures At(m, length) / length == m
  {
    AtIsProduct(m, length);
    DivideIs(At(m, length), length, m);
  }

  /* ----- dispatcher ----- */

  // The remote task: counts the prefixes of one block.
  method CountBlock(n: nat, length: nat, block: seq<nat>, ghost items: seq<Board>) returns (res: nat)
    requires 0 < length <= n <= 64
    requires forall k :: 0 <= k < |items| ==> |items[k]| == length && Ok(items[k]) && Fits(items[k], n)
    requires block == Flatten(items, 0)
    ensures res == Sum(Weights(n, items), 0, |items|)
  {
    hide Ok, Fits, Flatten, Counted, Weights;
    ghost var weights := Weights(n, items);
    FlatLength(items, length);
    res := 0;
    var i := 0;
    ghost var k := 0;
    while i < |block|
      invariant k <= |items| && i == At(k, length)
      invariant res + Sum(weights, k, |items|) == Sum(weights, 0, |items|)
      decreases |items| - k
    {
      FlatItem(items, length, k);
      AtMonotone(k, k + 1, length);
      var r := SerialPrefix(n, block[i..i + length]);
      res := res + r;
      i := i + length;
      k := k + 1;
    }
    AtMonotone(k, |items|, length);
  }

  // std::accumulate with an int start value: every partial sum is an int.
  method Accumulate(results: seq<nat>) returns (acc: int)
    ensures acc == ToInt(Sum(results, 0, |results|))
  {
    acc := 0;
    for i := 0 to |results|
      invariant acc == ToInt(Sum(results, 0, i))
    {
      SumSplit(results, 0, i, i + 1);
      WrapAdd(Sum(results, 0, i), results[i]);
      acc := ToInt(acc + results[i]);
    }
  }

  lemma Slices(items: seq<Board>, lo: nat, hi: nat)
    requires lo <= hi <= |items|
    ensures Flatten(items, 0) == Flatten(items[..lo], 0) + Flatten(items[lo..hi], 0) + Flatten(items[hi..], 0)
  {
    hide Flatten;
    var a, b, c := items[..lo], items[lo..hi], items[hi..];
    assert items[..hi] == a + b;
    assert items == items[..hi] + c;
    FlattenConcat(items[..hi], c, 0);
    FlattenConcat(a, b, 0);
  }

  lemma FlatBlock(items: seq<Board>, length: nat, lo: nat, hi: nat)
    requires (forall x :: 0 <= x < |items| ==> |items[x]| == length) && lo <= hi <= |items|
    ensures At(lo, length) <= At(hi, length) <= |Flatten(items, 0)|
    ensures Flatten(items, 0)[At(lo, length)..At(hi, length)] == Flatten(items[lo..hi], 0)
  {
    hide Flatten, At;
    Slices(items, lo, hi);
    FlatLength(items[..lo], length);
    FlatLength(items[lo..hi], length);
    AtSum(lo, hi - lo, length);
    Middle(Flatten(items, 0), Flatten(items[..lo], 0), Flatten(items[lo..hi], 0), Flatten(items[hi..], 0),
           At(lo, length), At(hi, length));
  }

  lemma Middle(whole: seq<nat>, a: seq<nat>, b: seq<nat>, c: seq<nat>, lo: nat, hi: nat)
    requires whole == a + b + c && lo == |a| && hi == |a| + |b|
    ensures lo <= hi <= |whole| && whole[lo..hi] == b
  {
  }

  lemma {:induction false} SumOfSlice(weights: seq<nat>, lo: nat, hi: nat, k: nat)
    requires lo + k <= hi <= |weights|
    ensures Sum(weights[lo..hi], k, hi - lo) == Sum(weights, lo + k, hi)
    decreases hi - lo - k
  {
    if lo + k < hi { SumOfSlice(weights, lo, hi, k + 1); }
  }

  // r is the sum of block t.
  ghost predicate IsBlockSum(weights: seq<nat>, tasks: nat, t: nat, r: nat)
    requires tasks > 0
  {
    BlockStart(|weights|, tasks, t) <= BlockStart(|weights|, tasks, t + 1) <= |weights| &&
    r == Sum(weights, BlockStart(|weights|, tasks, t), BlockStart(|weights|, tasks, t + 1))
  }

  // The sums of the blocks add up to the sum of everything.
  lemma {:induction false} BlockSums(weights: seq<nat>, results: seq<nat>, tasks: nat, t: nat)
    requires tasks > 0 && |results| == tasks && t <= tasks
    requires forall u :: 0 <= u < tasks ==> IsBlockSum(weights, tasks, u, results[u])
    ensures BlockStart(|weights|, tasks, t) <= |weights|
    ensures Sum(results, t, tasks) == Sum(weights, BlockStart(|weights|, tasks, t), |weights|)
    decreases tasks - t
  {
    BlocksPartition(|weights|, tasks, 0);
    hide BlockStart;
    if t < tasks {
      BlockSums(weights, results, tasks, t + 1);
      assert IsBlockSum(weights, tasks, t, results[t]);
      SumSplit(weights, BlockStart(|weights|, tasks, t), BlockStart(|weights|, tasks, t + 1), |weights|);
    }
  }

  lemma WrapValue(x: nat)
    requires x < WORD / 2
    ensures ToInt(x) % WORD == x <==> x < UINT / 2
  {
    if x >= UINT / 2 {
      var y := ToInt(x);
      if y < 0 { assert y % WORD == y + WORD >= WORD / 2; }
    }
  }

  // The folded int, stored back into a 64-bit counter, is the true total exactly
  // when that total is below 2^31.
  lemma WrapExactly(n: nat)
    ensures ToInt(Counted(n, [])) % WORD == Counted(n, []) <==> Counted(n, []) < UINT / 2
  {
    hide Count;
    if Covered(n) { CountFitsWord(n); }
    WrapValue(Counted(n, []));
  }

  ghost predicate BlockBounds(length: nat, tasks: nat, t: nat, items: seq<Board>)
    requires tasks > 0
  {
    At(BlockStart(|items|, tasks, t), length) <= At(BlockStart(|items|, tasks, t + 1), length) <= |Flatten(items, 0)|
  }

  lemma BlockIsInside(length: nat, tasks: nat, t: nat, items: seq<Board>)
    requires t < tasks && forall x :: 0 <= x < |items| ==> |items[x]| == length
    ensures BlockBounds(length, tasks, t, items)
  {
    hide Flatten, BlockStart;
    BlocksPartition(|items|, tasks, t);
    FlatBlock(items, length, BlockStart(|items|, tasks, t), BlockStart(|items|, tasks, t + 1));
  }

  // The tasks complete in any order, each into its own slot of `results`; the sum
  // is folded after all of them have.
  method Dispatcher(n: nat, length: nat, tasks: nat) returns (r: nat)
    requires tasks > 0 && 0 < length <= n <= 64 && IndicesFit(n, length)
    ensures r == ToInt(Counted(n, [])) % WORD
    ensures r == |Placements(n)| <==> 1 <= n <= 20 && |Placements(n)| < 0x8000_0000
  {
    hide Placements, Ok, Fits, Counted, PrefixList, At, BlockStart, Flatten, Sum, Weights, IsBlockSum, ToInt;
    StoredTotal(|PrefixList(n, length, [])|, length);
    var prefixes, indices := PrefixBlocks(n, length, tasks);
    ghost var items := PrefixList(n, length, []);
    PrefixesSumToSerial(n, length);
    ghost var weights := Weights(n, items);
    var results := new nat[tasks](_ => 0);
    var pending := UpTo(tasks);
    while pending != {}
      invariant forall t :: t in pending ==> 0 <= t < tasks
      invariant forall t :: 0 <= t < tasks && t !in pending ==> IsBlockSum(weights, tasks, t, results[t])
      decreases pending
    {
      var t :| t in pending;
      BlockIsInside(length, tasks, t, items);
      results[t] := RunTask(n, length, tasks, t, prefixes[indices[t]..indices[t + 1]], items);
      pending := pending - {t};
    }
    var acc := Accumulate(results[..]);
    BlockSums(weights, results[..], tasks, 0);
    StartAtZero(|items|, tasks);
    WrapExactly(n);
    CountedExactly(n);
    UncoveredIsZero(n);
    StoredExactly(0);
    r := acc % WORD;
  }

  // Task t on its own copy of block t.
  method RunTask(n: nat, length: nat, tasks: nat, t: nat, block: seq<nat>, ghost items: seq<Board>) returns (res: nat)
    requires t < tasks && 0 < length <= n <= 64
    requires forall k :: 0 <= k < |items| ==> |items[k]| == length && Ok(items[k]) && Fits(items[k], n)
    requires BlockBounds(length, tasks, t, items) &&
             block == Flatten(items, 0)[At(BlockStart(|items|, tasks, t), length)..
                                        At(BlockStart(|items|, tasks, t + 1), length)]
    ensures IsBlockSum(Weights(n, items), tasks, t, res)
  {
    hide Ok, Fits, Flatten, Counted, BlockStart, Sum;
    BlocksPartition(|items|, tasks, t);
    ghost var lo, hi := BlockStart(|items|, tasks, t), BlockStart(|items|, tasks, t + 1);
    FlatBlock(items, length, lo, hi);
    res := CountBlock(n, length, block, items[lo..hi]);
    SumOfSlice(Weights(n, items), lo, hi, 0);
    assert Weights(n, items[lo..hi]) == Weights(n, items)[lo..hi];
  }
}
