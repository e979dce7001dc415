/** The three ways the pipeline cuts a deck of `n` slides into batches:
    image batches of the description pass and speech batches both step
    through `range(0, n, size)` and take slides `b + 1 ..= min(b + size, n)`;
    the refinement pass first lists batch sizes `min(10, remaining)` and then
    walks them with `end = min(start + size - 1, total)`, `start = end + 1`. */
module Batching {

  /** A batch of consecutive slides, numbered from 1, both ends included. */
  datatype Range = Range(first: nat, last: nat)

  function Min(a: int, b: int): int
  {
    if a <= b then a else b
  }

  function Count(r: Range): int
  {
    r.last - r.first + 1
  }

  predicate InRange(r: Range, s: int)
  {
    r.first <= s <= r.last
  }

  /** `plan` cuts the slides `lo + 1 ..= hi` into non-empty consecutive batches. */
  predicate Tiles(plan: seq<Range>, lo: nat, hi: nat)
  {
    && (plan == [] <==> lo >= hi)
    && (plan != [] ==> plan[0].first == lo + 1 && plan[|plan| - 1].last == hi)
    && (forall k | 0 <= k < |plan| :: lo < plan[k].first <= plan[k].last <= hi)
    && (forall j, k | 0 <= j && k == j + 1 < |plan| :: plan[k].first == plan[j].last + 1)
  }

  predicate Partitions(plan: seq<Range>, n: nat)
  {
    Tiles(plan, 0, n)
  }

  // ---------------------------------------------------------------------------
  // range(0, n, size)

  function StrideFrom(b: nat, n: nat, size: nat): (plan: seq<Range>)
    requires size > 0
    ensures b >= n ==> plan == []
    ensures b < n ==> Tiles(plan, b, n)
    decreases n - b
  {
    if b >= n then []
    else
      var rest := StrideFrom(b + size, n, size);
      var plan := [Range(b + 1, Min(b + size, n))] + rest;
      TilesCons(Range(b + 1, Min(b + size, n)), rest, b, n);
      plan
  }

  /** Each batch starts `size` after the previous one and ends at
      `min(start - 1 + size, n)`. */
  predicate Strided(plan: seq<Range>, n: nat, size: nat)
  {
    && (forall j, k | 0 <= j && k == j + 1 < |plan| :: plan[k].first == plan[j].first + size)
    && (forall k | 0 <= k < |plan| :: plan[k].last == Min(plan[k].first - 1 + size, n))
  }

  lemma StridedCons(r: Range, rest: seq<Range>, n: nat, size: nat)
    requires Strided(rest, n, size) && r.last == Min(r.first - 1 + size, n)
    requires rest != [] ==> rest[0].first == r.first + size
    ensures Strided([r] + rest, n, size)
  {
    var plan := [r] + rest;
    assert forall k | 1 <= k < |plan| :: plan[k] == rest[k - 1];
  }

  lemma {:induction false} StrideShape(b: nat, n: nat, size: nat)
    requires size > 0
    ensures StrideFrom(b, n, size) != [] ==> StrideFrom(b, n, size)[0].first == b + 1
    ensures Strided(StrideFrom(b, n, size), n, size)
    decreases n - b
  {
    if b < n {
      StrideShape(b + size, n, size);
      var rest := StrideFrom(b + size, n, size);
      var r := Range(b + 1, Min(b + size, n));
      assert StrideFrom(b, n, size) == [r] + rest;
      StridedCons(r, rest, n, size);
    }
  }

  /** The batches of `for b in range(0, n, size)`, slides `b + 1 ..= min(b + size, n)`. */
  function StridePlan(n: nat, size: nat): (plan: seq<Range>)
    requires size > 0
    ensures Partitions(plan, n)
    ensures plan != [] ==> plan[0].first == 1
    ensures forall j, k | 0 <= j && k == j + 1 < |plan| :: plan[k].first == plan[j].first + size
    ensures forall k | 0 <= k < |plan| :: plan[k].last == Min(plan[k].first - 1 + size, n)
    ensures forall k | 0 <= k < |plan| :: Count(plan[k]) <= size && (k + 1 < |plan| ==> Count(plan[k]) == size)
  {
    var plan := StrideFrom(0, n, size);
    StrideShape(0, n, size);
    assert Strided(plan, n, size);
    assert n > 0 ==> Tiles(plan, 0, n);
    assert forall k | 0 <= k < |plan| :: Count(plan[k]) <= size by {
      forall k | 0 <= k < |plan| ensures Count(plan[k]) <= size {
        assert plan[k].last <= plan[k].first - 1 + size;
      }
    }
    assert forall k | 0 <= k < |plan| - 1 :: Count(plan[k]) == size by {
      forall k | 0 <= k < |plan| - 1 ensures Count(plan[k]) == size {
        assert plan[k].last + 1 == plan[k + 1].first == plan[k].first + size;
      }
    }
    plan
  }

  /** A non-empty first batch followed by a tiling of the rest tiles the whole. */
  lemma TilesCons(r: Range, rest: seq<Range>, lo: nat, hi: nat)
    requires r.first == lo + 1 <= r.last <= hi
    requires Tiles(rest, r.last, hi)
    ensures Tiles([r] + rest, lo, hi)
  {
    var plan := [r] + rest;
    assert forall k | 1 <= k < |plan| :: plan[k] == rest[k - 1];
  }

  lemma TilesTail(plan: seq<Range>, lo: nat, hi: nat)
    requires Tiles(plan, lo, hi) && plan != []
    ensures Tiles(plan[1..], plan[0].last, hi)
  {
    var rest := plan[1..];
    forall k | 0 <= k < |rest|
      ensures plan[0].last < rest[k].first
    {
      TilesAscend(plan, lo, hi, 0, k + 1);
    }
    if rest != [] {
      assert rest[|rest| - 1] == plan[|plan| - 1];
    }
  }

  /** Batch `k` of `range(0, n, size)` starts at slide `k * size + 1`. */
  lemma {:induction false} StrideStarts(n: nat, size: nat, k: nat)
    requires size > 0 && k < |StridePlan(n, size)|
    ensures StridePlan(n, size)[k].first == k * size + 1
  {
    if k > 0 {
      StrideStarts(n, size, k - 1);
    }
  }

  /** Batch `k` of `range(0, n, size)` starting after slide `i` ends at
      `min(i + size, n)`; the next batch starts after it, or there is none
      and the loop stops. */
  lemma StrideNext(n: nat, size: nat, k: nat, i: nat)
    requires size > 0 && i < n
    requires k < |StridePlan(n, size)| ==> i == StridePlan(n, size)[k].first - 1
    requires k == |StridePlan(n, size)| ==> i >= n
    requires k <= |StridePlan(n, size)|
    ensures var plan := StridePlan(n, size);
      && k < |plan|
      && 0 < plan[k].first <= plan[k].last <= n
      && plan[k].last == Min(i + size, n)
      && (k + 1 < |plan| ==> plan[k + 1].first == i + size + 1)
      && (k + 1 == |plan| ==> i + size >= n)
  {
    var plan := StridePlan(n, size);
    assert k < |plan|;
    if k + 1 == |plan| {
      assert plan[k].last == n;
    }
  }

  /** A tiling puts every slide in exactly one batch. */
  lemma {:induction false} TilesCover(plan: seq<Range>, lo: nat, hi: nat, s: int)
    requires Tiles(plan, lo, hi) && lo < s <= hi
    ensures exists k | 0 <= k < |plan| :: InRange(plan[k], s)
    decreases |plan|
  {
    if !InRange(plan[0], s) {
      var rest := plan[1..];
      TilesTail(plan, lo, hi);
      TilesCover(rest, plan[0].last, hi, s);
      var k :| 0 <= k < |rest| && InRange(rest[k], s);
      assert plan[k + 1] == rest[k];
    }
  }

  lemma {:induction false} TilesAscend(plan: seq<Range>, lo: nat, hi: nat, i: nat, j: nat)
    requires Tiles(plan, lo, hi) && i < j < |plan|
    ensures plan[i].last < plan[j].first
    decreases j - i
  {
    if i + 1 < j {
      TilesAscend(plan, lo, hi, i + 1, j);
    }
  }

  lemma TilesDisjoint(plan: seq<Range>, lo: nat, hi: nat, s: int, i: nat, j: nat)
    requires Tiles(plan, lo, hi) && i < |plan| && j < |plan|
    requires InRange(plan[i], s) && InRange(plan[j], s)
    ensures i == j
  {
    if i < j {
      TilesAscend(plan, lo, hi, i, j);
    } else if j < i {
      TilesAscend(plan, lo, hi, j, i);
    }
  }

  /** A tiling holds as many slides as it covers. */
  lemma {:induction false} TilesTotal(plan: seq<Range>, lo: nat, hi: nat)
    requires Tiles(plan, lo, hi) && lo <= hi
    ensures Total(plan) == hi - lo
    decreases |plan|
  {
    if plan != [] {
      var rest := plan[1..];
      TilesTail(plan, lo, hi);
      TilesTotal(rest, plan[0].last, hi);
    }
  }

  function Total(plan: seq<Range>): int
  {
    if plan == [] then 0 else Count(plan[0]) + Total(plan[1..])
  }

  // ---------------------------------------------------------------------------
  // The refinement plan of process_with_claude

  /** The list `batch_sizes` built by `while remaining > 0: size = min(cap, remaining)`. */
  function Chunks(remaining: nat, cap: nat): (sizes: seq<nat>)
    requires cap > 0
    ensures remaining == 0 <==> sizes == []
    decreases remaining
  {
    if remaining == 0 then []
    else [Min(cap, remaining)] + Chunks(remaining - Min(cap, remaining), cap)
  }

  /** The sizes add up to the count, none is over `cap` or zero, and all
      but the last are exactly `cap`. */
  lemma {:induction false} ChunksShape(remaining: nat, cap: nat)
    requires cap > 0
    ensures Sum(Chunks(remaining, cap)) == remaining
    ensures forall k | 0 <= k < |Chunks(remaining, cap)| :: 1 <= Chunks(remaining, cap)[k] <= cap
    ensures forall k | 0 <= k < |Chunks(remaining, cap)| - 1 :: Chunks(remaining, cap)[k] == cap
    decreases remaining
  {
    if remaining > 0 {
      var c := Min(cap, remaining);
      var rest := Chunks(remaining - c, cap);
      ChunksShape(remaining - c, cap);
      var sizes := [c] + rest;
      assert Chunks(remaining, cap) == sizes;
      assert sizes[1..] == rest;
      assert forall k | 1 <= k < |sizes| :: sizes[k] == rest[k - 1];
    }
  }

  function Sum(xs: seq<nat>): nat
  {
    if xs == [] then 0 else xs[0] + Sum(xs[1..])
  }

  /** The ranges the second loop walks: `end = min(start + size - 1, total)`, then `start = end + 1`. */
  function Walk(sizes: seq<nat>, start: nat, total: nat): seq<Range>
    decreases |sizes|
  {
    if sizes == [] then []
    else
      var end := Min(start + sizes[0] - 1, total);
      var next := end + 1;
      [Range(start, if end < 0 then 0 else end)] + Walk(sizes[1..], if next < 0 then 0 else next, total)
  }

  /** The refinement batches of a deck of `total` tagged slides. */
  function RefinementPlan(total: nat): seq<Range>
  {
    Walk(Chunks(total, 10), 1, total)
  }

  lemma ChunksHead(remaining: nat, cap: nat)
    requires cap > 0 && remaining > 0
    ensures Chunks(remaining, cap) == [Min(cap, remaining)] + Chunks(remaining - Min(cap, remaining), cap)
  {
  }

  lemma WalkHead(size: nat, rest: seq<nat>, start: nat, total: nat)
    requires 1 <= size && start + size - 1 <= total
    ensures Walk([size] + rest, start, total) == [Range(start, start + size - 1)] + Walk(rest, start + size, total)
  {
    assert ([size] + rest)[1..] == rest;
  }

  lemma {:induction false} WalkIsStride(b: nat, total: nat, cap: nat)
    requires cap > 0 && b <= total
    ensures Walk(Chunks(total - b, cap), b + 1, total) == StrideFrom(b, total, cap)
    decreases total - b
  {
    if b < total {
      var c := Min(cap, total - b);
      var tail := Chunks(total - b - c, cap);
      ChunksHead(total - b, cap);
      WalkHead(c, tail, b + 1, total);
      StrideHead(b, total, cap);
      WalkIsStride(b + c, total, cap);
      assert StrideFrom(b + cap, total, cap) == StrideFrom(b + c, total, cap);
    }
  }

  lemma StrideHead(b: nat, n: nat, size: nat)
    requires size > 0 && b < n
    ensures StrideFrom(b, n, size) == [Range(b + 1, Min(b + size, n))] + StrideFrom(b + size, n, size)
  {
  }

  /** The size list and its walk amount to the same cuts as `range(0, total, 10)`:
      contiguous batches from 1 to `total`, none over 10 slides, all but the
      last exactly 10, and none at all for a deck without tags. */
  lemma RefinementIsStride(total: nat)
    ensures RefinementPlan(total) == StridePlan(total, 10)
  {
    WalkIsStride(0, total, 10);
  }
}
