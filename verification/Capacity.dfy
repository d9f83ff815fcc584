/**
 How many subscribers fit into the hugepage heap. Each pool is charged per object
 without knowing the final count; the theorems say the charge covers what n
 subscribers' objects, packed into pages, really occupy.
 */
module Capacity {
  import opened Common

  const MIN_USER_COUNT := 1
  const MAX_USER_COUNT := 2000
  const HUGEPAGE_RESERVE_BYTES := 512 * 1024 * 1024
  const CACHE_LINE := 64

  /** One pool of a subscriber: objects it takes, and the bytes of one object with header and trailer. */
  datatype Pool = Pool(objs: nat, elt: nat)

  datatype SizeInfo = SizeInfo(plain: nat, pools: seq<Pool>)

  // ---- where the objects of a pool lie ----

  function PerPage(elt: nat, page: nat): nat
    requires elt > 0
  {
    page / elt
  }

  function PagesPerObject(elt: nat, page: nat): nat
    requires page > 0
  {
    (elt + page - 1) / page
  }

  /** Offset of object i: as many as fit share a page, a larger one gets whole pages. */
  ghost function At(i: nat, elt: nat, page: nat): nat
    requires elt > 0
  {
    if page == 0 then Times(i, elt)
    else if PerPage(elt, page) == 0 then Times(i, Times(PagesPerObject(elt, page), page))
    else InPages(i, PerPage(elt, page), elt, page)
  }

  function Times(a: nat, b: nat): nat {
    a * b
  }

  /** Object i when k share a page. */
  function InPages(i: nat, k: nat, elt: nat, page: nat): nat
    requires k > 0
  {
    var q: nat, r: nat := i / k, i % k;
    Times(q, page) + Times(r, elt)
  }

  /** Bytes one object keeps to itself. */
  ghost function Extent(elt: nat, page: nat): nat
    requires elt > 0
  {
    if page != 0 && PerPage(elt, page) == 0 then PagesPerObject(elt, page) * page else elt
  }

  /** Bytes from the first of n objects to the end of the last: full pages, then a partial one. */
  ghost function Footprint(n: nat, elt: nat, page: nat): nat {
    if n == 0 || elt == 0 then 0 else At(n - 1, elt, page) + Extent(elt, page)
  }

  /** fastrg_get_mempool_span_bytes */
  function Span(pool: Pool, page: nat): nat {
    if pool.objs == 0 || pool.elt == 0 then 0
    else if page == 0 then pool.elt * pool.objs
    else if PerPage(pool.elt, page) == 0 then PagesPerObject(pool.elt, page) * page * pool.objs
    else (pool.objs * page + PerPage(pool.elt, page) - 1) / PerPage(pool.elt, page)
  }

  // ---- products ----

  lemma MulMono(k: nat, a: int, b: int)
    requires a <= b
    ensures k * a <= k * b
  {
  }

  lemma Cancel(k: nat, a: int, b: int)
    requires k > 0 && k * a <= k * b
    ensures a <= b
  {
    assert k * (b + 1) == k * b + k;
    if a > b { MulMono(k, b + 1, a); }
  }

  lemma CeilCovers(x: nat, k: nat)
    requires k > 0
    ensures k * ((x + k - 1) / k) >= x
  {
    var q, r := (x + k - 1) / k, (x + k - 1) % k;
    assert x + k - 1 == k * q + r;
  }

  lemma FloorFits(x: nat, k: nat)
    requires k > 0
    ensures k * (x / k) <= x < k * (x / k) + k
  {
    assert x == k * (x / k) + x % k;
  }

  // ---- the layout is sound ----

  lemma NextInLine(i: nat, k: nat)
    requires k > 0
    ensures if i % k == k - 1 then (i + 1) / k == i / k + 1 && (i + 1) % k == 0
            else (i + 1) / k == i / k && (i + 1) % k == i % k + 1
  {
    var q, r := i / k, i % k;
    assert i + 1 == k * q + (r + 1);
    if r + 1 < k {
      DivUnique(i + 1, k, q, r + 1);
    } else {
      assert k * q + k == k * (q + 1);
      DivUnique(i + 1, k, q + 1, 0);
    }
  }

  lemma DivUnique(x: nat, k: nat, q: nat, r: nat)
    requires k > 0 && x == k * q + r && r < k
    ensures x / k == q && x % k == r
  {
    var q', r' := x / k, x % k;
    assert x == k * q' + r';
    if q' < q { MulMono(k, q' + 1, q); }
    if q < q' { MulMono(k, q + 1, q'); }
    assert k * (q' + 1) == k * q' + k && k * (q + 1) == k * q + k;
  }

  /** Objects follow each other without overlap. */
  lemma ObjectsDisjoint(i: nat, elt: nat, page: nat)
    requires elt > 0
    ensures At(i, elt, page) + Extent(elt, page) <= At(i + 1, elt, page)
  {
    if page == 0 {
    } else if PerPage(elt, page) == 0 {
      var w := PagesPerObject(elt, page) * page;
      assert (i + 1) * w == i * w + w;
    } else {
      var k := PerPage(elt, page);
      NextInLine(i, k);
      FloorFits(page, elt);
      assert elt * k <= page;
      if i % k == k - 1 {
        assert (i / k + 1) * page == i / k * page + page;
        assert (k - 1) * elt + elt == elt * k;
      }
    }
  }

  lemma PerPagePositive(elt: nat, page: nat)
    requires elt > 0
    ensures PerPage(elt, page) > 0 <==> elt <= page
    ensures PerPage(elt, page) * elt <= page
  {
    FloorFits(page, elt);
    if elt > page && PerPage(elt, page) > 0 { MulMono(elt, 1, PerPage(elt, page)); }
  }

  /** No object of at most a page straddles two of them. */
  lemma SmallObjectsStayOnPage(i: nat, elt: nat, page: nat)
    requires 0 < elt <= page
    ensures PerPage(elt, page) > 0
    ensures var p := i / PerPage(elt, page);
            p * page <= At(i, elt, page) && At(i, elt, page) + elt <= (p + 1) * page
  {
    PerPagePositive(elt, page);
    var k := PerPage(elt, page);
    var p, r := i / k, i % k;
    MulMono(elt, r + 1, k);
    assert r * elt + elt == elt * (r + 1);
    assert (p + 1) * page == p * page + page;
  }

  /** A larger one begins on a page and owns all it touches. */
  lemma LargeObjectsOwnPages(i: nat, elt: nat, page: nat)
    requires 0 < page < elt
    ensures At(i, elt, page) % page == 0 && Extent(elt, page) % page == 0 && Extent(elt, page) >= elt
  {
    PerPagePositive(elt, page);
    var w := PagesPerObject(elt, page);
    CeilCovers(elt, page);
    assert i * (w * page) == (i * w) * page;
    MultipleOf(i * w, page);
    MultipleOf(w, page);
  }

  lemma MultipleOf(q: nat, k: nat)
    requires k > 0
    ensures (q * k) % k == 0
  {
    DivUnique(q * k, k, q, 0);
  }

  // ---- the charge covers the layout ----

  lemma SharedPagesBound(n: nat, elt: nat, page: nat)
    requires n > 0 && 0 < elt <= page
    ensures PerPage(elt, page) > 0
    ensures PerPage(elt, page) * Footprint(n, elt, page) <= n * page
  {
    var k := PerPage(elt, page);
    PerPagePositive(elt, page);
    var q, r := (n - 1) / k, (n - 1) % k;
    assert n - 1 == k * q + r;
    assert Footprint(n, elt, page) == q * page + r * elt + elt;
    PartialPage(q, r, k, elt, page);
  }

  lemma PartialPage(q: nat, r: nat, k: nat, elt: nat, page: nat)
    requires k * elt <= page
    ensures k * (q * page + r * elt + elt) <= (k * q + r + 1) * page
  {
    MulMono(r + 1, k * elt, page);
    assert k * (r * elt + elt) == (r + 1) * (k * elt);
    assert k * (q * page) == (k * q) * page;
    assert (k * q + (r + 1)) * page == (k * q) * page + (r + 1) * page;
    assert k * (q * page + (r * elt + elt)) == k * (q * page) + k * (r * elt + elt);
  }

  lemma SharesAdd(n: nat, objs: nat, k: nat, page: nat, span: nat, footprint: nat)
    requires k > 0 && k * footprint <= (n * objs) * page && objs * page <= k * span
    ensures footprint <= n * span
  {
    MulMono(n, objs * page, k * span);
    assert n * (objs * page) == (n * objs) * page;
    assert n * (k * span) == k * (n * span);
    Cancel(k, footprint, n * span);
  }

  lemma SharedPagesCovered(n: nat, objs: nat, elt: nat, page: nat)
    requires n > 0 && objs > 0 && 0 < elt <= page
    ensures Footprint(n * objs, elt, page) <= n * Span(Pool(objs, elt), page)
  {
    var k := PerPage(elt, page);
    MulMono(n, 1, objs);
    SharedPagesBound(n * objs, elt, page);
    CeilCovers(objs * page, k);
    SharesAdd(n, objs, k, page, (objs * page + k - 1) / k, Footprint(n * objs, elt, page));
  }

  /** Where objects do not share pages, n of them take n times the place. */
  lemma OwnPlaceCovered(n: nat, objs: nat, elt: nat, page: nat)
    requires n > 0 && objs > 0 && elt > 0 && (page == 0 || elt > page)
    ensures Footprint(n * objs, elt, page) <= n * Span(Pool(objs, elt), page)
  {
    PerPagePositive(elt, page);
    MulMono(n, 1, objs);
    var all, w := n * objs, Extent(elt, page);
    assert Footprint(all, elt, page) == (all - 1) * w + w == all * w;
    assert Span(Pool(objs, elt), page) == w * objs;
    assert n * (w * objs) == (n * objs) * w;
  }

  /** n subscribers' spans cover their objects packed together, for every object and page size. */
  lemma SpanCoversLayout(n: nat, pool: Pool, page: nat)
    ensures Footprint(n * pool.objs, pool.elt, page) <= n * Span(pool, page)
  {
    if n == 0 || pool.objs == 0 {
      assert n * pool.objs == 0;
    } else if pool.elt == 0 {
    } else if 0 < pool.elt <= page {
      SharedPagesCovered(n, pool.objs, pool.elt, page);
    } else {
      OwnPlaceCovered(n, pool.objs, pool.elt, page);
    }
  }

  /** And nothing less would: the span is the least charge that covers every number of subscribers. */
  lemma SpanExactly(pool: Pool, page: nat, charge: nat)
    ensures (forall n: nat :: Footprint(n * pool.objs, pool.elt, page) <= n * charge) <==> charge >= Span(pool, page)
  {
    if charge >= Span(pool, page) {
      forall n: nat ensures Footprint(n * pool.objs, pool.elt, page) <= n * charge {
        SpanCoversLayout(n, pool, page);
        MulMono(n, Span(pool, page), charge);
      }
    } else {
      var n := LessIsNotEnough(pool, page, charge);
      assert Footprint(n * pool.objs, pool.elt, page) > n * charge;
    }
  }

  /** How many subscribers a smaller charge fails for. */
  lemma LessIsNotEnough(pool: Pool, page: nat, charge: nat) returns (n: nat)
    requires charge < Span(pool, page)
    ensures Footprint(n * pool.objs, pool.elt, page) > n * charge
  {
    var elt := pool.elt;
    PerPagePositive(elt, page);
    if page == 0 || elt > page {
      n := 1;
      var w := Extent(elt, page);
      assert Footprint(pool.objs, elt, page) == (pool.objs - 1) * w + w == w * pool.objs;
    } else {
      var k := PerPage(elt, page);
      n := k * page;
      CeilLeast(pool.objs * page, k, charge);
      FullPages(page * pool.objs, elt, page);
      assert n * pool.objs == k * (page * pool.objs);
      assert k * elt > 0 by { MulMono(k, 1, elt); }
      FallsShort(k, charge, pool.objs, page);
    }
  }

  lemma CeilLeast(x: nat, k: nat, c: nat)
    requires k > 0 && c < (x + k - 1) / k
    ensures k * c < x
  {
    var q, r := (x + k - 1) / k, (x + k - 1) % k;
    assert x + k - 1 == k * q + r;
    MulMono(k, c + 1, q);
    assert k * (c + 1) == k * c + k;
  }

  /** The objects of m full pages end where the last of them does. */
  lemma FullPages(m: nat, elt: nat, page: nat)
    requires m > 0 && 0 < elt <= page
    ensures PerPage(elt, page) > 0
    ensures var k := PerPage(elt, page); k * m > 0 && Footprint(k * m, elt, page) == (m - 1) * page + k * elt
  {
    PerPagePositive(elt, page);
    var k := PerPage(elt, page);
    assert k * m - 1 == k * (m - 1) + (k - 1);
    MulMono(k, 1, m);
    DivUnique(k * m - 1, k, m - 1, k - 1);
    assert (k - 1) * elt + elt == k * elt;
  }

  lemma FallsShort(k: nat, charge: nat, objs: nat, page: nat)
    requires k * charge < objs * page
    ensures (page * objs - 1) * page >= (k * page) * charge
  {
    assert (k * page) * charge == page * (k * charge);
    MulMono(page, k * charge, objs * page - 1);
    assert page * (objs * page - 1) == (page * objs - 1) * page;
  }

  // ---- the ring that holds a pool's free objects ----

  function AlignUp(x: nat, a: nat): nat
    requires a > 0
  {
    (x + a - 1) / a * a
  }

  ghost predicate IsPow2(x: nat)
  {
    x == 1 || (x > 1 && x % 2 == 0 && IsPow2(x / 2))
  }

  /** The next power of two. */
  ghost function RingSlots(x: nat): nat {
    if x <= 1 then 1 else 2 * RingSlots((x + 1) / 2)
  }

  lemma {:induction false} RingSlotsExactly(x: nat, p: nat)
    requires IsPow2(p)
    ensures IsPow2(RingSlots(x)) && RingSlots(x) >= x
    ensures p >= x ==> RingSlots(x) <= p
    decreases x
  {
    if x > 1 {
      if p > 1 {
        RingSlotsExactly((x + 1) / 2, p / 2);
      } else {
        RingSlotsExactly((x + 1) / 2, p);
      }
    }
  }

  /** Sixteen bytes an object pay for the eight-byte slots of a ring with room for one more. */
  lemma {:induction false} RingSlotsBound(x: nat)
    requires x >= 2
    ensures RingSlots(x) <= 2 * (x - 1)
  {
    if x > 2 { RingSlotsBound((x + 1) / 2); }
  }

  /** rte_ring_get_memsize with a header of whole cache lines. */
  function RingBytes(header: nat, count: nat): nat {
    AlignUp(header + 8 * count, CACHE_LINE)
  }

  lemma RingCovered(header: nat, n: nat)
    requires header % CACHE_LINE == 0
    ensures RingBytes(header, RingSlots(n + 1)) <= 16 * n + RingBytes(header, 1) + 16
  {
    if n > 0 {
      RingSlotsBound(n + 1);
      AlignBound(header + 8 * RingSlots(n + 1));
      OneSlotRing(header);
    }
  }

  lemma AlignBound(x: nat)
    ensures AlignUp(x, CACHE_LINE) <= x + CACHE_LINE - 1
  {
  }

  /** The smallest ring takes one cache line beside its header. */
  lemma OneSlotRing(header: nat)
    requires header % CACHE_LINE == 0
    ensures RingBytes(header, 1) == header + CACHE_LINE
  {
  }

  /** fastrg_get_mempool_fixed_usage_bytes */
  function FixedUsage(elt: nat, header: nat): nat {
    (if elt > 0 then elt - 1 else 0) + RingBytes(header, 1) + 16
  }

  /** What a pool of n objects takes: its pages from wherever the heap puts them, and its ring. */
  ghost function PoolBytes(n: nat, elt: nat, page: nat, header: nat): nat {
    Footprint(n, elt, page) + (if elt > 0 then elt - 1 else 0) + RingBytes(header, RingSlots(n + 1))
  }

  lemma PoolCovered(n: nat, pool: Pool, page: nat, header: nat)
    requires header % CACHE_LINE == 0
    ensures PoolBytes(n * pool.objs, pool.elt, page, header)
            <= n * (Span(pool, page) + 16 * pool.objs) + FixedUsage(pool.elt, header)
  {
    SpanCoversLayout(n, pool, page);
    RingCovered(header, n * pool.objs);
    Distribute(n, Span(pool, page), pool.objs);
  }

  lemma Distribute(n: nat, a: nat, b: nat)
    ensures n * (a + 16 * b) == n * a + 16 * (n * b)
  {
  }

  // ---- sums over everything a subscriber needs ----

  ghost function PoolsCost(pools: seq<Pool>, page: nat): nat {
    if pools == [] then 0
    else var p := pools[|pools| - 1];
         PoolsCost(pools[..|pools| - 1], page) + Span(p, page) + 16 * p.objs
  }

  ghost function PoolsFixed(pools: seq<Pool>, header: nat): nat {
    if pools == [] then 0 else PoolsFixed(pools[..|pools| - 1], header) + FixedUsage(pools[|pools| - 1].elt, header)
  }

  ghost function PoolsUse(pools: seq<Pool>, n: nat, page: nat, header: nat): nat {
    if pools == [] then 0
    else var p := pools[|pools| - 1];
         PoolsUse(pools[..|pools| - 1], n, page, header) + PoolBytes(n * p.objs, p.elt, page, header)
  }

  ghost function Cost(infos: seq<SizeInfo>, stats: nat, page: nat): nat {
    if infos == [] then stats
    else var info := infos[|infos| - 1];
         Cost(infos[..|infos| - 1], stats, page) + info.plain + PoolsCost(info.pools, page)
  }

  ghost function Fixed(infos: seq<SizeInfo>, header: nat): nat {
    if infos == [] then 0
    else Fixed(infos[..|infos| - 1], header) + PoolsFixed(infos[|infos| - 1].pools, header)
  }

  /** What n subscribers take from the heap. */
  ghost function Use(infos: seq<SizeInfo>, n: nat, stats: nat, page: nat, header: nat): nat {
    if infos == [] then n * stats
    else var info := infos[|infos| - 1];
         Use(infos[..|infos| - 1], n, stats, page, header) + n * info.plain + PoolsUse(info.pools, n, page, header)
  }

  /** The cost of a subscriber is the statistics once, and for each component its plain bytes and each pool's charge. */
  lemma {:induction false} CostAdds(a: seq<SizeInfo>, b: seq<SizeInfo>, stats: nat, page: nat, header: nat)
    ensures Fixed(a + b, header) == Fixed(a, header) + Fixed(b, header)
    ensures Cost(a + b, stats, page) == Cost(a, stats, page) + Cost(b, 0, page)
    ensures Cost([], stats, page) == stats
    decreases |b|
  {
    if b == [] {
      assert a + b == a;
    } else {
      assert (a + b)[..|a + b| - 1] == a + b[..|b| - 1];
      CostAdds(a, b[..|b| - 1], stats, page, header);
    }
  }

  lemma {:induction false} PoolsCostAdds(a: seq<Pool>, b: seq<Pool>, page: nat, header: nat)
    ensures PoolsFixed(a + b, header) == PoolsFixed(a, header) + PoolsFixed(b, header)
    ensures PoolsCost(a + b, page) == PoolsCost(a, page) + PoolsCost(b, page)
    decreases |b|
  {
    if b == [] {
      assert a + b == a;
    } else {
      assert (a + b)[..|a + b| - 1] == a + b[..|b| - 1];
      PoolsCostAdds(a, b[..|b| - 1], page, header);
    }
  }

  /** One pool costs its span and sixteen bytes an object; what it costs once is told by its object and the ring's header. */
  lemma OnePoolCosts(plain: nat, pool: Pool, page: nat, header: nat)
    requires header % CACHE_LINE == 0
    ensures Cost([SizeInfo(plain, [pool])], 0, page) == plain + Span(pool, page) + 16 * pool.objs
    ensures Cost([SizeInfo(plain, [])], 0, page) == plain
    ensures Fixed([SizeInfo(plain, [pool])], header) ==
            (if pool.elt > 0 then pool.elt - 1 else 0) + header + CACHE_LINE + 16
    ensures Fixed([SizeInfo(plain, [])], header) == 0
  {
    var one, none := SizeInfo(plain, [pool]), SizeInfo(plain, []);
    assert [one][..0] == [] && [none][..0] == [] && [pool][..0] == [];
    assert PoolsCost([pool], page) == Span(pool, page) + 16 * pool.objs;
    assert PoolsFixed([pool], header) == FixedUsage(pool.elt, header);
    OneSlotRing(header);
  }

  lemma Split(n: nat, a: nat, b: nat, c: nat)
    ensures n * (a + b + c) == n * a + n * b + n * c
  {
  }

  lemma {:induction false} PoolsCovered(pools: seq<Pool>, n: nat, page: nat, header: nat)
    requires header % CACHE_LINE == 0
    ensures PoolsUse(pools, n, page, header) <= n * PoolsCost(pools, page) + PoolsFixed(pools, header)
  {
    if pools == [] {
    } else {
      var rest, p := pools[..|pools| - 1], pools[|pools| - 1];
      PoolsCovered(rest, n, page, header);
      PoolCovered(n, p, page, header);
      Split(n, PoolsCost(rest, page), Span(p, page) + 16 * p.objs, 0);
    }
  }

  lemma {:induction false} UseCovered(infos: seq<SizeInfo>, n: nat, stats: nat, page: nat, header: nat)
    requires header % CACHE_LINE == 0
    ensures Use(infos, n, stats, page, header) <= n * Cost(infos, stats, page) + Fixed(infos, header)
  {
    if infos == [] {
    } else {
      var rest, info := infos[..|infos| - 1], infos[|infos| - 1];
      UseCovered(rest, n, stats, page, header);
      PoolsCovered(info.pools, n, page, header);
      Split(n, Cost(rest, stats, page), info.plain, PoolsCost(info.pools, page));
    }
  }

  // ---- the chosen count ----

  /** fastrg_get_subscriber_capacity */
  function SubscriberCapacity(free: nat, overhead: nat, cost: nat): nat {
    var budget := if free > overhead then free - overhead else 0;
    var n := if cost > 0 then budget / cost else 0;
    if n < MIN_USER_COUNT then MIN_USER_COUNT else if n > MAX_USER_COUNT then MAX_USER_COUNT else n
  }

  /** The count's charge fits exactly when one subscriber's does, and one more would not. */
  lemma CapacityExactly(free: nat, overhead: nat, cost: nat)
    ensures var n := SubscriberCapacity(free, overhead, cost);
            && MIN_USER_COUNT <= n <= MAX_USER_COUNT
            && (n * cost + overhead <= free <==> cost + overhead <= free)
            && (cost > 0 && n < MAX_USER_COUNT ==> (n + 1) * cost + overhead > free)
  {
    var n := SubscriberCapacity(free, overhead, cost);
    if cost > 0 {
      var budget := if free > overhead then free - overhead else 0;
      var q := budget / cost;
      FloorFits(budget, cost);
      if q < 1 {
        assert cost * q == 0 && (n + 1) * cost == 2 * cost;
      } else {
        MulMono(cost, n, q);
        MulMono(cost, 1, q);
        assert n * cost == cost * n && (n + 1) * cost == cost * n + cost;
      }
    } else {
      assert n * cost == 0;
    }
  }

  /** The chosen number of subscribers fits into the free heap, reserve included, whenever a single one's charge does. */
  lemma {:induction false} ChosenCountFits(infos: seq<SizeInfo>, stats: nat, page: nat, header: nat, free: nat)
    requires header % CACHE_LINE == 0
    requires Cost(infos, stats, page) + HUGEPAGE_RESERVE_BYTES + Fixed(infos, header) <= free
    ensures var n := SubscriberCapacity(free, HUGEPAGE_RESERVE_BYTES + Fixed(infos, header), Cost(infos, stats, page));
            HUGEPAGE_RESERVE_BYTES + Use(infos, n, stats, page, header) <= free
  {
    var cost, overhead := Cost(infos, stats, page), HUGEPAGE_RESERVE_BYTES + Fixed(infos, header);
    var n := SubscriberCapacity(free, overhead, cost);
    CapacityExactly(free, overhead, cost);
    UseCovered(infos, n, stats, page, header);
  }

  /** A pool whose charge depends on the page size. */
  ghost predicate NeedsPage(pool: Pool) {
    pool.objs > 0 && pool.elt > 0
  }

  /** The inner loop of fastrg_compute_max_user_count: charge one component's pools. */
  method ChargePools(pools: seq<Pool>, page: Option<nat>, header: nat) returns (ret: Status, cost: nat, fixedBytes: nat)
    ensures ret == ERROR <==> page.None? && exists j :: 0 <= j < |pools| && NeedsPage(pools[j])
    ensures ret == SUCCESS ==>
              cost == PoolsCost(pools, PageOf(page)) && fixedBytes == PoolsFixed(pools, header)
  {
    cost, fixedBytes := 0, 0;
    var j := 0;
    while j < |pools|
      invariant 0 <= j <= |pools|
      invariant cost == PoolsCost(pools[..j], PageOf(page)) && fixedBytes == PoolsFixed(pools[..j], header)
      invariant page.None? ==> forall b :: 0 <= b < j ==> !NeedsPage(pools[b])
    {
      var pool := pools[j];
      assert pools[..j + 1][..j] == pools[..j];
      if page.None? && pool.objs != 0 && pool.elt != 0 {
        assert NeedsPage(pools[j]);
        return ERROR, cost, fixedBytes;
      }
      cost := cost + (Span(pool, PageOf(page)) + 16 * pool.objs);
      fixedBytes := fixedBytes + FixedUsage(pool.elt, header);
      j := j + 1;
    }
    assert pools[..j] == pools;
    ret := SUCCESS;
  }

  function PageOf(page: Option<nat>): nat {
    if page.Some? then page.value else 0
  }

  /** fastrg_compute_max_user_count; without a page size the cost cannot be determined. */
  method ComputeMaxUserCount(infos: seq<SizeInfo>, stats: nat, page: Option<nat>, header: nat, free: nat)
    returns (ret: Status, maxUserCount: nat, cost: nat)
    requires header % CACHE_LINE == 0
    ensures ret == ERROR <==>
              page.None? && exists i, j :: 0 <= i < |infos| && 0 <= j < |infos[i].pools| && NeedsPage(infos[i].pools[j])
    ensures ret == SUCCESS ==>
              var fixedBytes := Fixed(infos, header);
              && cost == Cost(infos, stats, PageOf(page))
              && MIN_USER_COUNT <= maxUserCount <= MAX_USER_COUNT
              && (cost + HUGEPAGE_RESERVE_BYTES + fixedBytes <= free ==>
                    HUGEPAGE_RESERVE_BYTES + Use(infos, maxUserCount, stats, PageOf(page), header) <= free)
              && (cost > 0 && maxUserCount < MAX_USER_COUNT ==>
                    (maxUserCount + 1) * cost + HUGEPAGE_RESERVE_BYTES + fixedBytes > free)
  {
    cost, maxUserCount := stats, 0;
    var fixedBytes := 0;
    var i := 0;
    while i < |infos|
      invariant 0 <= i <= |infos|
      invariant cost == Cost(infos[..i], stats, PageOf(page)) && fixedBytes == Fixed(infos[..i], header)
      invariant page.None? ==> forall a, b :: 0 <= a < i && 0 <= b < |infos[a].pools| ==> !NeedsPage(infos[a].pools[b])
    {
      assert infos[..i + 1][..i] == infos[..i];
      var r, c, f := ChargePools(infos[i].pools, page, header);
      if r != SUCCESS { return ERROR, 0, cost; }
      cost := cost + infos[i].plain + c;
      fixedBytes := fixedBytes + f;
      i := i + 1;
    }
    assert infos[..i] == infos;
    maxUserCount := SubscriberCapacity(free, HUGEPAGE_RESERVE_BYTES + fixedBytes, cost);
    CapacityExactly(free, HUGEPAGE_RESERVE_BYTES + fixedBytes, cost);
    if cost + HUGEPAGE_RESERVE_BYTES + fixedBytes <= free {
      ChosenCountFits(infos, stats, PageOf(page), header, free);
    }
    ret := SUCCESS;
  }
}
