/** The user-namespace id mapping computed for a container: triples
    (container id, host id, count), each of which becomes one
    --uidmap/--gidmap argument. Two allocators exist: the Go one, which
    walks range sets, and the C one, which splits a single span around a
    reserved id. */
module IdMap {
  import opened Wrappers
  import opened Ranges

  datatype IdMapping = IdMapping(container: int, host: int, count: int)

  function ContainerEnd(m: IdMapping): int {
    m.container + m.count
  }

  function HostEnd(m: IdMapping): int {
    m.host + m.count
  }

  function Min(a: int, b: int): int {
    if a <= b then a else b
  }

  /** Container id x is mapped by one of the triples. */
  predicate CoversContainer(ms: seq<IdMapping>, x: int)
    decreases |ms|
  {
    |ms| > 0 && ((ms[0].container <= x < ContainerEnd(ms[0])) || CoversContainer(ms[1..], x))
  }

  /** Host id y is the target of one of the triples. */
  predicate CoversHost(ms: seq<IdMapping>, y: int)
    decreases |ms|
  {
    |ms| > 0 && ((ms[0].host <= y < HostEnd(ms[0])) || CoversHost(ms[1..], y))
  }

  function SumCounts(ms: seq<IdMapping>): int
    decreases |ms|
  {
    if |ms| == 0 then 0 else ms[0].count + SumCounts(ms[1..])
  }

  /** Every triple maps at least one id. */
  predicate Positive(ms: seq<IdMapping>)
    decreases |ms|
  {
    |ms| == 0 || (ms[0].count > 0 && Positive(ms[1..]))
  }

  /** Container spans in increasing order, none overlapping the next. */
  predicate ContainerSorted(ms: seq<IdMapping>)
    decreases |ms|
  {
    |ms| <= 1 || (ContainerEnd(ms[0]) <= ms[1].container && ContainerSorted(ms[1..]))
  }

  /** Host spans in increasing order, none overlapping the next. */
  predicate HostSorted(ms: seq<IdMapping>)
    decreases |ms|
  {
    |ms| <= 1 || (HostEnd(ms[0]) <= ms[1].host && HostSorted(ms[1..]))
  }

  /** The container spans follow one another without gaps, from c onwards. */
  predicate Contiguous(ms: seq<IdMapping>, c: int)
    decreases |ms|
  {
    |ms| == 0 || (ms[0].container == c && Contiguous(ms[1..], ContainerEnd(ms[0])))
  }

  // ---------------------------------------------------------------------
  // Facts about triple lists
  // ---------------------------------------------------------------------

  lemma CoversCons(m: IdMapping, ms: seq<IdMapping>)
    ensures forall x :: CoversContainer([m] + ms, x) <==> (m.container <= x < ContainerEnd(m)) || CoversContainer(ms, x)
    ensures forall y :: CoversHost([m] + ms, y) <==> (m.host <= y < HostEnd(m)) || CoversHost(ms, y)
    ensures SumCounts([m] + ms) == m.count + SumCounts(ms)
  {
    assert ([m] + ms)[1..] == ms;
  }

  lemma SumCountsCons(m: IdMapping, ms: seq<IdMapping>)
    ensures SumCounts([m] + ms) == m.count + SumCounts(ms)
    ensures Positive([m] + ms) <==> m.count > 0 && Positive(ms)
  {
    assert ([m] + ms)[1..] == ms;
    assert forall i :: 1 <= i < |ms| + 1 ==> ([m] + ms)[i] == ms[i - 1];
  }

  lemma {:induction false} CoversAppend(a: seq<IdMapping>, b: seq<IdMapping>)
    ensures forall x :: CoversContainer(a + b, x) <==> CoversContainer(a, x) || CoversContainer(b, x)
    ensures forall y :: CoversHost(a + b, y) <==> CoversHost(a, y) || CoversHost(b, y)
    ensures SumCounts(a + b) == SumCounts(a) + SumCounts(b)
    decreases |a|
  {
    if |a| == 0 {
      assert a + b == b;
    } else {
      CoversAppend(a[1..], b);
      assert a + b == [a[0]] + (a[1..] + b);
      CoversCons(a[0], a[1..] + b);
      CoversCons(a[0], a[1..]);
      assert [a[0]] + a[1..] == a;
    }
  }

  lemma {:induction false} PositiveAppend(a: seq<IdMapping>, b: seq<IdMapping>)
    ensures Positive(a + b) <==> Positive(a) && Positive(b)
    decreases |a|
  {
    if |a| == 0 {
      assert a + b == b;
    } else {
      PositiveAppend(a[1..], b);
      assert (a + b)[1..] == a[1..] + b;
    }
  }

  lemma {:induction false} SortedAppend(a: seq<IdMapping>, b: seq<IdMapping>)
    requires ContainerSorted(a) && ContainerSorted(b) && HostSorted(a) && HostSorted(b)
    requires |a| > 0 && |b| > 0 ==> ContainerEnd(a[|a| - 1]) <= b[0].container
    requires |a| > 0 && |b| > 0 ==> HostEnd(a[|a| - 1]) <= b[0].host
    ensures ContainerSorted(a + b) && HostSorted(a + b)
    decreases |a|
  {
    if |a| == 0 {
      assert a + b == b;
    } else {
      SortedAppend(a[1..], b);
      assert (a + b)[1..] == a[1..] + b;
    }
  }

  /** Contiguous non-empty spans from c ascend and cover exactly
      [c, c + SumCounts), ending at c + SumCounts. */
  lemma {:induction false} ContiguousSpec(ms: seq<IdMapping>, c: int)
    requires Contiguous(ms, c) && Positive(ms)
    ensures ContainerSorted(ms) && SumCounts(ms) >= 0
    ensures |ms| > 0 ==> ContainerEnd(ms[|ms| - 1]) == c + SumCounts(ms)
    ensures forall x :: CoversContainer(ms, x) <==> c <= x < c + SumCounts(ms)
    decreases |ms|
  {
    if |ms| > 0 {
      ContiguousSpec(ms[1..], ContainerEnd(ms[0]));
      if |ms| > 1 {
        assert ms[1..][|ms| - 2] == ms[|ms| - 1];
      }
      assert SumCounts(ms) == ms[0].count + SumCounts(ms[1..]);
      assert ms[0].count > 0;
      forall x
        ensures CoversContainer(ms, x) <==> c <= x < c + SumCounts(ms)
      {
        assert CoversContainer(ms, x) <==> (c <= x < ContainerEnd(ms[0])) || CoversContainer(ms[1..], x);
      }
    }
  }

  // ---------------------------------------------------------------------
  // Go allocator (addIdMaps): the identity phase
  // ---------------------------------------------------------------------

  datatype Phase = Phase(maps: seq<IdMapping>, mapped: seq<Range>, pool: seq<Range>)

  /** Each still-unmapped low interval is mapped to the same host ids, and
      taken out of both the container ids still to map and the host pool. */
  function IdentityPhase(unmapped: seq<Range>, mapped: seq<Range>, pool: seq<Range>): (p: Phase)
    requires Valid(mapped) && Valid(pool)
    ensures Valid(p.mapped) && Valid(p.pool)
    ensures |p.maps| == |unmapped|
    ensures forall i :: 0 <= i < |unmapped| ==>
      p.maps[i] == IdMapping(unmapped[i].start, unmapped[i].start, unmapped[i].length)
    ensures forall x :: Covers(p.mapped, x) <==> Covers(mapped, x) && !Covers(unmapped, x)
    ensures forall x :: Covers(p.pool, x) <==> Covers(pool, x) && !Covers(unmapped, x)
    decreases |unmapped|
  {
    if |unmapped| == 0 then Phase([], mapped, pool)
    else
      var r := unmapped[0];
      RemoveClampedSpec(mapped, r.start, r.length);
      RemoveClampedSpec(pool, r.start, r.length);
      var rest := IdentityPhase(unmapped[1..],
        RemoveClamped(mapped, r.start, r.length), RemoveClamped(pool, r.start, r.length));
      Phase([IdMapping(r.start, r.start, r.length)] + rest.maps, rest.mapped, rest.pool)
  }

  /** The identity triples map exactly the ids of the intervals they come from. */
  lemma {:induction false} IdentityCovers(us: seq<Range>, ms: seq<IdMapping>)
    requires |ms| == |us|
    requires forall i :: 0 <= i < |us| ==> ms[i] == IdMapping(us[i].start, us[i].start, us[i].length)
    ensures forall x :: CoversContainer(ms, x) <==> Covers(us, x)
    ensures forall y :: CoversHost(ms, y) <==> Covers(us, y)
    decreases |us|
  {
    if |us| > 0 {
      IdentityCovers(us[1..], ms[1..]);
    }
  }

  // ---------------------------------------------------------------------
  // Go allocator: the remapping phase
  // ---------------------------------------------------------------------

  datatype Fill = Fill(maps: seq<IdMapping>, pool: seq<Range>)

  /** The pool after its first n ids are handed out: the first interval
      loses its first n ids. */
  function TakeFront(pool: seq<Range>, n: int): seq<Range>
    requires Valid(pool) && |pool| > 0 && 0 < n <= pool[0].length
  {
    (if n < pool[0].length then [Range(pool[0].start + n, pool[0].length - n)] else []) + pool[1..]
  }

  /** TakeFront keeps the pool a valid interval list, every remaining id
      above the ones handed out. */
  lemma TakeFrontValid(pool: seq<Range>, n: int)
    requires Valid(pool) && |pool| > 0 && 0 < n <= pool[0].length
    ensures var p := TakeFront(pool, n);
      Valid(p) && (|p| > 0 ==> pool[0].start + n <= p[0].start)
  {
    var h := pool[0];
    var p := TakeFront(pool, n);
    assert Valid(pool[1..]);
    assert |pool| > 1 ==> End(h) <= pool[1].start && pool[1..][0] == pool[1];
    if n < h.length {
      ValidCons(Range(h.start + n, h.length - n), pool[1..]);
    } else {
      assert p == pool[1..];
    }
  }

  /** TakeFront is what availableHostIds.Remove(h_start, next_length) does
      when h_start is the start of the first pool interval: it removes exactly
      those ids and lowers the pool's total by n. */
  lemma TakeFrontSpec(pool: seq<Range>, n: int)
    requires Valid(pool) && |pool| > 0 && 0 < n <= pool[0].length
    ensures var p := TakeFront(pool, n);
      && p == RemoveClamped(pool, pool[0].start, n)
      && (forall y :: Covers(p, y) <==> Covers(pool, y) && !(pool[0].start <= y < pool[0].start + n))
  {
    RemoveFront(pool, n);
    RemoveClampedSpec(pool, pool[0].start, n);
  }

  /** Taking n ids off the front lowers the pool's total by n. */
  lemma TakeFrontSum(pool: seq<Range>, n: int)
    requires Valid(pool) && |pool| > 0 && 0 < n <= pool[0].length
    ensures SumLengths(TakeFront(pool, n)) == SumLengths(pool) - n
  {
    var h := pool[0];
    var p := TakeFront(pool, n);
    SumLengthsCons(h, pool[1..]);
    assert [h] + pool[1..] == pool;
    if n < h.length {
      SumLengthsCons(Range(h.start + n, h.length - n), pool[1..]);
    } else {
      assert p == pool[1..];
    }
  }

  /** How many ids the inner loop takes from the first pool interval. */
  function StepLength(cLen: int, pool: seq<Range>): int
    requires |pool| > 0
  {
    if pool[0].length <= cLen then pool[0].length else cLen
  }

  /** The inner loop: map the container span [cStart, cStart + cLen) onto the
      front of the host pool, one pool interval (or part of one) at a time. */
  function FillRange(cStart: int, cLen: int, pool: seq<Range>): Fill
    requires Valid(pool) && 0 <= cLen
    decreases cLen
  {
    if cLen == 0 || |pool| == 0 then Fill([], pool)
    else
      var n := StepLength(cLen, pool);
      TakeFrontValid(pool, n);
      var f := FillRange(cStart + n, cLen - n, TakeFront(pool, n));
      Fill([IdMapping(cStart, pool[0].start, n)] + f.maps, f.pool)
  }

  /** One step of the inner loop, unfolded once for the lemmas below. */
  lemma FillRangeStep(cStart: int, cLen: int, pool: seq<Range>)
    requires Valid(pool) && 0 < cLen && |pool| > 0
    ensures var n := StepLength(cLen, pool);
      && 0 < n <= pool[0].length && n <= cLen
      && Valid(TakeFront(pool, n))
      && FillRange(cStart, cLen, pool)
         == Fill([IdMapping(cStart, pool[0].start, n)] + FillRange(cStart + n, cLen - n, TakeFront(pool, n)).maps,
                 FillRange(cStart + n, cLen - n, TakeFront(pool, n)).pool)
  {
    assert Valid(pool[1..]);
    TakeFrontValid(pool, StepLength(cLen, pool));
  }

  /** The inner loop leaves a valid pool behind and hands out non-empty
      triples only. */
  lemma {:induction false} FillRangeValid(cStart: int, cLen: int, pool: seq<Range>)
    requires Valid(pool) && 0 <= cLen
    ensures var f := FillRange(cStart, cLen, pool);
      Valid(f.pool) && Positive(f.maps)
    decreases cLen
  {
    if cLen > 0 && |pool| > 0 {
      var n := StepLength(cLen, pool);
      FillRangeStep(cStart, cLen, pool);
      FillRangeValid(cStart + n, cLen - n, TakeFront(pool, n));
      var f := FillRange(cStart + n, cLen - n, TakeFront(pool, n));
      SumCountsCons(IdMapping(cStart, pool[0].start, n), f.maps);
    }
  }

  /** When the inner loop maps nothing, it leaves the pool as it found it. */
  lemma FillRangeEmpty(cStart: int, cLen: int, pool: seq<Range>)
    requires Valid(pool) && 0 <= cLen
    ensures var f := FillRange(cStart, cLen, pool);
      |f.maps| == 0 ==> f.pool == pool
  {
    if cLen > 0 && |pool| > 0 {
      FillRangeStep(cStart, cLen, pool);
    }
  }

  /** The first n ids of the pool are in it. */
  lemma TakeFrontCovered(pool: seq<Range>, n: int)
    requires Valid(pool) && |pool| > 0 && 0 < n <= pool[0].length
    ensures forall y :: pool[0].start <= y < pool[0].start + n ==> Covers(pool, y)
  {
  }

  /** The counting step: one triple of n ids in front of what the rest of
      the loop maps from the shortened pool. */
  lemma CountsStep(pool: seq<Range>, p1: seq<Range>, cStart: int, cLen: int, n: int, maps: seq<IdMapping>, rest: seq<Range>, F: Fill)
    requires |pool| > 0 && 0 < n <= pool[0].length && n <= cLen
    requires n == StepLength(cLen, pool)
    requires F == Fill([IdMapping(cStart, pool[0].start, n)] + maps, rest)
    requires SumLengths(p1) == SumLengths(pool) - n
    requires SumCounts(maps) == Min(cLen - n, SumLengths(p1))
    requires SumLengths(rest) == SumLengths(p1) - SumCounts(maps)
    ensures SumCounts(F.maps) == Min(cLen, SumLengths(pool))
    ensures SumLengths(F.pool) == SumLengths(pool) - SumCounts(F.maps)
  {
    SumCountsCons(IdMapping(cStart, pool[0].start, n), maps);
    SumLengthsCons(pool[0], pool[1..]);
    assert [pool[0]] + pool[1..] == pool;
  }

  /** The inner loop maps as many ids as the span asks for or the pool still
      holds, whichever is less, each triple non-empty, and the pool loses
      exactly that many. */
  lemma {:induction false} FillRangeCounts(cStart: int, cLen: int, pool: seq<Range>)
    requires Valid(pool) && 0 <= cLen
    ensures var f := FillRange(cStart, cLen, pool);
      && SumCounts(f.maps) == Min(cLen, SumLengths(pool))
      && SumLengths(f.pool) == SumLengths(pool) - SumCounts(f.maps)
    decreases cLen
  {
    if cLen > 0 && |pool| > 0 {
      var n := StepLength(cLen, pool);
      var p1 := TakeFront(pool, n);
      FillRangeStep(cStart, cLen, pool);
      TakeFrontSum(pool, n);
      FillRangeCounts(cStart + n, cLen - n, p1);
      var f := FillRange(cStart + n, cLen - n, p1);
      CountsStep(pool, p1, cStart, cLen, n, f.maps, f.pool, FillRange(cStart, cLen, pool));
    }
  }

  /** The chaining step: a triple starting at cStart, in front of triples
      that start where it ends. */
  lemma ContiguousStep(cStart: int, h: int, n: int, maps: seq<IdMapping>, F: Fill)
    requires F.maps == [IdMapping(cStart, h, n)] + maps
    requires Contiguous(maps, cStart + n)
    ensures Contiguous(F.maps, cStart)
  {
    assert F.maps[1..] == maps;
  }

  /** The container spans follow one another from cStart, without gaps. */
  lemma {:induction false} FillRangeContiguous(cStart: int, cLen: int, pool: seq<Range>)
    requires Valid(pool) && 0 <= cLen
    ensures Contiguous(FillRange(cStart, cLen, pool).maps, cStart)
    decreases cLen
  {
    if cLen > 0 && |pool| > 0 {
      var n := StepLength(cLen, pool);
      var p1 := TakeFront(pool, n);
      FillRangeStep(cStart, cLen, pool);
      FillRangeContiguous(cStart + n, cLen - n, p1);
      ContiguousStep(cStart, pool[0].start, n, FillRange(cStart + n, cLen - n, p1).maps, FillRange(cStart, cLen, pool));
    }
  }

  /** The host ordering step: a triple at the pool's front, in front of
      sorted triples that start where the shortened pool starts. */
  lemma HostSortedStep(pool: seq<Range>, p1: seq<Range>, cStart: int, n: int, maps: seq<IdMapping>, F: Fill)
    requires |pool| > 0
    requires F.maps == [IdMapping(cStart, pool[0].start, n)] + maps
    requires |p1| > 0 ==> pool[0].start + n <= p1[0].start
    requires HostSorted(maps)
    requires |maps| > 0 ==> |p1| > 0 && maps[0].host == p1[0].start
    ensures HostSorted(F.maps) && (|F.maps| > 0 ==> |pool| > 0 && F.maps[0].host == pool[0].start)
  {
    assert F.maps[1..] == maps;
  }

  /** The host spans ascend from the pool's first id, without overlap. */
  lemma {:induction false} FillRangeHostSorted(cStart: int, cLen: int, pool: seq<Range>)
    requires Valid(pool) && 0 <= cLen
    ensures var f := FillRange(cStart, cLen, pool);
      HostSorted(f.maps) && (|f.maps| > 0 ==> |pool| > 0 && f.maps[0].host == pool[0].start)
    decreases cLen
  {
    if cLen > 0 && |pool| > 0 {
      var n := StepLength(cLen, pool);
      var p1 := TakeFront(pool, n);
      FillRangeStep(cStart, cLen, pool);
      TakeFrontValid(pool, n);
      FillRangeHostSorted(cStart + n, cLen - n, p1);
      HostSortedStep(pool, p1, cStart, n, FillRange(cStart + n, cLen - n, p1).maps, FillRange(cStart, cLen, pool));
    }
  }

  /** The host ending step: the last triple ends below what is left of the
      pool, whether it is this step's triple or a later one. */
  lemma HostEndStep(pool: seq<Range>, p1: seq<Range>, cStart: int, n: int, maps: seq<IdMapping>, rest: seq<Range>, F: Fill)
    requires |pool| > 0
    requires F == Fill([IdMapping(cStart, pool[0].start, n)] + maps, rest)
    requires |p1| > 0 ==> pool[0].start + n <= p1[0].start
    requires |maps| > 0 && |rest| > 0 ==> HostEnd(maps[|maps| - 1]) <= rest[0].start
    requires |maps| == 0 ==> rest == p1
    ensures |F.maps| > 0 && |F.pool| > 0 ==> HostEnd(F.maps[|F.maps| - 1]) <= F.pool[0].start
  {
    if |maps| > 0 {
      assert F.maps[|F.maps| - 1] == maps[|maps| - 1];
    }
  }

  /** The last host span ends below what is left of the pool. */
  lemma {:induction false} FillRangeHostEnd(cStart: int, cLen: int, pool: seq<Range>)
    requires Valid(pool) && 0 <= cLen
    ensures var f := FillRange(cStart, cLen, pool);
      |f.maps| > 0 && |f.pool| > 0 ==> HostEnd(f.maps[|f.maps| - 1]) <= f.pool[0].start
    decreases cLen
  {
    if cLen > 0 && |pool| > 0 {
      var n := StepLength(cLen, pool);
      var p1 := TakeFront(pool, n);
      FillRangeStep(cStart, cLen, pool);
      TakeFrontValid(pool, n);
      FillRangeHostEnd(cStart + n, cLen - n, p1);
      FillRangeEmpty(cStart + n, cLen - n, p1);
      var f := FillRange(cStart + n, cLen - n, p1);
      HostEndStep(pool, p1, cStart, n, f.maps, f.pool, FillRange(cStart, cLen, pool));
    }
  }

  /** The container spans follow one another from cStart; the host spans
      ascend from the pool's first id, and end below what is left of it. */
  lemma FillRangeOrder(cStart: int, cLen: int, pool: seq<Range>)
    requires Valid(pool) && 0 <= cLen
    ensures var f := FillRange(cStart, cLen, pool);
      && Contiguous(f.maps, cStart) && HostSorted(f.maps)
      && (|f.maps| > 0 ==> |pool| > 0 && f.maps[0].host == pool[0].start)
      && (|f.maps| > 0 && |f.pool| > 0 ==> HostEnd(f.maps[|f.maps| - 1]) <= f.pool[0].start)
  {
    FillRangeContiguous(cStart, cLen, pool);
    FillRangeHostSorted(cStart, cLen, pool);
    FillRangeHostEnd(cStart, cLen, pool);
  }

  /** The host step: the triple's host span is the part of the pool the
      step removes. */
  lemma HostsStep(pool: seq<Range>, p1: seq<Range>, cStart: int, n: int, maps: seq<IdMapping>, rest: seq<Range>, F: Fill)
    requires |pool| > 0
    requires F == Fill([IdMapping(cStart, pool[0].start, n)] + maps, rest)
    requires forall y :: pool[0].start <= y < pool[0].start + n ==> Covers(pool, y)
    requires forall y :: Covers(p1, y) <==> Covers(pool, y) && !(pool[0].start <= y < pool[0].start + n)
    requires forall y :: CoversHost(maps, y) ==> Covers(p1, y) && !Covers(rest, y)
    requires forall y :: Covers(rest, y) ==> Covers(p1, y)
    ensures forall y :: CoversHost(F.maps, y) ==> Covers(pool, y) && !Covers(F.pool, y)
    ensures forall y :: Covers(F.pool, y) ==> Covers(pool, y)
  {
    CoversCons(IdMapping(cStart, pool[0].start, n), maps);
  }

  /** The host ids the inner loop hands out come from the pool and are no
      longer in it afterwards; the pool only shrinks. */
  lemma {:induction false} FillRangeHosts(cStart: int, cLen: int, pool: seq<Range>)
    requires Valid(pool) && 0 <= cLen
    ensures var f := FillRange(cStart, cLen, pool);
      && (forall y :: CoversHost(f.maps, y) ==> Covers(pool, y) && !Covers(f.pool, y))
      && (forall y :: Covers(f.pool, y) ==> Covers(pool, y))
    decreases cLen
  {
    if cLen > 0 && |pool| > 0 {
      var n := StepLength(cLen, pool);
      var p1 := TakeFront(pool, n);
      FillRangeStep(cStart, cLen, pool);
      TakeFrontSpec(pool, n);
      TakeFrontCovered(pool, n);
      FillRangeHosts(cStart + n, cLen - n, p1);
      var f := FillRange(cStart + n, cLen - n, p1);
      HostsStep(pool, p1, cStart, n, f.maps, f.pool, FillRange(cStart, cLen, pool));
    }
  }

  /** The outer loop: walk the container ids still to map, in order, while
      the pool is not exhausted. */
  function MapRemapped(mapped: seq<Range>, pool: seq<Range>): (ms: seq<IdMapping>)
    requires Valid(mapped) && Valid(pool)
    decreases |mapped|
  {
    if |mapped| == 0 || |pool| == 0 then []
    else
      var f := FillRange(mapped[0].start, mapped[0].length, pool);
      FillRangeValid(mapped[0].start, mapped[0].length, pool);
      f.maps + MapRemapped(mapped[1..], f.pool)
  }

  /** The outer loop hands out each id at most once, in order: every triple
      is non-empty, and container spans and host spans each ascend without
      overlap. */
  lemma {:induction false} MapRemappedOrder(mapped: seq<Range>, pool: seq<Range>)
    requires Valid(mapped) && Valid(pool)
    ensures var ms := MapRemapped(mapped, pool);
      && Positive(ms) && ContainerSorted(ms) && HostSorted(ms)
      && (|ms| > 0 ==> ms[0].container >= mapped[0].start && ms[0].host == pool[0].start)
    decreases |mapped|
  {
    if |mapped| > 0 && |pool| > 0 {
      var c := mapped[0];
      var f := FillRange(c.start, c.length, pool);
      FillRangeValid(c.start, c.length, pool);
      var rest := MapRemapped(mapped[1..], f.pool);
      assert MapRemapped(mapped, pool) == f.maps + rest;
      MapRemappedOrder(mapped[1..], f.pool);
      FillRangeCounts(c.start, c.length, pool);
      FillRangeOrder(c.start, c.length, pool);
      ContiguousSpec(f.maps, c.start);
      PositiveAppend(f.maps, rest);
      if |f.maps| > 0 && |rest| > 0 {
        assert ContainerEnd(f.maps[|f.maps| - 1]) <= End(c) <= mapped[1].start;
      }
      SortedAppend(f.maps, rest);
      assert (f.maps + rest)[0] == f.maps[0];
    }
  }

  /** The outer loop maps as many ids as both sides hold, whichever is less. */
  lemma {:induction false} MapRemappedCounts(mapped: seq<Range>, pool: seq<Range>)
    requires Valid(mapped) && Valid(pool)
    ensures SumCounts(MapRemapped(mapped, pool)) == Min(SumLengths(mapped), SumLengths(pool))
    decreases |mapped|
  {
    if |mapped| > 0 && |pool| > 0 {
      var c := mapped[0];
      var f := FillRange(c.start, c.length, pool);
      FillRangeValid(c.start, c.length, pool);
      var rest := MapRemapped(mapped[1..], f.pool);
      assert MapRemapped(mapped, pool) == f.maps + rest;
      MapRemappedCounts(mapped[1..], f.pool);
      FillRangeCounts(c.start, c.length, pool);
      CoversAppend(f.maps, rest);
      SumLengthsCons(c, mapped[1..]);
      assert [c] + mapped[1..] == mapped;
      if SumCounts(f.maps) < c.length {
        SumLengthsZero(f.pool);
      }
    } else if |mapped| > 0 {
      assert SumLengths(pool) == 0;
    }
  }

  /** Container ids the outer loop maps are ids still to map; host ids are
      ids of the pool. */
  lemma {:induction false} MapRemappedCovers(mapped: seq<Range>, pool: seq<Range>)
    requires Valid(mapped) && Valid(pool)
    ensures var ms := MapRemapped(mapped, pool);
      && (forall x :: CoversContainer(ms, x) ==> Covers(mapped, x))
      && (forall y :: CoversHost(ms, y) ==> Covers(pool, y))
    decreases |mapped|
  {
    if |mapped| > 0 && |pool| > 0 {
      var c := mapped[0];
      var f := FillRange(c.start, c.length, pool);
      FillRangeValid(c.start, c.length, pool);
      var rest := MapRemapped(mapped[1..], f.pool);
      assert MapRemapped(mapped, pool) == f.maps + rest;
      MapRemappedCovers(mapped[1..], f.pool);
      FillRangeCounts(c.start, c.length, pool);
      FillRangeOrder(c.start, c.length, pool);
      FillRangeHosts(c.start, c.length, pool);
      ContiguousSpec(f.maps, c.start);
      CoversAppend(f.maps, rest);
      forall x | CoversContainer(f.maps, x)
        ensures Covers(mapped, x)
      {
        assert InRange(c, x);
      }
    }
  }

  // ---------------------------------------------------------------------
  // Go allocator: addIdMaps
  // ---------------------------------------------------------------------

  /** The low container ids that keep their own host id: [0, remapStart)
      minus the pinned container id and the pinned host id. */
  function Unmapped(cid: u32, hid: u32, remapStart: u32): (us: seq<Range>)
    ensures Valid(us)
    ensures forall x :: Covers(us, x) <==> 0 <= x < remapStart && x < UINT32_MAX && x != cid && x != hid
  {
    var low := New(0, remapStart);
    RemoveClampedSpec(low, cid, 1);
    RemoveClampedSpec(RemoveClamped(low, cid, 1), hid, 1);
    RemoveClamped(RemoveClamped(low, cid, 1), hid, 1)
  }

  /** The host pool without the pinned host id; a missing pool means no ids
      are available. */
  function HostPool(hid: u32, available: Option<seq<Range>>): (pool: seq<Range>)
    requires available.Some? ==> Valid(available.value)
    ensures Valid(pool)
    ensures forall y :: Covers(pool, y) <==> available.Some? && Covers(available.value, y) && y != hid
  {
    var all := if available.Some? then available.value else NewEmpty();
    RemoveClampedSpec(all, hid, 1);
    RemoveClamped(all, hid, 1)
  }

  /** Every container id below the reserved top value except the pinned one. */
  function ToMap(cid: u32): (mapped: seq<Range>)
    ensures Valid(mapped)
    ensures forall x :: Covers(mapped, x) <==> 0 <= x < UINT32_MAX && x != cid
  {
    RemoveClampedSpec(New(0, UINT32_MAX), cid, 1);
    RemoveClamped(New(0, UINT32_MAX), cid, 1)
  }

  /** The state after the identity loop. */
  function AfterIdentity(cid: u32, hid: u32, remapStart: u32, available: Option<seq<Range>>): (p: Phase)
    requires available.Some? ==> Valid(available.value)
    ensures Valid(p.mapped) && Valid(p.pool)
  {
    IdentityPhase(Unmapped(cid, hid, remapStart), ToMap(cid), HostPool(hid, available))
  }

  /** addIdMaps: the pinned pair first, then the identity-mapped low ids,
      then every other container id mapped onto the pool until one side is
      exhausted. */
  function AddIdMaps(cid: u32, hid: u32, remapStart: u32, available: Option<seq<Range>>): (ms: seq<IdMapping>)
    requires available.Some? ==> Valid(available.value)
  {
    var p := AfterIdentity(cid, hid, remapStart, available);
    [IdMapping(cid, hid, 1)] + p.maps + MapRemapped(p.mapped, p.pool)
  }

  /** The three phases of addIdMaps, in order: the pinned pair, one identity
      triple per low interval, then the remapped triples. */
  lemma AddIdMapsShape(cid: u32, hid: u32, remapStart: u32, available: Option<seq<Range>>)
    requires available.Some? ==> Valid(available.value)
    ensures var ms := AddIdMaps(cid, hid, remapStart, available);
      var p := AfterIdentity(cid, hid, remapStart, available);
      var k := |Unmapped(cid, hid, remapStart)|;
      && |ms| >= k + 1
      && ms[0] == IdMapping(cid, hid, 1)
      && ms[1..k + 1] == p.maps
      && ms[k + 1..] == MapRemapped(p.mapped, p.pool)
  {
  }

  /** The identity triples map each low id other than the pinned ones to
      itself, and nothing else. */
  lemma AddIdMapsIdentity(cid: u32, hid: u32, remapStart: u32, available: Option<seq<Range>>)
    requires available.Some? ==> Valid(available.value)
    ensures var ms := AddIdMaps(cid, hid, remapStart, available);
      var ident := ms[1..|Unmapped(cid, hid, remapStart)| + 1];
      && (forall i :: 0 <= i < |ident| ==> ident[i].container == ident[i].host && ident[i].count > 0)
      && (forall x :: CoversContainer(ident, x) <==> 0 <= x < remapStart && x < UINT32_MAX && x != cid && x != hid)
  {
    var us := Unmapped(cid, hid, remapStart);
    var p := AfterIdentity(cid, hid, remapStart, available);
    AddIdMapsShape(cid, hid, remapStart, available);
    IdentityCovers(us, p.maps);
    forall i | 0 <= i < |p.maps|
      ensures p.maps[i].container == p.maps[i].host && p.maps[i].count > 0
    {
      ValidElement(us, i);
    }
  }

  /** The remapped triples are non-empty and ascend without overlap on both
      sides, so no id is mapped twice among them. */
  lemma AddIdMapsRemappedOrder(cid: u32, hid: u32, remapStart: u32, available: Option<seq<Range>>)
    requires available.Some? ==> Valid(available.value)
    ensures var ms := AddIdMaps(cid, hid, remapStart, available);
      var remapped := ms[|Unmapped(cid, hid, remapStart)| + 1..];
      Positive(remapped) && ContainerSorted(remapped) && HostSorted(remapped)
  {
    var p := AfterIdentity(cid, hid, remapStart, available);
    AddIdMapsShape(cid, hid, remapStart, available);
    MapRemappedOrder(p.mapped, p.pool);
  }

  /** The remapped triples map container ids other than the pinned one and
      the identity-mapped ones, onto pool ids other than the pinned host id
      and the identity-mapped ones; without a pool nothing is remapped. */
  lemma AddIdMapsRemappedIds(cid: u32, hid: u32, remapStart: u32, available: Option<seq<Range>>)
    requires available.Some? ==> Valid(available.value)
    ensures var ms := AddIdMaps(cid, hid, remapStart, available);
      var us := Unmapped(cid, hid, remapStart);
      var remapped := ms[|us| + 1..];
      && (forall x :: CoversContainer(remapped, x) ==> 0 <= x < UINT32_MAX && x != cid && !Covers(us, x))
      && (forall y :: CoversHost(remapped, y) ==>
            available.Some? && Covers(available.value, y) && y != hid && !Covers(us, y))
      && (available.None? ==> remapped == [])
  {
    var p := AfterIdentity(cid, hid, remapStart, available);
    AddIdMapsShape(cid, hid, remapStart, available);
    MapRemappedCovers(p.mapped, p.pool);
    if available.None? {
      assert !Covers(HostPool(hid, available), 0);
      NoCoverEmpty(HostPool(hid, available));
      NoCoverEmpty(p.pool);
    }
  }

  /** A valid interval list that covers nothing is empty. */
  lemma NoCoverEmpty(rs: seq<Range>)
    requires Valid(rs) && forall x :: !Covers(rs, x)
    ensures rs == []
  {
    if |rs| > 0 {
      assert InRange(rs[0], rs[0].start);
      assert Covers(rs, rs[0].start);
    }
  }

  lemma {:induction false} ValidElement(rs: seq<Range>, i: int)
    requires Valid(rs) && 0 <= i < |rs|
    ensures WellFormed(rs[i])
    decreases i
  {
    if i > 0 {
      ValidElement(rs[1..], i - 1);
    }
  }

  // ---------------------------------------------------------------------
  // C allocator (add_id_map / add_id_maps)
  // ---------------------------------------------------------------------

  /** add_id_map: map num ids from start onto host ids from host. When the
      reserved container id falls inside the span, the span is cut there:
      the part before it, and the rest shifted one past the reserved id, so
      the host span stays contiguous. Empty parts are not emitted. */
  function CAddIdMap(start: int, host: int, num: int, reserved: int): (ms: seq<IdMapping>)
  {
    var inside := start <= reserved < start + num;
    var before := if inside then reserved - start else num;
    var after := if inside then num - before else 0;
    (if before != 0 then [IdMapping(start, host, before)] else [])
    + (if after != 0 then [IdMapping(reserved + 1, host + before, after)] else [])
  }

  /** add_id_map hands out exactly the host span [host, host + num), and the
      container span of the same size, skipping the reserved id when it falls
      inside; each triple is non-empty and the two parts ascend on both sides. */
  lemma CAddIdMapSpec(start: int, host: int, num: int, reserved: int)
    requires num >= 0
    ensures var ms := CAddIdMap(start, host, num, reserved);
      && Positive(ms) && ContainerSorted(ms) && HostSorted(ms)
      && SumCounts(ms) == num
      && (forall y :: CoversHost(ms, y) <==> host <= y < host + num)
      && (forall x :: CoversContainer(ms, x) <==>
            if start <= reserved < start + num then start <= x <= start + num && x != reserved
            else start <= x < start + num)
  {
    var ms := CAddIdMap(start, host, num, reserved);
    var inside := start <= reserved < start + num;
    var before := if inside then reserved - start else num;
    var after := if inside then num - before else 0;
    var a := if before != 0 then [IdMapping(start, host, before)] else [];
    var b := if after != 0 then [IdMapping(reserved + 1, host + before, after)] else [];
    assert ms == a + b;
    CoversAppend(a, b);
    if before != 0 {
      CoversCons(IdMapping(start, host, before), []);
      assert [IdMapping(start, host, before)] + [] == a;
    }
    if after != 0 {
      CoversCons(IdMapping(reserved + 1, host + before, after), []);
      assert [IdMapping(reserved + 1, host + before, after)] + [] == b;
    }
    SortedAppend(a, b);
  }

  /** add_id_maps: root to host root unless the container id is root itself,
      then the pinned pair, then num extra ids from container id 1 onwards
      onto the extra host ids, skipping the pinned container id. */
  function CAddIdMaps(cid: int, hid: int, extraStart: int, numExtra: int): (ms: seq<IdMapping>)
  {
    (if cid != 0 then CAddIdMap(0, 0, 1, -1) else [])
    + CAddIdMap(cid, hid, 1, -1)
    + CAddIdMap(1, extraStart, numExtra, cid)
  }

  /** For a non-negative container id, add_id_maps maps root, the pinned id
      and numExtra further container ids, skipping the pinned id among them,
      each triple non-empty. */
  lemma CAddIdMapsSpec(cid: int, hid: int, extraStart: int, numExtra: int)
    requires cid >= 0 && numExtra >= 0
    ensures var ms := CAddIdMaps(cid, hid, extraStart, numExtra);
      && Positive(ms)
      && SumCounts(ms) == (if cid != 0 then 2 else 1) + numExtra
      && (forall x :: CoversContainer(ms, x) <==>
            x == 0 || x == cid ||
            (if 1 <= cid < 1 + numExtra then 1 <= x <= 1 + numExtra else 1 <= x < 1 + numExtra))
  {
    var root := if cid != 0 then CAddIdMap(0, 0, 1, -1) else [];
    var pinned := CAddIdMap(cid, hid, 1, -1);
    var extra := CAddIdMap(1, extraStart, numExtra, cid);
    assert root == (if cid != 0 then [IdMapping(0, 0, 1)] else []);
    assert pinned == [IdMapping(cid, hid, 1)];
    CAddIdMapSpec(1, extraStart, numExtra, cid);
    CoversAppend(root, pinned);
    CoversAppend(root + pinned, extra);
    PositiveAppend(root, pinned);
    PositiveAppend(root + pinned, extra);
    CoversCons(IdMapping(cid, hid, 1), []);
    SumCountsCons(IdMapping(cid, hid, 1), []);
    assert [IdMapping(cid, hid, 1)] + [] == pinned;
    if cid != 0 {
      CoversCons(IdMapping(0, 0, 1), []);
      SumCountsCons(IdMapping(0, 0, 1), []);
      assert [IdMapping(0, 0, 1)] + [] == root;
    }
  }

  /** No container id is mapped by two of the triples add_id_maps emits. */
  lemma CAddIdMapsDisjoint(cid: int, hid: int, extraStart: int, numExtra: int)
    requires cid >= 0 && numExtra >= 0
    ensures var ms := CAddIdMaps(cid, hid, extraStart, numExtra);
      forall i, j :: 0 <= i < j < |ms| ==>
        ContainerEnd(ms[i]) <= ms[j].container || ContainerEnd(ms[j]) <= ms[i].container
  {
    var ms := CAddIdMaps(cid, hid, extraStart, numExtra);
    ExtraElements(cid, extraStart, numExtra);
    forall i, j | 0 <= i < j < |ms|
      ensures ContainerEnd(ms[i]) <= ms[j].container || ContainerEnd(ms[j]) <= ms[i].container
    {
    }
  }

  /** The extra triples lie in [1, numExtra + 2) and avoid the pinned id, and
      the second one, if any, starts after the first. */
  lemma ExtraElements(cid: int, extraStart: int, numExtra: int)
    requires cid >= 0 && numExtra >= 0
    ensures var e := CAddIdMap(1, extraStart, numExtra, cid);
      && |e| <= 2
      && (forall i :: 0 <= i < |e| ==>
            (1 <= e[i].container && e[i].count > 0 && (cid < e[i].container || ContainerEnd(e[i]) <= cid)))
      && (|e| == 2 ==> ContainerEnd(e[0]) <= e[1].container)
  {
  }
}
