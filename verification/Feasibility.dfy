// Sources and their feasibility distances (qsrx/babeld/source.c, the tests of qsrx/babeld/route.c
// that read them). A source's feasibility distance is the best (seqno, metric) this node has
// advertised for it (section 3.7.3 of RFC 6126).
module Feasibility {
  import opened Util
  import Seqno

  // Seconds after which a source entry is thought to hold stale data.
  const SOURCE_GC_TIME: int := 200

  datatype Source = Source(seqno: u16, metric: u16, time: int, routeCount: nat)

  predicate Stale(src: Source, now: int) {
    src.time < now - SOURCE_GC_TIME
  }

  // The pair (seqno, metric) is a strictly better distance than the pair (seqno', metric').
  predicate Better(seqno: u16, metric: u16, seqno': u16, metric': u16) {
    Seqno.Compare(seqno, seqno') > 0 || (seqno' == seqno && metric < metric')
  }

  predicate UpdateFeasible(src: Option<Source>, now: int, seqno: u16, refmetric: u16) {
    src.None? || Stale(src.value, now) || refmetric >= INFINITY
    || Better(seqno, refmetric, src.value.seqno, src.value.metric)
  }

  // A source that find_source has just created: it constrains nothing but older sequence numbers.
  function NewSource(seqno: u16, now: int): Source {
    Source(seqno, INFINITY, now, 0)
  }

  // What is recorded when (seqno, metric) is advertised.
  function UpdateSource(src: Source, now: int, seqno: u16, metric: u16): Source {
    if metric >= INFINITY then src
    else if Stale(src, now) || Seqno.Compare(src.seqno, seqno) < 0
            || (src.seqno == seqno && src.metric > metric) then
      src.(seqno := seqno, metric := metric, time := now)
    else
      src.(time := now)
  }

  // Advertising a route with its own, strictly larger metric does not make the route itself
  // unfeasible.
  lemma AdvertisingKeepsRouteFeasible(src: Source, now: int, seqno: u16, refmetric: u16, metric: u16)
    requires UpdateFeasible(Some(src), now, seqno, refmetric)
    requires refmetric < metric
    ensures UpdateFeasible(Some(UpdateSource(src, now, seqno, metric)), now, seqno, refmetric)
  {
    Seqno.CompareAntisymmetric(src.seqno, seqno);
  }

  // After advertising (seqno, metric), an update with that seqno and no smaller finite metric is
  // unfeasible, except when the entry was live and its seqno lay exactly half the circle away.
  lemma AdvertisingBlocksWorse(src: Source, now: int, seqno: u16, metric: u16)
    requires metric < INFINITY
    ensures (forall r: u16 :: metric <= r < INFINITY ==>
               !UpdateFeasible(Some(UpdateSource(src, now, seqno, metric)), now, seqno, r))
            <==> (Stale(src, now) || (seqno - src.seqno) % 0x1_0000 != 0x8000)
  {
    Seqno.CompareAntisymmetric(src.seqno, seqno);
    if !Stale(src, now) && (seqno - src.seqno) % 0x1_0000 == 0x8000 {
      assert UpdateFeasible(Some(UpdateSource(src, now, seqno, metric)), now, seqno, metric);
    }
  }

  // A live entry is left as it is or moves to a strictly better distance, and exactly the
  // strictly better finite advertisements move it, except half the circle away.
  lemma DistanceOnlyImproves(src: Source, now: int, seqno: u16, metric: u16)
    requires !Stale(src, now)
    ensures var src' := UpdateSource(src, now, seqno, metric);
            && ((src'.seqno, src'.metric) != (src.seqno, src.metric)
                ==> (src'.seqno, src'.metric) == (seqno, metric)
                    && Better(seqno, metric, src.seqno, src.metric))
            && (metric < INFINITY && Better(seqno, metric, src.seqno, src.metric)
                && (seqno - src.seqno) % 0x1_0000 != 0x8000
                ==> (src'.seqno, src'.metric) == (seqno, metric))
  {
    Seqno.CompareAntisymmetric(src.seqno, seqno);
  }

  // Which finite updates are feasible, as long as sequence numbers stay in a window: those with a later number,
  // whatever their metric, and those with the same number and a smaller metric.
  lemma FeasibleInWindow(src: Source, now: int, base: u16, seqno: u16, refmetric: u16)
    requires !Stale(src, now) && Seqno.InWindow(base, src.seqno) && Seqno.InWindow(base, seqno) && refmetric < INFINITY
    ensures UpdateFeasible(Some(src), now, seqno, refmetric)
            <==> Seqno.Offset(base, seqno) > Seqno.Offset(base, src.seqno)
                 || (seqno == src.seqno && refmetric < src.metric)
  {
    Seqno.CompareInWindow(base, seqno, src.seqno);
  }

  // After 200 seconds without an advertisement a source constrains nothing, and the next one replaces it.
  lemma StaleForgotten(src: Source, now: int, seqno: u16, metric: u16)
    requires now - src.time > 200
    ensures UpdateFeasible(Some(src), now, seqno, metric)
    ensures metric < INFINITY ==> UpdateSource(src, now, seqno, metric) == Source(seqno, metric, now, src.routeCount)
  {
  }

  // Every finite advertisement keeps the source from getting stale for 200 seconds, and no other.
  lemma AdvertisingRefreshes(src: Source, now: int, seqno: u16, metric: u16, later: int)
    requires !Stale(src, now)
    ensures metric < INFINITY ==> (Stale(UpdateSource(src, now, seqno, metric), later) <==> later - now > 200)
    ensures metric >= INFINITY ==> UpdateSource(src, now, seqno, metric) == src
  {
  }

  // Distances whose sequence numbers share a window are totally ordered, best first.
  ghost predicate NoWorse(base: u16, seqno: u16, metric: u16, seqno': u16, metric': u16) {
    Seqno.Offset(base, seqno) > Seqno.Offset(base, seqno')
    || (seqno == seqno' && metric <= metric')
  }

  lemma NoWorseThenBetter(base: u16, q1: u16, m1: u16, q2: u16, m2: u16, q3: u16, m3: u16)
    requires Seqno.InWindow(base, q1) && Seqno.InWindow(base, q2) && Seqno.InWindow(base, q3)
    requires NoWorse(base, q1, m1, q2, m2) && Better(q2, m2, q3, m3)
    ensures Better(q1, m1, q3, m3)
  {
    Seqno.CompareInWindow(base, q1, q2);
    Seqno.CompareInWindow(base, q2, q3);
    Seqno.CompareInWindow(base, q1, q3);
  }

  // In a window, advertising leaves the better of the old distance and the advertised one.
  lemma UpdateSourceInWindow(base: u16, src: Source, now: int, seqno: u16, metric: u16)
    requires Seqno.InWindow(base, src.seqno) && Seqno.InWindow(base, seqno)
    requires !Stale(src, now) && metric < INFINITY
    ensures var src' := UpdateSource(src, now, seqno, metric);
            && (src'.seqno, src'.metric) == (if Better(seqno, metric, src.seqno, src.metric)
                                             then (seqno, metric) else (src.seqno, src.metric))
            && NoWorse(base, src'.seqno, src'.metric, seqno, metric)
            && NoWorse(base, src'.seqno, src'.metric, src.seqno, src.metric)
  {
    Seqno.CompareInWindow(base, src.seqno, seqno);
    Seqno.CompareAntisymmetric(src.seqno, seqno);
  }

  // Within a window, being better is transitive.
  lemma BetterTrans(base: u16, a: Source, b: Source, c: Source)
    requires Seqno.InWindow(base, a.seqno) && Seqno.InWindow(base, b.seqno) && Seqno.InWindow(base, c.seqno)
    requires Better(a.seqno, a.metric, b.seqno, b.metric) && Better(b.seqno, b.metric, c.seqno, c.metric)
    ensures Better(a.seqno, a.metric, c.seqno, c.metric)
  {
    Seqno.CompareInWindow(base, a.seqno, b.seqno);
    Seqno.CompareInWindow(base, b.seqno, c.seqno);
    Seqno.CompareInWindow(base, a.seqno, c.seqno);
  }

  lemma NoWorseTrans(base: u16, a: Source, b: Source, seqno: u16, metric: u16)
    requires NoWorse(base, a.seqno, a.metric, b.seqno, b.metric) && NoWorse(base, b.seqno, b.metric, seqno, metric)
    ensures NoWorse(base, a.seqno, a.metric, seqno, metric)
  {
  }
}
