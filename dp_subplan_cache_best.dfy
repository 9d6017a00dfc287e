/**
 * `DpSubplanCacheBest`: the join-ordering cache that keeps one plan per set of join-graph
 * vertices. A vertex set is a bitset; a plan is its tree (a type parameter here) with its cost.
 */
module DpSubplanCache {
  import opened Wrappers

  /** A `boost::dynamic_bitset`: its bits, so that sets of different lengths differ. */
  type VertexSet = seq<bool>

  /** A `JoinPlanNode`: the plan and its `plan_cost`. */
  datatype JoinPlan<P> = JoinPlan(plan: P, planCost: real)

  /** `cache_plan` as written: a stored plan is replaced whenever its cost is non-zero. */
  function CachePlanAsWritten<P>(cache: map<VertexSet, JoinPlan<P>>, vs: VertexSet, p: JoinPlan<P>): map<VertexSet, JoinPlan<P>>
  {
    if vs !in cache || cache[vs].planCost != 0.0 then cache[vs := p] else cache
  }

  /** A cache for the best plan keeps, per vertex set, the cheaper of the stored and the new plan. */
  function CacheCheaperPlan<P>(cache: map<VertexSet, JoinPlan<P>>, vs: VertexSet, p: JoinPlan<P>): map<VertexSet, JoinPlan<P>>
  {
    if vs !in cache || p.planCost < cache[vs].planCost then cache[vs := p] else cache
  }

  /** Each offered plan is cached for its set; other sets keep their plans. */
  function CacheAll<P>(cache: map<VertexSet, JoinPlan<P>>, offers: seq<(VertexSet, JoinPlan<P>)>): map<VertexSet, JoinPlan<P>>
    decreases |offers|
  {
    if offers == [] then cache
    else CacheCheaperPlan(CacheAll(cache, offers[..|offers| - 1]), offers[|offers| - 1].0, offers[|offers| - 1].1)
  }

  /**
   * As written, a cheaper stored plan is overwritten by a costlier one: store a plan of cost 1 for
   * a set, then offer a plan of cost 2 for the same set.
   */
  lemma AsWrittenKeepsCostlierPlan<P>(vs: VertexSet, cheap: P, costly: P)
    ensures var first := CachePlanAsWritten(map[], vs, JoinPlan(cheap, 1.0));
            CachePlanAsWritten(first, vs, JoinPlan(costly, 2.0))[vs].planCost == 2.0
  {
  }

  /** As written, a stored plan of cost zero is never replaced, however cheap the new plan. */
  lemma AsWrittenKeepsZeroCostPlan<P>(cache: map<VertexSet, JoinPlan<P>>, vs: VertexSet, p: JoinPlan<P>)
    requires vs in cache && cache[vs].planCost == 0.0
    ensures CachePlanAsWritten(cache, vs, p) == cache
  {
  }

  /**
   * With the cost comparison, the plan cached for a set is one of the plans offered for it (or the
   * one stored before) and costs no more than any of them.
   */
  lemma {:induction false} CachedPlanIsCheapest<P>(cache: map<VertexSet, JoinPlan<P>>, offers: seq<(VertexSet, JoinPlan<P>)>, vs: VertexSet)
    ensures var r := CacheAll(cache, offers);
            (vs in r <==> vs in cache || exists i :: 0 <= i < |offers| && offers[i].0 == vs)
    ensures var r := CacheAll(cache, offers);
            vs in r ==> forall i :: 0 <= i < |offers| && offers[i].0 == vs ==> r[vs].planCost <= offers[i].1.planCost
    ensures var r := CacheAll(cache, offers);
            vs in r && vs in cache ==> r[vs].planCost <= cache[vs].planCost
    ensures var r := CacheAll(cache, offers);
            vs in r ==> (vs in cache && r[vs] == cache[vs]) || exists i :: 0 <= i < |offers| && offers[i].0 == vs && r[vs] == offers[i].1
    decreases |offers|
  {
    if offers != [] {
      var init := offers[..|offers| - 1];
      var last := offers[|offers| - 1];
      CachedPlanIsCheapest(cache, init, vs);
      var before := CacheAll(cache, init);
      assert CacheAll(cache, offers) == CacheCheaperPlan(before, last.0, last.1);
      forall i | 0 <= i < |init|
        ensures offers[i] == init[i]
      {
      }
      if vs in before && (exists i :: 0 <= i < |init| && init[i].0 == vs && before[vs] == init[i].1) {
        var i :| 0 <= i < |init| && init[i].0 == vs && before[vs] == init[i].1;
        assert offers[i].0 == vs && before[vs] == offers[i].1;
      }
      if exists i :: 0 <= i < |init| && init[i].0 == vs {
        var i :| 0 <= i < |init| && init[i].0 == vs;
        assert offers[i].0 == vs;
      }
    }
  }

  /** The cache object: the plan of each vertex set seen. */
  class DpSubplanCacheBest<P(==)> {
    var planByVertexSet: map<VertexSet, JoinPlan<P>>

    constructor ()
      ensures planByVertexSet == map[]
    {
      planByVertexSet := map[];
    }

    /** `clear`: forgets every plan. */
    method Clear()
      modifies this
      ensures planByVertexSet == map[]
    {
      planByVertexSet := map[];
    }

    /** `get_best_plan`: the stored plan of the set, none for a set not seen. */
    function GetBestPlan(vs: VertexSet): (r: Option<JoinPlan<P>>)
      reads this
      ensures r.None? <==> vs !in planByVertexSet
      ensures r.Some? ==> r.value == planByVertexSet[vs]
    {
      if vs in planByVertexSet then Some(planByVertexSet[vs]) else None
    }

    /**
     * `cache_plan` as written: a new set gets the plan, and a set already seen gets it when the
     * stored plan's cost is non-zero. No cost is compared.
     */
    method CachePlan(vs: VertexSet, p: JoinPlan<P>)
      modifies this
      ensures planByVertexSet == CachePlanAsWritten(old(planByVertexSet), vs, p)
      ensures old(vs !in planByVertexSet) ==> GetBestPlan(vs) == Some(p)
    {
      if vs !in planByVertexSet || planByVertexSet[vs].planCost != 0.0 {
        planByVertexSet := planByVertexSet[vs := p];
      }
    }

    /** `cache_plan` keeping the cheaper of the stored and the offered plan. */
    method CacheCheaper(vs: VertexSet, p: JoinPlan<P>)
      modifies this
      ensures planByVertexSet == CacheCheaperPlan(old(planByVertexSet), vs, p)
      ensures GetBestPlan(vs).Some? && GetBestPlan(vs).value.planCost <= p.planCost
    {
      if vs !in planByVertexSet || p.planCost < planByVertexSet[vs].planCost {
        planByVertexSet := planByVertexSet[vs := p];
      }
    }
  }
}
