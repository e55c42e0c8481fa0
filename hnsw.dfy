/**
 * The HNSW index: a layered proximity graph over a node arena, built by
 * repeated insertion and queried by greedy descent through the layers.
 */
module HnswIndex {
  import opened Base
  import opened PQueue
  import opened Arena
  import opened Selection
  import opened LayerSearch
  import opened Insertion

  class Hnsw {
    // configuration
    const m: nat               // neighbours connected per insertion
    const mMax: nat            // degree cap above layer 0
    const mMax0: nat           // degree cap at layer 0
    const efConstruction: nat  // candidate-list size during insertion
    const selectMode: string   // "simple" or "heuristic"

    // graph
    var data: seq<Vector>          // the last input handed to BuildGraph
    var nodes: seq<Node>           // the node arena
    var enterPoint: Option<nat>    // the node every search starts from
    var graph: seq<seq<nat>>       // graph[l]: the nodes of layer l, in insertion order

    // statistics
    var distanceCount: nat         // number of distance evaluations so far

    /** The arena is well formed and the entry point is a node of maximum level. */
    ghost predicate IndexValid()
      reads this
    {
      WellFormed(nodes) && EntryOk(nodes, enterPoint)
    }

    /** In addition, one layer list per level up to the entry point's, each exactly its members. */
    ghost predicate Valid()
      reads this
    {
      IndexValid() &&
      (enterPoint.None? ==> graph == []) &&
      (enterPoint.Some? ==> |graph| == nodes[enterPoint.value].level + 1) &&
      forall l :: 0 <= l < |graph| ==> graph[l] == Members(nodes, |nodes|, l)
    }

    predicate KnownMode()
    {
      selectMode == "simple" || selectMode == "heuristic"
    }

    /** The degree cap of a layer. */
    function Cap(lc: nat): (cap: nat)
    {
      if lc == 0 then mMax0 else mMax
    }

    constructor (m: nat, mMax: nat, mMax0: nat, efConstruction: nat, selectMode: string)
      ensures Valid()
      ensures this.m == m && this.mMax == mMax && this.mMax0 == mMax0
      ensures this.efConstruction == efConstruction && this.selectMode == selectMode
      ensures nodes == [] && graph == [] && data == [] && enterPoint == None && distanceCount == 0
    {
      this.m := m;
      this.mMax := mMax;
      this.mMax0 := mMax0;
      this.efConstruction := efConstruction;
      this.selectMode := selectMode;
      data := [];
      nodes := [];
      enterPoint := None;
      graph := [];
      distanceCount := 0;
    }

    method GetDistanceCount() returns (c: nat)
      ensures c == distanceCount
    {
      c := distanceCount;
    }

    method SetDistanceCount(c: nat)
      modifies this`distanceCount
      ensures distanceCount == c
    {
      distanceCount := c;
    }

    /**
     * The distance between two vectors. A length mismatch fails before the
     * counter moves; otherwise the counter advances by exactly one.
     */
    method DistL2(v1: Vector, v2: Vector) returns (r: Result<real>)
      modifies this`distanceCount
      ensures |v1| != |v2| ==> r == Err(DimensionMismatch) && distanceCount == old(distanceCount)
      ensures |v1| == |v2| ==> r == Ok(SqDist(v1, v2)) && distanceCount == old(distanceCount) + 1
      ensures r.Ok? ==> r.value >= 0.0
    {
      if |v1| != |v2| {
        return Err(DimensionMismatch);
      }
      distanceCount := distanceCount + 1;
      var dist := 0.0;
      var i := 0;
      while i < |v1|
        invariant 0 <= i <= |v1|
        invariant dist + SqDist(v1[i..], v2[i..]) == SqDist(v1, v2)
      {
        assert v1[i..][1..] == v1[i + 1..] && v2[i..][1..] == v2[i + 1..];
        dist := dist + (v1[i] - v2[i]) * (v1[i] - v2[i]);
        i := i + 1;
      }
      SqDistNonNegative(v1, v2);
      return Ok(dist);
    }

    /**
     * The scan of one candidate's layer-lc neighbours: each unvisited one is
     * marked visited and kept when it is nearer than the farthest kept result
     * or the result list is not yet full; the list never exceeds `ef`.
     * Afterwards every neighbour of `c` is visited, and what the search has
     * explored (`done` expanded, `c` settled) still holds.
     */
    method ExpandNode(q: Vector, ep: nat, ef: nat, lc: nat, c: nat,
                      visited: set<nat>, candidates: seq<Entry>, w: seq<Entry>, ghost done: set<nat>)
      returns (visited': set<nat>, candidates': seq<Entry>, w': seq<Entry>)
      requires SearchInv(nodes, q, ep, ef, lc, visited, candidates, w)
      requires Explored(nodes, q, ep, ef, lc, visited, done, candidates, w, done + {c})
      requires c in visited
      modifies this`distanceCount
      ensures SearchInv(nodes, q, ep, ef, lc, visited', candidates', w')
      ensures Explored(nodes, q, ep, ef, lc, visited', done, candidates', w', done + {c})
      ensures c < |nodes| && lc < |nodes[c].neighbors| && forall e :: e in nodes[c].neighbors[lc] ==> e in visited'
      ensures visited <= visited'
      ensures |Below(|nodes|) - visited'| + |candidates'| <= |Below(|nodes|) - visited| + |candidates|
      ensures distanceCount >= old(distanceCount)
    {
      visited', candidates', w' := visited, candidates, w;
      var lst := nodes[c].neighbors[lc];
      for k := 0 to |lst|
        invariant SearchInv(nodes, q, ep, ef, lc, visited', candidates', w')
        invariant Explored(nodes, q, ep, ef, lc, visited', done, candidates', w', done + {c})
        invariant forall x :: x in lst[..k] ==> x in visited'
        invariant visited <= visited'
        invariant |Below(|nodes|) - visited'| + |candidates'| <= |Below(|nodes|) - visited| + |candidates|
        invariant distanceCount >= old(distanceCount)
      {
        visited', candidates', w' := VisitNeighbor(q, ep, ef, lc, c, lst[k], visited', candidates', w', done);
        PrefixSnoc(lst, k);
      }
      PrefixFull(lst);
    }

    /**
     * One step of the scan of `c`'s neighbours: neighbour `e` is visited
     * (Visit) unless it was already.
     */
    method VisitNeighbor(q: Vector, ep: nat, ef: nat, lc: nat, c: nat, e: nat,
                         visited: set<nat>, candidates: seq<Entry>, w: seq<Entry>, ghost done: set<nat>)
      returns (visited': set<nat>, candidates': seq<Entry>, w': seq<Entry>)
      requires SearchInv(nodes, q, ep, ef, lc, visited, candidates, w)
      requires Explored(nodes, q, ep, ef, lc, visited, done, candidates, w, done + {c})
      requires c in visited && lc < |nodes[c].neighbors| && e in nodes[c].neighbors[lc]
      modifies this`distanceCount
      ensures SearchInv(nodes, q, ep, ef, lc, visited', candidates', w')
      ensures Explored(nodes, q, ep, ef, lc, visited', done, candidates', w', done + {c})
      ensures visited <= visited' && e in visited'
      ensures |Below(|nodes|) - visited'| + |candidates'| <= |Below(|nodes|) - visited| + |candidates|
      ensures distanceCount >= old(distanceCount)
    {
      visited', candidates', w' := visited, candidates, w;
      if e !in visited {
        VisitNew(nodes, q, ep, lc, c, e, visited);
        VisitMeasure(|nodes|, visited, e);
        candidates', w' := Visit(q, ep, ef, lc, e, visited, candidates, w, done, done + {c});
        visited' := visited + {e};
      }
    }

    /**
     * A newly visited neighbour `e`: it is kept, as a candidate and as a
     * result, when it is nearer than the farthest result or the result list
     * is not yet full, and the farthest result is dropped beyond `ef`.
     */
    method Visit(q: Vector, ep: nat, ef: nat, lc: nat, e: nat,
                 visited: set<nat>, candidates: seq<Entry>, w: seq<Entry>, ghost done: set<nat>, ghost settled: set<nat>)
      returns (candidates': seq<Entry>, w': seq<Entry>)
      requires SearchInv(nodes, q, ep, ef, lc, visited, candidates, w)
      requires Explored(nodes, q, ep, ef, lc, visited, done, candidates, w, settled)
      requires e !in visited && e < |nodes| && |nodes[e].data| == |q| && VisitedOk(nodes, ep, lc, visited + {e})
      modifies this`distanceCount
      ensures SearchInv(nodes, q, ep, ef, lc, visited + {e}, candidates', w')
      ensures Explored(nodes, q, ep, ef, lc, visited + {e}, done, candidates', w', settled)
      ensures (candidates', w') == AfterVisit(nodes, q, ef, e, candidates, w)
      ensures |candidates'| <= |candidates| + 1
      ensures distanceCount >= old(distanceCount)
    {
      assert w[0] in w;
      var f := w[0].id;
      var re := DistL2(nodes[e].data, q);
      var rf := DistL2(nodes[f].data, q);
      candidates', w' := KeepOrSkip(nodes, q, ef, e, candidates, w, re.value, rf.value);
      VisitStep(nodes, q, ep, ef, lc, e, visited, candidates, w);
      ExploredVisit(nodes, q, ep, ef, lc, e, visited, done, candidates, w, settled);
    }

    /**
     * The keep rule of the layer search, on the measured distances of `e`
     * and of the farthest kept result, over the store `ns`.
     */
    static method KeepOrSkip(ghost ns: seq<Node>, q: Vector, ef: nat, e: nat,
                             candidates: seq<Entry>, w: seq<Entry>, de: real, df: real)
      returns (candidates': seq<Entry>, w': seq<Entry>)
      requires e < |ns| && w != [] && w[0].id < |ns|
      requires de == SqDist(ns[e].data, q) && df == SqDist(ns[w[0].id].data, q)
      ensures (candidates', w') == AfterVisit(ns, q, ef, e, candidates, w)
    {
      KeepRule(ns, q, ef, e, w, de, df);
      if de < df || |w| < ef {
        var p := Kept(candidates, w, ef, e, de);
        candidates', w' := p.0, p.1;
      } else {
        candidates', w' := candidates, w;
      }
    }

    /**
     * Drains a queue into a new one keyed by the negated key: on a queue of
     * distances, the result's top is the nearest element.
     */
    static method ToMinQueue(w: seq<Entry>) returns (minW: seq<Entry>)
      requires Sorted(w) && DistinctIds(w)
      ensures Sorted(minW) && DistinctIds(minW) && |minW| == |w|
      ensures forall y :: y in minW <==> Negated(y) in w
    {
      minW := [];
      var rest := w;
      while rest != []
        invariant NegateInv(w, rest, minW)
        decreases |rest|
      {
        NegateStep(w, rest, minW);
        minW := Push(minW, Negated(rest[0]));
        rest := rest[1..];
      }
    }

    /**
     * Greedy best-first search of layer `lc` from `ep` with a result list of
     * size `ef`. The returned queue is keyed by negated distance, so its top
     * is the nearest node found.
     */
    method SearchLayer(q: Vector, ep: nat, ef: nat, lc: nat) returns (res: Result<seq<Entry>>)
      requires WellFormed(nodes)
      requires ep < |nodes| && nodes[ep].level >= lc
      modifies this`distanceCount
      ensures distanceCount >= old(distanceCount)
      ensures res.Err? <==> |q| != |nodes[ep].data|
      ensures res.Err? ==> res.error == DimensionMismatch && distanceCount == old(distanceCount)
      ensures res.Ok? ==> LayerResult(nodes, q, ep, ef, lc, res.value)
    {
      var r0 := DistL2(nodes[ep].data, q);
      if r0.Err? {
        return Err(r0.error);
      }
      var d := r0.value;
      var visited: set<nat> := {ep};
      var candidates := [Entry(-d, ep)];
      var w := [Entry(d, ep)];
      ghost var done: set<nat> := {};    // the expanded nodes
      LayerStart(nodes, q, ep, ef, lc);
      ExploredStart(nodes, q, ep, ef, lc);
      while candidates != []
        invariant SearchInv(nodes, q, ep, ef, lc, visited, candidates, w)
        invariant Explored(nodes, q, ep, ef, lc, visited, done, candidates, w, done)
        invariant distanceCount >= old(distanceCount)
        decreases |Below(|nodes|) - visited| + |candidates|
      {
        LayerPop(nodes, q, ep, ef, lc, visited, candidates, w);
        ghost var full := candidates;
        var c := candidates[0].id;       // nearest unexplored candidate
        var cDist := candidates[0].key;
        candidates := candidates[1..];
        var fDist := w[0].key;           // farthest kept result
        if -cDist > fDist {
          ExploredBreak(nodes, q, ep, ef, lc, visited, done, full, w);
          break;
        }
        ExploredPop(nodes, q, ep, ef, lc, visited, done, full, w);
        visited, candidates, w := ExpandNode(q, ep, ef, lc, c, visited, candidates, w, done);
        ExploredExpand(nodes, q, ep, ef, lc, visited, done, candidates, w, c);
        done := done + {c};
      }
      assert forall y :: y in w ==> y.id in done;
      var minW := ToMinQueue(w);
      LayerFinish(nodes, q, ep, ef, lc, visited, done, candidates, w, minW);
      return Ok(minW);
    }

    /** The first min(m, |c|) node indices of a queue, in pop order. */
    static method SelectNeighborsSimpleQueue(c: seq<Entry>, m: nat) returns (neighbors: seq<nat>)
      ensures neighbors == Ids(c[..Min(m, |c|)])
    {
      neighbors := [];
      var rest := c;
      while |neighbors| < m && rest != []
        invariant |neighbors| <= m && |neighbors| <= |c|
        invariant rest == c[|neighbors|..]
        invariant neighbors == Ids(c[..|neighbors|])
        decreases |rest|
      {
        assert c[..|neighbors| + 1] == c[..|neighbors|] + [rest[0]];
        neighbors := neighbors + [rest[0].id];
        rest := rest[1..];
      }
    }

    /**
     * The m members of `c` nearest to `q`, through a bounded max-heap on
     * distance: exactly min(m, |c|) of them, farthest first, and no omitted
     * member strictly nearer than a returned one. Each member costs one
     * distance evaluation.
     */
    method SelectNeighborsSimple(q: Vector, c: seq<nat>, m: nat) returns (res: Result<seq<nat>>)
      requires SameDim(nodes) && IdsIn(nodes, c)
      modifies this`distanceCount
      ensures res.Err? <==> c != [] && |q| != |nodes[c[0]].data|
      ensures res.Err? ==> res.error == DimensionMismatch && distanceCount == old(distanceCount)
      ensures res.Ok? ==> distanceCount == old(distanceCount) + |c|
      ensures res.Ok? ==> NearestSelection(nodes, q, c, m, res.value)
    {
      var w: seq<Entry> := [];
      ghost var ns := nodes;
      ghost var kc := Keyed(ns, q, c);
      for k := 0 to |c|
        invariant distanceCount == old(distanceCount) + k
        invariant k > 0 ==> |q| == |ns[c[0]].data|
        invariant SimpleInv(ns, q, c, m, k, w)
      {
        var d := DistL2(nodes[c[k]].data, q);
        if d.Err? {
          return Err(d.error);
        }
        SimpleStep(ns, q, c, m, k, w);
        w := Cut(Push(w, Entry(d.value, c[k])), m);
      }
      assert kc[..|c|] == kc && c[..|c|] == c;
      TopKIds(ns, q, c, w, m);
      var r := SelectNeighborsSimpleQueue(w, m);
      assert w[..Min(m, |w|)] == w;
      return Ok(r);
    }

    /**
     * The candidate pool of the heuristic: every member of `c` and, when
     * extending, every layer-`lc` neighbour of a member not already pooled,
     * each pushed with its negated distance to `q`.
     */
    method CandidatePool(q: Vector, c: seq<nat>, lc: nat, extendCandidates: bool) returns (res: Result<seq<Entry>>)
      requires WellFormed(nodes) && IdsIn(nodes, c)
      requires extendCandidates ==> forall i :: 0 <= i < |c| ==> nodes[c[i]].level >= lc
      modifies this`distanceCount
      ensures distanceCount >= old(distanceCount)
      ensures res.Err? <==> c != [] && |q| != |nodes[c[0]].data|
      ensures res.Err? ==> res.error == DimensionMismatch && distanceCount == old(distanceCount)
      ensures res.Ok? ==> PoolOk(nodes, q, c, lc, extendCandidates, res.value)
    {
      ghost var ns := nodes;
      var r, wset := SeedPool(q, c);
      if r.Err? {
        return r;
      }
      var w := r.value;
      assert c[..|c|] == c;
      SeedIsPool(ns, q, c, lc, w);
      if extendCandidates {
        w := ExtendPool(q, c, lc, w, wset);
        PartialIsPool(ns, q, c, lc, w);
      }
      return Ok(w);
    }

    /** The pool's first part: every member of `c` with its negated distance to `q`. */
    method SeedPool(q: Vector, c: seq<nat>) returns (res: Result<seq<Entry>>, wset: set<nat>)
      requires SameDim(nodes) && IdsIn(nodes, c)
      modifies this`distanceCount
      ensures res.Err? <==> c != [] && |q| != |nodes[c[0]].data|
      ensures res.Err? ==> res.error == DimensionMismatch && distanceCount == old(distanceCount)
      ensures res.Ok? ==> distanceCount == old(distanceCount) + |c|
      ensures res.Ok? ==> Sorted(res.value) && |res.value| == |c| && (c != [] ==> |q| == |nodes[c[0]].data|)
      ensures res.Ok? ==> forall y :: y in res.value ==> y.id < |nodes| && y.key == -SqDist(q, nodes[y.id].data)
      ensures res.Ok? ==> wset == IdSet(res.value) && forall x :: x in wset <==> x in c
      ensures res.Ok? ==> multiset(Ids(res.value)) == multiset(c)
    {
      ghost var ns := nodes;
      var w: seq<Entry> := [];
      wset := {};
      for k := 0 to |c|
        invariant distanceCount == old(distanceCount) + k
        invariant k > 0 ==> |q| == |ns[c[0]].data|
        invariant SeedInv(ns, q, c, k, w, wset)
      {
        var d := DistL2(q, nodes[c[k]].data);
        if d.Err? {
          return Err(d.error), wset;
        }
        SeedStep(ns, q, c, k, w, wset);
        w := Push(w, Entry(-d.value, c[k]));
        wset := wset + {c[k]};
      }
      assert c[..|c|] == c;
      return Ok(w), wset;
    }

    /** The pool's extension: the layer-`lc` neighbours of every member of `c` not pooled yet. */
    method ExtendPool(q: Vector, c: seq<nat>, lc: nat, w: seq<Entry>, wset: set<nat>) returns (w': seq<Entry>)
      requires WellFormed(nodes) && IdsIn(nodes, c) && (c != [] ==> |q| == |nodes[c[0]].data|)
      requires forall i :: 0 <= i < |c| ==> nodes[c[i]].level >= lc
      requires PartialPool(nodes, q, c, lc, w, wset)
      modifies this`distanceCount
      ensures distanceCount >= old(distanceCount)
      ensures PartialPool(nodes, q, c, lc, w', IdSet(w'))
      ensures forall i, x :: 0 <= i < |c| && lc < |nodes[c[i]].neighbors| && x in nodes[c[i]].neighbors[lc] ==> x in IdSet(w')
    {
      ghost var ns := nodes;
      w' := w;
      var wset' := wset;
      for k := 0 to |c|
        invariant PartialPool(ns, q, c, lc, w', wset')
        invariant forall i, x :: 0 <= i < k && c[i] < |ns| && lc < |ns[c[i]].neighbors| && x in ns[c[i]].neighbors[lc] ==> x in wset'
        invariant distanceCount >= old(distanceCount)
      {
        ghost var s0 := wset';
        w', wset' := AddNeighbors(q, c, lc, k, w', wset');
        ExtendedStep(ns, c, lc, k, s0, wset');
      }
    }

    /** Pools the layer-`lc` neighbours of `c[k]` that are not pooled yet. */
    method AddNeighbors(q: Vector, c: seq<nat>, lc: nat, k: nat, w: seq<Entry>, wset: set<nat>)
      returns (w': seq<Entry>, wset': set<nat>)
      requires WellFormed(nodes) && IdsIn(nodes, c) && k < |c|
      requires nodes[c[k]].level >= lc && |q| == |nodes[c[0]].data|
      requires PartialPool(nodes, q, c, lc, w, wset)
      modifies this`distanceCount
      ensures PartialPool(nodes, q, c, lc, w', wset') && wset <= wset'
      ensures forall x :: x in nodes[c[k]].neighbors[lc] ==> x in wset'
      ensures distanceCount >= old(distanceCount)
    {
      ghost var ns := nodes;
      w', wset' := w, wset;
      var lst := nodes[c[k]].neighbors[lc];
      for j := 0 to |lst|
        invariant PartialPool(ns, q, c, lc, w', wset') && wset <= wset'
        invariant forall t :: 0 <= t < j ==> lst[t] in wset'
        invariant distanceCount >= old(distanceCount)
      {
        RefValid(ns, c[k], lc, lst[j]);
        assert Pooled(ns, c, lc, true, lst[j]);
        ghost var s0 := wset';
        w', wset' := PoolNeighbor(q, c, lc, lst[j], w', wset');
        CoveredStep(lst, j, s0, wset');
      }
    }

    /** Pools neighbour `x` of a member of `c` with its negated distance to `q`, unless already pooled. */
    method PoolNeighbor(q: Vector, c: seq<nat>, lc: nat, x: nat, w: seq<Entry>, wset: set<nat>)
      returns (w': seq<Entry>, wset': set<nat>)
      requires SameDim(nodes) && c != [] && c[0] < |nodes| && x < |nodes| && |q| == |nodes[c[0]].data|
      requires Pooled(nodes, c, lc, true, x) && PartialPool(nodes, q, c, lc, w, wset)
      modifies this`distanceCount
      ensures PartialPool(nodes, q, c, lc, w', wset') && wset' == wset + {x}
      ensures distanceCount >= old(distanceCount)
    {
      w', wset' := w, wset;
      if x !in wset {
        var d := DistL2(q, nodes[x].data);
        w', wset' := PushPooled(nodes, q, c, lc, x, w, wset, d.value);
      }
    }

    /** Pushes pooled neighbour `x`, not pooled yet, at its measured distance `d`, over the store `ns`. */
    static method PushPooled(ghost ns: seq<Node>, q: Vector, c: seq<nat>, lc: nat, x: nat, w: seq<Entry>,
                             wset: set<nat>, d: real)
      returns (w': seq<Entry>, wset': set<nat>)
      requires x < |ns| && x !in wset && d == SqDist(q, ns[x].data)
      requires Pooled(ns, c, lc, true, x) && PartialPool(ns, q, c, lc, w, wset)
      ensures PartialPool(ns, q, c, lc, w', wset') && wset' == wset + {x}
    {
      PartialPoolPush(ns, q, c, lc, w, wset, x);
      w' := Push(w, Entry(-d, x));
      wset' := wset + {x};
    }

    /** The diversity test: no accepted neighbour lies at distance less than `de` from `e`. */
    method PassesDiversity(r: seq<nat>, e: nat, de: real) returns (good: bool)
      requires SameDim(nodes) && IdsIn(nodes, r) && e < |nodes|
      modifies this`distanceCount
      ensures good <==> PassesTest(nodes, r, e, de)
      ensures distanceCount >= old(distanceCount)
    {
      good := true;
      for j := 0 to |r|
        invariant forall t :: 0 <= t < j ==> !(SqDist(nodes[r[t]].data, nodes[e].data) < de)
        invariant distanceCount >= old(distanceCount)
      {
        var d := DistL2(nodes[r[j]].data, nodes[e].data);
        if d.value < de {
          good := false;
          break;
        }
      }
    }

    /**
     * The heuristic selection over a list of candidates. It pops the pool
     * nearest first, accepts what passes the diversity test and otherwise
     * discards to `wd`, optionally backfilling from `wd` after every step.
     * Because the pool's keys are negated distances the test never rejects,
     * so the result is the head of the pool: the min(m, |pool|) pooled nodes
     * nearest to `q`, nearest first.
     */
    method SelectNeighborsHeuristic(q: Vector, c: seq<nat>, m: nat, lc: nat,
                                    extendCandidates: bool, keepPrunedConnections: bool)
      returns (res: Result<seq<nat>>, ghost pool: seq<Entry>)
      requires WellFormed(nodes) && IdsIn(nodes, c)
      requires extendCandidates ==> forall i :: 0 <= i < |c| ==> nodes[c[i]].level >= lc
      modifies this`distanceCount
      ensures distanceCount >= old(distanceCount)
      ensures res.Err? <==> c != [] && |q| != |nodes[c[0]].data|
      ensures res.Err? ==> res.error == DimensionMismatch && distanceCount == old(distanceCount)
      ensures res.Ok? ==> PoolOk(nodes, q, c, lc, extendCandidates, pool)
      ensures res.Ok? ==> res.value == Ids(pool[..Min(m, |pool|)])
    {
      var rp := CandidatePool(q, c, lc, extendCandidates);
      if rp.Err? {
        return Err(rp.error), [];
      }
      ghost var ns := nodes;
      var w := rp.value;
      pool := w;
      var r: seq<nat> := [];
      var wd: seq<Entry> := [];
      while w != [] && |r| < m
        invariant EntriesIn(ns, w) && IdsIn(ns, r) && EntriesIn(ns, wd)
        invariant Scan(ns, w, r, wd, m, keepPrunedConnections) == Scan(ns, pool, [], [], m, keepPrunedConnections)
        invariant distanceCount >= old(distanceCount)
        decreases |w|
      {
        w, r, wd := ScanStep(w, r, wd, m, keepPrunedConnections);
      }
      forall y | y in pool
        ensures y.key <= 0.0
      {
        SqDistNonNegative(q, ns[y.id].data);
      }
      ScanAcceptsAll(ns, pool, [], m, keepPrunedConnections);
      return Ok(r), pool;
    }

    /**
     * One round of the heuristic's scan: pop the nearest candidate, accept it
     * or discard it, and with `keepPrunedConnections` backfill from the
     * discards while fewer than `m` are accepted.
     */
    method ScanStep(w: seq<Entry>, r: seq<nat>, wd: seq<Entry>, m: nat, keepPrunedConnections: bool)
      returns (w': seq<Entry>, r': seq<nat>, wd': seq<Entry>)
      requires SameDim(nodes) && EntriesIn(nodes, w) && IdsIn(nodes, r) && EntriesIn(nodes, wd)
      requires w != [] && |r| < m
      modifies this`distanceCount
      ensures EntriesIn(nodes, w') && IdsIn(nodes, r') && EntriesIn(nodes, wd') && |w'| < |w|
      ensures Scan(nodes, w', r', wd', m, keepPrunedConnections) == Scan(nodes, w, r, wd, m, keepPrunedConnections)
      ensures distanceCount >= old(distanceCount)
    {
      ghost var ns := nodes;
      assert w[0] in w;
      assert forall y :: y in w[1..] ==> y in w;
      var e := w[0].id;
      var de := w[0].key;
      w' := w[1..];
      var good := PassesDiversity(r, e, de);
      r', wd' := r, wd;
      if r == [] || good {
        r' := r' + [e];
      } else {
        wd' := Push(wd', Entry(-de, e));
      }
      if keepPrunedConnections {
        r', wd' := Refill(r', wd', m);
      }
    }

    /** Moves discarded candidates, farthest first (the discard queue's top), to the result while it holds fewer than `m`. */
    method Refill(r: seq<nat>, wd: seq<Entry>, m: nat) returns (r': seq<nat>, wd': seq<Entry>)
      requires IdsIn(nodes, r) && EntriesIn(nodes, wd)
      ensures IdsIn(nodes, r') && EntriesIn(nodes, wd')
      ensures (r', wd') == Backfill(nodes, r, wd, m)
    {
      r', wd' := r, wd;
      while wd' != [] && |r'| < m
        invariant EntriesIn(nodes, wd') && IdsIn(nodes, r')
        invariant Backfill(nodes, r', wd', m) == Backfill(nodes, r, wd, m)
        decreases |wd'|
      {
        assert wd'[0] in wd';
        assert forall y :: y in wd'[1..] ==> y in wd';
        r' := r' + [wd'[0].id];
        wd' := wd'[1..];
      }
    }

    /** The heuristic selection over a queue: its elements in pop order become the candidate list. */
    method SelectNeighborsHeuristicQueue(q: Vector, c: seq<Entry>, m: nat, lc: nat,
                                         extendCandidates: bool, keepPrunedConnections: bool)
      returns (res: Result<seq<nat>>, ghost pool: seq<Entry>)
      requires WellFormed(nodes) && EntriesIn(nodes, c)
      requires extendCandidates ==> forall y :: y in c ==> nodes[y.id].level >= lc
      modifies this`distanceCount
      ensures distanceCount >= old(distanceCount)
      ensures res.Err? <==> c != [] && |q| != |nodes[c[0].id].data|
      ensures res.Err? ==> res.error == DimensionMismatch && distanceCount == old(distanceCount)
      ensures res.Ok? ==> PoolOk(nodes, q, Ids(c), lc, extendCandidates, pool)
      ensures res.Ok? ==> res.value == Ids(pool[..Min(m, |pool|)])
    {
      var v: seq<nat> := [];
      var rest := c;
      while rest != []
        invariant |v| <= |c| && rest == c[|v|..] && v == Ids(c[..|v|])
        decreases |rest|
      {
        assert c[..|v| + 1] == c[..|v|] + [rest[0]];
        v := v + [rest[0].id];
        rest := rest[1..];
      }
      assert c[..|c|] == c;
      assert forall t :: 0 <= t < |c| ==> c[t] in c;
      res, pool := SelectNeighborsHeuristic(q, v, m, lc, extendCandidates, keepPrunedConnections);
    }

    /**
     * The bidirectional connection step of insertion: `q` is appended to the
     * layer-`lc` list of each selected neighbour, and each selected neighbour
     * to the layer-`lc` list of `q`.
     */
    method Connect(q: nat, lc: nat, sel: seq<nat>)
      requires WellFormed(nodes) && q < |nodes| && lc <= nodes[q].level
      requires forall t :: 0 <= t < |sel| ==> sel[t] < |nodes| && nodes[sel[t]].level >= lc && sel[t] != q
      modifies this`nodes
      ensures Connected(old(nodes), nodes, q, lc, sel)
    {
      ghost var n0 := nodes;
      ConnectedStart(nodes, q, lc);
      for k := 0 to |sel|
        invariant Connected(n0, nodes, q, lc, sel[..k])
      {
        ConnectedNext(n0, nodes, q, lc, sel, k);
        Link(q, lc, sel[k]);
      }
      assert sel[..|sel|] == sel;
    }

    /** One bidirectional connection: `q` joins `e`'s layer-`lc` list, then `e` joins `q`'s. */
    method Link(q: nat, lc: nat, e: nat)
      requires q < |nodes| && lc < |nodes[q].neighbors| && e < |nodes| && lc < |nodes[e].neighbors|
      modifies this`nodes
      ensures nodes == Linked(old(nodes), q, lc, e)
    {
      nodes := nodes[e := nodes[e].(neighbors := nodes[e].neighbors[lc := nodes[e].neighbors[lc] + [q]])];
      nodes := nodes[q := nodes[q].(neighbors := nodes[q].neighbors[lc := nodes[q].neighbors[lc] + [e]])];
    }

    /**
     * Shrinks node `e`'s layer-`lc` list when it exceeds the layer's degree
     * cap, replacing it by the selection the mode names over that list.
     */
    method ShrinkOne(lc: nat, e: nat) returns (ghost newConn: seq<nat>)
      requires WellFormed(nodes) && KnownMode() && e < |nodes| && nodes[e].level >= lc
      modifies this`nodes, this`distanceCount
      ensures ShrinkResult(old(nodes), e, lc, Cap(lc), selectMode == "simple", newConn)
      ensures nodes == SetList(old(nodes), e, lc, newConn)
      ensures distanceCount >= old(distanceCount)
    {
      ghost var ns := nodes;
      var mEffective := if lc == 0 then mMax0 else mMax;
      var eConn := nodes[e].neighbors[lc];
      forall t | 0 <= t < |eConn| ensures eConn[t] < |ns| && ns[eConn[t]].level >= lc {
        RefValid(ns, e, lc, eConn[t]);
      }
      newConn := eConn;
      SubBagCounts(ns, eConn, lc, eConn);
      if |eConn| > mEffective {
        var eNewConn: seq<nat>;
        if selectMode == "simple" {
          var r := SelectNeighborsSimple(nodes[e].data, eConn, mEffective);
          SubBagCounts(ns, eConn, lc, r.value);
          eNewConn := r.value;
        } else {
          var r, pool := SelectNeighborsHeuristic(nodes[e].data, eConn, mEffective, lc, true, false);
          PoolPrefix(ns, ns[e].data, eConn, lc, true, pool, mEffective);
          assert Min(mEffective, |pool|) == mEffective;
          eNewConn := r.value;
        }
        assert ShrinkPick(ns, e, lc, mEffective, selectMode == "simple", eConn, eNewConn);
        newConn := eNewConn;
        nodes := SetList(nodes, e, lc, eNewConn);
      } else {
        assert ns[e].neighbors[lc := eConn] == ns[e].neighbors;
        assert ns[e].(neighbors := ns[e].neighbors[lc := eConn]) == ns[e];
        assert ns[e := ns[e]] == ns;
      }
    }

    /** The shrink step of insertion, over every selected neighbour in turn. */
    method Shrink(lc: nat, sel: seq<nat>)
      requires WellFormed(nodes) && KnownMode()
      requires forall t :: 0 <= t < |sel| ==> sel[t] < |nodes| && nodes[sel[t]].level >= lc
      modifies this`nodes, this`distanceCount
      ensures Shrunk(old(nodes), nodes, lc, sel, Cap(lc), selectMode == "simple")
      ensures distanceCount >= old(distanceCount)
    {
      ghost var n0 := nodes;
      ShrunkStart(nodes, lc, Cap(lc), selectMode == "simple");
      for k := 0 to |sel|
        invariant Shrunk(n0, nodes, lc, sel[..k], Cap(lc), selectMode == "simple")
        invariant distanceCount >= old(distanceCount)
      {
        ghost var n1 := nodes;
        var newConn := ShrinkOne(lc, sel[k]);
        ShrunkNext(n0, n1, lc, sel, Cap(lc), selectMode == "simple", k, newConn);
      }
      assert sel[..|sel|] == sel;
    }

    /**
     * The neighbour selection of one insertion layer, as the mode names it;
     * any other mode is an error.
     */
    method SelectForLayer(q: Vector, w: seq<Entry>, lc: nat) returns (res: Result<seq<nat>>, ghost pool: seq<Entry>)
      requires WellFormed(nodes) && w != [] && EntriesIn(nodes, w)
      requires forall y :: y in w ==> nodes[y.id].level >= lc
      requires |q| == |nodes[w[0].id].data|
      modifies this`distanceCount
      ensures res.Err? <==> !KnownMode()
      ensures res.Err? ==> res.error == UnknownSelectMode && distanceCount == old(distanceCount)
      ensures selectMode == "simple" ==> res == Ok(Ids(w[..Min(m, |w|)]))
      ensures selectMode == "heuristic" ==>
                PoolOk(nodes, q, Ids(w), lc, true, pool) && res == Ok(Ids(pool[..Min(m, |pool|)]))
      ensures res.Ok? ==> |res.value| <= m
      ensures res.Ok? ==> forall x :: x in res.value ==> Pooled(nodes, Ids(w), lc, true, x)
      ensures res.Ok? ==> forall x :: multiset(res.value)[x] <= PoolCount(nodes, Ids(w), lc, true, x)
      ensures distanceCount >= old(distanceCount)
    {
      pool := [];
      if selectMode == "simple" {
        var r := SelectNeighborsSimpleQueue(w, m);
        IdsPrefix(w, Min(m, |w|));
        SubBagCounts(nodes, Ids(w), lc, r);
        forall x | x in r ensures Pooled(nodes, Ids(w), lc, true, x) {
          var t :| 0 <= t < |r| && r[t] == x;
          assert Ids(w)[t] == x;
        }
        return Ok(r), pool;
      } else if selectMode == "heuristic" {
        var r;
        r, pool := SelectNeighborsHeuristicQueue(q, w, m, lc, true, false);
        PoolPrefix(nodes, q, Ids(w), lc, true, pool, m);
        return Ok(r.value), pool;
      } else {
        return Err(UnknownSelectMode), pool;
      }
    }

    /**
     * The greedy descent of insertion: from the top layer down to the layer
     * just above `lNew`, a single-result search whose nearest node becomes
     * the next entry node.
     */
    method Descend(q: nat, ep: nat, lTop: nat, lNew: nat) returns (ep': nat)
      requires WellFormed(nodes) && q < |nodes| && ep < |nodes| && ep != q && nodes[ep].level >= lTop
      requires forall l: nat :: Unreferenced(nodes, l, q)
      modifies this`distanceCount
      ensures ep' < |nodes| && ep' != q && nodes[ep'].level >= Min(lTop, lNew)
      ensures distanceCount >= old(distanceCount)
    {
      ep' := ep;
      var lc := lTop;
      while lc > lNew
        invariant Min(lTop, lNew) <= lc <= lTop
        invariant ep' < |nodes| && ep' != q && nodes[ep'].level >= lc
        invariant distanceCount >= old(distanceCount)
      {
        var w := SearchLayer(nodes[q].data, ep', 1, lc);
        assert w.value[0] in w.value;
        UnreferencedUnreachable(nodes, lc, q, ep', w.value[0].id);
        ep' := w.value[0].id;
        lc := lc - 1;
      }
    }

    /**
     * One layer of insertion (the body of the layer loop): search layer `lc`
     * from `ep` for `efConstruction` candidates `w`, select neighbours from
     * them (Chosen), connect them with node `q` both ways and shrink their
     * lists. Returns the next entry node, the nearest node of `w`.
     */
    method InsertLayer(q: nat, lc: nat, ep: nat) returns (res: Result<nat>, neighbors: seq<nat>, ghost mid: seq<Node>, ghost w: seq<Entry>)
      requires WellFormed(nodes) && q < |nodes| && nodes[q].level >= lc && Unreferenced(nodes, lc, q)
      requires ep < |nodes| && ep != q && nodes[ep].level >= lc
      modifies this`nodes, this`distanceCount
      ensures distanceCount >= old(distanceCount)
      ensures res.Err? <==> !KnownMode()
      ensures res.Err? ==> res.error == UnknownSelectMode && nodes == old(nodes)
      ensures res.Ok? ==> Chosen(old(nodes), old(nodes)[q].data, ep, lc, w, neighbors, m, efConstruction, selectMode == "simple")
      ensures res.Ok? ==> w != [] && res.value == w[0].id
      ensures res.Ok? ==> Connected(old(nodes), mid, q, lc, neighbors)
      ensures res.Ok? ==> Shrunk(mid, nodes, lc, neighbors, Cap(lc), selectMode == "simple")
      ensures res.Ok? ==> res.value < |nodes| && res.value != q && nodes[res.value].level >= lc
    {
      ghost var n0 := nodes;
      var qv := nodes[q].data;
      var found := SearchLayer(qv, ep, efConstruction, lc);
      var cands := found.value;
      w := cands;
      assert cands[0] in cands;
      var s, pool := SelectForLayer(qv, cands, lc);
      if s.Err? {
        return Err(s.error), [], nodes, w;
      }
      neighbors := s.value;
      assert Chosen(nodes, qv, ep, lc, w, neighbors, m, efConstruction, selectMode == "simple");
      forall t | 0 <= t < |neighbors| ensures neighbors[t] != q && neighbors[t] < |nodes| && nodes[neighbors[t]].level >= lc {
        SelectedNotNew(nodes, q, qv, ep, efConstruction, lc, w, neighbors[t]);
      }
      UnreferencedUnreachable(nodes, lc, q, ep, cands[0].id);
      assert nodes == n0 && cands[0].id < |nodes| && nodes[cands[0].id].level >= lc;
      Connect(q, lc, neighbors);
      assert Connected(n0, nodes, q, lc, neighbors);
      mid := nodes;
      Shrink(lc, neighbors);
      assert SameShape(mid, nodes) && SameShape(n0, mid);
      res := Ok(cands[0].id);
    }

    /**
     * One round of the layer loop: layer `lc` is searched from `ep`, linked
     * and shrunk, and its records join those of the layers above; the result
     * is the nearest node found, the entry point of the layer below.
     */
    method InsertRound(ghost n0: seq<Node>, q: nat, ghost v: Vector, ghost lNew: nat, ghost lTop: nat, lc: nat, ep: nat,
                       ghost selected: seq<seq<nat>>, ghost entries: seq<nat>, ghost found: seq<seq<Entry>>)
      returns (res: Result<nat>, ghost neighbors: seq<nat>, ghost w: seq<Entry>)
      requires InsertInv(n0, nodes, q, v, lNew, lTop, lc, selected, m, mMax0, mMax, selectMode == "simple")
      requires SearchedAbove(n0 + [FreshNode(v, lNew)], v, lNew, lTop, lc, selected, entries, found,
                             m, efConstruction, selectMode == "simple")
      requires lc < Min(lTop, lNew) ==> found[lc + 1] != [] && ep == found[lc + 1][0].id
      requires ep < q && nodes[ep].level >= lc
      modifies this`nodes, this`distanceCount
      ensures distanceCount >= old(distanceCount)
      ensures res.Err? <==> !KnownMode()
      ensures res.Err? ==> res.error == UnknownSelectMode && nodes == old(nodes)
      ensures res.Ok? ==> InsertInv(n0, nodes, q, v, lNew, lTop, lc - 1, selected[lc := neighbors],
                                    m, mMax0, mMax, selectMode == "simple")
      ensures res.Ok? ==> SearchedAbove(n0 + [FreshNode(v, lNew)], v, lNew, lTop, lc - 1, selected[lc := neighbors],
                                        entries[lc := ep], found[lc := w], m, efConstruction, selectMode == "simple")
      ensures res.Ok? ==> w != [] && res.value == w[0].id && res.value < q && nodes[res.value].level >= lc
    {
      IntactUnreferenced(n0, nodes, q, v, lNew, lc);
      ghost var n1 := nodes;
      var r, sel, n2, found' := InsertLayer(q, lc, ep);
      neighbors, w := sel, found';
      if r.Err? {
        return Err(r.error), neighbors, w;
      }
      LayerLoopStep(n0, n1, n2, nodes, q, v, lNew, lTop, lc, selected, entries, found, ep, w, neighbors,
                    m, efConstruction, mMax0, mMax, selectMode == "simple");
      res := r;
    }

    /**
     * The layer loop of insertion, from min(lTop, lNew) down to 0, starting
     * from the store `n0` with node `q` appended unconnected; an unknown
     * selection mode fails on its first layer, before any list changes.
     */
    method InsertLayers(ghost n0: seq<Node>, q: nat, lNew: nat, lTop: nat, ep: nat)
      returns (res: Outcome, ghost selected: seq<seq<nat>>, ghost entries: seq<nat>, ghost found: seq<seq<Entry>>)
      requires q < |nodes| && nodes == n0 + [FreshNode(nodes[q].data, lNew)]
      requires InsertInv(n0, nodes, q, nodes[q].data, lNew, lTop, Min(lTop, lNew), seq(lNew + 1, _ => []),
                         m, mMax0, mMax, selectMode == "simple")
      requires ep < q && nodes[ep].level >= Min(lTop, lNew)
      modifies this`nodes, this`distanceCount
      ensures distanceCount >= old(distanceCount)
      ensures res.Fail? <==> !KnownMode()
      ensures res.Fail? ==> res.error == UnknownSelectMode && nodes == old(nodes)
      ensures res.Pass? ==> Inserted(n0, nodes, q, old(nodes)[q].data, lNew, lTop, selected, entries, found,
                                     m, efConstruction, mMax0, mMax, selectMode == "simple")
      ensures res.Pass? ==> Min(lTop, lNew) < |entries| && entries[Min(lTop, lNew)] == ep
    {
      ghost var v := nodes[q].data;
      ghost var simple := selectMode == "simple";
      ghost var nq := nodes;
      selected := seq(lNew + 1, _ => []);
      entries := seq(lNew + 1, _ => ep);
      found := seq(lNew + 1, _ => []);
      var ep': nat := ep;
      var lc2: int := Min(lTop, lNew);
      while lc2 >= 0
        invariant InsertInv(n0, nodes, q, v, lNew, lTop, lc2, selected, m, mMax0, mMax, simple)
        invariant SearchedAbove(nq, v, lNew, lTop, lc2, selected, entries, found, m, efConstruction, simple)
        invariant entries[Min(lTop, lNew)] == ep
        invariant lc2 >= 0 ==> ep' < q && ep' < |nodes| && nodes[ep'].level >= lc2
        invariant 0 <= lc2 < Min(lTop, lNew) ==> found[lc2 + 1] != [] && ep' == found[lc2 + 1][0].id
        invariant lc2 == Min(lTop, lNew) ==> ep' == ep
        invariant !KnownMode() ==> lc2 == Min(lTop, lNew) && nodes == old(nodes)
        invariant distanceCount >= old(distanceCount)
      {
        var lc: nat := lc2;
        var r, neighbors, w := InsertRound(n0, q, v, lNew, lTop, lc, ep', selected, entries, found);
        if r.Err? {
          return Fail(r.error), selected, entries, found;
        }
        selected := selected[lc := neighbors];
        entries := entries[lc := ep'];
        found := found[lc := w];
        ep' := r.value;
        lc2 := lc2 - 1;
      }
      InsertEnd(n0, nodes, q, v, lNew, lTop, selected, entries, found, m, efConstruction, mMax0, mMax, simple);
      return Pass, selected, entries, found;
    }

    /**
     * Inserts vector `v` as a new node of level `lNew`: greedy descent with a
     * single-result search through the layers above `lNew`, then on each
     * layer from min(top, lNew) down to 0 a search with `efConstruction`,
     * neighbour selection, bidirectional connection and shrinking; the new
     * node becomes the entry point when its level exceeds the old top. On a
     * failure the new node, which no list names yet, is dropped.
     */
    method Insert(v: Vector, lNew: nat)
      returns (res: Outcome, ghost selected: seq<seq<nat>>, ghost entries: seq<nat>, ghost found: seq<seq<Entry>>)
      requires IndexValid() && nodes != []
      modifies this`nodes, this`enterPoint, this`distanceCount
      ensures distanceCount >= old(distanceCount)
      ensures res == Fail(DimensionMismatch) <==> |v| != |old(nodes)[0].data|
      ensures res == Fail(UnknownSelectMode) <==> |v| == |old(nodes)[0].data| && !KnownMode()
      ensures res.Fail? ==> nodes == old(nodes) && enterPoint == old(enterPoint)
      ensures res == Fail(DimensionMismatch) ==> distanceCount == old(distanceCount)
      ensures IndexValid()
      ensures res.Pass? ==> Inserted(old(nodes), nodes, |old(nodes)|, v, lNew, old(nodes)[old(enterPoint).value].level,
                                     selected, entries, found, m, efConstruction, mMax0, mMax, selectMode == "simple")
      ensures res.Pass? ==>
                enterPoint == if lNew > old(nodes)[old(enterPoint).value].level then Some(|old(nodes)|) else old(enterPoint)
    {
      ghost var n0 := nodes;
      ghost var simple := selectMode == "simple";
      var q := |nodes|;
      var ep: nat := enterPoint.value;
      var l := nodes[ep].level;
      selected, entries, found := [], [], [];
      if |v| != |nodes[ep].data| {
        // the first distance evaluation, in the first layer search, fails
        return Fail(DimensionMismatch), selected, entries, found;
      }
      nodes := nodes + [FreshNode(v, lNew)];
      InsertStart(n0, v, lNew, l, m, mMax0, mMax, simple);
      forall lv: nat ensures Unreferenced(nodes, lv, q) {
        IntactUnreferenced(n0, nodes, q, v, lNew, lv);
      }
      ep := Descend(q, ep, l, lNew);
      res, selected, entries, found := InsertLayers(n0, q, lNew, l, ep);
      if res.Fail? {
        nodes := nodes[..q];
        assert nodes == n0;
        return;
      }
      EntryAfterInsert(n0, nodes, q, v, lNew, old(enterPoint).value);
      if lNew > l {
        enterPoint := Some(q);
      }
      return Pass, selected, entries, found;
    }

    /**
     * Registers node `q` in the per-layer lists: the list of lists grows to
     * reach the node's level, then `q` joins every layer up to it.
     */
    method AddToLayers(q: nat)
      requires q < |nodes|
      requires forall l :: 0 <= l < |graph| ==> graph[l] == Members(nodes, q, l)
      requires forall i :: 0 <= i < q ==> nodes[i].level < |graph|
      modifies this`graph
      ensures |graph| == Max(old(|graph|), nodes[q].level + 1)
      ensures forall l :: 0 <= l < |graph| ==> graph[l] == Members(nodes, q + 1, l)
    {
      ghost var ns := nodes;
      var lv := nodes[q].level;
      var g := graph;
      while |g| <= lv
        invariant old(|graph|) <= |g| <= Max(old(|graph|), lv + 1)
        invariant forall l :: 0 <= l < |g| ==> g[l] == Members(ns, q, l)
      {
        MembersAboveTop(ns, q, |g|);
        g := g + [[]];
      }
      var l := 0;
      while l <= lv
        invariant 0 <= l <= lv + 1
        invariant |g| == Max(old(|graph|), lv + 1)
        invariant forall j :: 0 <= j < |g| ==> g[j] == if j < l then Members(ns, q + 1, j) else Members(ns, q, j)
      {
        g := g[l := g[l] + [q]];
        l := l + 1;
      }
      graph := g;
    }

    /**
     * One step of the build: the first node of an empty index becomes the
     * entry point at level 0 with one empty neighbour list and forms layer
     * 0 alone; any later one is inserted at level `lv` and then joins the
     * layer lists up to its level.
     */
    method AddNode(v: Vector, lv: nat) returns (res: Outcome)
      requires Valid()
      modifies this`nodes, this`enterPoint, this`graph, this`distanceCount
      ensures distanceCount >= old(distanceCount)
      ensures res == Fail(DimensionMismatch) <==> old(nodes) != [] && |v| != |old(nodes)[0].data|
      ensures res == Fail(UnknownSelectMode) <==> old(nodes) != [] && |v| == |old(nodes)[0].data| && !KnownMode()
      ensures res.Pass? ==> Valid() && Appended(old(nodes), nodes, [v], [lv])
    {
      if enterPoint.None? {
        nodes := [Node(v, [[]], 0)];
        enterPoint := Some(0);
        graph := [[0]];
        return Pass;
      }
      ghost var n1 := nodes;
      ghost var ep0 := enterPoint.value;
      var q := |nodes|;
      var r, sel, entries, found := Insert(v, lv);
      if r.Fail? {
        return r;
      }
      assert Shape(n1, nodes, q, v, lv);
      ShapeAppends(n1, nodes, q, v, lv);
      Register(q, n1, ep0);
      return Pass;
    }

    /**
     * Registers the inserted node `q` in the layer lists, which were exactly
     * the layers' members among the `q` older nodes `n1`, whose top level
     * is that of `n1[ep0]`.
     */
    method Register(q: nat, ghost n1: seq<Node>, ghost ep0: nat)
      requires IndexValid() && |n1| == q && |nodes| == q + 1 && ep0 < q
      requires forall i :: 0 <= i < q ==> nodes[i].level == n1[i].level && n1[i].level <= n1[ep0].level
      requires |graph| == n1[ep0].level + 1
      requires forall l :: 0 <= l < |graph| ==> graph[l] == Members(n1, q, l)
      modifies this`graph
      ensures Valid()
    {
      forall l | 0 <= l < |graph| ensures graph[l] == Members(nodes, q, l) {
        MembersFollowLevels(n1, nodes, q, l);
      }
      AddToLayers(q);
      var ep := enterPoint.value;
      assert nodes[ep].level >= nodes[ep0].level && nodes[ep].level >= nodes[q].level;
      assert ep == q || nodes[ep].level <= n1[ep0].level;
    }

    /**
     * Builds the index from `input`, adding the vectors in order, vector
     * `input[i]` at level `levels[i]` (the very first node of the index
     * takes level 0 whatever its entry). An insertion failure ends the
     * build with that failure.
     */
    method BuildGraph(input: seq<Vector>, levels: seq<nat>) returns (res: Outcome)
      requires Valid() && |levels| == |input|
      modifies this`data, this`nodes, this`enterPoint, this`graph, this`distanceCount
      ensures data == input
      ensures distanceCount >= old(distanceCount)
      ensures res.Pass? <==> (KnownMode() || input == [] || |old(nodes)| + |input| <= 1) && UniformDim(old(nodes), input)
      ensures res == Fail(DimensionMismatch) ==> !UniformDim(old(nodes), input)
      ensures res == Fail(UnknownSelectMode) ==> !KnownMode()
      ensures res.Pass? ==> Valid() && Appended(old(nodes), nodes, input, levels)
    {
      ghost var n0 := nodes;
      data := input;
      var i := 0;
      while i < |input|
        invariant 0 <= i <= |input|
        invariant data == input
        invariant Valid()
        invariant Appended(n0, nodes, input[..i], levels)
        invariant UniformDim(n0, input[..i])
        invariant nodes != [] && (n0 != [] || i > 0) ==> |nodes[0].data| == Dim(n0, input)
        invariant !KnownMode() ==> i == 0 || |nodes| <= 1
        invariant distanceCount >= old(distanceCount)
      {
        ghost var n1 := nodes;
        var r := AddNode(input[i], levels[i]);
        if r.Fail? {
          assert |n1| == |n0| + i;
          if r == Fail(DimensionMismatch) {
            assert |input[i]| != Dim(n0, input);
          } else {
            assert r.error == UnknownSelectMode;
          }
          return r;
        }
        AppendedStep(n0, n1, nodes, input, levels, i);
        i := i + 1;
      }
      assert input[..i] == input;
      return Pass;
    }

    /**
     * The descent of a query: from `ep` down to layer 1, a single-result
     * search on each layer whose nearest result is the next entry node.
     */
    method DescendQuery(q: Vector, ep: nat, lTop: nat) returns (res: Result<nat>)
      requires WellFormed(nodes) && ep < |nodes| && nodes[ep].level >= lTop
      modifies this`distanceCount
      ensures distanceCount >= old(distanceCount)
      ensures res.Err? ==> res.error == DimensionMismatch && |q| != |nodes[ep].data|
      ensures res.Ok? ==> res.value < |nodes|
    {
      var cur: nat := ep;
      var lc: nat := lTop;
      while lc > 0
        invariant cur < |nodes| && nodes[cur].level >= lc
        invariant distanceCount >= old(distanceCount)
      {
        var w := SearchLayer(q, cur, 1, lc);
        if w.Err? {
          return Err(w.error);
        }
        assert w.value[0] in w.value;
        cur := w.value[0].id;
        lc := lc - 1;
      }
      return Ok(cur);
    }

    /** The vectors of the first min(k, |found|) queue entries, in pop order. */
    static method TakeFirst(ns: seq<Node>, found: seq<Entry>, k: nat) returns (result: seq<Vector>)
      requires forall y :: y in found ==> y.id < |ns|
      ensures |result| == Min(k, |found|)
      ensures forall t :: 0 <= t < |result| ==> found[t].id < |ns| && result[t] == ns[found[t].id].data
    {
      result := [];
      var rest := found;
      while rest != [] && |result| < k
        invariant |result| <= k && |result| <= |found| && rest == found[|result|..]
        invariant forall t :: 0 <= t < |result| ==> found[t].id < |ns| && result[t] == ns[found[t].id].data
        decreases |rest|
      {
        assert rest[0] in found;
        result := result + [ns[rest[0].id].data];
        rest := rest[1..];
      }
    }

    /**
     * K-nearest-neighbour query: greedy descent with a single-result search
     * from the entry point down to layer 1, then one layer-0 search with
     * `ef`, whose queue is drained nearest first into at most `k` results.
     */
    method KnnSearch(q: Vector, k: nat, ef: nat) returns (res: Result<seq<Vector>>, ghost start: nat, ghost found: seq<Entry>)
      requires IndexValid() && nodes != []
      modifies this`distanceCount
      ensures distanceCount >= old(distanceCount)
      ensures res.Err? <==> |q| != |nodes[0].data|
      ensures res.Err? ==> res.error == DimensionMismatch
      ensures res.Ok? ==> start < |nodes| && LayerResult(nodes, q, start, ef, 0, found)
      ensures res.Ok? ==> |res.value| == Min(k, |found|) && (k > 0 ==> |res.value| >= 1)
      ensures res.Ok? ==> forall t :: 0 <= t < |res.value| ==> res.value[t] == nodes[found[t].id].data
      ensures res.Ok? ==> forall s, t :: 0 <= s < t < |res.value| ==> SqDist(res.value[s], q) <= SqDist(res.value[t], q)
    {
      var top: nat := enterPoint.value;
      var d := DescendQuery(q, top, nodes[top].level);
      if d.Err? {
        return Err(d.error), top, [];
      }
      var ep := d.value;
      var w := SearchLayer(q, ep, ef, 0);
      if w.Err? {
        return Err(w.error), ep, [];
      }
      start, found := ep, w.value;
      var result := TakeFirst(nodes, w.value, k);
      forall s, t | 0 <= s < t < |result| ensures SqDist(result[s], q) <= SqDist(result[t], q) {
        assert found[s] in found && found[t] in found;
      }
      return Ok(result), start, found;
    }

    /**
     * Exact k-nearest-neighbour search over `base`: every vector passes
     * through a max-heap on distance bounded to `k` entries, which is then
     * drained, so the result comes farthest first. A vector whose length
     * differs from the query's fails the search.
     */
    method KnnSearchBruteForce(q: Vector, base: seq<Vector>, k: nat) returns (res: Result<seq<Vector>>, ghost picks: seq<nat>)
      modifies this`distanceCount
      ensures distanceCount >= old(distanceCount)
      ensures res.Err? <==> exists i :: 0 <= i < |base| && |base[i]| != |q|
      ensures res.Err? ==> res.error == DimensionMismatch
      ensures res.Ok? ==> distanceCount == old(distanceCount) + |base|
      ensures res.Ok? ==> NearestPicks(q, base, k, picks)
      ensures res.Ok? ==> |res.value| == |picks| && forall t :: 0 <= t < |picks| ==> res.value[t] == base[picks[t]]
    {
      var heap: seq<Entry> := [];
      for i := 0 to |base|
        invariant distanceCount == old(distanceCount) + i
        invariant forall j :: 0 <= j < i ==> |base[j]| == |q|
        invariant FilterInv(q, base, i, k, heap)
      {
        var r := FilterPush(q, base, i, k, heap);
        if r.Err? {
          return Err(r.error), [];
        }
        heap := r.value;
      }
      assert Indexed(q, base)[..|base|] == Indexed(q, base);
      TopKPicks(q, base, heap, k);
      picks := Ids(heap);
      var result := DrainVectors(base, heap);
      return Ok(result), picks;
    }

    /** One step of the brute-force scan: vector `i` is measured, pushed, and the farthest entry popped past `k`. */
    method FilterPush(q: Vector, base: seq<Vector>, i: nat, k: nat, heap: seq<Entry>) returns (res: Result<seq<Entry>>)
      requires i < |base| && FilterInv(q, base, i, k, heap)
      modifies this`distanceCount
      ensures res.Err? <==> |base[i]| != |q|
      ensures res.Err? ==> res.error == DimensionMismatch
      ensures distanceCount == old(distanceCount) + (if res.Ok? then 1 else 0)
      ensures res.Ok? ==> FilterInv(q, base, i + 1, k, res.value)
    {
      var d := DistL2(base[i], q);
      if d.Err? {
        return Err(d.error);
      }
      FilterStep(q, base, i, k, heap);
      return Ok(Cut(Push(heap, Entry(d.value, i)), k));
    }

    /** The vectors of `base` at the positions a queue holds, in pop order. */
    static method DrainVectors(base: seq<Vector>, heap: seq<Entry>) returns (result: seq<Vector>)
      requires forall y :: y in heap ==> y.id < |base|
      ensures |result| == |heap| && forall t :: 0 <= t < |heap| ==> result[t] == base[heap[t].id]
    {
      result := [];
      var rest := heap;
      while rest != []
        invariant |result| <= |heap| && rest == heap[|result|..]
        invariant forall t :: 0 <= t < |result| ==> result[t] == base[heap[t].id]
        decreases |rest|
      {
        assert rest[0] in heap;
        result := result + [base[rest[0].id]];
        rest := rest[1..];
      }
    }

    /** The brute-force search over the vectors of the listed nodes, from a query node. */
    method KnnSearchBruteForceNodes(q: Node, members: seq<nat>, k: nat) returns (res: Result<seq<Vector>>, ghost picks: seq<nat>)
      requires IdsIn(nodes, members)
      modifies this`distanceCount
      ensures distanceCount >= old(distanceCount)
      ensures res.Err? <==> exists i :: 0 <= i < |members| && |nodes[members[i]].data| != |q.data|
      ensures res.Err? ==> res.error == DimensionMismatch
      ensures res.Ok? ==> NearestPicks(q.data, VectorsOf(nodes, members), k, picks)
      ensures res.Ok? ==> |res.value| == |picks| && forall t :: 0 <= t < |picks| ==> res.value[t] == nodes[members[picks[t]]].data
    {
      var base: seq<Vector> := [];
      for i := 0 to |members|
        invariant |base| == i && forall j :: 0 <= j < i ==> base[j] == nodes[members[j]].data
      {
        base := base + [nodes[members[i]].data];
      }
      assert base == VectorsOf(nodes, members);
      res, picks := KnnSearchBruteForce(q.data, base, k);
    }
  }

  /**
   * What the layer lists of a valid index hold: layer 0 is every node in
   * insertion order, layer l exactly the nodes of level >= l, no node lies
   * above the top layer, and the top layer holds the entry point.
   */
  lemma GraphLayers(ns: seq<Node>, ep: nat, graph: seq<seq<nat>>)
    requires EntryOk(ns, Some(ep)) && |graph| == ns[ep].level + 1
    requires forall l :: 0 <= l < |graph| ==> graph[l] == Members(ns, |ns|, l)
    ensures graph[0] == Range(|ns|)
    ensures forall l, x: nat :: 0 <= l < |graph| ==> (x in graph[l] <==> x < |ns| && ns[x].level >= l)
    ensures forall i :: 0 <= i < |ns| ==> ns[i].level < |graph|
    ensures ep in graph[|graph| - 1]
  {
    LayerZeroIsAll(ns, |ns|);
    forall l | 0 <= l < |graph| ensures forall x: nat :: x in graph[l] <==> x < |ns| && ns[x].level >= l {
      MembersExact(ns, |ns|, l);
    }
  }

  /** The dimension every vector must share: the first stored one's, or else the first input's. */
  function Dim(n0: seq<Node>, input: seq<Vector>): (d: nat)
  {
    if n0 != [] then |n0[0].data| else if input != [] then |input[0]| else 0
  }

  /** Every input vector has the index's dimension. */
  predicate UniformDim(n0: seq<Node>, input: seq<Vector>)
  {
    forall i :: 0 <= i < |input| ==> |input[i]| == Dim(n0, input)
  }

  /**
   * `ns` is `n0` followed by one node per input vector, in order, each with
   * that vector and its level (0 for the very first node of the index),
   * the old nodes keeping their vectors and levels.
   */
  ghost predicate Appended(n0: seq<Node>, ns: seq<Node>, input: seq<Vector>, levels: seq<nat>)
  {
    |ns| == |n0| + |input| && |input| <= |levels| &&
    (forall i :: 0 <= i < |n0| ==> ns[i].data == n0[i].data && ns[i].level == n0[i].level) &&
    forall j :: 0 <= j < |input| ==>
      ns[|n0| + j].data == input[j] && ns[|n0| + j].level == if |n0| + j == 0 then 0 else levels[j]
  }

  /** A later node's insertion appends it with its own level. */
  lemma ShapeAppends(n0: seq<Node>, ns: seq<Node>, q: nat, v: Vector, lNew: nat)
    requires Shape(n0, ns, q, v, lNew) && q > 0
    ensures Appended(n0, ns, [v], [lNew])
  {
  }

  /** Appending one more node, as AddNode does, extends an Appended store by the next input. */
  lemma AppendedStep(n0: seq<Node>, n1: seq<Node>, ns: seq<Node>, input: seq<Vector>, levels: seq<nat>, i: nat)
    requires i < |input| <= |levels|
    requires Appended(n0, n1, input[..i], levels)
    requires Appended(n1, ns, [input[i]], [levels[i]])
    ensures Appended(n0, ns, input[..i + 1], levels)
  {
    var xs := input[..i + 1];
    forall j | 0 <= j < |xs|
      ensures ns[|n0| + j].data == xs[j] && ns[|n0| + j].level == if |n0| + j == 0 then 0 else levels[j]
    {
      if j < i {
        assert ns[|n0| + j].data == n1[|n0| + j].data && ns[|n0| + j].level == n1[|n0| + j].level;
        assert input[..i][j] == xs[j];
      } else {
        assert ns[|n1| + 0].data == [input[i]][0];
      }
    }
  }
}
