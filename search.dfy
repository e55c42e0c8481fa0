/**
 * The layer search of the index as a specification over the node store:
 * its loop invariant, the step lemmas the search method relies on, and what
 * a finished search returns.
 */
module LayerSearch {
  import opened Base
  import opened PQueue
  import opened Arena

  /** The indices below `n` as a set. */
  ghost function Below(n: nat): (s: set<nat>)
    ensures forall i :: i in s <==> 0 <= i < n
    ensures |s| == n
  {
    if n == 0 then {} else Below(n - 1) + {n - 1}
  }

  /**
   * What one layer search returns: between 1 and max(1, ef) distinct nodes of
   * level >= lc, each reachable from the entry node over layer-lc edges, in
   * queue order (keys are negated distances), so nearest first; the nearest
   * is at least as near to `q` as the entry node; and the result is closed
   * (NoNearerNeighbour).
   */
  ghost predicate LayerResult(ns: seq<Node>, q: Vector, ep: nat, ef: nat, lc: nat, r: seq<Entry>)
  {
    1 <= |r| <= Max(1, ef) && Sorted(r) && DistinctIds(r) &&
    (forall y :: y in r ==>
       y.id < |ns| && ns[y.id].level >= lc && y.key == -SqDist(ns[y.id].data, q) &&
       Reachable(ns, lc, ep, y.id)) &&
    (forall i, j :: 0 <= i < j < |r| && r[i].id < |ns| && r[j].id < |ns| ==>
       SqDist(ns[r[i].id].data, q) <= SqDist(ns[r[j].id].data, q)) &&
    ep < |ns| && r[0].id < |ns| && SqDist(ns[r[0].id].data, q) <= SqDist(ns[ep].data, q) &&
    NoNearerNeighbour(ns, q, lc, r)
  }

  /**
   * No layer-`lc` neighbour of a node of `r` that `r` leaves out is strictly
   * nearer to `q` than the farthest node of `r` (its last).
   */
  ghost predicate NoNearerNeighbour(ns: seq<Node>, q: Vector, lc: nat, r: seq<Entry>)
  {
    r != [] && r[|r| - 1].id < |ns| &&
    forall y, e :: y in r && y.id < |ns| && lc < |ns[y.id].neighbors| && e in ns[y.id].neighbors[lc] && e < |ns| ==>
      e in IdSet(r) || SqDist(ns[e].data, q) >= SqDist(ns[r[|r| - 1].id].data, q)
  }

  /**
   * With a result list of one, the search is greedy hill-climbing: it ends
   * at a node at least as near as the entry node, none of whose layer-`lc`
   * neighbours is strictly nearer.
   */
  lemma GreedyLocalMinimum(ns: seq<Node>, q: Vector, ep: nat, lc: nat, r: seq<Entry>)
    requires WellFormed(ns) && LayerResult(ns, q, ep, 1, lc, r)
    ensures |r| == 1 && r[0].id < |ns| && ep < |ns|
    ensures SqDist(ns[r[0].id].data, q) <= SqDist(ns[ep].data, q)
    ensures lc < |ns[r[0].id].neighbors|
    ensures forall e :: e in ns[r[0].id].neighbors[lc] ==> e < |ns| && SqDist(ns[e].data, q) >= SqDist(ns[r[0].id].data, q)
  {
    assert r[0] in r;
    forall e | e in ns[r[0].id].neighbors[lc]
      ensures e < |ns| && SqDist(ns[e].data, q) >= SqDist(ns[r[0].id].data, q)
    {
      RefValid(ns, r[0].id, lc, e);
      if e in IdSet(r) {
        var y :| y in r && y.id == e;
        assert y == r[0];
      }
    }
  }

  /** A search result depends only on the vectors, levels and layer-`lc` lists of the store. */
  lemma LayerResultAlike(a: seq<Node>, b: seq<Node>, q: Vector, ep: nat, ef: nat, lc: nat, r: seq<Entry>)
    requires SameAtLayer(a, b, lc) && LayerResult(a, q, ep, ef, lc, r)
    ensures LayerResult(b, q, ep, ef, lc, r)
  {
    forall y | y in r ensures Reachable(b, lc, ep, y.id) {
      ReachableAlike(a, b, lc, ep, y.id);
    }
    NoNearerAlike(a, b, q, lc, r);
  }

  /** Closure of a result depends only on the vectors and layer-`lc` lists of the store. */
  lemma NoNearerAlike(a: seq<Node>, b: seq<Node>, q: Vector, lc: nat, r: seq<Entry>)
    requires SameAtLayer(a, b, lc) && NoNearerNeighbour(a, q, lc, r)
    ensures NoNearerNeighbour(b, q, lc, r)
  {
    forall y, e | y in r && y.id < |b| && lc < |b[y.id].neighbors| && e in b[y.id].neighbors[lc] && e < |b|
      ensures e in IdSet(r) || SqDist(b[e].data, q) >= SqDist(b[r[|r| - 1].id].data, q)
    {
      assert a[y.id].neighbors[lc] == b[y.id].neighbors[lc];
    }
  }

  /** The fixed context of a layer search: a well-formed store and an entry node of the query's dimension. */
  ghost predicate SearchCtx(ns: seq<Node>, q: Vector, ep: nat, lc: nat)
  {
    WellFormed(ns) && ep < |ns| && |q| == |ns[ep].data|
  }

  /** Every visited node is a node of level >= lc reachable from `ep`. */
  ghost predicate VisitedOk(ns: seq<Node>, ep: nat, lc: nat, visited: set<nat>)
  {
    forall v :: v in visited ==> v < |ns| && ns[v].level >= lc && Reachable(ns, lc, ep, v)
  }

  /** The candidate queue holds visited nodes keyed by negated distance. */
  ghost predicate CandidatesOk(ns: seq<Node>, q: Vector, visited: set<nat>, candidates: seq<Entry>)
    requires forall v :: v in visited ==> v < |ns|
  {
    Sorted(candidates) &&
    (forall y :: y in candidates ==> y.id in visited && y.key == -SqDist(ns[y.id].data, q))
  }

  /** The result queue holds between 1 and max(1, ef) distinct visited nodes keyed by distance. */
  ghost predicate ResultsOk(ns: seq<Node>, q: Vector, ef: nat, visited: set<nat>, w: seq<Entry>)
    requires forall v :: v in visited ==> v < |ns|
  {
    Sorted(w) && 1 <= |w| <= Max(1, ef) && DistinctIds(w) &&
    (forall y :: y in w ==> y.id in visited && y.key == SqDist(ns[y.id].data, q))
  }

  /** The loop invariant of the layer search, over the (unchanging) store. */
  ghost predicate SearchInv(ns: seq<Node>, q: Vector, ep: nat, ef: nat, lc: nat,
                            visited: set<nat>, candidates: seq<Entry>, w: seq<Entry>)
  {
    SearchCtx(ns, q, ep, lc) && VisitedOk(ns, ep, lc, visited) &&
    CandidatesOk(ns, q, visited, candidates) && ResultsOk(ns, q, ef, visited, w)
  }

  /** The nearest kept result (the queue's last) is at least as near to `q` as the entry node. */
  ghost predicate NearAsEntry(ns: seq<Node>, q: Vector, ep: nat, w: seq<Entry>)
  {
    ep < |ns| && w != [] && w[|w| - 1].key <= SqDist(ns[ep].data, q)
  }

  /**
   * A visited node the result queue does not hold was never kept or was
   * dropped: the queue is full, and the node is no nearer than the farthest
   * kept result.
   */
  ghost predicate DroppedFar(ns: seq<Node>, q: Vector, ef: nat, visited: set<nat>, w: seq<Entry>)
  {
    w != [] &&
    forall v :: v in visited && v !in IdSet(w) ==> |w| >= ef && v < |ns| && SqDist(ns[v].data, q) >= w[0].key
  }

  /** Every layer-`lc` neighbour of an expanded node has been visited. */
  ghost predicate Expanded(ns: seq<Node>, lc: nat, visited: set<nat>, done: set<nat>)
  {
    forall c, e :: c in done && c < |ns| && lc < |ns[c].neighbors| && e in ns[c].neighbors[lc] ==> e in visited
  }

  /** Every kept result is still a candidate or is settled (expanded, or being expanded). */
  ghost predicate Covered(w: seq<Entry>, candidates: seq<Entry>, settled: set<nat>)
  {
    forall y :: y in w ==> y.id in IdSet(candidates) || y.id in settled
  }

  /**
   * What the search has explored, beside SearchInv: the kept results are at
   * least as near as the entry node, dropped nodes are far, the nodes of
   * `done` are expanded, and every kept result is a candidate or settled.
   */
  ghost predicate Explored(ns: seq<Node>, q: Vector, ep: nat, ef: nat, lc: nat, visited: set<nat>, done: set<nat>,
                           candidates: seq<Entry>, w: seq<Entry>, settled: set<nat>)
  {
    NearAsEntry(ns, q, ep, w) && DroppedFar(ns, q, ef, visited, w) &&
    Expanded(ns, lc, visited, done) && Covered(w, candidates, settled)
  }

  /** Nothing is explored yet when the search starts from the entry node alone. */
  lemma ExploredStart(ns: seq<Node>, q: Vector, ep: nat, ef: nat, lc: nat)
    requires ep < |ns|
    ensures var d := SqDist(ns[ep].data, q);
            Explored(ns, q, ep, ef, lc, {ep}, {}, [Entry(-d, ep)], [Entry(d, ep)], {})
  {
    var d := SqDist(ns[ep].data, q);
    assert Entry(d, ep) in [Entry(d, ep)] && Entry(-d, ep) in [Entry(-d, ep)];
    assert ep in IdSet([Entry(d, ep)]) && ep in IdSet([Entry(-d, ep)]);
  }

  /** Popping a candidate settles it. */
  lemma ExploredPop(ns: seq<Node>, q: Vector, ep: nat, ef: nat, lc: nat, visited: set<nat>, done: set<nat>,
                    candidates: seq<Entry>, w: seq<Entry>)
    requires Explored(ns, q, ep, ef, lc, visited, done, candidates, w, done) && candidates != []
    ensures Explored(ns, q, ep, ef, lc, visited, done, candidates[1..], w, done + {candidates[0].id})
  {
    forall y | y in w ensures y.id in IdSet(candidates[1..]) || y.id in done + {candidates[0].id} {
      if y.id in IdSet(candidates) && y.id != candidates[0].id {
        var z :| z in candidates && z.id == y.id;
        var i :| 0 <= i < |candidates| && candidates[i] == z;
        assert candidates[1..][i - 1] == z;
      }
    }
  }

  /** Once all its neighbours are visited, the settled candidate `c` counts as expanded. */
  lemma ExploredExpand(ns: seq<Node>, q: Vector, ep: nat, ef: nat, lc: nat, visited: set<nat>, done: set<nat>,
                       candidates: seq<Entry>, w: seq<Entry>, c: nat)
    requires Explored(ns, q, ep, ef, lc, visited, done, candidates, w, done + {c})
    requires c < |ns| && lc < |ns[c].neighbors| && forall e :: e in ns[c].neighbors[lc] ==> e in visited
    ensures Explored(ns, q, ep, ef, lc, visited, done + {c}, candidates, w, done + {c})
  {
  }

  /**
   * The stop rule: when the nearest candidate is farther than the farthest
   * kept result, no kept result is still a candidate, so all are expanded.
   */
  lemma ExploredBreak(ns: seq<Node>, q: Vector, ep: nat, ef: nat, lc: nat, visited: set<nat>, done: set<nat>,
                      candidates: seq<Entry>, w: seq<Entry>)
    requires SearchInv(ns, q, ep, ef, lc, visited, candidates, w) && Covered(w, candidates, done)
    requires candidates != [] && -candidates[0].key > w[0].key
    ensures forall y :: y in w ==> y.id in done
  {
    forall y | y in w ensures y.id in done {
      var i :| 0 <= i < |w| && w[i] == y;
      assert y.key <= w[0].key by {
        if i > 0 { assert Above(w[0], w[i]); }
      }
      forall z | z in candidates ensures z.id != y.id {
        var j :| 0 <= j < |candidates| && candidates[j] == z;
        assert z.key <= candidates[0].key by {
          if j > 0 { assert Above(candidates[0], candidates[j]); }
        }
      }
    }
  }

  /** Visiting a new node, kept or not, keeps what is explored. */
  lemma ExploredVisit(ns: seq<Node>, q: Vector, ep: nat, ef: nat, lc: nat, e: nat, visited: set<nat>, done: set<nat>,
                      candidates: seq<Entry>, w: seq<Entry>, settled: set<nat>)
    requires SearchInv(ns, q, ep, ef, lc, visited, candidates, w)
    requires Explored(ns, q, ep, ef, lc, visited, done, candidates, w, settled)
    requires e !in visited && e < |ns|
    ensures Explored(ns, q, ep, ef, lc, visited + {e}, done, AfterVisit(ns, q, ef, e, candidates, w).0,
                     AfterVisit(ns, q, ef, e, candidates, w).1, settled)
  {
    assert w[0] in w;
    if !KeepsNew(ns, q, ef, e, w) {
      assert |w| >= ef && SqDist(ns[e].data, q) >= w[0].key;
    } else if |w| < ef {
      ExploredKeepRoom(ns, q, ep, ef, lc, e, visited, done, candidates, w, settled);
    } else {
      ExploredKeepFull(ns, q, ep, ef, lc, e, visited, done, candidates, w, settled);
    }
  }

  /** A kept node's entries join both queues; the candidates gain its index. */
  lemma KeptCovered(w: seq<Entry>, candidates: seq<Entry>, settled: set<nat>, w': seq<Entry>, ce: Entry, x: Entry)
    requires Covered(w, candidates, settled) && ce.id == x.id
    requires forall y :: y in w' ==> y in w || y == x
    ensures Covered(w', Push(candidates, ce), settled)
  {
    IdSetPush(candidates, ce);
  }

  /** Keeping a node while the result queue has room: nothing was ever dropped, and nothing is dropped now. */
  lemma ExploredKeepRoom(ns: seq<Node>, q: Vector, ep: nat, ef: nat, lc: nat, e: nat, visited: set<nat>, done: set<nat>,
                         candidates: seq<Entry>, w: seq<Entry>, settled: set<nat>)
    requires Sorted(w) && Explored(ns, q, ep, ef, lc, visited, done, candidates, w, settled)
    requires e < |ns| && |w| < ef
    ensures Explored(ns, q, ep, ef, lc, visited + {e}, done, Push(candidates, Entry(-SqDist(ns[e].data, q), e)),
                     Cut(Push(w, Entry(SqDist(ns[e].data, q), e)), ef), settled)
  {
    var d := SqDist(ns[e].data, q);
    var x := Entry(d, e);
    var p := Push(w, x);
    assert Cut(p, ef) == p;
    LastAfterPush(w, x);
    IdSetPush(w, x);
    DroppedRoom(ns, q, ef, visited, w, p, e);
    KeptCovered(w, candidates, settled, p, Entry(-d, e), x);
    ExpandedGrow(ns, lc, visited, done, e);
  }

  /** Visiting one more node keeps the expanded nodes expanded. */
  lemma ExpandedGrow(ns: seq<Node>, lc: nat, visited: set<nat>, done: set<nat>, e: nat)
    requires Expanded(ns, lc, visited, done)
    ensures Expanded(ns, lc, visited + {e}, done)
  {
  }

  /** With room in the result queue every visited node is kept, and stays kept after a push. */
  lemma DroppedRoom(ns: seq<Node>, q: Vector, ef: nat, visited: set<nat>, w: seq<Entry>, p: seq<Entry>, e: nat)
    requires DroppedFar(ns, q, ef, visited, w) && |w| < ef
    requires p != [] && IdSet(p) == IdSet(w) + {e}
    ensures DroppedFar(ns, q, ef, visited + {e}, p)
  {
    forall v | v in visited + {e} ensures v in IdSet(p) {
      if v != e { assert v in IdSet(w); }
    }
  }

  /**
   * Keeping a node when the result queue is full: the node is nearer than
   * the farthest result, which is dropped; the new farthest is no farther.
   */
  lemma ExploredKeepFull(ns: seq<Node>, q: Vector, ep: nat, ef: nat, lc: nat, e: nat, visited: set<nat>, done: set<nat>,
                         candidates: seq<Entry>, w: seq<Entry>, settled: set<nat>)
    requires Sorted(w) && Explored(ns, q, ep, ef, lc, visited, done, candidates, w, settled)
    requires w[0].id < |ns| && w[0].key == SqDist(ns[w[0].id].data, q)
    requires e < |ns| && |w| >= ef && SqDist(ns[e].data, q) < w[0].key
    ensures Explored(ns, q, ep, ef, lc, visited + {e}, done, Push(candidates, Entry(-SqDist(ns[e].data, q), e)),
                     Cut(Push(w, Entry(SqDist(ns[e].data, q), e)), ef), settled)
  {
    var d := SqDist(ns[e].data, q);
    var x := Entry(d, e);
    var p := Push(w, x);
    PushBelowHead(w, x);
    var w' := p[1..];
    assert Cut(p, ef) == w';
    LastAfterPush(w, x);
    assert w'[|w'| - 1] == p[|w|];
    DropHead(w, x, p);
    assert w'[0].key <= w[0].key by { assert Above(p[0], p[1]); }
    DroppedFull(ns, q, ef, visited, w, w', e);
    KeptCovered(w, candidates, settled, w', Entry(-d, e), x);
    ExpandedGrow(ns, lc, visited, done, e);
  }

  /** Behind the kept head of a push come the rest of the queue and the new element. */
  lemma DropHead(w: seq<Entry>, x: Entry, p: seq<Entry>)
    requires w != [] && |p| == |w| + 1 && multiset(p[1..]) == multiset(w[1..]) + multiset{x}
    ensures forall y :: y in p[1..] ==> y in w || y == x
    ensures x.id in IdSet(p[1..])
    ensures forall v :: v in IdSet(w) ==> v in IdSet(p[1..]) || v == w[0].id
  {
    assert x in multiset(p[1..]);
    assert x in p[1..];
    forall y | y in p[1..] ensures y in w || y == x {
      assert y in multiset(p[1..]);
      if y != x {
        assert y in multiset(w[1..]);
        assert y in w[1..];
      }
    }
    forall v | v in IdSet(w) ensures v in IdSet(p[1..]) || v == w[0].id {
      var y :| y in w && y.id == v;
      var i :| 0 <= i < |w| && w[i] == y;
      if i > 0 {
        assert y in w[1..];
        assert y in multiset(p[1..]);
      }
    }
  }

  /** Dropping the farthest result for a nearer one keeps every node outside the queue far. */
  lemma DroppedFull(ns: seq<Node>, q: Vector, ef: nat, visited: set<nat>, w: seq<Entry>, w': seq<Entry>, e: nat)
    requires DroppedFar(ns, q, ef, visited, w) && w[0].id < |ns| && w[0].key == SqDist(ns[w[0].id].data, q)
    requires w' != [] && |w'| == |w| >= ef && w'[0].key <= w[0].key && e in IdSet(w')
    requires forall v :: v in IdSet(w) ==> v in IdSet(w') || v == w[0].id
    ensures DroppedFar(ns, q, ef, visited + {e}, w')
  {
  }

  /** A new neighbour `e` of a visited node is a node of the query's dimension, reachable from `ep`. */
  lemma VisitNew(ns: seq<Node>, q: Vector, ep: nat, lc: nat, c: nat, e: nat, visited: set<nat>)
    requires SearchCtx(ns, q, ep, lc) && VisitedOk(ns, ep, lc, visited)
    requires c in visited && lc < |ns[c].neighbors| && e in ns[c].neighbors[lc]
    ensures e < |ns| && |ns[e].data| == |q|
    ensures VisitedOk(ns, ep, lc, visited + {e})
  {
    RefValid(ns, c, lc, e);
    ReachableStep(ns, lc, ep, c, e);
  }

  /**
   * The keep rule for a newly visited `e`: it is strictly nearer to `q` than
   * the farthest kept result `w[0]`, or fewer than `ef` results are kept.
   */
  ghost predicate KeepsNew(ns: seq<Node>, q: Vector, ef: nat, e: nat, w: seq<Entry>)
  {
    e < |ns| && w != [] && w[0].id < |ns| &&
    (SqDist(ns[e].data, q) < SqDist(ns[w[0].id].data, q) || |w| < ef)
  }

  /**
   * The queues after visiting `e`: when the keep rule holds, `e` is pushed
   * as a candidate (negated distance) and as a result (distance), and the
   * farthest result is dropped beyond `ef`; otherwise nothing changes.
   */
  ghost function AfterVisit(ns: seq<Node>, q: Vector, ef: nat, e: nat, candidates: seq<Entry>, w: seq<Entry>)
    : (p: (seq<Entry>, seq<Entry>))
  {
    if KeepsNew(ns, q, ef, e, w) then Kept(candidates, w, ef, e, SqDist(ns[e].data, q))
    else (candidates, w)
  }

  /** `e` at distance `d` joins the candidates and the results, the latter cut back to `ef`. */
  function Kept(candidates: seq<Entry>, w: seq<Entry>, ef: nat, e: nat, d: real): (p: (seq<Entry>, seq<Entry>))
  {
    (Push(candidates, Entry(-d, e)), Cut(Push(w, Entry(d, e)), ef))
  }

  /** Visiting a new node, kept or not, preserves the invariant. */
  lemma VisitStep(ns: seq<Node>, q: Vector, ep: nat, ef: nat, lc: nat, e: nat,
                  visited: set<nat>, candidates: seq<Entry>, w: seq<Entry>)
    requires SearchInv(ns, q, ep, ef, lc, visited, candidates, w)
    requires e !in visited && VisitedOk(ns, ep, lc, visited + {e})
    ensures var p := AfterVisit(ns, q, ef, e, candidates, w);
            SearchInv(ns, q, ep, ef, lc, visited + {e}, p.0, p.1) && |p.0| <= |candidates| + 1
  {
    if KeepsNew(ns, q, ef, e, w) {
      VisitKeep(ns, q, ep, ef, lc, e, visited, candidates, w);
    } else {
      VisitSkip(ns, q, ep, ef, lc, e, visited, candidates, w);
    }
  }

  /** The keep rule, evaluated on the two measured distances. */
  lemma KeepRule(ns: seq<Node>, q: Vector, ef: nat, e: nat, w: seq<Entry>, de: real, df: real)
    requires e < |ns| && w != [] && w[0].id < |ns|
    requires de == SqDist(ns[e].data, q) && df == SqDist(ns[w[0].id].data, q)
    ensures KeepsNew(ns, q, ef, e, w) <==> de < df || |w| < ef
  {
  }

  /** Marking a node visited without keeping it preserves the invariant. */
  lemma VisitSkip(ns: seq<Node>, q: Vector, ep: nat, ef: nat, lc: nat, e: nat,
                  visited: set<nat>, candidates: seq<Entry>, w: seq<Entry>)
    requires SearchInv(ns, q, ep, ef, lc, visited, candidates, w)
    requires VisitedOk(ns, ep, lc, visited + {e})
    ensures SearchInv(ns, q, ep, ef, lc, visited + {e}, candidates, w)
  {
    var visited' := visited + {e};
    assert CandidatesOk(ns, q, visited', candidates);
    assert ResultsOk(ns, q, ef, visited', w);
  }

  /**
   * Keeping a newly visited node: it joins the candidates and the result
   * list, whose farthest element is dropped when the list exceeds `ef`.
   */
  lemma VisitKeep(ns: seq<Node>, q: Vector, ep: nat, ef: nat, lc: nat, e: nat,
                  visited: set<nat>, candidates: seq<Entry>, w: seq<Entry>)
    requires SearchInv(ns, q, ep, ef, lc, visited, candidates, w)
    requires e !in visited && VisitedOk(ns, ep, lc, visited + {e})
    ensures e < |ns|
    ensures SearchInv(ns, q, ep, ef, lc, visited + {e},
                      Push(candidates, Entry(-SqDist(ns[e].data, q), e)),
                      Cut(Push(w, Entry(SqDist(ns[e].data, q), e)), ef))
  {
    var de := SqDist(ns[e].data, q);
    CandidatesPush(ns, q, visited, candidates, e, de);
    ResultsPush(ns, q, ef, visited, w, e, de);
  }

  /** A newly visited node joins the candidate queue with its negated distance. */
  lemma CandidatesPush(ns: seq<Node>, q: Vector, visited: set<nat>, candidates: seq<Entry>, e: nat, de: real)
    requires e < |ns| && forall v :: v in visited ==> v < |ns|
    requires CandidatesOk(ns, q, visited, candidates) && de == SqDist(ns[e].data, q)
    ensures CandidatesOk(ns, q, visited + {e}, Push(candidates, Entry(-de, e)))
  {
  }

  /** A newly visited node joins the result queue, cut back to `ef`. */
  lemma ResultsPush(ns: seq<Node>, q: Vector, ef: nat, visited: set<nat>, w: seq<Entry>, e: nat, de: real)
    requires e < |ns| && forall v :: v in visited ==> v < |ns|
    requires ResultsOk(ns, q, ef, visited, w) && e !in visited && de == SqDist(ns[e].data, q)
    ensures ResultsOk(ns, q, ef, visited + {e}, Cut(Push(w, Entry(de, e)), ef))
  {
    var visited' := visited + {e};
    var ne := Entry(de, e);
    assert forall y :: y in w ==> y.id != e;
    PushDistinct(w, ne);
    var p := Push(w, ne);
    assert forall y :: y in p ==> y.id in visited' && y.key == SqDist(ns[y.id].data, q);
    if |p| > ef {
      assert forall y :: y in p[1..] ==> y in p;
    }
  }

  /** The search starts from the entry node alone. */
  lemma LayerStart(ns: seq<Node>, q: Vector, ep: nat, ef: nat, lc: nat)
    requires SearchCtx(ns, q, ep, lc) && ns[ep].level >= lc
    ensures var d := SqDist(ns[ep].data, q);
            SearchInv(ns, q, ep, ef, lc, {ep}, [Entry(-d, ep)], [Entry(d, ep)])
  {
    ReachableSelf(ns, lc, ep);
  }

  /** Popping the nearest candidate keeps the invariant; the popped node was visited. */
  lemma LayerPop(ns: seq<Node>, q: Vector, ep: nat, ef: nat, lc: nat,
                 visited: set<nat>, candidates: seq<Entry>, w: seq<Entry>)
    requires SearchInv(ns, q, ep, ef, lc, visited, candidates, w) && candidates != []
    ensures candidates[0].id in visited && w != []
    ensures SearchInv(ns, q, ep, ef, lc, visited, candidates[1..], w)
  {
    assert candidates[0] in candidates;
    assert forall y :: y in candidates[1..] ==> y in candidates;
    assert CandidatesOk(ns, q, visited, candidates[1..]);
  }

  /**
   * Reversing the final result queue gives a layer result, once every kept
   * result is expanded.
   */
  lemma LayerFinish(ns: seq<Node>, q: Vector, ep: nat, ef: nat, lc: nat, visited: set<nat>, done: set<nat>,
                    candidates: seq<Entry>, w: seq<Entry>, minW: seq<Entry>)
    requires SearchInv(ns, q, ep, ef, lc, visited, candidates, w)
    requires Explored(ns, q, ep, ef, lc, visited, done, candidates, w, done)
    requires forall y :: y in w ==> y.id in done
    requires Sorted(minW) && DistinctIds(minW) && |minW| == |w|
    requires forall y :: y in minW <==> Negated(y) in w
    ensures LayerResult(ns, q, ep, ef, lc, minW)
  {
    forall y | y in minW
      ensures y.id < |ns| && ns[y.id].level >= lc && y.key == -SqDist(ns[y.id].data, q)
      ensures Reachable(ns, lc, ep, y.id)
    {
      assert Negated(y) in w;
    }
    forall i, j | 0 <= i < j < |minW|
      ensures SqDist(ns[minW[i].id].data, q) <= SqDist(ns[minW[j].id].data, q)
    {
      assert minW[i] in minW && minW[j] in minW;
    }
    FinishNear(ns, q, ep, ef, lc, visited, candidates, w, minW);
    FinishClosed(ns, q, ep, ef, lc, visited, done, candidates, w, minW);
  }

  /** The nearest of the reversed queue is at least as near as the entry node. */
  lemma FinishNear(ns: seq<Node>, q: Vector, ep: nat, ef: nat, lc: nat, visited: set<nat>,
                   candidates: seq<Entry>, w: seq<Entry>, minW: seq<Entry>)
    requires SearchInv(ns, q, ep, ef, lc, visited, candidates, w) && NearAsEntry(ns, q, ep, w)
    requires Sorted(minW) && |minW| == |w|
    requires forall y :: y in minW <==> Negated(y) in w
    ensures minW != [] && minW[0].id < |ns| && SqDist(ns[minW[0].id].data, q) <= SqDist(ns[ep].data, q)
  {
    var y := w[|w| - 1];
    assert y in w && Negated(Negated(y)) == y;
    var z := Negated(y);
    assert z in minW;
    var i :| 0 <= i < |minW| && minW[i] == z;
    assert minW[0].key >= z.key by {
      if i > 0 { assert Above(minW[0], minW[i]); }
    }
    assert minW[0] in minW && Negated(minW[0]) in w;
  }

  /** Every kept result expanded and every dropped node far: the reversed queue has no nearer neighbour outside it. */
  lemma FinishClosed(ns: seq<Node>, q: Vector, ep: nat, ef: nat, lc: nat, visited: set<nat>, done: set<nat>,
                     candidates: seq<Entry>, w: seq<Entry>, minW: seq<Entry>)
    requires SearchInv(ns, q, ep, ef, lc, visited, candidates, w)
    requires DroppedFar(ns, q, ef, visited, w) && Expanded(ns, lc, visited, done)
    requires forall y :: y in w ==> y.id in done
    requires |minW| == |w| && forall y :: y in minW <==> Negated(y) in w
    ensures NoNearerNeighbour(ns, q, lc, minW)
  {
    var last := minW[|minW| - 1];
    assert last in minW && Negated(last) in w;
    assert w[0] in w;
    assert SqDist(ns[last.id].data, q) <= w[0].key by {
      var i :| 0 <= i < |w| && w[i] == Negated(last);
      if i > 0 { assert Above(w[0], w[i]); }
    }
    forall y, e | y in minW && y.id < |ns| && lc < |ns[y.id].neighbors| && e in ns[y.id].neighbors[lc] && e < |ns|
      ensures e in IdSet(minW) || SqDist(ns[e].data, q) >= SqDist(ns[last.id].data, q)
    {
      assert Negated(y) in w;
      assert e in visited;
      if e in IdSet(w) {
        var z :| z in w && z.id == e;
        assert Negated(Negated(z)) == z;
        assert Negated(z) in minW;
      }
    }
  }

  /** Visiting a new node lowers the termination measure by one. */
  lemma VisitMeasure(n: nat, visited: set<nat>, e: nat)
    requires e < n && e !in visited
    ensures |Below(n) - (visited + {e})| + 1 == |Below(n) - visited|
  {
    assert Below(n) - (visited + {e}) == (Below(n) - visited) - {e};
  }
}
