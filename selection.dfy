/**
 * The scan of the heuristic neighbour selection, as a specification over
 * the store: candidates are popped nearest first and each is tested against
 * the neighbours accepted so far; rejected ones go to a discard queue from
 * which the result may be backfilled.
 */
module Selection {
  import opened Base
  import opened PQueue
  import opened Arena

  ghost predicate IdsIn(ns: seq<Node>, r: seq<nat>)
  {
    forall t :: 0 <= t < |r| ==> r[t] < |ns|
  }

  /** The vectors of the listed nodes, in order. */
  function VectorsOf(ns: seq<Node>, r: seq<nat>): (vs: seq<Vector>)
    requires IdsIn(ns, r)
  {
    seq(|r|, t requires 0 <= t < |r| => ns[r[t]].data)
  }

  ghost predicate EntriesIn(ns: seq<Node>, h: seq<Entry>)
  {
    forall y :: y in h ==> y.id < |ns|
  }

  /**
   * The acceptance test as written: no accepted `rr` lies at distance less
   * than `de` from `e`, where `de` is the key the candidate was popped with.
   */
  ghost predicate PassesTest(ns: seq<Node>, r: seq<nat>, e: nat, de: real)
    requires IdsIn(ns, r) && e < |ns|
  {
    forall t :: 0 <= t < |r| ==> !(SqDist(ns[r[t]].data, ns[e].data) < de)
  }

  /** Move discarded candidates to the result, top of the discard queue first, while fewer than `m`. */
  ghost function Backfill(ns: seq<Node>, r: seq<nat>, wd: seq<Entry>, m: nat): (p: (seq<nat>, seq<Entry>))
    requires IdsIn(ns, r) && EntriesIn(ns, wd)
    ensures IdsIn(ns, p.0) && EntriesIn(ns, p.1)
    decreases |wd|
  {
    if wd == [] || |r| >= m then (r, wd)
    else
      assert wd[0] in wd;
      assert forall y :: y in wd[1..] ==> y in wd;
      Backfill(ns, r + [wd[0].id], wd[1..], m)
  }

  /**
   * The scan loop: `w` is the candidate queue (keys are negated distances to
   * the query), `r` the accepted neighbours, `wd` the discard queue.
   */
  ghost function Scan(ns: seq<Node>, w: seq<Entry>, r: seq<nat>, wd: seq<Entry>, m: nat, keep: bool): (res: seq<nat>)
    requires EntriesIn(ns, w) && IdsIn(ns, r) && EntriesIn(ns, wd)
    ensures IdsIn(ns, res)
    decreases |w|
  {
    if w == [] || |r| >= m then r
    else
      var e := w[0].id;
      var de := w[0].key;
      var accept := r == [] || PassesTest(ns, r, e, de);
      var r1 := if accept then r + [e] else r;
      var wd1 := if accept then wd else Push(wd, Entry(-de, e));
      assert w[0] in w;
      assert forall y :: y in w[1..] ==> y in w;
      var p := if keep then Backfill(ns, r1, wd1, m) else (r1, wd1);
      Scan(ns, w[1..], p.0, p.1, m, keep)
  }

  /** One step of the scan when the head candidate passes the test and nothing was discarded. */
  lemma ScanAcceptStep(ns: seq<Node>, w: seq<Entry>, r: seq<nat>, m: nat, keep: bool)
    requires EntriesIn(ns, w) && IdsIn(ns, r)
    requires w != [] && |r| < m
    requires w[0].id < |ns| && PassesTest(ns, r, w[0].id, w[0].key)
    ensures EntriesIn(ns, w[1..]) && IdsIn(ns, r + [w[0].id])
    ensures Scan(ns, w, r, [], m, keep) == Scan(ns, w[1..], r + [w[0].id], [], m, keep)
  {
    assert forall y :: y in w[1..] ==> y in w;
    assert Backfill(ns, r + [w[0].id], [], m) == (r + [w[0].id], []);
  }

  /**
   * With keys that are negated distances the test never rejects: the scan
   * returns the first min(m, |w|) candidates in pop order, whatever `keep` is.
   */
  lemma {:induction false} ScanAcceptsAll(ns: seq<Node>, w: seq<Entry>, r: seq<nat>, m: nat, keep: bool)
    requires EntriesIn(ns, w) && IdsIn(ns, r)
    requires forall y :: y in w ==> y.key <= 0.0
    requires |r| <= m
    ensures Scan(ns, w, r, [], m, keep) == r + Ids(w[..Min(m - |r|, |w|)])
    decreases |w|
  {
    if w != [] && |r| < m {
      var e := w[0].id;
      assert w[0] in w;
      NonPositivePasses(ns, r, e, w[0].key);
      ScanAcceptStep(ns, w, r, m, keep);
      assert forall y :: y in w[1..] ==> y in w;
      ScanAcceptsAll(ns, w[1..], r + [e], m, keep);
      IdsHead(w, Min(m - |r|, |w|));
    }
  }

  /** No distance lies below a key that is not positive. */
  lemma NonPositivePasses(ns: seq<Node>, r: seq<nat>, e: nat, de: real)
    requires IdsIn(ns, r) && e < |ns| && de <= 0.0
    ensures PassesTest(ns, r, e, de)
  {
    forall t | 0 <= t < |r| ensures !(SqDist(ns[r[t]].data, ns[e].data) < de) {
      SqDistNonNegative(ns[r[t]].data, ns[e].data);
    }
  }

  /** The indices of a non-empty prefix start with the head's. */
  lemma IdsHead(w: seq<Entry>, k: nat)
    requires 1 <= k <= |w|
    ensures Ids(w[..k]) == [w[0].id] + Ids(w[1..][..k - 1])
  {
    assert w[1..][..k - 1] == w[1..k];
  }

  /** The nodes `c` keyed by their distance to `q`, as the simple selection pushes them. */
  ghost function Keyed(ns: seq<Node>, q: Vector, c: seq<nat>): (h: seq<Entry>)
    requires IdsIn(ns, c)
  {
    seq(|c|, i requires 0 <= i < |c| => Entry(SqDist(ns[c[i]].data, q), c[i]))
  }

  /**
   * The top-k filter invariant: every element seen so far is kept, or the
   * queue is full and the element lies above (is farther than) everything kept.
   */
  ghost predicate TopK(w: seq<Entry>, xs: seq<Entry>, bound: nat)
  {
    forall i :: 0 <= i < |xs| ==> xs[i] in w || (Dominated(xs[i], w) && |w| == bound)
  }

  /** One push-and-pop step of the bounded queue keeps the top-k invariant. */
  lemma TopKStep(w: seq<Entry>, xs: seq<Entry>, e: Entry, bound: nat)
    requires Sorted(w) && |w| <= bound && TopK(w, xs, bound)
    ensures TopK(Cut(Push(w, e), bound), xs + [e], bound)
  {
    var w' := Cut(Push(w, e), bound);
    forall i | 0 <= i < |xs + [e]|
      ensures (xs + [e])[i] in w' || (Dominated((xs + [e])[i], w') && |w'| == bound)
    {
      var x := (xs + [e])[i];
      if i < |xs| { assert x == xs[i]; }
      BoundedPush(w, e, bound, x);
      if x !in w' {
        assert |Push(w, e)| > bound;
      }
    }
  }

  /**
   * `r` is a choice of the `m` members of `c` nearest to `q`: exactly
   * min(m, |c|) members of `c`, none more often than in `c`, farthest first, and no omitted member
   * strictly nearer than a chosen one.
   */
  ghost predicate NearestSelection(ns: seq<Node>, q: Vector, c: seq<nat>, m: nat, r: seq<nat>)
  {
    |r| == Min(m, |c|) && IdsIn(ns, r) && IdsIn(ns, c) &&
    (forall t :: 0 <= t < |r| ==> r[t] in c) && multiset(r) <= multiset(c) &&
    (forall i, j :: 0 <= i < j < |r| ==> SqDist(ns[r[i]].data, q) >= SqDist(ns[r[j]].data, q)) &&
    (forall i :: 0 <= i < |c| ==>
       c[i] in r || forall t :: 0 <= t < |r| ==> SqDist(ns[c[i]].data, q) >= SqDist(ns[r[t]].data, q))
  }

  /** The bounded heap of the simple selection after the first `k` members of `c` were pushed. */
  ghost predicate SimpleInv(ns: seq<Node>, q: Vector, c: seq<nat>, m: nat, k: nat, w: seq<Entry>)
  {
    k <= |c| && IdsIn(ns, c) && Sorted(w) && |w| == Min(m, k) &&
    TopK(w, Keyed(ns, q, c)[..k], m) &&
    (forall y :: y in w ==> y in Keyed(ns, q, c)) &&
    multiset(Ids(w)) <= multiset(c[..k])
  }

  /** Pushing member `k` and popping back to `m` entries keeps the simple selection's invariant. */
  lemma SimpleStep(ns: seq<Node>, q: Vector, c: seq<nat>, m: nat, k: nat, w: seq<Entry>)
    requires k < |c| && SimpleInv(ns, q, c, m, k, w)
    ensures SimpleInv(ns, q, c, m, k + 1, Cut(Push(w, Keyed(ns, q, c)[k]), m))
  {
    var kc := Keyed(ns, q, c);
    var e := kc[k];
    TopKStep(w, kc[..k], e, m);
    PrefixSnoc(kc, k);
    var p := Push(w, e);
    var w' := Cut(p, m);
    forall y | y in w' ensures y in kc {
      assert multiset(w')[y] > 0;
    }
    IdsPush(w, e);
    IdsCut(p, m);
    PrefixSnoc(c, k);
    SubBagAdd(multiset(Ids(w)), multiset(c[..k]), multiset(Ids(p)), multiset(Ids(w')), c[k]);
  }

  /** A finished top-k filter over `c` holds, in pop order, a nearest selection of `c`. */
  lemma TopKIds(ns: seq<Node>, q: Vector, c: seq<nat>, w: seq<Entry>, bound: nat)
    requires IdsIn(ns, c)
    requires Sorted(w) && TopK(w, Keyed(ns, q, c), bound) && |w| == Min(bound, |c|)
    requires forall y :: y in w ==> y in Keyed(ns, q, c)
    requires multiset(Ids(w)) <= multiset(c)
    ensures NearestSelection(ns, q, c, bound, Ids(w))
  {
    var kc := Keyed(ns, q, c);
    var r := Ids(w);
    assert forall t :: 0 <= t < |w| ==> w[t] in kc;
    forall t | 0 <= t < |w| ensures r[t] in c && r[t] < |ns| && w[t].key == SqDist(ns[r[t]].data, q) {
      assert w[t] in kc;
      var i :| 0 <= i < |kc| && kc[i] == w[t];
    }
    forall i | 0 <= i < |c|
      ensures c[i] in r || forall t :: 0 <= t < |w| ==> SqDist(ns[c[i]].data, q) >= SqDist(ns[r[t]].data, q)
    {
      if kc[i] in w {
        var t :| 0 <= t < |w| && w[t] == kc[i];
        assert r[t] == c[i];
      } else {
        forall t | 0 <= t < |w| ensures SqDist(ns[c[i]].data, q) >= SqDist(ns[r[t]].data, q) {
          assert w[t] in w;
        }
      }
    }
  }

  /** Each vector of `base` keyed by its distance to `q`, with its position as identifier. */
  function Indexed(q: Vector, base: seq<Vector>): (h: seq<Entry>)
    ensures |h| == |base|
    ensures forall i :: 0 <= i < |base| ==> h[i] == Entry(SqDist(base[i], q), i)
  {
    seq(|base|, i requires 0 <= i < |base| => Entry(SqDist(base[i], q), i))
  }

  /**
   * `r` picks the positions of the min(k, |base|) vectors of `base` nearest
   * to `q`: distinct positions, farthest first, and no vector left out
   * strictly nearer than a picked one.
   */
  ghost predicate NearestPicks(q: Vector, base: seq<Vector>, k: nat, r: seq<nat>)
  {
    |r| == Min(k, |base|) &&
    (forall t :: 0 <= t < |r| ==> r[t] < |base|) &&
    (forall s, t :: 0 <= s < t < |r| ==> r[s] != r[t]) &&
    (forall s, t :: 0 <= s < t < |r| && r[s] < |base| && r[t] < |base| ==> SqDist(base[r[s]], q) >= SqDist(base[r[t]], q)) &&
    (forall i :: 0 <= i < |base| ==>
       i in r || forall t :: 0 <= t < |r| && r[t] < |base| ==> SqDist(base[i], q) >= SqDist(base[r[t]], q))
  }

  /** The bounded heap after the first `i` vectors of `base` have been pushed. */
  ghost predicate FilterInv(q: Vector, base: seq<Vector>, i: nat, k: nat, heap: seq<Entry>)
  {
    i <= |base| && Sorted(heap) && DistinctIds(heap) && |heap| == Min(k, i) &&
    TopK(heap, Indexed(q, base)[..i], k) &&
    forall y :: y in heap ==> y in Indexed(q, base)[..i]
  }

  /** Pushing vector `i` and popping back to `k` entries keeps the filter invariant. */
  lemma FilterStep(q: Vector, base: seq<Vector>, i: nat, k: nat, heap: seq<Entry>)
    requires i < |base| && FilterInv(q, base, i, k, heap)
    ensures FilterInv(q, base, i + 1, k, Cut(Push(heap, Indexed(q, base)[i]), k))
  {
    var kb := Indexed(q, base);
    var e := kb[i];
    TopKStep(heap, kb[..i], e, k);
    PrefixSnoc(kb, i);
    FreshPosition(kb, i, heap);
    PushDistinct(heap, e);
    CutWithin(heap, kb[..i], e, k);
  }

  /** No entry drawn from the first `i` positions carries position `i`. */
  lemma FreshPosition(kb: seq<Entry>, i: nat, heap: seq<Entry>)
    requires i < |kb| && forall j :: 0 <= j < |kb| ==> kb[j].id == j
    requires forall y :: y in heap ==> y in kb[..i]
    ensures forall y :: y in heap ==> y.id != kb[i].id
  {
    forall y | y in heap ensures y.id != kb[i].id {
      var j :| 0 <= j < i && kb[..i][j] == y;
    }
  }

  /** The bounded push keeps the queue within the elements seen. */
  lemma CutWithin(heap: seq<Entry>, xs: seq<Entry>, e: Entry, k: nat)
    requires forall y :: y in heap ==> y in xs
    ensures forall y :: y in Cut(Push(heap, e), k) ==> y in xs + [e]
  {
    var w := Cut(Push(heap, e), k);
    forall y | y in w ensures y in xs + [e] {
      assert multiset(w)[y] > 0;
    }
  }

  /** A finished top-k filter over `base` holds, in pop order, nearest picks of `base`. */
  lemma TopKPicks(q: Vector, base: seq<Vector>, w: seq<Entry>, k: nat)
    requires Sorted(w) && DistinctIds(w) && TopK(w, Indexed(q, base), k) && |w| == Min(k, |base|)
    requires forall y :: y in w ==> y in Indexed(q, base)
    ensures NearestPicks(q, base, k, Ids(w))
  {
    var kb := Indexed(q, base);
    var r := Ids(w);
    forall t | 0 <= t < |w| ensures r[t] < |base| && w[t].key == SqDist(base[r[t]], q) {
      assert w[t] in kb;
    }
    forall i | 0 <= i < |base|
      ensures i in r || forall t :: 0 <= t < |r| && r[t] < |base| ==> SqDist(base[i], q) >= SqDist(base[r[t]], q)
    {
      if kb[i] in w {
        var t :| 0 <= t < |w| && w[t] == kb[i];
        assert r[t] == i;
      } else {
        forall t | 0 <= t < |w| ensures SqDist(base[i], q) >= SqDist(base[r[t]], q) {
          assert w[t] in w;
        }
      }
    }
  }

  /**
   * `x` belongs to the heuristic's candidate pool for `c`: a member of `c`
   * or, when the candidates are extended, a layer-`lc` neighbour of one.
   */
  ghost predicate Pooled(ns: seq<Node>, c: seq<nat>, lc: nat, ext: bool, x: nat)
  {
    x in c ||
    (ext && exists i :: 0 <= i < |c| && c[i] < |ns| && lc < |ns[c[i]].neighbors| && x in ns[c[i]].neighbors[lc])
  }

  /**
   * How often the heuristic pushes `x`: once per occurrence in `c`, and
   * once if it only comes in as a neighbour of a member.
   */
  ghost function PoolCount(ns: seq<Node>, c: seq<nat>, lc: nat, ext: bool, x: nat): (n: nat)
  {
    if x in c then multiset(c)[x] else if Pooled(ns, c, lc, ext, x) then 1 else 0
  }

  /**
   * The heuristic's working queue: exactly the pooled nodes, each keyed by
   * its negated distance to `q` and pushed as often as PoolCount says, in
   * queue order (nearest first).
   */
  ghost predicate PoolOk(ns: seq<Node>, q: Vector, c: seq<nat>, lc: nat, ext: bool, pool: seq<Entry>)
  {
    Sorted(pool) && |pool| >= |c| &&
    (forall y :: y in pool ==> y.id < |ns| && y.key == -SqDist(q, ns[y.id].data)) &&
    (forall x :: x in IdSet(pool) <==> Pooled(ns, c, lc, ext, x)) &&
    (forall x :: multiset(Ids(pool))[x] == PoolCount(ns, c, lc, ext, x))
  }

  /** A pool depends only on the vectors and layer-`lc` lists of the store. */
  lemma PoolOkAlike(a: seq<Node>, b: seq<Node>, q: Vector, c: seq<nat>, lc: nat, ext: bool, pool: seq<Entry>)
    requires SameAtLayer(a, b, lc) && PoolOk(a, q, c, lc, ext, pool)
    ensures PoolOk(b, q, c, lc, ext, pool)
  {
    forall x ensures Pooled(a, c, lc, ext, x) <==> Pooled(b, c, lc, ext, x) {
      if ext && x !in c {
        if Pooled(a, c, lc, ext, x) {
          var i :| 0 <= i < |c| && c[i] < |a| && lc < |a[c[i]].neighbors| && x in a[c[i]].neighbors[lc];
          assert x in b[c[i]].neighbors[lc];
        }
        if Pooled(b, c, lc, ext, x) {
          var i :| 0 <= i < |c| && c[i] < |b| && lc < |b[c[i]].neighbors| && x in b[c[i]].neighbors[lc];
          assert x in a[c[i]].neighbors[lc];
        }
      }
    }
    assert forall x :: PoolCount(a, c, lc, ext, x) == PoolCount(b, c, lc, ext, x);
  }

  /** The seeded pool: every member of `c`, as often as it occurs there, keyed by its negated distance. */
  ghost predicate SeedInv(ns: seq<Node>, q: Vector, c: seq<nat>, k: nat, w: seq<Entry>, wset: set<nat>)
  {
    k <= |c| && Sorted(w) && |w| == k &&
    (forall y :: y in w ==> y.id < |ns| && y.key == -SqDist(q, ns[y.id].data)) &&
    wset == IdSet(w) && (forall x :: x in wset <==> x in c[..k]) &&
    multiset(Ids(w)) == multiset(c[..k])
  }

  /** Pushing member `k` of `c` with its negated distance extends the seeded pool by it. */
  lemma SeedStep(ns: seq<Node>, q: Vector, c: seq<nat>, k: nat, w: seq<Entry>, wset: set<nat>)
    requires k < |c| && c[k] < |ns| && SeedInv(ns, q, c, k, w, wset)
    ensures SeedInv(ns, q, c, k + 1, Push(w, Entry(-SqDist(q, ns[c[k]].data), c[k])), wset + {c[k]})
  {
    var e := Entry(-SqDist(q, ns[c[k]].data), c[k]);
    IdSetPush(w, e);
    IdsPush(w, e);
    assert c[..k + 1] == c[..k] + [c[k]];
  }

  /** A complete seed is the pool without extension, and the start of the extended one. */
  lemma SeedIsPool(ns: seq<Node>, q: Vector, c: seq<nat>, lc: nat, w: seq<Entry>)
    requires SeedInv(ns, q, c, |c|, w, IdSet(w))
    ensures PoolOk(ns, q, c, lc, false, w)
    ensures PartialPool(ns, q, c, lc, w, IdSet(w))
  {
    assert c[..|c|] == c;
    forall x ensures multiset(Ids(w))[x] == PoolCount(ns, c, lc, false, x) {
      if x !in c { assert multiset(c)[x] == 0; }
    }
  }

  /** Pooling a new neighbour of a member pushes it exactly once. */
  lemma PartialPoolPush(ns: seq<Node>, q: Vector, c: seq<nat>, lc: nat, w: seq<Entry>, wset: set<nat>, x: nat)
    requires PartialPool(ns, q, c, lc, w, wset)
    requires x < |ns| && x !in wset && Pooled(ns, c, lc, true, x)
    ensures PartialPool(ns, q, c, lc, Push(w, Entry(-SqDist(q, ns[x].data), x)), wset + {x})
  {
    var e := Entry(-SqDist(q, ns[x].data), x);
    IdSetPush(w, e);
    IdsPush(w, e);
    CountsOnceAdd(multiset(Ids(w)), c, wset, x);
  }

  /** Covering the next list element. */
  lemma CoveredStep(lst: seq<nat>, j: nat, s0: set<nat>, s1: set<nat>)
    requires j < |lst| && s1 == s0 + {lst[j]}
    requires forall t :: 0 <= t < j ==> lst[t] in s0
    ensures forall t :: 0 <= t < j + 1 ==> lst[t] in s1
  {
  }

  /** Covering the neighbours of the next member. */
  lemma ExtendedStep(ns: seq<Node>, c: seq<nat>, lc: nat, k: nat, s0: set<nat>, s1: set<nat>)
    requires k < |c| && c[k] < |ns| && lc < |ns[c[k]].neighbors| && s0 <= s1
    requires forall i, x :: 0 <= i < k && c[i] < |ns| && lc < |ns[c[i]].neighbors| && x in ns[c[i]].neighbors[lc] ==> x in s0
    requires forall x :: x in ns[c[k]].neighbors[lc] ==> x in s1
    ensures forall i, x :: 0 <= i < k + 1 && c[i] < |ns| && lc < |ns[c[i]].neighbors| && x in ns[c[i]].neighbors[lc] ==> x in s1
  {
  }

  /** The extension is complete once every neighbour of every member is pooled. */
  lemma PartialIsPool(ns: seq<Node>, q: Vector, c: seq<nat>, lc: nat, w: seq<Entry>)
    requires IdsIn(ns, c) && PartialPool(ns, q, c, lc, w, IdSet(w))
    requires forall i, x :: 0 <= i < |c| && lc < |ns[c[i]].neighbors| && x in ns[c[i]].neighbors[lc] ==> x in IdSet(w)
    ensures PoolOk(ns, q, c, lc, true, w)
  {
    forall x | Pooled(ns, c, lc, true, x) ensures x in IdSet(w) {
      if x !in c {
        var i :| 0 <= i < |c| && c[i] < |ns| && lc < |ns[c[i]].neighbors| && x in ns[c[i]].neighbors[lc];
      }
    }
  }

  /**
   * The head of the pool, which the heuristic returns: at most `m` pooled
   * nodes, at least min(m, |c|), in ascending distance to `q`, none more
   * often than it was pushed.
   */
  lemma PoolPrefix(ns: seq<Node>, q: Vector, c: seq<nat>, lc: nat, ext: bool, pool: seq<Entry>, m: nat)
    requires PoolOk(ns, q, c, lc, ext, pool)
    ensures var r := Ids(pool[..Min(m, |pool|)]);
            Min(m, |c|) <= |r| <= m &&
            (forall t :: 0 <= t < |r| ==> r[t] < |ns| && Pooled(ns, c, lc, ext, r[t])) &&
            (forall i, j :: 0 <= i < j < |r| ==> SqDist(q, ns[r[i]].data) <= SqDist(q, ns[r[j]].data)) &&
            (forall x :: multiset(r)[x] <= PoolCount(ns, c, lc, ext, x))
  {
    var k := Min(m, |pool|);
    var r := Ids(pool[..k]);
    IdsPrefix(pool, k);
    forall t | 0 <= t < |r| ensures r[t] < |ns| && Pooled(ns, c, lc, ext, r[t]) {
      assert pool[t] in pool;
      assert r[t] in IdSet(pool);
    }
    forall i, j | 0 <= i < j < |r| ensures SqDist(q, ns[r[i]].data) <= SqDist(q, ns[r[j]].data) {
      assert pool[i] in pool && pool[j] in pool;
      assert Above(pool[i], pool[j]);
    }
  }

  /**
   * Right after `q` and `e` were connected at layer `lc`, `e` is in the
   * extended pool of its own list (through `q`'s list): a heuristic shrink
   * of `e`'s list may select `e` itself.
   */
  lemma SelfPooled(ns: seq<Node>, e: nat, q: nat, lc: nat)
    requires e < |ns| && q < |ns| && lc < |ns[e].neighbors| && lc < |ns[q].neighbors|
    requires q in ns[e].neighbors[lc] && e in ns[q].neighbors[lc]
    ensures Pooled(ns, ns[e].neighbors[lc], lc, true, e)
  {
    var c := ns[e].neighbors[lc];
    var i :| 0 <= i < |c| && c[i] == q;
  }

  /**
   * When `e` is in the pool of a selection for `e` itself, the pool's head,
   * which a heuristic shrink of `e`'s list takes first, is at distance zero
   * from `e`: `e`, or a node with the same vector.
   */
  lemma SelfHeadsPool(ns: seq<Node>, e: nat, c: seq<nat>, lc: nat, pool: seq<Entry>)
    requires e < |ns| && PoolOk(ns, ns[e].data, c, lc, true, pool) && Pooled(ns, c, lc, true, e)
    ensures pool != [] && pool[0].id < |ns|
    ensures pool[0].key == 0.0 && SqDist(ns[e].data, ns[pool[0].id].data) == 0.0
  {
    assert e in IdSet(pool);
    var y :| y in pool && y.id == e;
    SqDistSelf(ns[e].data);
    assert pool[0] in pool;
    SqDistNonNegative(ns[e].data, ns[pool[0].id].data);
    if y != pool[0] {
      var j :| 0 <= j < |pool| && pool[j] == y;
      assert Above(pool[0], pool[j]);
    }
  }

  /**
   * The pool while it is being extended: seeded with all of `c`, holding
   * only pooled nodes, each neighbour that is not a member pushed once.
   */
  ghost predicate PartialPool(ns: seq<Node>, q: Vector, c: seq<nat>, lc: nat, w: seq<Entry>, wset: set<nat>)
  {
    Sorted(w) && |w| >= |c| && wset == IdSet(w) &&
    (forall y :: y in w ==> y.id < |ns| && y.key == -SqDist(q, ns[y.id].data)) &&
    (forall x :: x in wset ==> Pooled(ns, c, lc, true, x)) &&
    (forall x :: x in c ==> x in wset) &&
    CountsOnce(multiset(Ids(w)), c, wset)
  }

  /** Bag `b` holds each member of `c` as often as `c` does, and each other element of `s` once. */
  ghost predicate CountsOnce(b: multiset<nat>, c: seq<nat>, s: set<nat>)
  {
    forall x :: b[x] == if x in c then multiset(c)[x] else if x in s then 1 else 0
  }

  /** Adding one element outside `c` and `s` to such a bag adds it to `s`. */
  lemma CountsOnceAdd(b: multiset<nat>, c: seq<nat>, s: set<nat>, x: nat)
    requires CountsOnce(b, c, s) && x !in c && x !in s
    ensures CountsOnce(b + multiset{x}, c, s + {x})
  {
  }

  /** Keeping a sub-bag of `b` while `b` and the bound `u` both gain `x`. */
  lemma SubBagAdd<T>(a: multiset<T>, u: multiset<T>, b: multiset<T>, r: multiset<T>, x: T)
    requires a <= u && b == a + multiset{x} && r <= b
    ensures r <= u + multiset{x}
  {
  }

  /**
   * The list the mode keeps when it shrinks list `c` of node `e` to `cap`
   * in store `ns`: the `cap` members of `c` nearest to `e` in simple mode;
   * in heuristic mode the first `cap` entries of the pool that extends `c`
   * by its members' layer-`lc` lists in `ns`.
   */
  ghost predicate ShrinkPick(ns: seq<Node>, e: nat, lc: nat, cap: nat, simple: bool, c: seq<nat>, r: seq<nat>)
  {
    e < |ns| &&
    (simple ==> NearestSelection(ns, ns[e].data, c, cap, r)) &&
    (!simple ==> exists pool :: PoolOk(ns, ns[e].data, c, lc, true, pool) && cap <= |pool| && r == Ids(pool[..cap]))
  }

  /**
   * What shrinking node `e`'s layer-`lc` list to `cap` did: the list was
   * kept when already within `cap`, and otherwise replaced by the `cap`
   * nodes the mode picks (ShrinkPick); every kept reference names a node of
   * level >= lc drawn from the list and its members' lists (from the list
   * alone in simple mode), none more often than the selection pushed it.
   */
  ghost predicate ShrinkResult(n0: seq<Node>, e: nat, lc: nat, cap: nat, simple: bool, newConn: seq<nat>)
  {
    e < |n0| && lc < |n0[e].neighbors| &&
    ((|n0[e].neighbors[lc]| <= cap && newConn == n0[e].neighbors[lc]) ||
     (|n0[e].neighbors[lc]| > cap && |newConn| == cap && ShrinkPick(n0, e, lc, cap, simple, n0[e].neighbors[lc], newConn))) &&
    (forall x :: x in newConn ==> x < |n0| && n0[x].level >= lc && Pooled(n0, n0[e].neighbors[lc], lc, true, x)) &&
    (forall x :: multiset(newConn)[x] <= PoolCount(n0, n0[e].neighbors[lc], lc, true, x)) &&
    (simple ==> (forall x :: x in newConn ==> x in n0[e].neighbors[lc]) && multiset(newConn) <= multiset(n0[e].neighbors[lc]))
  }

  /** A sub-bag of a list holds nothing more often than the list's extended pool. */
  lemma SubBagCounts(ns: seq<Node>, c: seq<nat>, lc: nat, r: seq<nat>)
    requires multiset(r) <= multiset(c)
    ensures forall x :: multiset(r)[x] <= PoolCount(ns, c, lc, true, x)
  {
    forall x ensures multiset(r)[x] <= PoolCount(ns, c, lc, true, x) {
      if x !in c { assert multiset(c)[x] == 0; }
    }
  }

  /**
   * `st` is the store the shrink loop of layer `lc` holds once it has shrunk
   * the lists of `done`, starting from `n0` and ending at `ns`: the layer-`lc`
   * lists of `done` as they end in `ns`, every other list as in `n0`, and the
   * same vectors, levels and list counts.
   */
  ghost predicate StoreAt(n0: seq<Node>, st: seq<Node>, ns: seq<Node>, lc: nat, done: seq<nat>)
  {
    SameShape(n0, st) && SameShape(n0, ns) &&
    forall i, l :: 0 <= i < |n0| && 0 <= l < |n0[i].neighbors| ==>
      st[i].neighbors[l] == (if l == lc && i in done then ns[i].neighbors[l] else n0[i].neighbors[l])
  }

  /** The store of a turn of the shrink loop is determined by the start, the end and the lists already shrunk. */
  lemma StoreAtUnique(n0: seq<Node>, a: seq<Node>, b: seq<Node>, ns: seq<Node>, lc: nat, done: seq<nat>)
    requires StoreAt(n0, a, ns, lc, done) && StoreAt(n0, b, ns, lc, done)
    ensures a == b
  {
    forall i | 0 <= i < |a| ensures a[i] == b[i] {
      forall l | 0 <= l < |a[i].neighbors| ensures a[i].neighbors[l] == b[i].neighbors[l] {
      }
      assert a[i].neighbors == b[i].neighbors;
    }
  }

  /**
   * `ns` is `n0` after shrinking, one after the other, the layer-`lc` lists
   * of `sel` that exceed `cap`: those lists are now within `cap`; a list is
   * either as before or was over `cap` and is now exactly `cap` long; the
   * shrunk list of `sel[t]` (at its first occurrence; a later one finds it
   * within `cap`) is what the mode picks from its old contents in the store
   * the loop holds then, with the lists of `sel[..t]` shrunk and all others
   * as before (StoreAt); and in simple mode no list gained an entry.
   */
  ghost predicate Shrunk(n0: seq<Node>, ns: seq<Node>, lc: nat, sel: seq<nat>, cap: nat, simple: bool)
  {
    WellFormed(ns) && SameShape(n0, ns) && Untouched(n0, ns, lc, sel) &&
    (forall t :: 0 <= t < |sel| ==> sel[t] < |ns| && lc < |ns[sel[t]].neighbors| && |ns[sel[t]].neighbors[lc]| <= cap) &&
    (forall i :: 0 <= i < |ns| && lc < |ns[i].neighbors| ==>
       ns[i].neighbors[lc] == n0[i].neighbors[lc] || (|n0[i].neighbors[lc]| > cap && |ns[i].neighbors[lc]| == cap)) &&
    (forall t :: 0 <= t < |sel| && sel[t] !in sel[..t] && |n0[sel[t]].neighbors[lc]| > cap ==>
       exists st :: StoreAt(n0, st, ns, lc, sel[..t]) &&
         ShrinkPick(st, sel[t], lc, cap, simple, n0[sel[t]].neighbors[lc], ns[sel[t]].neighbors[lc])) &&
    (simple ==> forall i, x :: 0 <= i < |ns| && lc < |ns[i].neighbors| && x in ns[i].neighbors[lc] ==>
       x in n0[i].neighbors[lc])
  }

  lemma ShrunkStart(ns: seq<Node>, lc: nat, cap: nat, simple: bool)
    requires WellFormed(ns)
    ensures Shrunk(ns, ns, lc, [], cap, simple)
  {
  }

  /** Shrinking one more list. */
  lemma ShrunkStep(n0: seq<Node>, ns: seq<Node>, lc: nat, sel: seq<nat>, cap: nat, simple: bool,
                   e: nat, newConn: seq<nat>)
    requires Shrunk(n0, ns, lc, sel, cap, simple)
    requires ShrinkResult(ns, e, lc, cap, simple, newConn)
    ensures Shrunk(n0, SetList(ns, e, lc, newConn), lc, sel + [e], cap, simple)
  {
    var ns' := SetList(ns, e, lc, newConn);
    SetListWellFormed(ns, e, lc, newConn);
    forall i, l | 0 <= i < |n0| && 0 <= l < |n0[i].neighbors| && !(l == lc && i in sel + [e])
      ensures ns'[i].neighbors[l] == n0[i].neighbors[l]
    {
      assert !(l == lc && i in sel);
    }
    forall t | 0 <= t < |sel + [e]|
      ensures (sel + [e])[t] < |ns'| && lc < |ns'[(sel + [e])[t]].neighbors| && |ns'[(sel + [e])[t]].neighbors[lc]| <= cap
    {
      if t < |sel| && sel[t] != e {
        assert ns'[sel[t]].neighbors[lc] == ns[sel[t]].neighbors[lc];
      }
    }
    forall i | 0 <= i < |ns'| && lc < |ns'[i].neighbors|
      ensures ns'[i].neighbors[lc] == n0[i].neighbors[lc] || (|n0[i].neighbors[lc]| > cap && |ns'[i].neighbors[lc]| == cap)
    {
      if i != e { assert ns'[i].neighbors[lc] == ns[i].neighbors[lc]; }
    }
    ShrunkPicks(n0, ns, lc, sel, cap, simple, e, newConn);
    if simple {
      forall i, x | 0 <= i < |ns'| && lc < |ns'[i].neighbors| && x in ns'[i].neighbors[lc]
        ensures x in n0[i].neighbors[lc]
      {
        if i != e { assert ns'[i].neighbors[lc] == ns[i].neighbors[lc]; }
        else { assert x in ns[i].neighbors[lc]; }
      }
    }
  }

  /** Shrinking the next member of `sel`, in the prefix form of the shrink loop. */
  lemma ShrunkNext(n0: seq<Node>, ns: seq<Node>, lc: nat, sel: seq<nat>, cap: nat, simple: bool, k: nat, newConn: seq<nat>)
    requires k < |sel| && Shrunk(n0, ns, lc, sel[..k], cap, simple)
    requires ShrinkResult(ns, sel[k], lc, cap, simple, newConn)
    ensures Shrunk(n0, SetList(ns, sel[k], lc, newConn), lc, sel[..k + 1], cap, simple)
  {
    assert sel[..k + 1] == sel[..k] + [sel[k]];
    ShrunkStep(n0, ns, lc, sel[..k], cap, simple, sel[k], newConn);
  }

  /** After one more shrink, every shrunk list of `sel + [e]` is still the pick in the store of its turn. */
  lemma ShrunkPicks(n0: seq<Node>, ns: seq<Node>, lc: nat, sel: seq<nat>, cap: nat, simple: bool,
                    e: nat, newConn: seq<nat>)
    requires Shrunk(n0, ns, lc, sel, cap, simple)
    requires ShrinkResult(ns, e, lc, cap, simple, newConn)
    ensures forall t :: 0 <= t < |sel + [e]| && (sel + [e])[t] !in (sel + [e])[..t] &&
                        |n0[(sel + [e])[t]].neighbors[lc]| > cap ==>
              exists st :: StoreAt(n0, st, SetList(ns, e, lc, newConn), lc, (sel + [e])[..t]) &&
                ShrinkPick(st, (sel + [e])[t], lc, cap, simple, n0[(sel + [e])[t]].neighbors[lc],
                           SetList(ns, e, lc, newConn)[(sel + [e])[t]].neighbors[lc])
  {
    var ns' := SetList(ns, e, lc, newConn);
    var s' := sel + [e];
    if e in sel {
      var k :| 0 <= k < |sel| && sel[k] == e;
      assert newConn == ns[e].neighbors[lc];
    }
    forall t | 0 <= t < |s'| && s'[t] !in s'[..t] && |n0[s'[t]].neighbors[lc]| > cap
      ensures exists st :: StoreAt(n0, st, ns', lc, s'[..t]) &&
                ShrinkPick(st, s'[t], lc, cap, simple, n0[s'[t]].neighbors[lc], ns'[s'[t]].neighbors[lc])
    {
      if t == |sel| {
        assert s'[..t] == sel;
        assert ns[e].neighbors[lc] == n0[e].neighbors[lc];
        StoreAtNow(n0, ns, lc, sel, e, newConn);
        assert ShrinkPick(ns, e, lc, cap, simple, n0[e].neighbors[lc], ns'[e].neighbors[lc]);
      } else {
        var x := sel[t];
        assert s'[..t] == sel[..t] && s'[t] == x;
        assert ns'[x].neighbors[lc] == ns[x].neighbors[lc];
        var st :| StoreAt(n0, st, ns, lc, sel[..t]) &&
                  ShrinkPick(st, x, lc, cap, simple, n0[x].neighbors[lc], ns[x].neighbors[lc]);
        StoreAtStep(n0, st, ns, lc, sel[..t], e, newConn);
      }
    }
  }

  /** The store just before shrinking a list of a node not shrunk yet is the store of that turn. */
  lemma StoreAtNow(n0: seq<Node>, ns: seq<Node>, lc: nat, sel: seq<nat>, e: nat, newConn: seq<nat>)
    requires SameShape(n0, ns) && Untouched(n0, ns, lc, sel)
    requires e < |ns| && lc < |ns[e].neighbors| && e !in sel
    ensures StoreAt(n0, ns, SetList(ns, e, lc, newConn), lc, sel)
  {
    var ns' := SetList(ns, e, lc, newConn);
    forall i, l | 0 <= i < |n0| && 0 <= l < |n0[i].neighbors|
      ensures ns[i].neighbors[l] == (if l == lc && i in sel then ns'[i].neighbors[l] else n0[i].neighbors[l])
    {
      if l == lc && i in sel { assert i != e; }
    }
  }

  /** A shrink that leaves the lists of `done` as they are keeps the store of an earlier turn. */
  lemma StoreAtStep(n0: seq<Node>, st: seq<Node>, ns: seq<Node>, lc: nat, done: seq<nat>, e: nat, newConn: seq<nat>)
    requires StoreAt(n0, st, ns, lc, done) && e < |ns| && lc < |ns[e].neighbors|
    requires e in done ==> newConn == ns[e].neighbors[lc]
    ensures StoreAt(n0, st, SetList(ns, e, lc, newConn), lc, done)
  {
    var ns' := SetList(ns, e, lc, newConn);
    forall i, l | 0 <= i < |n0| && 0 <= l < |n0[i].neighbors|
      ensures st[i].neighbors[l] == (if l == lc && i in done then ns'[i].neighbors[l] else n0[i].neighbors[l])
    {
      if l == lc && i in done && i != e { assert ns'[i].neighbors[l] == ns[i].neighbors[l]; }
    }
  }
}
