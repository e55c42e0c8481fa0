/**
 * Insertion as a specification over the node store: what one insertion
 * leaves in every layer, and the lemmas that carry it through the layer
 * loop. `n0` is the store before the insertion and `q == |n0|` the arena
 * index of the inserted node.
 */
module Insertion {
  import opened Base
  import opened Arena
  import opened PQueue
  import opened Selection
  import opened LayerSearch

  /** The degree cap of layer `l`. */
  function LayerCap(l: nat, mMax0: nat, mMax: nat): (cap: nat)
  {
    if l == 0 then mMax0 else mMax
  }

  /** The node that insertion appends: the vector, its drawn level and one empty list per layer. */
  function FreshNode(v: Vector, lNew: nat): (n: Node)
  {
    Node(v, seq(lNew + 1, _ => []), lNew)
  }

  /** `ns` is `n0` plus node `q`, with every old node keeping its vector, level and list count. */
  ghost predicate Shape(n0: seq<Node>, ns: seq<Node>, q: nat, v: Vector, lNew: nat)
  {
    |n0| == q && |ns| == q + 1 && ns[q].data == v && ns[q].level == lNew &&
    forall i :: 0 <= i < q ==>
      ns[i].data == n0[i].data && ns[i].level == n0[i].level && |ns[i].neighbors| == |n0[i].neighbors|
  }

  /** Layer `l` is as before the insertion: old lists unchanged and `q`'s list (if any) empty. */
  ghost predicate Intact(n0: seq<Node>, ns: seq<Node>, q: nat, l: nat)
  {
    |n0| == q && |ns| == q + 1 &&
    (forall i :: 0 <= i < q && l < |n0[i].neighbors| && l < |ns[i].neighbors| ==> ns[i].neighbors[l] == n0[i].neighbors[l]) &&
    (l < |ns[q].neighbors| ==> ns[q].neighbors[l] == [])
  }

  /**
   * The neighbours chosen at layer `l`: `w` is a result of searching layer
   * `l` of `nq` for `v` from `ep` with `ef`, and `sel` is its first
   * min(m, |w|) nodes in simple mode, or the first min(m, |pool|) entries of
   * its extended pool in heuristic mode.
   */
  ghost predicate Chosen(nq: seq<Node>, v: Vector, ep: nat, l: nat, w: seq<Entry>, sel: seq<nat>, m: nat, ef: nat, simple: bool)
  {
    LayerResult(nq, v, ep, ef, l, w) &&
    (simple ==> sel == Ids(w[..Min(m, |w|)])) &&
    (!simple ==> exists pool :: PoolOk(nq, v, Ids(w), l, true, pool) && sel == Ids(pool[..Min(m, |pool|)]))
  }

  /**
   * A layer's choice names between min(m, 1) and m nodes, none twice: the
   * search finds at least one node, its nodes are distinct, and the pool
   * holds each of them once.
   */
  lemma ChosenFacts(nq: seq<Node>, v: Vector, ep: nat, l: nat, w: seq<Entry>, sel: seq<nat>, m: nat, ef: nat, simple: bool)
    requires Chosen(nq, v, ep, l, w, sel, m, ef, simple)
    ensures Min(m, 1) <= |sel| <= m && NoRepeats(sel)
  {
    if simple {
      PrefixNoRepeats(w, Min(m, |w|));
    } else {
      var pool :| PoolOk(nq, v, Ids(w), l, true, pool) && sel == Ids(pool[..Min(m, |pool|)]);
      PoolNoRepeats(nq, v, w, l, pool, Min(m, |pool|));
    }
  }

  /** A prefix of a queue without repeated indices has none either. */
  lemma PrefixNoRepeats(w: seq<Entry>, k: nat)
    requires DistinctIds(w) && k <= |w|
    ensures NoRepeats(Ids(w[..k]))
  {
    assert DistinctIds(w[..k]) by {
      forall i, j | 0 <= i < j < k ensures w[..k][i].id != w[..k][j].id {
        assert w[..k][i] == w[i] && w[..k][j] == w[j];
      }
    }
    DistinctNoRepeats(w[..k]);
  }

  /** The pool built from distinct candidates holds each node once, and so does any prefix of it. */
  lemma PoolNoRepeats(nq: seq<Node>, v: Vector, w: seq<Entry>, l: nat, pool: seq<Entry>, k: nat)
    requires DistinctIds(w) && PoolOk(nq, v, Ids(w), l, true, pool) && k <= |pool|
    ensures NoRepeats(Ids(pool[..k]))
  {
    DistinctNoRepeats(w);
    assert NoRepeats(Ids(pool)) by {
      forall x ensures multiset(Ids(pool))[x] <= 1 {
        assert multiset(Ids(pool))[x] == PoolCount(nq, Ids(w), l, true, x);
      }
    }
    IdsPrefix(pool, k);
    assert forall x :: multiset(Ids(pool[..k]))[x] <= multiset(Ids(pool))[x];
  }

  /** A layer's choice depends only on the vectors, levels and layer-`l` lists of the store. */
  lemma ChosenAlike(a: seq<Node>, b: seq<Node>, v: Vector, ep: nat, l: nat, w: seq<Entry>, sel: seq<nat>, m: nat, ef: nat, simple: bool)
    requires SameAtLayer(a, b, l) && Chosen(a, v, ep, l, w, sel, m, ef, simple)
    ensures Chosen(b, v, ep, l, w, sel, m, ef, simple)
  {
    LayerResultAlike(a, b, v, ep, ef, l, w);
    if !simple {
      var pool :| PoolOk(a, v, Ids(w), l, true, pool) && sel == Ids(pool[..Min(m, |pool|)]);
      PoolOkAlike(a, b, v, Ids(w), l, true, pool);
    }
  }

  /** The record of layer `l`: its search `found[l]` from `entries[l]` chose `selected[l]`. */
  ghost predicate ChosenAt(nq: seq<Node>, v: Vector, l: nat, selected: seq<seq<nat>>, entries: seq<nat>, found: seq<seq<Entry>>,
                           m: nat, ef: nat, simple: bool)
    requires l < |selected| && l < |entries| && l < |found|
  {
    Chosen(nq, v, entries[l], l, found[l], selected[l], m, ef, simple)
  }

  /**
   * The searches of the layers from min(lTop, lNew) down to just above `lc`:
   * each chose the neighbours recorded for its layer, and each started from
   * the nearest node that the search of the layer above found.
   */
  ghost predicate SearchedAbove(nq: seq<Node>, v: Vector, lNew: nat, lTop: nat, lc: int, selected: seq<seq<nat>>,
                                entries: seq<nat>, found: seq<seq<Entry>>, m: nat, ef: nat, simple: bool)
  {
    |selected| == lNew + 1 && |entries| == lNew + 1 && |found| == lNew + 1 &&
    ChosenBetween(nq, v, lc, Min(lTop, lNew), selected, entries, found, m, ef, simple) &&
    EntriesFollow(entries, found, lc, Min(lTop, lNew))
  }

  /** Every layer strictly above `lc` up to `top` has its record. */
  ghost predicate ChosenBetween(nq: seq<Node>, v: Vector, lc: int, top: nat, selected: seq<seq<nat>>, entries: seq<nat>,
                                found: seq<seq<Entry>>, m: nat, ef: nat, simple: bool)
  {
    forall l: nat :: lc < l <= top && l < |selected| && l < |entries| && l < |found| ==>
      ChosenAt(nq, v, l, selected, entries, found, m, ef, simple)
  }

  /** Recording layer `lc` extends the records down to it. */
  lemma ChosenBetweenStep(nq: seq<Node>, v: Vector, lc: nat, top: nat, selected: seq<seq<nat>>, entries: seq<nat>,
                          found: seq<seq<Entry>>, m: nat, ef: nat, simple: bool, ep: nat, w: seq<Entry>, sel: seq<nat>)
    requires lc < |selected| && lc < |entries| && lc < |found|
    requires ChosenBetween(nq, v, lc, top, selected, entries, found, m, ef, simple)
    requires Chosen(nq, v, ep, lc, w, sel, m, ef, simple)
    ensures ChosenBetween(nq, v, lc - 1, top, selected[lc := sel], entries[lc := ep], found[lc := w], m, ef, simple)
  {
    var selected', entries', found' := selected[lc := sel], entries[lc := ep], found[lc := w];
    forall l: nat | lc - 1 < l <= top && l < |selected'| && l < |entries'| && l < |found'|
      ensures ChosenAt(nq, v, l, selected', entries', found', m, ef, simple)
    {
      if l != lc {
        ChosenAtOther(nq, v, l, lc, selected, entries, found, m, ef, simple, ep, w, sel);
      } else {
        assert selected'[lc] == sel && entries'[lc] == ep && found'[lc] == w;
      }
    }
  }

  /** Each layer strictly between `lc` and `top` was entered at the nearest node found on the layer above. */
  ghost predicate EntriesFollow(entries: seq<nat>, found: seq<seq<Entry>>, lc: int, top: nat)
  {
    forall l: nat :: lc < l < top && l + 1 < |found| && l < |entries| ==> EnteredFrom(entries, found, l)
  }

  /** Layer `l` was entered at the nearest node found on layer `l + 1`. */
  ghost predicate EnteredFrom(entries: seq<nat>, found: seq<seq<Entry>>, l: nat)
  {
    l + 1 < |found| && l < |entries| && found[l + 1] != [] && entries[l] == found[l + 1][0].id
  }

  /** Recording layer `lc` keeps the record of every other layer. */
  lemma ChosenAtOther(nq: seq<Node>, v: Vector, l: nat, lc: nat, selected: seq<seq<nat>>, entries: seq<nat>, found: seq<seq<Entry>>,
                      m: nat, ef: nat, simple: bool, ep: nat, w: seq<Entry>, sel: seq<nat>)
    requires l < |selected| && l < |entries| && l < |found| && lc < |selected| && lc < |entries| && lc < |found| && l != lc
    requires ChosenAt(nq, v, l, selected, entries, found, m, ef, simple)
    ensures ChosenAt(nq, v, l, selected[lc := sel], entries[lc := ep], found[lc := w], m, ef, simple)
  {
    assert selected[lc := sel][l] == selected[l];
    assert entries[lc := ep][l] == entries[l];
    assert found[lc := w][l] == found[l];
  }

  /** Recording layer `lc`, entered at the nearest node found above it, extends the chain of entries. */
  lemma EntriesStep(entries: seq<nat>, found: seq<seq<Entry>>, lc: nat, top: nat, ep: nat, w: seq<Entry>)
    requires lc < |entries| && lc < |found| && EntriesFollow(entries, found, lc, top)
    requires lc < top && lc + 1 < |found| ==> found[lc + 1] != [] && ep == found[lc + 1][0].id
    ensures EntriesFollow(entries[lc := ep], found[lc := w], lc - 1, top)
  {
    var entries': seq<nat>, found': seq<seq<Entry>> := entries[lc := ep], found[lc := w];
    forall l: nat | lc <= l < top && l + 1 < |found'| && l < |entries'|
      ensures EnteredFrom(entries', found', l)
    {
      assert found'[l + 1] == found[l + 1];
      if l != lc {
        assert EnteredFrom(entries, found, l);
        assert entries'[l] == entries[l];
      }
    }
  }

  /** The search of layer `lc`, from the nearest node of the layer above, extends the record. */
  lemma SearchedStep(nq: seq<Node>, v: Vector, lNew: nat, lTop: nat, lc: nat, selected: seq<seq<nat>>,
                     entries: seq<nat>, found: seq<seq<Entry>>, m: nat, ef: nat, simple: bool,
                     ep: nat, w: seq<Entry>, sel: seq<nat>)
    requires SearchedAbove(nq, v, lNew, lTop, lc, selected, entries, found, m, ef, simple) && lc <= Min(lTop, lNew)
    requires Chosen(nq, v, ep, lc, w, sel, m, ef, simple)
    requires lc < Min(lTop, lNew) ==> found[lc + 1] != [] && ep == found[lc + 1][0].id
    ensures SearchedAbove(nq, v, lNew, lTop, lc - 1, selected[lc := sel], entries[lc := ep], found[lc := w], m, ef, simple)
  {
    ChosenBetweenStep(nq, v, lc, Min(lTop, lNew), selected, entries, found, m, ef, simple, ep, w, sel);
    EntriesStep(entries, found, lc, Min(lTop, lNew), ep, w);
  }

  /**
   * `st` is the store met while shrinking layer `l`, after `q` was connected
   * to `sel`, once the lists of `done` are shrunk: their layer-`l` lists and
   * `q`'s own are final (as in `ns`), and every other old list is as the
   * connection left it, the old list plus `q` for a member of `sel`. The
   * lists of other layers do not enter a pick, so they are left open.
   */
  ghost predicate Midway(n0: seq<Node>, ns: seq<Node>, q: nat, l: nat, sel: seq<nat>, done: seq<nat>, st: seq<Node>)
  {
    |n0| == q && SameShape(ns, st) &&
    forall i :: 0 <= i < |ns| && l < |ns[i].neighbors| ==>
      if i < q && i !in done then
        l < |n0[i].neighbors| && st[i].neighbors[l] == n0[i].neighbors[l] + (if i in sel then [q] else [])
      else
        st[i].neighbors[l] == ns[i].neighbors[l]
  }

  /**
   * Node `e` of `sel` at layer `l`: `q` was appended to its old list, and
   * when that took the list over `cap` the list became the `cap` nodes the
   * mode picks from it (ShrinkPick) in the store met when its turn came
   * in the shrink loop, with the lists of the members before it shrunk.
   */
  ghost predicate Relinked(n0: seq<Node>, ns: seq<Node>, q: nat, l: nat, sel: seq<nat>, e: nat, cap: nat, simple: bool)
    requires e < |n0| && e < |ns| && l < |n0[e].neighbors| && l < |ns[e].neighbors|
  {
    (|n0[e].neighbors[l]| < cap ==> ns[e].neighbors[l] == n0[e].neighbors[l] + [q]) &&
    (|n0[e].neighbors[l]| >= cap ==>
       |ns[e].neighbors[l]| == cap &&
       exists t, st :: 0 <= t < |sel| && sel[t] == e && Midway(n0, ns, q, l, sel, sel[..t], st) &&
         ShrinkPick(st, e, l, cap, simple, n0[e].neighbors[l] + [q], ns[e].neighbors[l]))
  }

  /**
   * Layer `l` after `q` was connected to `sel` there: `q`'s list is `sel`,
   * at most `m` distinct other nodes; each of them had `q` appended and was
   * shrunk if that took it over the layer's cap (Relinked); and no other
   * old list changed.
   */
  ghost predicate LayerDone(n0: seq<Node>, ns: seq<Node>, q: nat, l: nat, sel: seq<nat>, m: nat, cap: nat, simple: bool)
  {
    |n0| == q && |ns| == q + 1 && l < |ns[q].neighbors| &&
    ns[q].neighbors[l] == sel && |sel| <= m && q !in sel && NoRepeats(sel) &&
    (forall e :: e in sel ==>
       e < q && l < |n0[e].neighbors| && l < |ns[e].neighbors| && Relinked(n0, ns, q, l, sel, e, cap, simple)) &&
    (forall i :: 0 <= i < q && l < |n0[i].neighbors| && l < |ns[i].neighbors| && ns[i].neighbors[l] != n0[i].neighbors[l] ==>
       i in sel)
  }

  /** The invariant of the layer loop of insertion, which has processed the layers above `lc`. */
  ghost predicate InsertInv(n0: seq<Node>, ns: seq<Node>, q: nat, v: Vector, lNew: nat, lTop: nat, lc: int,
                            selected: seq<seq<nat>>, m: nat, mMax0: nat, mMax: nat, simple: bool)
  {
    WellFormed(n0) && WellFormed(ns) && Shape(n0, ns, q, v, lNew) &&
    -1 <= lc <= Min(lTop, lNew) && |selected| == lNew + 1 &&
    (forall l: nat :: (l <= lc || l > Min(lTop, lNew)) ==> Intact(n0, ns, q, l)) &&
    (forall l: nat :: l <= lNew && (l <= lc || l > Min(lTop, lNew)) ==> selected[l] == []) &&
    (forall l: nat :: lc < l <= Min(lTop, lNew) ==> LayerDone(n0, ns, q, l, selected[l], m, LayerCap(l, mMax0, mMax), simple))
  }

  /**
   * What a completed insertion leaves: `q` appended with its vector and
   * level, old nodes keeping theirs; on every layer up to min(lTop, lNew)
   * the neighbours chosen by that layer's search (SearchedAbove, over the
   * store with `q` appended unconnected), connected as LayerDone describes;
   * no neighbours on the layers above the old top level; and every layer
   * above `lNew` intact.
   */
  ghost predicate Inserted(n0: seq<Node>, ns: seq<Node>, q: nat, v: Vector, lNew: nat, lTop: nat,
                           selected: seq<seq<nat>>, entries: seq<nat>, found: seq<seq<Entry>>,
                           m: nat, ef: nat, mMax0: nat, mMax: nat, simple: bool)
  {
    WellFormed(ns) && Shape(n0, ns, q, v, lNew) && |selected| == lNew + 1 &&
    SearchedAbove(n0 + [FreshNode(v, lNew)], v, lNew, lTop, -1, selected, entries, found, m, ef, simple) &&
    (forall l: nat :: l <= lNew ==> LayerDone(n0, ns, q, l, selected[l], m, LayerCap(l, mMax0, mMax), simple)) &&
    (forall l: nat :: lTop < l <= lNew ==> selected[l] == []) &&
    (forall l: nat :: l > lNew ==> Intact(n0, ns, q, l))
  }

  /**
   * After an insertion, the new node has between min(m, 1) and m neighbours
   * on every layer up to min(lTop, lNew), and every one of them names it or
   * holds exactly the layer's cap.
   */
  lemma InsertedLinks(n0: seq<Node>, ns: seq<Node>, q: nat, v: Vector, lNew: nat, lTop: nat,
                      selected: seq<seq<nat>>, entries: seq<nat>, found: seq<seq<Entry>>,
                      m: nat, ef: nat, mMax0: nat, mMax: nat, simple: bool, l: nat)
    requires Inserted(n0, ns, q, v, lNew, lTop, selected, entries, found, m, ef, mMax0, mMax, simple)
    requires l <= Min(lTop, lNew)
    ensures Min(m, 1) <= |ns[q].neighbors[l]| <= m
    ensures forall e :: e in ns[q].neighbors[l] ==>
              e < q && l < |ns[e].neighbors| && (q in ns[e].neighbors[l] || |ns[e].neighbors[l]| == LayerCap(l, mMax0, mMax))
  {
    assert ChosenAt(n0 + [FreshNode(v, lNew)], v, l, selected, entries, found, m, ef, simple);
    ChosenFacts(n0 + [FreshNode(v, lNew)], v, entries[l], l, found[l], selected[l], m, ef, simple);
    var cap := LayerCap(l, mMax0, mMax);
    forall e | e in ns[q].neighbors[l]
      ensures e < q && l < |ns[e].neighbors| && (q in ns[e].neighbors[l] || |ns[e].neighbors[l]| == cap)
    {
      assert Relinked(n0, ns, q, l, selected[l], e, cap, simple);
      if |n0[e].neighbors[l]| < cap {
        assert ns[e].neighbors[l][|n0[e].neighbors[l]|] == q;
      }
    }
  }

  /** Appending the fresh node starts the layer loop. */
  lemma InsertStart(n0: seq<Node>, v: Vector, lNew: nat, lTop: nat, m: nat, mMax0: nat, mMax: nat, simple: bool)
    requires WellFormed(n0) && n0 != [] && |v| == |n0[0].data|
    ensures WellFormed(n0 + [FreshNode(v, lNew)])
    ensures InsertInv(n0, n0 + [FreshNode(v, lNew)], |n0|, v, lNew, lTop, Min(lTop, lNew),
                      seq(lNew + 1, _ => []), m, mMax0, mMax, simple)
  {
    var ns := n0 + [FreshNode(v, lNew)];
    var q := |n0|;
    assert forall i :: 0 <= i < q ==> ns[i] == n0[i];
    forall i: int, l: int | 0 <= i < |ns| && 0 <= l < |ns[i].neighbors|
      ensures forall x: int :: x in ns[i].neighbors[l] ==> 0 <= x < |ns| && ns[x].level >= l
    {
      if i < q {
        forall x: int | x in ns[i].neighbors[l] ensures 0 <= x < |ns| && ns[x].level >= l {
          RefValid(n0, i, l, x);
        }
      }
    }
    WellFormedIntro(ns);
  }

  /** An intact layer is as in the store with the fresh node appended unconnected. */
  lemma IntactAlike(n0: seq<Node>, ns: seq<Node>, q: nat, v: Vector, lNew: nat, l: nat)
    requires WellFormed(ns) && Shape(n0, ns, q, v, lNew) && Intact(n0, ns, q, l)
    ensures SameAtLayer(ns, n0 + [FreshNode(v, lNew)], l)
  {
    var nq := n0 + [FreshNode(v, lNew)];
    assert forall i :: 0 <= i < q ==> nq[i] == n0[i];
  }

  /** In an intact layer nothing names `q`: old lists only name old nodes. */
  lemma IntactUnreferenced(n0: seq<Node>, ns: seq<Node>, q: nat, v: Vector, lNew: nat, l: nat)
    requires WellFormed(n0) && Shape(n0, ns, q, v, lNew) && Intact(n0, ns, q, l)
    ensures Unreferenced(ns, l, q)
  {
    forall i | 0 <= i < |ns| && l < |ns[i].neighbors| ensures q !in ns[i].neighbors[l] {
      if i < q {
        if q in ns[i].neighbors[l] {
          RefValid(n0, i, l, q);
        }
      }
    }
  }

  /** Processing layer `lc` leaves an intact layer `l` intact. */
  lemma FrameIntact(n0: seq<Node>, n1: seq<Node>, n3: seq<Node>, q: nat, l: nat)
    requires |n1| == q + 1 && SameAtLayer(n1, n3, l) && Intact(n0, n1, q, l)
    ensures Intact(n0, n3, q, l)
  {
  }

  /** Processing layer `lc` leaves a finished layer `l` finished. */
  lemma FrameDone(n0: seq<Node>, n1: seq<Node>, n3: seq<Node>, q: nat, l: nat, sel: seq<nat>, m: nat, cap: nat, simple: bool)
    requires SameAtLayer(n1, n3, l) && LayerDone(n0, n1, q, l, sel, m, cap, simple)
    ensures LayerDone(n0, n3, q, l, sel, m, cap, simple)
  {
    forall e | e in sel ensures l < |n3[e].neighbors| && Relinked(n0, n3, q, l, sel, e, cap, simple) {
      if |n0[e].neighbors[l]| >= cap {
        var t, st :| 0 <= t < |sel| && sel[t] == e && Midway(n0, n1, q, l, sel, sel[..t], st) &&
                     ShrinkPick(st, e, l, cap, simple, n0[e].neighbors[l] + [q], n1[e].neighbors[l]);
        MidwayFrame(n0, n1, n3, q, l, sel, sel[..t], st);
      }
    }
  }

  /** A store met while shrinking layer `l` is one for any store equal to the final one at layer `l`. */
  lemma MidwayFrame(n0: seq<Node>, n1: seq<Node>, n3: seq<Node>, q: nat, l: nat, sel: seq<nat>, done: seq<nat>, st: seq<Node>)
    requires SameAtLayer(n1, n3, l) && Midway(n0, n1, q, l, sel, done, st)
    ensures Midway(n0, n3, q, l, sel, done, st)
  {
  }

  /**
   * Connecting `q` to `sel`, none twice, in an intact layer `lc` appends `q`
   * once to the old list of each member of `sel` and changes no other old list.
   */
  lemma ConnectedOnce(n0: seq<Node>, n1: seq<Node>, n2: seq<Node>, q: nat, v: Vector, lNew: nat, lc: nat, sel: seq<nat>)
    requires Shape(n0, n1, q, v, lNew) && Intact(n0, n1, q, lc)
    requires Connected(n1, n2, q, lc, sel) && NoRepeats(sel)
    ensures forall i :: 0 <= i < q && lc < |n0[i].neighbors| ==>
              n2[i].neighbors[lc] == n0[i].neighbors[lc] + (if i in sel then [q] else [])
  {
    forall i | 0 <= i < q && lc < |n0[i].neighbors|
      ensures n2[i].neighbors[lc] == n0[i].neighbors[lc] + (if i in sel then [q] else [])
    {
      assert n1[i].neighbors[lc] == n0[i].neighbors[lc];
      if i in sel {
        assert multiset(sel)[i] == 1;
        assert Copies(q, 1) == [q];
      } else {
        assert multiset(sel)[i] == 0;
        assert Copies(q, 0) == [];
      }
    }
  }

  /** The store of a turn of the shrink loop after the connection, seen from before the connection. */
  lemma MidwayFrom(n0: seq<Node>, n2: seq<Node>, n3: seq<Node>, q: nat, lc: nat, sel: seq<nat>, done: seq<nat>, st: seq<Node>)
    requires |n0| == q && |n2| == q + 1 && StoreAt(n2, st, n3, lc, done)
    requires n3[q].neighbors == n2[q].neighbors
    requires forall i :: 0 <= i < q ==> |n0[i].neighbors| == |n2[i].neighbors|
    requires forall i :: 0 <= i < q && lc < |n0[i].neighbors| ==>
               n2[i].neighbors[lc] == n0[i].neighbors[lc] + (if i in sel then [q] else [])
    ensures Midway(n0, n3, q, lc, sel, done, st)
  {
    forall i | 0 <= i < |n3| && lc < |n3[i].neighbors|
      ensures if i < q && i !in done then
                lc < |n0[i].neighbors| && st[i].neighbors[lc] == n0[i].neighbors[lc] + (if i in sel then [q] else [])
              else
                st[i].neighbors[lc] == n3[i].neighbors[lc]
    {
    }
  }

  /** Connecting and shrinking in an intact layer `lc` leaves it done with the chosen neighbours. */
  lemma LayerNowDone(n0: seq<Node>, n1: seq<Node>, n2: seq<Node>, n3: seq<Node>, q: nat, v: Vector, lNew: nat,
                     lc: nat, sel: seq<nat>, m: nat, cap: nat, simple: bool)
    requires Shape(n0, n1, q, v, lNew) && lc <= lNew && Intact(n0, n1, q, lc)
    requires Connected(n1, n2, q, lc, sel) && Shrunk(n2, n3, lc, sel, cap, simple) && |sel| <= m && NoRepeats(sel)
    ensures LayerDone(n0, n3, q, lc, sel, m, cap, simple)
  {
    assert q !in sel by {
      forall t | 0 <= t < |sel| ensures sel[t] != q { }
    }
    assert n3[q].neighbors == n2[q].neighbors;
    ConnectedOnce(n0, n1, n2, q, v, lNew, lc, sel);
    forall e | e in sel
      ensures e < q && lc < |n0[e].neighbors| && lc < |n3[e].neighbors| && Relinked(n0, n3, q, lc, sel, e, cap, simple)
    {
      var t :| 0 <= t < |sel| && sel[t] == e;
      SelectedRelinked(n0, n2, n3, q, lc, sel, cap, simple, e);
    }
    OnlySelectedChange(n0, n2, n3, q, lc, sel, cap, simple);
  }

  /** A member `e` of `sel` had `q` appended at layer `lc` and was shrunk if that took it over the cap. */
  lemma SelectedRelinked(n0: seq<Node>, n2: seq<Node>, n3: seq<Node>, q: nat, lc: nat, sel: seq<nat>, cap: nat, simple: bool, e: nat)
    requires |n0| == q && |n2| == q + 1 && e in sel && e < q && lc < |n0[e].neighbors| && NoRepeats(sel)
    requires Shrunk(n2, n3, lc, sel, cap, simple) && n3[q].neighbors == n2[q].neighbors
    requires forall i :: 0 <= i < q ==> |n0[i].neighbors| == |n2[i].neighbors|
    requires forall i :: 0 <= i < q && lc < |n0[i].neighbors| ==>
               n2[i].neighbors[lc] == n0[i].neighbors[lc] + (if i in sel then [q] else [])
    ensures lc < |n3[e].neighbors| && Relinked(n0, n3, q, lc, sel, e, cap, simple)
  {
    var t :| 0 <= t < |sel| && sel[t] == e;
    assert n2[e].neighbors[lc] == n0[e].neighbors[lc] + [q];
    if |n0[e].neighbors[lc]| >= cap {
      FirstOccurrence(sel, t);
      var st :| StoreAt(n2, st, n3, lc, sel[..t]) &&
                ShrinkPick(st, sel[t], lc, cap, simple, n2[sel[t]].neighbors[lc], n3[sel[t]].neighbors[lc]);
      MidwayFrom(n0, n2, n3, q, lc, sel, sel[..t], st);
    }
  }

  /** After connecting and shrinking, an old layer-`lc` list that differs from its start belongs to `sel`. */
  lemma OnlySelectedChange(n0: seq<Node>, n2: seq<Node>, n3: seq<Node>, q: nat, lc: nat, sel: seq<nat>, cap: nat, simple: bool)
    requires |n0| == q && |n2| == q + 1 && Shrunk(n2, n3, lc, sel, cap, simple)
    requires forall i :: 0 <= i < q ==> |n0[i].neighbors| == |n2[i].neighbors|
    requires forall i :: 0 <= i < q && lc < |n0[i].neighbors| ==>
               n2[i].neighbors[lc] == n0[i].neighbors[lc] + (if i in sel then [q] else [])
    ensures forall i :: 0 <= i < q && lc < |n0[i].neighbors| && lc < |n3[i].neighbors| && n3[i].neighbors[lc] != n0[i].neighbors[lc] ==>
              i in sel
  {
    forall i | 0 <= i < q && lc < |n0[i].neighbors| && lc < |n3[i].neighbors| && i !in sel
      ensures n3[i].neighbors[lc] == n0[i].neighbors[lc]
    {
      assert n3[i].neighbors[lc] == n2[i].neighbors[lc];
    }
  }

  /** One iteration of the layer loop keeps its invariant, one layer lower. */
  lemma InsertStep(n0: seq<Node>, n1: seq<Node>, n2: seq<Node>, n3: seq<Node>, q: nat, v: Vector, lNew: nat, lTop: nat,
                   lc: nat, selected: seq<seq<nat>>, sel: seq<nat>, m: nat, mMax0: nat, mMax: nat, simple: bool)
    requires InsertInv(n0, n1, q, v, lNew, lTop, lc, selected, m, mMax0, mMax, simple)
    requires Connected(n1, n2, q, lc, sel) && Shrunk(n2, n3, lc, sel, LayerCap(lc, mMax0, mMax), simple)
    requires |sel| <= m && NoRepeats(sel)
    ensures InsertInv(n0, n3, q, v, lNew, lTop, lc - 1, selected[lc := sel], m, mMax0, mMax, simple)
  {
    var cap := LayerCap(lc, mMax0, mMax);
    LayerNowDone(n0, n1, n2, n3, q, v, lNew, lc, sel, m, cap, simple);
    OtherLayersKept(n1, n2, n3, q, lc, sel, cap, simple);
    assert Shape(n0, n3, q, v, lNew);
    InvBelow(n0, n1, n3, q, v, lNew, lTop, lc, selected, sel, m, mMax0, mMax, simple);
  }

  /** Connecting and shrinking at layer `lc` leave every other layer as it was. */
  lemma OtherLayersKept(n1: seq<Node>, n2: seq<Node>, n3: seq<Node>, q: nat, lc: nat, sel: seq<nat>, cap: nat, simple: bool)
    requires Connected(n1, n2, q, lc, sel) && Shrunk(n2, n3, lc, sel, cap, simple)
    ensures forall l: nat :: l != lc ==> SameAtLayer(n1, n3, l)
  {
    forall l: nat | l != lc ensures SameAtLayer(n1, n3, l) {
      forall i | 0 <= i < |n1| && l < |n1[i].neighbors| ensures n3[i].neighbors[l] == n1[i].neighbors[l] {
        assert n2[i].neighbors[l] == n1[i].neighbors[l];
      }
    }
  }

  /** With layer `lc` done and the others kept, the loop invariant holds one layer down. */
  lemma InvBelow(n0: seq<Node>, n1: seq<Node>, n3: seq<Node>, q: nat, v: Vector, lNew: nat, lTop: nat,
                 lc: nat, selected: seq<seq<nat>>, sel: seq<nat>, m: nat, mMax0: nat, mMax: nat, simple: bool)
    requires InsertInv(n0, n1, q, v, lNew, lTop, lc, selected, m, mMax0, mMax, simple)
    requires WellFormed(n3) && Shape(n0, n3, q, v, lNew) && forall l: nat :: l != lc ==> SameAtLayer(n1, n3, l)
    requires LayerDone(n0, n3, q, lc, sel, m, LayerCap(lc, mMax0, mMax), simple)
    ensures InsertInv(n0, n3, q, v, lNew, lTop, lc - 1, selected[lc := sel], m, mMax0, mMax, simple)
  {
    var selected' := selected[lc := sel];
    forall l: nat | l <= lc - 1 || l > Min(lTop, lNew) ensures Intact(n0, n3, q, l) {
      FrameIntact(n0, n1, n3, q, l);
    }
    forall l: nat | lc - 1 < l <= Min(lTop, lNew)
      ensures LayerDone(n0, n3, q, l, selected'[l], m, LayerCap(l, mMax0, mMax), simple)
    {
      if l != lc {
        FrameDone(n0, n1, n3, q, l, selected'[l], m, LayerCap(l, mMax0, mMax), simple);
      }
    }
  }

  /**
   * One iteration of the layer loop, with its record of searches: layer `lc`
   * was searched from `ep` (the nearest node found on the layer above, below
   * the top) in the current store `n1`, its choice `sel` connected and shrunk.
   */
  lemma LayerLoopStep(n0: seq<Node>, n1: seq<Node>, n2: seq<Node>, n3: seq<Node>, q: nat, v: Vector, lNew: nat, lTop: nat,
                      lc: nat, selected: seq<seq<nat>>, entries: seq<nat>, found: seq<seq<Entry>>,
                      ep: nat, w: seq<Entry>, sel: seq<nat>, m: nat, ef: nat, mMax0: nat, mMax: nat, simple: bool)
    requires InsertInv(n0, n1, q, v, lNew, lTop, lc, selected, m, mMax0, mMax, simple)
    requires SearchedAbove(n0 + [FreshNode(v, lNew)], v, lNew, lTop, lc, selected, entries, found, m, ef, simple)
    requires lc < Min(lTop, lNew) ==> found[lc + 1] != [] && ep == found[lc + 1][0].id
    requires Chosen(n1, v, ep, lc, w, sel, m, ef, simple)
    requires Connected(n1, n2, q, lc, sel) && Shrunk(n2, n3, lc, sel, LayerCap(lc, mMax0, mMax), simple)
    ensures InsertInv(n0, n3, q, v, lNew, lTop, lc - 1, selected[lc := sel], m, mMax0, mMax, simple)
    ensures SearchedAbove(n0 + [FreshNode(v, lNew)], v, lNew, lTop, lc - 1, selected[lc := sel],
                          entries[lc := ep], found[lc := w], m, ef, simple)
  {
    var nq := n0 + [FreshNode(v, lNew)];
    IntactAlike(n0, n1, q, v, lNew, lc);
    ChosenAlike(n1, nq, v, ep, lc, w, sel, m, ef, simple);
    ChosenFacts(nq, v, ep, lc, w, sel, m, ef, simple);
    InsertStep(n0, n1, n2, n3, q, v, lNew, lTop, lc, selected, sel, m, mMax0, mMax, simple);
    SearchedStep(nq, v, lNew, lTop, lc, selected, entries, found, m, ef, simple, ep, w, sel);
  }

  /** After the last layer the insertion is complete. */
  lemma InsertEnd(n0: seq<Node>, ns: seq<Node>, q: nat, v: Vector, lNew: nat, lTop: nat,
                  selected: seq<seq<nat>>, entries: seq<nat>, found: seq<seq<Entry>>,
                  m: nat, ef: nat, mMax0: nat, mMax: nat, simple: bool)
    requires InsertInv(n0, ns, q, v, lNew, lTop, -1, selected, m, mMax0, mMax, simple)
    requires SearchedAbove(n0 + [FreshNode(v, lNew)], v, lNew, lTop, -1, selected, entries, found, m, ef, simple)
    ensures Inserted(n0, ns, q, v, lNew, lTop, selected, entries, found, m, ef, mMax0, mMax, simple)
  {
    forall l: nat | l <= lNew ensures LayerDone(n0, ns, q, l, selected[l], m, LayerCap(l, mMax0, mMax), simple) {
      if l > Min(lTop, lNew) {
        assert Intact(n0, ns, q, l) && selected[l] == [];
      }
    }
  }

  /**
   * A node selected at layer `lc` from a layer search that started at an old
   * node is an old node of level >= lc: the search only reaches nodes named
   * by some list, and so does the extension of its candidates.
   */
  lemma SelectedNotNew(ns: seq<Node>, q: nat, qv: Vector, ep: nat, ef: nat, lc: nat, w: seq<Entry>, x: nat)
    requires WellFormed(ns) && LayerResult(ns, qv, ep, ef, lc, w) && Unreferenced(ns, lc, q) && ep != q
    requires Pooled(ns, Ids(w), lc, true, x)
    ensures x != q && x < |ns| && ns[x].level >= lc
  {
    if x in Ids(w) {
      var t :| 0 <= t < |w| && Ids(w)[t] == x;
      assert w[t] in w;
      UnreferencedUnreachable(ns, lc, q, ep, x);
    } else {
      var i :| 0 <= i < |Ids(w)| && Ids(w)[i] < |ns| && lc < |ns[Ids(w)[i]].neighbors| && x in ns[Ids(w)[i]].neighbors[lc];
      RefValid(ns, Ids(w)[i], lc, x);
    }
  }

  /** The new node is the entry point exactly when its level exceeds the old entry point's. */
  lemma EntryAfterInsert(n0: seq<Node>, ns: seq<Node>, q: nat, v: Vector, lNew: nat, ep0: nat)
    requires EntryOk(n0, Some(ep0)) && Shape(n0, ns, q, v, lNew)
    ensures EntryOk(ns, if lNew > n0[ep0].level then Some(q) else Some(ep0))
  {
  }
}
