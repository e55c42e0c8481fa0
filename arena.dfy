/**
 * The node store: every inserted vector lives in one arena and is addressed
 * by its index; neighbour lists, the entry point and the layer lists hold
 * indices into it.
 */
module Arena {
  import opened Base

  /** A stored vector, its top layer and one neighbour list per layer 0..level. */
  datatype Node = Node(data: Vector, neighbors: seq<seq<nat>>, level: nat)

  /** Every node has the same dimension as the first one. */
  ghost predicate SameDim(ns: seq<Node>)
  {
    forall i :: 0 <= i < |ns| ==> |ns[i].data| == |ns[0].data|
  }

  /**
   * The structural invariant of the store: a node has exactly level+1
   * neighbour lists, and every reference at layer l names a node whose level
   * is at least l (so that node's layer-l list exists).
   */
  ghost predicate WellFormed(ns: seq<Node>)
  {
    SameDim(ns) &&
    (forall i :: 0 <= i < |ns| ==> |ns[i].neighbors| == ns[i].level + 1) &&
    (forall i: int, l: int, x: int :: 0 <= i < |ns| && 0 <= l < |ns[i].neighbors| && x in ns[i].neighbors[l] ==>
       0 <= x < |ns| && ns[x].level >= l)
  }

  /** A reference at layer l of a well-formed store names a node of level >= l. */
  lemma RefValid(ns: seq<Node>, i: nat, l: nat, x: nat)
    requires WellFormed(ns)
    requires i < |ns| && l < |ns[i].neighbors| && x in ns[i].neighbors[l]
    ensures x < |ns| && ns[x].level >= l
  {
  }

  /** A walk along layer-`lc` edges. */
  ghost predicate IsPath(ns: seq<Node>, lc: nat, p: seq<nat>)
  {
    |p| >= 1 &&
    (forall i :: 0 <= i < |p| ==> p[i] < |ns|) &&
    (forall i :: 0 <= i < |p| - 1 ==> lc < |ns[p[i]].neighbors| && p[i + 1] in ns[p[i]].neighbors[lc])
  }

  /** `b` can be reached from `a` over layer-`lc` edges. */
  ghost predicate Reachable(ns: seq<Node>, lc: nat, a: nat, b: nat)
  {
    exists p :: IsPath(ns, lc, p) && p[0] == a && p[|p| - 1] == b
  }

  lemma ReachableSelf(ns: seq<Node>, lc: nat, a: nat)
    requires a < |ns|
    ensures Reachable(ns, lc, a, a)
  {
    assert IsPath(ns, lc, [a]);
  }

  /** Reachability extends along one more edge. */
  lemma ReachableStep(ns: seq<Node>, lc: nat, a: nat, b: nat, c: nat)
    requires Reachable(ns, lc, a, b)
    requires b < |ns| && lc < |ns[b].neighbors| && c in ns[b].neighbors[lc]
    requires c < |ns|
    ensures Reachable(ns, lc, a, c)
  {
    var p :| IsPath(ns, lc, p) && p[0] == a && p[|p| - 1] == b;
    var p' := p + [c];
    forall i | 0 <= i < |p'| - 1
      ensures lc < |ns[p'[i]].neighbors| && p'[i + 1] in ns[p'[i]].neighbors[lc]
    {
      assert p'[i] == p[i];
      if i + 1 < |p| { assert p'[i + 1] == p[i + 1]; }
    }
    assert IsPath(ns, lc, p');
  }

  /** No layer-`lc` list of the store names `q`. */
  ghost predicate Unreferenced(ns: seq<Node>, lc: nat, q: nat)
  {
    forall i :: 0 <= i < |ns| && lc < |ns[i].neighbors| ==> q !in ns[i].neighbors[lc]
  }

  /** A node no layer-`lc` list names is reached only if the walk starts there. */
  lemma UnreferencedUnreachable(ns: seq<Node>, lc: nat, q: nat, a: nat, b: nat)
    requires Unreferenced(ns, lc, q)
    requires Reachable(ns, lc, a, b)
    requires a != q
    ensures b != q
  {
    var p :| IsPath(ns, lc, p) && p[0] == a && p[|p| - 1] == b;
    if |p| >= 2 {
      var i := |p| - 2;
      assert p[i + 1] in ns[p[i]].neighbors[lc];
    }
  }

  /** The indices 0..n-1 in order. */
  function Range(n: nat): (r: seq<nat>)
  {
    seq(n, i => i)
  }

  /** The layer-`l` list of the first `n` nodes: those of level >= l, in insertion order. */
  function Members(ns: seq<Node>, n: nat, l: nat): (r: seq<nat>)
    requires n <= |ns|
    ensures |r| <= n
    ensures forall t :: 0 <= t < |r| ==> r[t] < n && ns[r[t]].level >= l
  {
    if n == 0 then []
    else Members(ns, n - 1, l) + (if ns[n - 1].level >= l then [n - 1] else [])
  }

  /** A layer holds exactly the nodes whose level reaches it, in increasing index order. */
  lemma {:induction false} MembersExact(ns: seq<Node>, n: nat, l: nat)
    requires n <= |ns|
    ensures forall x: nat :: x in Members(ns, n, l) <==> x < n && ns[x].level >= l
    ensures forall i, j :: 0 <= i < j < |Members(ns, n, l)| ==> Members(ns, n, l)[i] < Members(ns, n, l)[j]
  {
    if n > 0 {
      MembersExact(ns, n - 1, l);
      var prev := Members(ns, n - 1, l);
      var tail: seq<nat> := if ns[n - 1].level >= l then [n - 1] else [];
      assert Members(ns, n, l) == prev + tail;
      forall x: nat ensures x in prev + tail <==> x < n && ns[x].level >= l {
        assert x in prev + tail <==> x in prev || x in tail;
      }
      forall i, j | 0 <= i < j < |prev + tail| ensures (prev + tail)[i] < (prev + tail)[j] {
        if j >= |prev| {
          assert (prev + tail)[i] in prev;
        }
      }
    }
  }

  /** Layer 0 holds every node, in insertion order. */
  lemma {:induction false} LayerZeroIsAll(ns: seq<Node>, n: nat)
    requires n <= |ns|
    ensures Members(ns, n, 0) == Range(n)
  {
    if n > 0 {
      LayerZeroIsAll(ns, n - 1);
      assert Range(n) == Range(n - 1) + [n - 1];
    }
  }

  /** Layer lists depend only on the levels of the nodes. */
  lemma {:induction false} MembersFollowLevels(ns: seq<Node>, ns': seq<Node>, n: nat, l: nat)
    requires n <= |ns| && n <= |ns'|
    requires forall i :: 0 <= i < n ==> ns[i].level == ns'[i].level
    ensures Members(ns, n, l) == Members(ns', n, l)
  {
    if n > 0 {
      MembersFollowLevels(ns, ns', n - 1, l);
    }
  }

  /** A layer above every node's level is empty. */
  lemma {:induction false} MembersAboveTop(ns: seq<Node>, n: nat, l: nat)
    requires n <= |ns|
    requires forall i :: 0 <= i < n ==> ns[i].level < l
    ensures Members(ns, n, l) == []
  {
    if n > 0 {
      MembersAboveTop(ns, n - 1, l);
    }
  }

  /** The store with node `i`'s layer-`l` list replaced. */
  function SetList(ns: seq<Node>, i: nat, l: nat, lst: seq<nat>): (r: seq<Node>)
    requires i < |ns| && l < |ns[i].neighbors|
    ensures SameShape(ns, r)
    ensures r[i].neighbors[l] == lst
    ensures forall j, k :: 0 <= j < |ns| && 0 <= k < |ns[j].neighbors| && !(j == i && k == l) ==>
              r[j].neighbors[k] == ns[j].neighbors[k]
  {
    ns[i := ns[i].(neighbors := ns[i].neighbors[l := lst])]
  }

  /** Replacing one list by references to nodes of level >= l keeps the store well formed. */
  lemma SetListWellFormed(ns: seq<Node>, k: nat, lv: nat, lst: seq<nat>)
    requires WellFormed(ns)
    requires k < |ns| && lv < |ns[k].neighbors|
    requires forall x :: x in lst ==> x < |ns| && ns[x].level >= lv
    ensures WellFormed(SetList(ns, k, lv, lst))
  {
    var ns' := SetList(ns, k, lv, lst);
    forall i | 0 <= i < |ns'|
      ensures ns'[i].data == ns[i].data && ns'[i].level == ns[i].level && |ns'[i].neighbors| == |ns[i].neighbors|
    {
    }
    forall i: int, l: int | 0 <= i < |ns'| && 0 <= l < |ns'[i].neighbors|
      ensures forall x: int :: x in ns'[i].neighbors[l] ==> 0 <= x < |ns'| && ns'[x].level >= l
    {
      forall x: int | x in ns'[i].neighbors[l] ensures 0 <= x < |ns'| && ns'[x].level >= l {
        if i == k && l == lv {
          assert x in lst;
        } else {
          assert ns'[i].neighbors[l] == ns[i].neighbors[l];
          RefValid(ns, i, l, x);
        }
      }
    }
    WellFormedIntro(ns');
  }

  /** WellFormed from its three conditions. */
  lemma WellFormedIntro(ns: seq<Node>)
    requires SameDim(ns)
    requires forall i :: 0 <= i < |ns| ==> |ns[i].neighbors| == ns[i].level + 1
    requires forall i: int, l: int :: 0 <= i < |ns| && 0 <= l < |ns[i].neighbors| ==>
               forall x: int :: x in ns[i].neighbors[l] ==> 0 <= x < |ns| && ns[x].level >= l
    ensures WellFormed(ns)
  {
    forall i: int, l: int, x: int | 0 <= i < |ns| && 0 <= l < |ns[i].neighbors| && x in ns[i].neighbors[l]
      ensures 0 <= x < |ns| && ns[x].level >= l
    {
      var lst := ns[i].neighbors[l];
      assert forall y: int :: y in lst ==> 0 <= y < |ns| && ns[y].level >= l;
    }
  }

  /** Two stores hold the same vectors and levels, with the same number of lists per node. */
  ghost predicate SameShape(a: seq<Node>, b: seq<Node>)
  {
    |a| == |b| &&
    forall i :: 0 <= i < |a| ==>
      b[i].data == a[i].data && b[i].level == a[i].level && |b[i].neighbors| == |a[i].neighbors|
  }

  /** The two stores agree on every list of layer `l`. */
  ghost predicate SameAtLayer(a: seq<Node>, b: seq<Node>, l: nat)
  {
    SameShape(a, b) &&
    forall i :: 0 <= i < |a| && l < |a[i].neighbors| ==> b[i].neighbors[l] == a[i].neighbors[l]
  }

  /** Reachability over layer `l` depends only on the layer-`l` lists. */
  lemma ReachableAlike(a: seq<Node>, b: seq<Node>, l: nat, x: nat, y: nat)
    requires SameAtLayer(a, b, l) && Reachable(a, l, x, y)
    ensures Reachable(b, l, x, y)
  {
    var p :| IsPath(a, l, p) && p[0] == x && p[|p| - 1] == y;
    assert IsPath(b, l, p);
  }

  /** Every list of `b` equals that of `a`, except possibly the layer-`lc` lists of the nodes in `s`. */
  ghost predicate Untouched(a: seq<Node>, b: seq<Node>, lc: nat, s: seq<nat>)
    requires SameShape(a, b)
  {
    forall i, l :: 0 <= i < |a| && 0 <= l < |a[i].neighbors| && !(l == lc && i in s) ==>
      b[i].neighbors[l] == a[i].neighbors[l]
  }

  /** Appending a reference to a node of level >= l keeps the store well formed. */
  lemma AppendWellFormed(ns: seq<Node>, i: nat, l: nat, x: nat)
    requires WellFormed(ns)
    requires i < |ns| && l < |ns[i].neighbors| && x < |ns| && ns[x].level >= l
    ensures WellFormed(SetList(ns, i, l, ns[i].neighbors[l] + [x]))
  {
    forall y | y in ns[i].neighbors[l] + [x] ensures y < |ns| && ns[y].level >= l {
      if y != x { RefValid(ns, i, l, y); }
    }
    SetListWellFormed(ns, i, l, ns[i].neighbors[l] + [x]);
  }

  /** The store after one connection: `q` appended to `e`'s layer-`l` list, then `e` to `q`'s. */
  function Linked(ns: seq<Node>, q: nat, l: nat, e: nat): (r: seq<Node>)
    requires q < |ns| && l < |ns[q].neighbors| && e < |ns| && l < |ns[e].neighbors|
    ensures SameShape(ns, r)
    ensures q != e ==> r[q].neighbors[l] == ns[q].neighbors[l] + [e] && r[e].neighbors[l] == ns[e].neighbors[l] + [q]
    ensures q == e ==> r[q].neighbors[l] == ns[q].neighbors[l] + [q, q]
    ensures forall j, k :: 0 <= j < |ns| && 0 <= k < |ns[j].neighbors| && !(k == l && (j == q || j == e)) ==>
              r[j].neighbors[k] == ns[j].neighbors[k]
  {
    var ns1 := SetList(ns, e, l, ns[e].neighbors[l] + [q]);
    SetList(ns1, q, l, ns1[q].neighbors[l] + [e])
  }

  /** A connection between two distinct nodes of level >= l keeps the store well formed. */
  lemma LinkedFacts(ns: seq<Node>, q: nat, l: nat, e: nat)
    requires WellFormed(ns)
    requires q < |ns| && e < |ns| && e != q && ns[q].level >= l && ns[e].level >= l
    ensures WellFormed(Linked(ns, q, l, e))
  {
    AppendWellFormed(ns, e, l, q);
    var ns1 := SetList(ns, e, l, ns[e].neighbors[l] + [q]);
    AppendWellFormed(ns1, q, l, e);
  }

  /** `n` references to node `x`. */
  function Copies(x: nat, n: nat): (r: seq<nat>)
  {
    seq(n, _ => x)
  }

  /**
   * `ns` is `n0` after connecting `q` with each of `sel` at layer `lc`:
   * `q`'s list gained `sel`, every other layer-`lc` list gained `q` once per
   * occurrence of its node in `sel` and kept its old entries in order, and
   * lists at other layers are as before.
   */
  ghost predicate Connected(n0: seq<Node>, ns: seq<Node>, q: nat, lc: nat, sel: seq<nat>)
  {
    WellFormed(ns) && SameShape(n0, ns) && q < |n0| && lc < |n0[q].neighbors| &&
    Untouched(n0, ns, lc, sel + [q]) &&
    ns[q].neighbors[lc] == n0[q].neighbors[lc] + sel &&
    (forall t :: 0 <= t < |sel| ==> sel[t] < |ns| && sel[t] != q && lc < |ns[sel[t]].neighbors|) &&
    (forall i :: 0 <= i < |ns| && i != q && lc < |ns[i].neighbors| ==>
       ns[i].neighbors[lc] == n0[i].neighbors[lc] + Copies(q, multiset(sel)[i]))
  }

  /** Nothing connected yet. */
  lemma ConnectedStart(ns: seq<Node>, q: nat, lc: nat)
    requires WellFormed(ns) && q < |ns| && ns[q].level >= lc
    ensures Connected(ns, ns, q, lc, [])
  {
    forall i | 0 <= i < |ns| && i != q && lc < |ns[i].neighbors|
      ensures ns[i].neighbors[lc] == ns[i].neighbors[lc] + Copies(q, multiset([])[i])
    {
      assert Copies(q, 0) == [];
    }
  }

  /** Connecting one more neighbour. */
  lemma {:induction false} ConnectedStep(n0: seq<Node>, ns: seq<Node>, q: nat, lc: nat, sel: seq<nat>, e: nat)
    requires Connected(n0, ns, q, lc, sel)
    requires e < |ns| && e != q && ns[e].level >= lc
    ensures Connected(n0, Linked(ns, q, lc, e), q, lc, sel + [e])
  {
    LinkedFacts(ns, q, lc, e);
    var ns' := Linked(ns, q, lc, e);
    UntouchedStep(n0, ns, q, lc, sel, e);
    assert ns'[q].neighbors[lc] == n0[q].neighbors[lc] + (sel + [e]);
    CopiesAll(n0, ns, q, lc, sel, e);
    MembersStep(ns, ns', q, lc, sel, e);
  }

  /** Every member of `sel + [e]` is a node other than `q` with a layer-`lc` list. */
  lemma MembersStep(ns: seq<Node>, ns': seq<Node>, q: nat, lc: nat, sel: seq<nat>, e: nat)
    requires SameShape(ns, ns') && e < |ns| && e != q && lc < |ns[e].neighbors|
    requires forall t :: 0 <= t < |sel| ==> sel[t] < |ns| && sel[t] != q && lc < |ns[sel[t]].neighbors|
    ensures forall t :: 0 <= t < |sel + [e]| ==> (sel + [e])[t] < |ns'| && (sel + [e])[t] != q && lc < |ns'[(sel + [e])[t]].neighbors|
  {
    forall t | 0 <= t < |sel + [e]| ensures (sel + [e])[t] < |ns'| && (sel + [e])[t] != q && lc < |ns'[(sel + [e])[t]].neighbors| {
      if t < |sel| { assert (sel + [e])[t] == sel[t]; }
    }
  }

  /** Connecting `e` leaves alone every list that connecting `sel` left alone, but for `e`'s. */
  lemma UntouchedStep(n0: seq<Node>, ns: seq<Node>, q: nat, lc: nat, sel: seq<nat>, e: nat)
    requires Connected(n0, ns, q, lc, sel)
    requires e < |ns| && e != q && ns[e].level >= lc
    ensures Untouched(n0, Linked(ns, q, lc, e), lc, sel + [e] + [q])
  {
    var ns' := Linked(ns, q, lc, e);
    forall i, l | 0 <= i < |n0| && 0 <= l < |n0[i].neighbors| && !(l == lc && i in sel + [e] + [q])
      ensures ns'[i].neighbors[l] == n0[i].neighbors[l]
    {
      assert !(l == lc && i in sel + [q]);
    }
  }

  /** Connecting `e` adds one copy of `q` to `e`'s list and to no other. */
  lemma CopiesAll(n0: seq<Node>, ns: seq<Node>, q: nat, lc: nat, sel: seq<nat>, e: nat)
    requires Connected(n0, ns, q, lc, sel)
    requires e < |ns| && e != q && ns[e].level >= lc
    ensures forall i :: 0 <= i < |ns| && i != q && lc < |ns[i].neighbors| ==>
              Linked(ns, q, lc, e)[i].neighbors[lc] == n0[i].neighbors[lc] + Copies(q, multiset(sel + [e])[i])
  {
    var ns' := Linked(ns, q, lc, e);
    forall i | 0 <= i < |ns| && i != q && lc < |ns[i].neighbors|
      ensures ns'[i].neighbors[lc] == n0[i].neighbors[lc] + Copies(q, multiset(sel + [e])[i])
    {
      CopiesStep(n0[i].neighbors[lc], ns[i].neighbors[lc], q, sel, e, i, ns'[i].neighbors[lc]);
    }
  }

  /** Connecting the next member of `sel`, in the prefix form of the connection loop. */
  lemma ConnectedNext(n0: seq<Node>, ns: seq<Node>, q: nat, lc: nat, sel: seq<nat>, k: nat)
    requires k < |sel| && Connected(n0, ns, q, lc, sel[..k])
    requires sel[k] < |ns| && sel[k] != q && ns[sel[k]].level >= lc
    ensures Connected(n0, Linked(ns, q, lc, sel[k]), q, lc, sel[..k + 1])
  {
    assert sel[..k + 1] == sel[..k] + [sel[k]];
    ConnectedStep(n0, ns, q, lc, sel[..k], sel[k]);
  }

  /** One connection adds one more copy of `q` to the list of `e` and to no other. */
  lemma CopiesStep(old0: seq<nat>, cur: seq<nat>, q: nat, sel: seq<nat>, e: nat, i: nat, next: seq<nat>)
    requires cur == old0 + Copies(q, multiset(sel)[i])
    requires next == if i == e then cur + [q] else cur
    ensures next == old0 + Copies(q, multiset(sel + [e])[i])
  {
    var c := multiset(sel)[i];
    assert multiset(sel + [e]) == multiset(sel) + multiset{e};
    if i == e {
      assert Copies(q, c) + [q] == Copies(q, c + 1);
    }
  }

  /** The entry point is absent exactly for the empty store, and otherwise a node of maximum level. */
  ghost predicate EntryOk(ns: seq<Node>, ep: Option<nat>)
  {
    (ep.None? <==> ns == []) &&
    (ep.Some? ==> ep.value < |ns| && forall i :: 0 <= i < |ns| ==> ns[i].level <= ns[ep.value].level)
  }
}
