/**
 * The index's priority queues (a max-heap of (distance, node) pairs) as
 * sequences kept in descending order: the head is the heap's top.
 */
module PQueue {
  import opened Base

  /** A queue element: a key (a distance or a negated distance) and a node index. */
  datatype Entry = Entry(key: real, id: nat)

  /** `a` compares at least as large as `b` under the lexicographic pair order. */
  predicate Above(a: Entry, b: Entry)
  {
    a.key > b.key || (a.key == b.key && a.id >= b.id)
  }

  /** Heap order: every element is Above every later one. */
  predicate Sorted(h: seq<Entry>)
  {
    forall i, j :: 0 <= i < j < |h| ==> Above(h[i], h[j])
  }

  /** Every element of `h` lies below `x`. */
  predicate Dominated(x: Entry, h: seq<Entry>)
  {
    forall y :: y in h ==> Above(x, y)
  }

  /** No node index occurs twice in the queue. */
  predicate DistinctIds(h: seq<Entry>)
  {
    forall i, j :: 0 <= i < j < |h| ==> h[i].id != h[j].id
  }

  /** The node indices of a queue in pop order. */
  function Ids(h: seq<Entry>): (r: seq<nat>)
    ensures |r| == |h|
    ensures forall i :: 0 <= i < |h| ==> r[i] == h[i].id
  {
    seq(|h|, i requires 0 <= i < |h| => h[i].id)
  }

  /** Where `push` places a new element: after every element that is Above it. */
  function InsertPos(h: seq<Entry>, e: Entry): (k: nat)
    ensures k <= |h|
    ensures forall i :: 0 <= i < k ==> Above(h[i], e)
    ensures Sorted(h) ==> forall i :: k <= i < |h| ==> !Above(h[i], e)
  {
    if h == [] || !Above(h[0], e) then 0 else 1 + InsertPos(h[1..], e)
  }

  /** `priority_queue::push`. */
  function Push(h: seq<Entry>, e: Entry): (r: seq<Entry>)
    ensures |r| == |h| + 1
    ensures e in r
    ensures forall y :: y in r <==> y in h || y == e
    ensures multiset(r) == multiset(h) + multiset{e}
    ensures Sorted(h) ==> Sorted(r)
  {
    var k := InsertPos(h, e);
    SplitMultiset(h, k, e);
    SplitSorted(h, k, e);
    h[..k] + [e] + h[k..]
  }

  /** Inserting an element anywhere adds exactly one occurrence of it. */
  lemma SplitMultiset(h: seq<Entry>, k: nat, e: Entry)
    requires k <= |h|
    ensures multiset(h[..k] + [e] + h[k..]) == multiset(h) + multiset{e}
    ensures forall y :: y in h[..k] + [e] + h[k..] <==> y in h || y == e
  {
    assert h == h[..k] + h[k..];
    InsertMultiset(h[..k], e, h[k..]);
    var r := h[..k] + [e] + h[k..];
    forall y ensures y in r <==> y in h || y == e {
      assert y in r <==> multiset(r)[y] > 0;
      assert y in h <==> multiset(h)[y] > 0;
    }
  }

  /** Inserting between the elements above and those below keeps heap order. */
  lemma SplitSorted(h: seq<Entry>, k: nat, e: Entry)
    requires k <= |h|
    requires forall i :: 0 <= i < k ==> Above(h[i], e)
    requires Sorted(h) ==> forall i :: k <= i < |h| ==> !Above(h[i], e)
    ensures Sorted(h) ==> Sorted(h[..k] + [e] + h[k..])
  {
    if Sorted(h) {
      assert forall i :: k <= i < |h| ==> Above(e, h[i]);
    }
  }

  lemma InsertMultiset<T>(a: seq<T>, x: T, b: seq<T>)
    ensures multiset(a + [x] + b) == multiset(a + b) + multiset{x}
  {
    calc {
      multiset(a + [x] + b);
      multiset(a) + multiset{x} + multiset(b);
      multiset(a + b) + multiset{x};
    }
  }

  /**
   * The `if (size() > bound) pop();` that keeps a queue bounded: it only
   * removes, keeps heap order and distinct indices, and brings a queue one
   * over the bound back within it.
   */
  function Cut(h: seq<Entry>, bound: nat): (r: seq<Entry>)
    ensures multiset(r) <= multiset(h)
    ensures |h| <= bound + 1 ==> |r| <= bound
    ensures Sorted(h) ==> Sorted(r)
    ensures DistinctIds(h) ==> DistinctIds(r)
  {
    if |h| > bound then
      assert h == [h[0]] + h[1..];
      h[1..]
    else h
  }

  /** The node indices of a concatenation. */
  lemma IdsConcat(a: seq<Entry>, b: seq<Entry>)
    ensures Ids(a + b) == Ids(a) + Ids(b)
  {
  }

  lemma IdsSingle(e: Entry)
    ensures Ids([e]) == [e.id]
  {
    assert |Ids([e])| == 1 && Ids([e])[0] == e.id;
  }

  /** Pushing adds exactly one occurrence of the new element's index. */
  lemma IdsPush(h: seq<Entry>, e: Entry)
    ensures multiset(Ids(Push(h, e))) == multiset(Ids(h)) + multiset{e.id}
  {
    var k := InsertPos(h, e);
    var a, b := h[..k], h[k..];
    calc {
      multiset(Ids(Push(h, e)));
    == { assert Push(h, e) == (a + [e]) + b; }
      multiset(Ids((a + [e]) + b));
    == { IdsConcat(a + [e], b); IdsConcat(a, [e]); IdsSingle(e); }
      multiset(Ids(a) + [e.id] + Ids(b));
    == { InsertMultiset(Ids(a), e.id, Ids(b)); }
      multiset(Ids(a) + Ids(b)) + multiset{e.id};
    == { assert h == a + b; IdsConcat(a, b); }
      multiset(Ids(h)) + multiset{e.id};
    }
  }

  /** The bounding pop removes at most one index occurrence. */
  lemma IdsCut(h: seq<Entry>, bound: nat)
    ensures multiset(Ids(Cut(h, bound))) <= multiset(Ids(h))
  {
    if |h| > bound {
      assert h == [h[0]] + h[1..];
      IdsConcat([h[0]], h[1..]);
    }
  }

  /** The indices of the first `k` elements are among the queue's. */
  lemma IdsPrefix(h: seq<Entry>, k: nat)
    requires k <= |h|
    ensures multiset(Ids(h[..k])) <= multiset(Ids(h))
  {
    assert h == h[..k] + h[k..];
    IdsConcat(h[..k], h[k..]);
  }

  /** Distinct indices occur once each in the index sequence. */
  lemma {:induction false} DistinctNoRepeats(h: seq<Entry>)
    requires DistinctIds(h)
    ensures NoRepeats(Ids(h))
  {
    if h != [] {
      DistinctNoRepeats(h[1..]);
      assert Ids(h) == [h[0].id] + Ids(h[1..]);
      assert h[0].id !in Ids(h[1..]) by {
        forall t | 0 <= t < |h| - 1 ensures Ids(h[1..])[t] != h[0].id {
          assert h[1..][t] == h[t + 1];
        }
      }
    }
  }

  /** Pushing an element whose index is new keeps the indices distinct. */
  lemma PushDistinct(h: seq<Entry>, e: Entry)
    requires DistinctIds(h)
    requires forall y :: y in h ==> y.id != e.id
    ensures DistinctIds(Push(h, e))
  {
    DistinctInsert(h, InsertPos(h, e), e);
  }

  /** Inserting an element with a new index anywhere keeps the indices distinct. */
  lemma DistinctInsert(h: seq<Entry>, k: nat, e: Entry)
    requires k <= |h| && DistinctIds(h)
    requires forall y :: y in h ==> y.id != e.id
    ensures DistinctIds(h[..k] + [e] + h[k..])
  {
    var r := h[..k] + [e] + h[k..];
    forall t | 0 <= t < |r| ensures (t < k ==> r[t] == h[t]) && (t > k ==> r[t] == h[t - 1]) && (t == k ==> r[t] == e) {
    }
    forall i, j | 0 <= i < j < |r| ensures r[i].id != r[j].id {
      if i == k {
        assert r[j] == h[j - 1];
      } else if j == k {
        assert r[i] == h[i];
      } else {
        var i' := if i < k then i else i - 1;
        var j' := if j < k then j else j - 1;
        assert r[i] == h[i'] && r[j] == h[j'] && i' < j';
      }
    }
  }

  /**
   * The top-k filter step: after `push(e)` and the bounding pop, an element
   * that was kept, pushed, or already dominated by a full queue is either
   * still kept or lies above everything kept.
   */
  lemma BoundedPush(h: seq<Entry>, e: Entry, bound: nat, x: Entry)
    requires Sorted(h) && |h| <= bound
    requires x == e || x in h || (Dominated(x, h) && |h| == bound)
    ensures x in Cut(Push(h, e), bound) || Dominated(x, Cut(Push(h, e), bound))
  {
    var p := Push(h, e);
    if |p| > bound {
      var w := p[1..];
      if x in p {
        if x != p[0] {
          assert x in w;
        } else {
          forall y | y in w ensures Above(x, y) {
            var j :| 0 <= j < |w| && w[j] == y;
            assert p[j + 1] == y;
          }
        }
      } else {
        var k := InsertPos(h, e);
        forall y | y in w ensures Above(x, y) {
          var j :| 0 <= j < |w| && w[j] == y;
          if j + 1 < k {
            assert y == h[j + 1] && y in h;
          } else if j + 1 == k {
            assert y == e && p[0] == h[0] && h[0] in h;
            assert Above(x, h[0]) && Above(h[0], e);
          } else {
            assert y == h[j] && y in h;
          }
        }
      }
    }
  }

  /**
   * Pushing an element below the head keeps the head in front; behind it
   * come the rest of the queue and the new element.
   */
  lemma PushBelowHead(h: seq<Entry>, e: Entry)
    requires Sorted(h) && h != [] && Above(h[0], e)
    ensures Push(h, e)[0] == h[0]
    ensures multiset(Push(h, e)[1..]) == multiset(h[1..]) + multiset{e}
  {
    var r := Push(h, e);
    var k := InsertPos(h, e);
    assert k >= 1;
    assert r[1..] == h[1..k] + [e] + h[k..];
    assert h[1..] == h[1..k] + h[k..];
    InsertMultiset(h[1..k], e, h[k..]);
  }

  /** A push never raises the key of the last (lowest) element. */
  lemma LastAfterPush(h: seq<Entry>, e: Entry)
    requires Sorted(h) && h != []
    ensures Push(h, e)[|h|].key <= h[|h| - 1].key
  {
    var p := Push(h, e);
    assert h[|h| - 1] in h;
    assert h[|h| - 1] in p;
    var i :| 0 <= i < |p| && p[i] == h[|h| - 1];
    if i < |h| {
      assert Above(p[i], p[|h|]);
    }
  }

  /** The key-negating copy used to turn a max-heap into a min-heap. */
  function Negated(e: Entry): (r: Entry)
  {
    Entry(-e.key, e.id)
  }

  /** The node indices a queue holds. */
  ghost function IdSet(h: seq<Entry>): (s: set<nat>)
  {
    set y | y in h :: y.id
  }

  /** Pushing adds exactly the new element's index. */
  lemma IdSetPush(h: seq<Entry>, e: Entry)
    ensures IdSet(Push(h, e)) == IdSet(h) + {e.id}
  {
    var r := Push(h, e);
    forall x | x in IdSet(h) + {e.id} ensures x in IdSet(r) {
      if x in IdSet(h) {
        var y :| y in h && y.id == x;
        assert y in r;
      } else {
        assert e in r;
      }
    }
  }

  /**
   * Moving a queue into a negated-key queue, part way: the elements still
   * to move, and the moved ones negated, with no index in both.
   */
  ghost predicate NegateInv(w: seq<Entry>, rest: seq<Entry>, minW: seq<Entry>)
  {
    Sorted(rest) && DistinctIds(rest) && Sorted(minW) && DistinctIds(minW) &&
    |minW| + |rest| == |w| &&
    (forall z :: z in rest ==> z in w) &&
    (forall y :: y in minW <==> Negated(y) in w && Negated(y) !in rest) &&
    (forall y, z :: y in minW && z in rest ==> y.id != z.id)
  }

  /** Moving the top element keeps the invariant. */
  lemma NegateStep(w: seq<Entry>, rest: seq<Entry>, minW: seq<Entry>)
    requires DistinctIds(w) && NegateInv(w, rest, minW) && rest != []
    ensures NegateInv(w, rest[1..], Push(minW, Negated(rest[0])))
  {
    var e := rest[0];
    assert e in rest;
    TailFacts(rest);
    PushDistinct(minW, Negated(e));
    var m1 := Push(minW, Negated(e));
    var r1 := rest[1..];
    assert forall y :: y in m1 <==> y in minW || y == Negated(e);
    assert forall y :: y in m1 <==> Negated(y) in w && Negated(y) !in r1 by {
      forall y ensures y in m1 <==> Negated(y) in w && Negated(y) !in r1 {
        if y == Negated(e) {
          assert Negated(y) == e;
        }
      }
    }
    assert forall y, z :: y in m1 && z in r1 ==> y.id != z.id;
  }

  /** The rest of a sorted queue without repeated indices, after its top. */
  lemma TailFacts(h: seq<Entry>)
    requires Sorted(h) && DistinctIds(h) && h != []
    ensures Sorted(h[1..]) && DistinctIds(h[1..])
    ensures forall z :: z in h[1..] ==> z in h && z.id != h[0].id
  {
    forall z | z in h[1..] ensures z in h && z.id != h[0].id {
      var j :| 0 <= j < |h[1..]| && h[1..][j] == z;
      assert h[j + 1] == z;
    }
  }
}
