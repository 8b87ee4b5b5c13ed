/** A stable descending sort, as a sequence of positions: what Array.prototype.sort guarantees for the
    comparator of server/cherum/static/js/video.js, line 189. */
module Sorting {
  import opened Sequences

  /** Position `a` comes before position `b`: larger key first, equal keys in their original order. */
  predicate Before(keys: seq<real>, a: nat, b: nat)
    requires a < |keys| && b < |keys|
  {
    keys[a] > keys[b] || (keys[a] == keys[b] && a < b)
  }

  ghost predicate InOrder(keys: seq<real>, order: seq<nat>)
  {
    && (forall i :: 0 <= i < |order| ==> order[i] < |keys|)
    && (forall i, j :: 0 <= i < j < |order| ==> Before(keys, order[i], order[j]))
  }

  /** `order` lists every position of `keys`, best first. `Before` is irreflexive, so none is listed twice. */
  ghost predicate IsStableOrder(keys: seq<real>, order: seq<nat>)
  {
    && InOrder(keys, order)
    && (forall p :: 0 <= p < |keys| ==> p in order)
  }

  /** Inserts a position behind everything that comes before it. */
  function Insert(keys: seq<real>, order: seq<nat>, p: nat): (r: seq<nat>)
    requires p < |keys| && forall i :: 0 <= i < |order| ==> order[i] < |keys|
    ensures |r| == |order| + 1 && forall i :: 0 <= i < |r| ==> r[i] < |keys|
    ensures forall q :: q in r <==> q == p || q in order
  {
    if order == [] then [p]
    else if Before(keys, Last(order), p) then order + [p]
    else
      assert order == DropLast(order) + [Last(order)];
      Insert(keys, DropLast(order), p) + [Last(order)]
  }

  lemma {:induction false} InsertInOrder(keys: seq<real>, order: seq<nat>, p: nat)
    requires InOrder(keys, order) && p < |keys| && p !in order
    ensures InOrder(keys, Insert(keys, order, p))
  {
    if order == [] {
    } else {
      var r := Insert(keys, order, p);
      if Before(keys, Last(order), p) {
        assert r == order + [p];
      } else {
        assert order == DropLast(order) + [Last(order)];
        InsertInOrder(keys, DropLast(order), p);
        var front := Insert(keys, DropLast(order), p);
        forall i | 0 <= i < |front|
          ensures Before(keys, front[i], Last(order))
        {
          assert front[i] == p || front[i] in DropLast(order);
        }
      }
    }
  }

  function OrderUpTo(keys: seq<real>, n: nat): (order: seq<nat>)
    requires n <= |keys|
    ensures forall p :: p in order <==> 0 <= p < n
    ensures |order| == n
  {
    if n == 0 then []
    else
      Insert(keys, OrderUpTo(keys, n - 1), n - 1)
  }

  function StableOrder(keys: seq<real>): (order: seq<nat>)
    ensures |order| == |keys|
    ensures forall i :: 0 <= i < |order| ==> order[i] < |keys|
  {
    var order := OrderUpTo(keys, |keys|);
    assert forall i :: 0 <= i < |order| ==> order[i] in order;
    order
  }

  lemma {:induction false} OrderUpToSorted(keys: seq<real>, n: nat)
    requires n <= |keys|
    ensures InOrder(keys, OrderUpTo(keys, n))
  {
    if n == 0 {
    } else {
      OrderUpToSorted(keys, n - 1);
      InsertInOrder(keys, OrderUpTo(keys, n - 1), n - 1);
    }
  }

  lemma StableOrderExists(keys: seq<real>)
    ensures IsStableOrder(keys, StableOrder(keys))
  {
    OrderUpToSorted(keys, |keys|);
  }

  /** In so many words: every position once, never a smaller key in front of a larger one, and equal keys in their
      original order. */
  lemma SortsStably(keys: seq<real>)
    ensures var order := StableOrder(keys);
            && |order| == |keys| && (forall p :: 0 <= p < |keys| ==> p in order)
            && forall i, j :: 0 <= i < j < |order| ==>
                 keys[order[i]] >= keys[order[j]] && (keys[order[i]] == keys[order[j]] ==> order[i] < order[j])
  {
    hide StableOrder;
    StableOrderExists(keys);
    var order := StableOrder(keys);
    forall i, j | 0 <= i < j < |order|
      ensures keys[order[i]] >= keys[order[j]] && (keys[order[i]] == keys[order[j]] ==> order[i] < order[j])
    {
      assert Before(keys, order[i], order[j]);
    }
  }

  lemma SameLast(keys: seq<real>, a: seq<nat>, b: seq<nat>)
    requires InOrder(keys, a) && InOrder(keys, b)
    requires forall p :: p in a <==> p in b
    ensures a == [] <==> b == []
    ensures a != [] ==> Last(a) == Last(b)
  {
    if a != [] {
      assert Last(a) in b;
      var i :| 0 <= i < |b| && b[i] == Last(a);
    }
    if b != [] {
      assert Last(b) in a;
      var j :| 0 <= j < |a| && a[j] == Last(b);
    }
  }

  lemma MembersOfDropLast(keys: seq<real>, a: seq<nat>, p: nat)
    requires InOrder(keys, a) && a != []
    ensures p in DropLast(a) <==> p in a && p != Last(a)
  {
    assert a == DropLast(a) + [Last(a)];
  }

  lemma {:induction false} SortedListsEqual(keys: seq<real>, a: seq<nat>, b: seq<nat>)
    requires InOrder(keys, a) && InOrder(keys, b)
    requires forall p :: p in a <==> p in b
    ensures a == b
  {
    SameLast(keys, a, b);
    if a == [] {
    } else {
      forall p
        ensures p in DropLast(a) <==> p in DropLast(b)
      {
        MembersOfDropLast(keys, a, p);
        MembersOfDropLast(keys, b, p);
      }
      SortedListsEqual(keys, DropLast(a), DropLast(b));
      assert a == DropLast(a) + [Last(a)] && b == DropLast(b) + [Last(b)];
    }
  }

  /** Stability and the comparator determine the sorted list: any implementation gives this one. */
  lemma StableOrderUnique(keys: seq<real>, order: seq<nat>)
    requires IsStableOrder(keys, order)
    ensures order == StableOrder(keys)
  {
    StableOrderExists(keys);
    assert forall p :: p in order ==> 0 <= p < |keys|;
    SortedListsEqual(keys, order, StableOrder(keys));
  }
}
