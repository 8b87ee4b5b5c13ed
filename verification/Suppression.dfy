/** Greedy suppression over an arbitrary verdict: `spares(a, b)` says that the selection of `a` leaves `b`
    in the list. The loop of server/cherum/static/js/video.js, lines 189-195, is the instance whose
    verdict is the overlap test. */
module Suppression {
  import opened Sequences

  /** No element spares itself. */
  ghost predicate Irreflexive<T(!new)>(spares: (T, T) -> bool)
  {
    forall b :: !spares(b, b)
  }

  ghost predicate Symmetric<T(!new)>(spares: (T, T) -> bool)
  {
    forall a, b :: spares(a, b) <==> spares(b, a)
  }

  /** The filter: the elements of `s` that survive the selection of `head`, in order. */
  function Survivors<T>(spares: (T, T) -> bool, head: T, s: seq<T>): (r: seq<T>)
    ensures |r| <= |s|
  {
    if s == [] then []
    else Survivors(spares, head, DropLast(s)) + if spares(head, Last(s)) then [Last(s)] else []
  }

  /** Filtering by the first element always removes at least that element: the list shrinks. */
  lemma {:induction false} SurvivorsShrink<T(!new)>(spares: (T, T) -> bool, s: seq<T>)
    requires Irreflexive(spares) && s != []
    ensures |Survivors(spares, s[0], s)| < |s|
  {
    if |s| == 1 {
    } else {
      SurvivorsShrink(spares, DropLast(s));
    }
  }

  /** What the loop returns from a given list. */
  ghost function Nms<T(!new)>(spares: (T, T) -> bool, s: seq<T>): seq<T>
    requires Irreflexive(spares)
    decreases |s|
  {
    if s == [] then []
    else
      SurvivorsShrink(spares, s);
      [s[0]] + Nms(spares, Survivors(spares, s[0], s))
  }

  // ---------- The kernel ----------

  /** The declarative meaning of greedy suppression: a position is kept exactly when every kept earlier
      position spares it. */
  ghost predicate IsKernel<T(!new)>(spares: (T, T) -> bool, s: seq<T>, kept: seq<bool>)
  {
    && |kept| == |s|
    && forall i :: 0 <= i < |s| ==>
         (kept[i] <==> forall j :: 0 <= j < i && kept[j] ==> spares(s[j], s[i]))
  }

  ghost predicate SparedByAll<T(!new)>(spares: (T, T) -> bool, selected: seq<T>, b: T)
  {
    forall a :: a in selected ==> spares(a, b)
  }

  /** The positions a single pass from the front keeps. */
  ghost function Kept<T(!new)>(spares: (T, T) -> bool, s: seq<T>): (kept: seq<bool>)
    ensures |kept| == |s|
  {
    if s == [] then []
    else
      var before := Kept(spares, DropLast(s));
      before + [SparedByAll(spares, Select(DropLast(s), before), Last(s))]
  }

  lemma SurvivorsSnoc<T>(spares: (T, T) -> bool, head: T, s: seq<T>, b: T)
    ensures Survivors(spares, head, s + [b]) == Survivors(spares, head, s) + if spares(head, b) then [b] else []
  {
    assert DropLast(s + [b]) == s && Last(s + [b]) == b;
  }

  lemma {:induction false} SurvivorsCons<T(!new)>(spares: (T, T) -> bool, head: T, s: seq<T>)
    requires Irreflexive(spares)
    ensures Survivors(spares, head, [head] + s) == Survivors(spares, head, s)
  {
    if s == [] {
      assert [head] + s == [] + [head];
      SurvivorsSnoc(spares, head, [], head);
    } else {
      SurvivorsCons(spares, head, DropLast(s));
      assert [head] + s == ([head] + DropLast(s)) + [Last(s)];
      SurvivorsSnoc(spares, head, [head] + DropLast(s), Last(s));
    }
  }

  /** One turn of the loop: the first element is kept, and the rest is filtered by it. */
  lemma NmsUnfold<T(!new)>(spares: (T, T) -> bool, head: T, s: seq<T>)
    requires Irreflexive(spares)
    ensures Nms(spares, [head] + s) == [head] + Nms(spares, Survivors(spares, head, s))
  {
    SurvivorsCons(spares, head, s);
  }

  lemma SparedByAllCons<T(!new)>(spares: (T, T) -> bool, head: T, rest: seq<T>, b: T)
    ensures SparedByAll(spares, [head] + rest, b) <==> spares(head, b) && SparedByAll(spares, rest, b)
  {
    assert ([head] + rest)[0] == head;
    assert forall a :: a in rest ==> a in [head] + rest;
  }

  lemma NmsEmpty<T(!new)>(spares: (T, T) -> bool)
    requires Irreflexive(spares)
    ensures Nms(spares, []) == []
  {
  }

  lemma NmsBase<T(!new)>(spares: (T, T) -> bool, b: T)
    requires Irreflexive(spares)
    ensures Nms(spares, []) == [] && Nms(spares, [b]) == [b]
  {
    NmsUnfold(spares, b, []);
    assert [b] + [] == [b];
  }

  /** Appending an element to the list appends it to the result exactly when everything selected spares it. */
  lemma {:induction false} NmsSnoc<T(!new)>(spares: (T, T) -> bool, s: seq<T>, b: T)
    requires Irreflexive(spares)
    ensures Nms(spares, s + [b]) == Nms(spares, s) + if SparedByAll(spares, Nms(spares, s), b) then [b] else []
    decreases |s|
  {
    hide Nms, Survivors;
    if s == [] {
      NmsBase(spares, b);
      assert s + [b] == [b] && Nms(spares, s) == [];
    } else {
      var head, tail := s[0], s[1..];
      var rest := Survivors(spares, head, tail);
      NmsUnfold(spares, head, tail);
      assert s == [head] + tail;
      NmsUnfold(spares, head, tail + [b]);
      assert s + [b] == [head] + (tail + [b]);
      SurvivorsSnoc(spares, head, tail, b);
      NmsSnoc(spares, rest, b);
      SparedByAllCons(spares, head, Nms(spares, rest), b);
      assert Survivors(spares, head, tail + [b]) == if spares(head, b) then rest + [b] else rest;
    }
  }

  /** The shrinking-list loop and the single pass agree. */
  lemma {:induction false} NmsIsSelection<T(!new)>(spares: (T, T) -> bool, s: seq<T>)
    requires Irreflexive(spares)
    ensures Nms(spares, s) == Select(s, Kept(spares, s))
  {
    hide Nms, SparedByAll;
    if s == [] {
      NmsEmpty(spares);
    } else {
      NmsIsSelection(spares, DropLast(s));
      NmsSnoc(spares, DropLast(s), Last(s));
      assert DropLast(s) + [Last(s)] == s;
      assert DropLast(Kept(spares, s)) == Kept(spares, DropLast(s));
    }
  }

  lemma {:induction false} KeptPrefix<T(!new)>(spares: (T, T) -> bool, s: seq<T>, n: nat)
    requires n <= |s|
    ensures Kept(spares, s[..n]) == Kept(spares, s)[..n]
  {
    if n == |s| {
      assert s[..n] == s;
    } else {
      KeptPrefix(spares, DropLast(s), n);
      assert DropLast(s)[..n] == s[..n];
    }
  }

  lemma SparedBySelection<T(!new)>(spares: (T, T) -> bool, s: seq<T>, flags: seq<bool>, b: T)
    requires |s| == |flags|
    ensures SparedByAll(spares, Select(s, flags), b) <==> forall j :: 0 <= j < |s| && flags[j] ==> spares(s[j], b)
  {
    forall a
      ensures a in Select(s, flags) <==> exists j :: 0 <= j < |s| && flags[j] && s[j] == a
    {
      SelectMember(s, flags, a);
    }
  }

  lemma KeptStep<T(!new)>(spares: (T, T) -> bool, s: seq<T>, i: nat)
    requires i < |s|
    ensures Kept(spares, s)[i] == SparedByAll(spares, Select(s[..i], Kept(spares, s)[..i]), s[i])
  {
    KeptPrefix(spares, s, i + 1);
    KeptPrefix(spares, s, i);
    assert Kept(spares, s)[i] == Kept(spares, s[..i + 1])[i];
    assert DropLast(s[..i + 1]) == s[..i];
  }

  lemma KeptAt<T(!new)>(spares: (T, T) -> bool, s: seq<T>, i: nat)
    requires i < |s|
    ensures Kept(spares, s)[i] <==> forall j :: 0 <= j < i && Kept(spares, s)[j] ==> spares(s[j], s[i])
  {
    hide Kept, Select, SparedByAll;
    var kept := Kept(spares, s);
    KeptStep(spares, s, i);
    SparedBySelection(spares, s[..i], kept[..i], s[i]);
  }

  /** The loop keeps a solution of the kernel equation. */
  lemma KeptIsKernel<T(!new)>(spares: (T, T) -> bool, s: seq<T>)
    ensures IsKernel(spares, s, Kept(spares, s))
  {
    forall i | 0 <= i < |s|
      ensures Kept(spares, s)[i] <==> forall j :: 0 <= j < i && Kept(spares, s)[j] ==> spares(s[j], s[i])
    {
      KeptAt(spares, s, i);
    }
  }

  lemma {:induction false} KernelsAgreeUpTo<T(!new)>(spares: (T, T) -> bool, s: seq<T>, k: seq<bool>, k': seq<bool>,
                                                     n: nat)
    requires IsKernel(spares, s, k) && IsKernel(spares, s, k') && n <= |s|
    ensures forall i :: 0 <= i < n ==> k[i] == k'[i]
  {
    if n == 0 {
    } else {
      KernelsAgreeUpTo(spares, s, k, k', n - 1);
    }
  }

  /** The kernel equation has no other solution. */
  lemma KernelUnique<T(!new)>(spares: (T, T) -> bool, s: seq<T>, kept: seq<bool>)
    requires IsKernel(spares, s, kept)
    ensures kept == Kept(spares, s)
  {
    KeptIsKernel(spares, s);
    KernelsAgreeUpTo(spares, s, kept, Kept(spares, s), |s|);
  }

  // ---------- What the result guarantees ----------

  /** The first `n` elements on their own give the result of the whole list, cut to those elements. */
  lemma PrefixStable<T(!new)>(spares: (T, T) -> bool, s: seq<T>, n: nat)
    requires Irreflexive(spares) && n <= |s|
    ensures Kept(spares, s[..n]) == Kept(spares, s)[..n]
    ensures Nms(spares, s[..n]) == Select(s[..n], Kept(spares, s)[..n])
    ensures Nms(spares, s[..n]) <= Nms(spares, s)
  {
    KeptPrefix(spares, s, n);
    NmsIsSelection(spares, s[..n]);
    NmsIsSelection(spares, s);
    SelectPrefix(s, Kept(spares, s), n);
  }

  ghost predicate MutuallySpared<T(!new)>(spares: (T, T) -> bool, r: seq<T>)
  {
    forall i, j :: 0 <= i < j < |r| ==> spares(r[i], r[j]) && spares(r[j], r[i])
  }

  /** No two elements of the result suppress each other, in either argument order. */
  lemma {:induction false} NmsSound<T(!new)>(spares: (T, T) -> bool, s: seq<T>)
    requires Irreflexive(spares) && Symmetric(spares)
    ensures MutuallySpared(spares, Nms(spares, s))
  {
    if s == [] {
    } else {
      var before, b := Nms(spares, DropLast(s)), Last(s);
      NmsSound(spares, DropLast(s));
      assert Nms(spares, s) == before + if SparedByAll(spares, before, b) then [b] else [] by {
        NmsSnoc(spares, DropLast(s), b);
        assert DropLast(s) + [b] == s;
      }
      SparedSnoc(spares, before, b);
    }
  }

  lemma SparedSnoc<T(!new)>(spares: (T, T) -> bool, r: seq<T>, b: T)
    requires Symmetric(spares) && MutuallySpared(spares, r)
    ensures MutuallySpared(spares, r + if SparedByAll(spares, r, b) then [b] else [])
  {
  }

  lemma {:induction false} NmsOfSpared<T(!new)>(spares: (T, T) -> bool, r: seq<T>)
    requires Irreflexive(spares) && MutuallySpared(spares, r)
    ensures Nms(spares, r) == r
  {
    if r == [] {
    } else {
      NmsOfSpared(spares, DropLast(r));
      NmsSnoc(spares, DropLast(r), Last(r));
      assert DropLast(r) + [Last(r)] == r;
    }
  }

  /** Suppressing a result again changes nothing. */
  lemma NmsIdempotent<T(!new)>(spares: (T, T) -> bool, s: seq<T>)
    requires Irreflexive(spares) && Symmetric(spares)
    ensures Nms(spares, Nms(spares, s)) == Nms(spares, s)
  {
    NmsSound(spares, s);
    NmsOfSpared(spares, Nms(spares, s));
  }

  /** Every discarded position is suppressed by a kept one in front of it. */
  lemma NmsComplete<T(!new)>(spares: (T, T) -> bool, s: seq<T>, i: nat)
    requires i < |s| && !Kept(spares, s)[i]
    ensures exists j :: 0 <= j < i && Kept(spares, s)[j] && !spares(s[j], s[i])
  {
    KeptAt(spares, s, i);
  }

  /** Only the pairwise verdicts matter: lists with the same verdicts keep the same positions. */
  lemma KeptCongruent<S(!new), T(!new)>(spares: (S, S) -> bool, s: seq<S>, spares': (T, T) -> bool, t: seq<T>)
    requires |s| == |t|
    requires forall i, j :: 0 <= i < j < |s| ==> (spares(s[i], s[j]) <==> spares'(t[i], t[j]))
    ensures Kept(spares, s) == Kept(spares', t)
  {
    KeptIsKernel(spares, s);
    KernelUnique(spares', t, Kept(spares, s));
  }
}
