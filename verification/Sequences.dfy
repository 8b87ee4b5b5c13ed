/** Sequence facts shared by the models: subsequences, selection by flags, filtering. */
module Sequences {

  function Last<T>(s: seq<T>): T
    requires s != []
  {
    s[|s| - 1]
  }

  function DropLast<T>(s: seq<T>): seq<T>
    requires s != []
  {
    s[..|s| - 1]
  }

  /** `a` can be obtained from `b` by deleting elements: order is kept and no element is used twice. */
  ghost predicate Subseq<T>(a: seq<T>, b: seq<T>)
  {
    if a == [] then true
    else if b == [] then false
    else (a[0] == b[0] && Subseq(a[1..], b[1..])) || Subseq(a, b[1..])
  }

  lemma {:induction false} SubseqRefl<T>(a: seq<T>)
    ensures Subseq(a, a)
  {
    if a == [] {
    } else {
      SubseqRefl(a[1..]);
    }
  }

  lemma {:induction false} SubseqTrans<T>(a: seq<T>, b: seq<T>, c: seq<T>)
    requires Subseq(a, b) && Subseq(b, c)
    ensures Subseq(a, c)
    decreases |a| + |b| + |c|
  {
    if a == [] || b == [] || c == [] {
    } else if b[0] == c[0] && Subseq(b[1..], c[1..]) {
      if a[0] == b[0] && Subseq(a[1..], b[1..]) {
        SubseqTrans(a[1..], b[1..], c[1..]);
      } else {
        SubseqTrans(a, b[1..], c[1..]);
      }
    } else {
      SubseqTrans(a, b, c[1..]);
    }
  }

  lemma {:induction false} SubseqConcat<T>(a: seq<T>, b: seq<T>, c: seq<T>, d: seq<T>)
    requires Subseq(a, b) && Subseq(c, d)
    ensures Subseq(a + c, b + d)
    decreases |a| + |b|
  {
    if b == [] {
      assert a + c == c && b + d == d;
    } else {
      assert (b + d)[1..] == b[1..] + d;
      if a == [] {
        SubseqConcat([], b[1..], c, d);
        assert a + c == [] + c == c;
      } else {
        assert (a + c)[1..] == a[1..] + c;
        if a[0] == b[0] && Subseq(a[1..], b[1..]) {
          SubseqConcat(a[1..], b[1..], c, d);
        } else {
          SubseqConcat(a, b[1..], c, d);
        }
      }
    }
  }

  /** Deleting the middle of a sequence leaves a subsequence of it. */
  lemma SubseqDrop<T>(a: seq<T>, b: seq<T>, c: seq<T>)
    ensures Subseq(a + c, a + b + c)
  {
    SubseqRefl(a);
    SubseqRefl(c);
    assert Subseq([], b);
    SubseqConcat([], b, c, c);
    assert [] + c == c && a + (b + c) == a + b + c;
    SubseqConcat(a, a, c, b + c);
  }

  lemma {:induction false} SubseqMember<T>(a: seq<T>, b: seq<T>, x: T)
    requires Subseq(a, b) && x in a
    ensures x in b
  {
    if a[0] == b[0] && Subseq(a[1..], b[1..]) {
      if x != a[0] {
        SubseqMember(a[1..], b[1..], x);
      }
    } else {
      SubseqMember(a, b[1..], x);
    }
  }

  /** The elements of `s` whose flag is set, in order. */
  function Select<T>(s: seq<T>, flags: seq<bool>): (r: seq<T>)
    requires |s| == |flags|
    ensures forall k :: 0 <= k < |r| ==> r[k] in s
  {
    if s == [] then []
    else Select(DropLast(s), DropLast(flags)) + if Last(flags) then [Last(s)] else []
  }

  lemma {:induction false} SelectedIsIn<T>(s: seq<T>, flags: seq<bool>, i: nat)
    requires |s| == |flags| && i < |s| && flags[i]
    ensures s[i] in Select(s, flags)
  {
    var n := |s| - 1;
    if i == n {
      assert Select(s, flags)[|Select(s[..n], flags[..n])|] == s[i];
    } else {
      SelectedIsIn(s[..n], flags[..n], i);
      var k :| 0 <= k < |Select(s[..n], flags[..n])| && Select(s[..n], flags[..n])[k] == s[i];
      assert Select(s, flags)[k] == s[i];
    }
  }

  lemma {:induction false} SelectedFrom<T>(s: seq<T>, flags: seq<bool>, k: nat) returns (i: nat)
    requires |s| == |flags| && k < |Select(s, flags)|
    ensures i < |s| && flags[i] && s[i] == Select(s, flags)[k]
  {
    var n := |s| - 1;
    if k < |Select(s[..n], flags[..n])| {
      i := SelectedFrom(s[..n], flags[..n], k);
    } else {
      i := n;
    }
  }

  /** Membership in a selection, both ways. */
  lemma SelectMember<T>(s: seq<T>, flags: seq<bool>, x: T)
    requires |s| == |flags|
    ensures x in Select(s, flags) <==> exists i :: 0 <= i < |s| && flags[i] && s[i] == x
  {
    if x in Select(s, flags) {
      var k :| 0 <= k < |Select(s, flags)| && Select(s, flags)[k] == x;
      var i := SelectedFrom(s, flags, k);
    }
    if i :| 0 <= i < |s| && flags[i] && s[i] == x {
      SelectedIsIn(s, flags, i);
    }
  }

  lemma {:induction false} SelectSubseq<T>(s: seq<T>, flags: seq<bool>)
    requires |s| == |flags|
    ensures Subseq(Select(s, flags), s)
  {
    if s == [] {
    } else {
      SelectSubseq(DropLast(s), DropLast(flags));
      var tail := if Last(flags) then [Last(s)] else [];
      SubseqConcat(Select(DropLast(s), DropLast(flags)), DropLast(s), tail, [Last(s)]);
      assert DropLast(s) + [Last(s)] == s;
    }
  }

  /** Selecting prefixes gives a prefix of the selection. */
  lemma {:induction false} SelectPrefix<T>(s: seq<T>, flags: seq<bool>, n: nat)
    requires |s| == |flags| && n <= |s|
    ensures Select(s[..n], flags[..n]) <= Select(s, flags)
  {
    if n == |s| {
      assert s[..n] == s && flags[..n] == flags;
    } else {
      var m := |s| - 1;
      SelectPrefix(s[..m], flags[..m], n);
      assert s[..m][..n] == s[..n] && flags[..m][..n] == flags[..n];
    }
  }

  function Filter<T>(keep: T -> bool, s: seq<T>): seq<T>
  {
    if s == [] then []
    else (if keep(s[0]) then [s[0]] else []) + Filter(keep, s[1..])
  }

  lemma {:induction false} FilterConcat<T>(keep: T -> bool, a: seq<T>, b: seq<T>)
    ensures Filter(keep, a + b) == Filter(keep, a) + Filter(keep, b)
  {
    if a == [] {
      assert a + b == b;
    } else {
      var head := if keep(a[0]) then [a[0]] else [];
      FilterConcat(keep, a[1..], b);
      assert (a + b)[0] == a[0] && (a + b)[1..] == a[1..] + b;
      assert head + (Filter(keep, a[1..]) + Filter(keep, b)) == (head + Filter(keep, a[1..])) + Filter(keep, b);
    }
  }

  lemma FilterOne<T>(keep: T -> bool, x: T)
    ensures Filter(keep, [x]) == if keep(x) then [x] else []
  {
    assert [x][1..] == [];
  }

  lemma FilterHead<T>(keep: T -> bool, s: seq<T>)
    requires s != []
    ensures Filter(keep, s) == (if keep(s[0]) then [s[0]] else []) + Filter(keep, s[1..])
  {
  }

  function Copies<T>(x: T, n: nat): (r: seq<T>)
    ensures |r| == n && forall y :: y in r ==> y == x
  {
    seq(n, _ => x)
  }
}
