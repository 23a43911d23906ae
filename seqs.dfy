/** Sequence helpers shared by the network model: node lists that only shrink,
    sums, means and maxima of attribute values. */
module Seqs {

  datatype Option<+T> = None | Some(value: T)

  /** No node identifier occurs twice. */
  predicate Distinct(s: seq<nat>) {
    forall i, j :: 0 <= i < j < |s| ==> s[i] != s[j]
  }

  /** The elements of `s` that are not in `drop`, in their original order. */
  function Without(s: seq<nat>, drop: set<nat>): (r: seq<nat>)
    ensures forall x :: x in r <==> x in s && x !in drop
    ensures |r| <= |s|
  {
    if s == [] then []
    else (if s[0] in drop then [] else [s[0]]) + Without(s[1..], drop)
  }

  /** Python's `list.remove(x)` when `x` is present: the first occurrence goes,
      everything else keeps its place. A list without `x` is returned as is. */
  function RemoveFirst(s: seq<nat>, x: nat): (r: seq<nat>)
  {
    if s == [] then []
    else if s[0] == x then s[1..]
    else [s[0]] + RemoveFirst(s[1..], x)
  }

  /** `a` is obtained from `b` by deleting elements: same relative order. */
  predicate Subseq(a: seq<nat>, b: seq<nat>)
    decreases |b|
  {
    if a == [] then true
    else if b == [] then false
    else if a[0] == b[0] then Subseq(a[1..], b[1..])
    else Subseq(a, b[1..])
  }

  lemma {:induction false} WithoutDistinct(s: seq<nat>, drop: set<nat>)
    requires Distinct(s)
    ensures Distinct(Without(s, drop))
  {
    if s != [] {
      assert Distinct(s[1..]);
      WithoutDistinct(s[1..], drop);
      var rest := Without(s[1..], drop);
      assert s[0] !in s[1..];
      assert s[0] !in rest;
    }
  }

  /** Removing the first occurrence from a filtered distinct list is the same as
      filtering with one more dropped element. */
  lemma {:induction false} RemoveFirstWithout(s: seq<nat>, drop: set<nat>, x: nat)
    requires Distinct(s)
    ensures RemoveFirst(Without(s, drop), x) == Without(s, drop + {x})
  {
    if s != [] {
      assert Distinct(s[1..]);
      RemoveFirstWithout(s[1..], drop, x);
      if s[0] in drop {
        assert Without(s, drop) == Without(s[1..], drop);
      } else if s[0] == x {
        assert x !in s[1..];
        assert x !in Without(s[1..], drop);
        WithoutIgnoresAbsent(Without(s[1..], drop), x);
        WithoutExtraAbsent(s[1..], drop, x);
      } else {
        var w := Without(s[1..], drop);
        assert Without(s, drop) == [s[0]] + w;
        assert ([s[0]] + w)[1..] == w;
      }
    }
  }

  /** Filtering with nothing to drop is the identity. */
  lemma {:induction false} WithoutNothing(s: seq<nat>)
    ensures Without(s, {}) == s
  {
    if s != [] {
      WithoutNothing(s[1..]);
      assert [s[0]] + s[1..] == s;
    }
  }

  /** Removing an element that does not occur changes nothing. */
  lemma {:induction false} WithoutIgnoresAbsent(s: seq<nat>, x: nat)
    requires x !in s
    ensures RemoveFirst(s, x) == s
  {
    if s != [] {
      WithoutIgnoresAbsent(s[1..], x);
      assert [s[0]] + s[1..] == s;
    }
  }

  lemma {:induction false} WithoutExtraAbsent(s: seq<nat>, drop: set<nat>, x: nat)
    requires x !in s
    ensures Without(s, drop + {x}) == Without(s, drop)
  {
    if s != [] {
      WithoutExtraAbsent(s[1..], drop, x);
    }
  }

  /** Filtering twice is filtering once with the union. */
  lemma {:induction false} WithoutWithout(s: seq<nat>, d1: set<nat>, d2: set<nat>)
    ensures Without(Without(s, d1), d2) == Without(s, d1 + d2)
  {
    if s != [] {
      WithoutWithout(s[1..], d1, d2);
      var w := Without(s[1..], d1);
      if s[0] in d1 {
        assert Without(s, d1) == w;
        assert Without(s, d1 + d2) == Without(s[1..], d1 + d2);
      } else {
        var sw := [s[0]] + w;
        assert Without(s, d1) == sw;
        assert sw[0] == s[0] && sw[1..] == w;
        assert Without(sw, d2) == (if s[0] in d2 then [] else [s[0]]) + Without(w, d2);
      }
    }
  }

  lemma {:induction false} SubseqRefl(a: seq<nat>)
    ensures Subseq(a, a)
  {
    if a != [] {
      SubseqRefl(a[1..]);
    }
  }

  /** Deleting the head of the shorter side keeps the relation. */
  lemma {:induction false} SubseqTail(a: seq<nat>, b: seq<nat>)
    requires a != [] && Subseq(a, b)
    ensures Subseq(a[1..], b)
    decreases |b|, 0
  {
    if a[0] == b[0] {
      SubseqCons(a[1..], b[1..], b[0]);
    } else {
      SubseqTail(a, b[1..]);
      SubseqCons(a[1..], b[1..], b[0]);
    }
    assert [b[0]] + b[1..] == b;
  }

  /** A longer right-hand side keeps the relation. */
  lemma {:induction false} SubseqCons(a: seq<nat>, b: seq<nat>, y: nat)
    requires Subseq(a, b)
    ensures Subseq(a, [y] + b)
    decreases |b|, 1
  {
    var yb := [y] + b;
    assert yb[1..] == b;
    if a != [] && a[0] == y {
      SubseqTail(a, b);
    }
  }

  lemma {:induction false} WithoutIsSubseq(s: seq<nat>, drop: set<nat>)
    ensures Subseq(Without(s, drop), s)
  {
    if s != [] {
      WithoutIsSubseq(s[1..], drop);
      var w := Without(s[1..], drop);
      if s[0] in drop {
        assert Without(s, drop) == w;
        SubseqCons(w, s[1..], s[0]);
        assert [s[0]] + s[1..] == s;
      } else {
        assert ([s[0]] + w)[1..] == w;
      }
    }
  }

  lemma {:induction false} SubseqTrans(a: seq<nat>, b: seq<nat>, c: seq<nat>)
    requires Subseq(a, b) && Subseq(b, c)
    ensures Subseq(a, c)
    decreases |c|
  {
    if a != [] {
      assert b != [] && c != [];
      if b[0] == c[0] {
        if a[0] == b[0] {
          SubseqTrans(a[1..], b[1..], c[1..]);
        } else {
          SubseqTrans(a, b[1..], c[1..]);
          SubseqCons(a, c[1..], c[0]);
          assert [c[0]] + c[1..] == c;
        }
      } else {
        SubseqTrans(a, b, c[1..]);
        SubseqCons(a, c[1..], c[0]);
        assert [c[0]] + c[1..] == c;
      }
    }
  }

  /** Every element of a subsequence occurs in the longer sequence. */
  lemma {:induction false} SubseqElements(a: seq<nat>, b: seq<nat>, x: nat)
    requires Subseq(a, b) && x in a
    ensures x in b
    decreases |b|
  {
    if a[0] == b[0] {
      if x != a[0] {
        SubseqElements(a[1..], b[1..], x);
      }
    } else {
      SubseqElements(a, b[1..], x);
    }
  }

  /** All entries present: the sequence of their values; otherwise `None`. */
  function AllSome<T>(xs: seq<Option<T>>): (r: Option<seq<T>>)
    ensures r.Some? <==> forall i :: 0 <= i < |xs| ==> xs[i].Some?
    ensures r.Some? ==> |r.value| == |xs| && forall i :: 0 <= i < |xs| ==> xs[i] == Some(r.value[i])
  {
    if xs == [] then Some([])
    else
      var init := AllSome(xs[..|xs| - 1]);
      assert forall i :: 0 <= i < |xs| - 1 ==> xs[..|xs| - 1][i] == xs[i];
      if init.Some? && xs[|xs| - 1].Some? then Some(init.value + [xs[|xs| - 1].value]) else None
  }

  /** One more entry: present extends the values, absent fails. */
  lemma AllSomeSnoc<T>(xs: seq<Option<T>>, x: Option<T>)
    ensures AllSome(xs + [x]) == if AllSome(xs).Some? && x.Some? then Some(AllSome(xs).value + [x.value]) else None
  {
    assert (xs + [x])[..|xs|] == xs;
  }

  /** Sum of a sequence of reals, accumulated from the left. */
  function Sum(xs: seq<real>): real
  {
    if xs == [] then 0.0 else Sum(xs[..|xs| - 1]) + xs[|xs| - 1]
  }

  /** Arithmetic mean, defined for non-empty sequences. */
  function Mean(xs: seq<real>): real
    requires |xs| > 0
  {
    Sum(xs) / (|xs| as real)
  }

  lemma {:induction false} SumBounds(xs: seq<real>, lo: real, hi: real)
    requires forall i :: 0 <= i < |xs| ==> lo <= xs[i] <= hi
    ensures lo * (|xs| as real) <= Sum(xs) <= hi * (|xs| as real)
  {
    if xs != [] {
      var init := xs[..|xs| - 1];
      assert forall i :: 0 <= i < |init| ==> init[i] == xs[i];
      SumBounds(init, lo, hi);
      assert (|xs| as real) == (|init| as real) + 1.0;
    }
  }

  /** A mean of values in [lo, hi] lies in [lo, hi]. */
  lemma MeanBounds(xs: seq<real>, lo: real, hi: real)
    requires |xs| > 0
    requires forall i :: 0 <= i < |xs| ==> lo <= xs[i] <= hi
    ensures lo <= Mean(xs) <= hi
  {
    SumBounds(xs, lo, hi);
    var n := |xs| as real;
    assert lo * n <= Sum(xs) <= hi * n;
    assert Mean(xs) * n == Sum(xs);
  }

  /** Python's `max` over a non-empty collection. */
  function MaxOf(xs: seq<real>): (m: real)
    requires |xs| > 0
    ensures forall i :: 0 <= i < |xs| ==> xs[i] <= m
    ensures exists i :: 0 <= i < |xs| && xs[i] == m
  {
    if |xs| == 1 then xs[0]
    else
      var rest := MaxOf(xs[..|xs| - 1]);
      assert forall i :: 0 <= i < |xs| - 1 ==> xs[..|xs| - 1][i] == xs[i];
      if xs[|xs| - 1] > rest then xs[|xs| - 1] else rest
  }

  /** The maximum exceeds a bound exactly when some element does. */
  lemma MaxAbove(xs: seq<real>, bound: real)
    requires |xs| > 0
    ensures MaxOf(xs) > bound <==> exists i :: 0 <= i < |xs| && xs[i] > bound
  {
  }
}
