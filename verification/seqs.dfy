/** Generic sequence operations the source uses through `Array.prototype`:
    `filter`, `findIndex`/`find`, and flattening nested `forEach` pushes. */
module Seqs {

  import opened Wrappers

  /** `xs.filter(p)`: the elements satisfying `p`, each as often as in `xs`. The order is that
      of `xs`: `FilterAppend` and `FilterKeepsPairwise` state it. */
  function Filter<T>(p: T -> bool, xs: seq<T>): (r: seq<T>)
    ensures |r| <= |xs|
    ensures forall i :: 0 <= i < |r| ==> p(r[i])
    ensures forall i :: 0 <= i < |r| ==> r[i] in xs
    ensures forall i :: 0 <= i < |xs| && p(xs[i]) ==> xs[i] in r
    ensures multiset(r) <= multiset(xs)
  {
    if xs == [] then []
    else
      assert xs == [xs[0]] + xs[1..];
      (if p(xs[0]) then [xs[0]] else []) + Filter(p, xs[1..])
  }

  lemma {:induction false} FilterAppend<T>(p: T -> bool, a: seq<T>, b: seq<T>)
    ensures Filter(p, a + b) == Filter(p, a) + Filter(p, b)
  {
    if a == [] {
      assert a + b == b;
    } else {
      assert (a + b)[1..] == a[1..] + b;
      FilterAppend(p, a[1..], b);
    }
  }

  /** Filtering keeps every passing element as often as it occurs and drops every other one. */
  lemma {:induction false} FilterCount<T>(p: T -> bool, xs: seq<T>, x: T)
    ensures multiset(Filter(p, xs))[x] == if p(x) then multiset(xs)[x] else 0
  {
    if xs != [] {
      var t := xs[1..];
      FilterCount(p, t, x);
      assert xs == [xs[0]] + t;
      var head := if p(xs[0]) then [xs[0]] else [];
      assert Filter(p, xs) == head + Filter(p, t);
      assert multiset(Filter(p, xs)) == multiset(head) + multiset(Filter(p, t));
      assert multiset(xs) == multiset{xs[0]} + multiset(t);
    }
  }

  /** Filtering keeps relative order: any relation that holds between every earlier and later
      element of `xs` holds between every earlier and later element of the result. */
  lemma {:induction false} FilterKeepsPairwise<T>(p: T -> bool, xs: seq<T>, R: (T, T) -> bool)
    requires forall i, j :: 0 <= i < j < |xs| ==> R(xs[i], xs[j])
    ensures forall i, j :: 0 <= i < j < |Filter(p, xs)| ==> R(Filter(p, xs)[i], Filter(p, xs)[j])
  {
    if xs != [] {
      var t := xs[1..];
      assert forall i, j :: 0 <= i < j < |t| ==> R(t[i], t[j]) by {
        forall i, j | 0 <= i < j < |t| ensures R(t[i], t[j]) {
          assert t[i] == xs[i + 1] && t[j] == xs[j + 1];
        }
      }
      FilterKeepsPairwise(p, t, R);
      var r, rt := Filter(p, xs), Filter(p, t);
      if p(xs[0]) {
        assert r == [xs[0]] + rt;
        assert forall j :: 0 <= j < |rt| ==> R(xs[0], rt[j]) by {
          forall j | 0 <= j < |rt| ensures R(xs[0], rt[j]) {
            var k :| 0 <= k < |t| && t[k] == rt[j];
            assert xs[k + 1] == rt[j];
          }
        }
        forall i, j | 0 <= i < j < |r| ensures R(r[i], r[j]) {
          assert r[j] == rt[j - 1];
          if i > 0 {
            assert r[i] == rt[i - 1];
          }
        }
      } else {
        assert r == rt;
      }
    }
  }

  /** Filtering keeps a sequence whose elements all pass. */
  lemma {:induction false} FilterKeepsAll<T>(p: T -> bool, xs: seq<T>)
    requires forall i :: 0 <= i < |xs| ==> p(xs[i])
    ensures Filter(p, xs) == xs
  {
    if xs != [] {
      FilterKeepsAll(p, xs[1..]);
    }
  }

  /** `xs.findIndex(p)`: the position of the first element satisfying `p`, `None` for -1. */
  function FindFirst<T>(p: T -> bool, xs: seq<T>): (r: Option<nat>)
    ensures r.None? <==> forall i :: 0 <= i < |xs| ==> !p(xs[i])
    ensures r.Some? ==> r.value < |xs| && p(xs[r.value])
    ensures r.Some? ==> forall j :: 0 <= j < r.value ==> !p(xs[j])
  {
    if xs == [] then None
    else if p(xs[0]) then Some(0)
    else match FindFirst(p, xs[1..])
      case None => None
      case Some(k) => Some(k + 1)
  }

  /** `xs.find(p)`: the first element satisfying `p`, `None` for `undefined`. */
  function Find<T>(p: T -> bool, xs: seq<T>): (r: Option<T>)
    ensures r.None? <==> forall i :: 0 <= i < |xs| ==> !p(xs[i])
    ensures r.Some? ==> r.value in xs && p(r.value)
  {
    match FindFirst(p, xs)
    case None => None
    case Some(i) => Some(xs[i])
  }

  /** Concatenation of a sequence of sequences, in order. */
  function Flatten<T>(xss: seq<seq<T>>): seq<T>
  {
    if xss == [] then [] else xss[0] + Flatten(xss[1..])
  }

  /** Total length of a sequence of sequences. */
  function TotalLength<T>(xss: seq<seq<T>>): nat
  {
    if xss == [] then 0 else |xss[0]| + TotalLength(xss[1..])
  }

  lemma {:induction false} FlattenLength<T>(xss: seq<seq<T>>)
    ensures |Flatten(xss)| == TotalLength(xss)
  {
    if xss != [] {
      FlattenLength(xss[1..]);
    }
  }
}
