/** Generic sequence combinators the parsers share: map, a filter-map for the
    "at most one result per input line" loops, first-occurrence deduplication and
    bounded searches. */
module Seqs {
  import opened Wrappers

  /** Keeps `f(x)` for every `x` that yields one, in order. */
  function FilterMap<A, B>(f: A -> Option<B>, xs: seq<A>): (r: seq<B>)
    ensures |r| <= |xs|
    ensures forall j :: 0 <= j < |r| ==> exists i :: 0 <= i < |xs| && f(xs[i]) == Some(r[j])
    decreases |xs|
  {
    if |xs| == 0 then []
    else
      var rest := FilterMap(f, xs[1..]);
      match f(xs[0])
      case Some(y) => [y] + rest
      case None => rest
  }

  /** `Array.prototype.map`. */
  function Map<A, B>(f: A -> B, xs: seq<A>): (r: seq<B>)
    ensures |r| == |xs|
    ensures forall i :: 0 <= i < |xs| ==> r[i] == f(xs[i])
  {
    seq(|xs|, i requires 0 <= i < |xs| => f(xs[i]))
  }

  /** Filter-map is compositional over concatenation. */
  lemma {:induction false} FilterMapAppend<A, B>(f: A -> Option<B>, xs: seq<A>, ys: seq<A>)
    ensures FilterMap(f, xs + ys) == FilterMap(f, xs) + FilterMap(f, ys)
    decreases |xs|
  {
    if |xs| == 0 {
      assert xs + ys == ys;
    } else {
      assert (xs + ys)[1..] == xs[1..] + ys;
      FilterMapAppend(f, xs[1..], ys);
    }
  }

  /** Inputs that each yield themselves come out unchanged. */
  lemma {:induction false} FilterMapIdentity<A>(f: A -> Option<A>, xs: seq<A>)
    requires forall i :: 0 <= i < |xs| ==> f(xs[i]) == Some(xs[i])
    ensures FilterMap(f, xs) == xs
    decreases |xs|
  {
    if |xs| > 0 {
      assert f(xs[0]) == Some(xs[0]);
      FilterMapIdentity(f, xs[1..]);
      assert [xs[0]] + xs[1..] == xs;
    }
  }

  /** Every input that yields something is represented in the output. */
  lemma {:induction false} FilterMapKeeps<A, B>(f: A -> Option<B>, xs: seq<A>, i: nat)
    requires i < |xs| && f(xs[i]).Some?
    ensures f(xs[i]).value in FilterMap(f, xs)
    decreases |xs|
  {
    if i > 0 {
      FilterMapKeeps(f, xs[1..], i - 1);
    }
  }

  /** No element occurs twice. */
  predicate Distinct<T(==)>(s: seq<T>) {
    forall i, j :: 0 <= i < j < |s| ==> s[i] != s[j]
  }

  /** Taking one element out of a sequence without repeats leaves the others,
      still without repeats. */
  lemma RemoveAt<T>(s: seq<T>, k: nat)
    requires k < |s| && Distinct(s)
    ensures Distinct(s[..k] + s[k + 1..])
    ensures forall y :: y in s[..k] + s[k + 1..] <==> y in s && y != s[k]
  {
    var r := s[..k] + s[k + 1..];
    assert forall i :: 0 <= i < |r| ==> r[i] == if i < k then s[i] else s[i + 1];
    forall y | y in s && y != s[k]
      ensures y in r
    {
      var i :| 0 <= i < |s| && s[i] == y;
      if i < k {
        assert r[i] == y;
      } else {
        assert r[i - 1] == y;
      }
    }
  }

  /** The elements of `s` at their first occurrence, in order. */
  function FirstOccurrences<T(==)>(s: seq<T>): (r: seq<T>)
    ensures Distinct(r)
    ensures forall i :: 0 <= i < |r| ==> r[i] in s
    ensures forall i :: 0 <= i < |s| ==> s[i] in r
    decreases |s|
  {
    if |s| == 0 then []
    else
      var prev := FirstOccurrences(s[..|s| - 1]);
      var x := s[|s| - 1];
      assert s == s[..|s| - 1] + [x];
      if x in prev then prev else prev + [x]
  }

  lemma ConcatAssoc<T>(a: seq<T>, b: seq<T>, c: seq<T>)
    ensures a + (b + c) == (a + b) + c
  {
  }

  /** Extending the last part of a sequence extends the sequence. */
  lemma SnocCombine<T>(whole': seq<T>, whole: seq<T>, head: seq<T>, rest': seq<T>, rest: seq<T>, front: seq<T>, last: seq<T>, last': seq<T>, tail: seq<T>)
    requires whole' == head + rest' && whole == head + rest
    requires rest' == front + last' && rest == front + last && last' == last + tail
    ensures whole' == whole + tail
  {
    assert whole' == head + (front + (last + tail));
  }

  lemma SubSlice<T>(t: seq<T>, lo: nat, hi: nat, i: nat, j: nat)
    requires lo <= hi <= |t| && i <= j <= hi - lo
    ensures t[lo..hi][i..j] == t[lo + i..lo + j]
  {
    var u, v := t[lo..hi][i..j], t[lo + i..lo + j];
    assert |u| == |v|;
    forall k | 0 <= k < |u|
      ensures u[k] == v[k]
    {
      assert u[k] == t[lo..hi][i + k] == t[lo + i + k];
    }
  }

  lemma InitLast<T>(s: seq<T>)
    requires |s| > 0
    ensures s == s[..|s| - 1] + [s[|s| - 1]]
  {
    SplitAt(s, |s| - 1);
    assert s[|s|..] == [];
  }

  /** A sequence is what comes before position `k`, the element there, and the rest. */
  lemma SplitAt<T>(s: seq<T>, k: nat)
    requires k < |s|
    ensures s == s[..k] + [s[k]] + s[k + 1..]
  {
    var r := s[..k] + [s[k]] + s[k + 1..];
    assert |r| == |s|;
    forall i | 0 <= i < |s|
      ensures r[i] == s[i]
    {
      if i < k {
        assert r[i] == s[..k][i];
      } else if i > k {
        assert r[i] == s[k + 1..][i - k - 1];
      }
    }
  }

  /** The concatenation of `f(x)` for every `x`, in order. */
  function FlatMap<A, B>(f: A -> seq<B>, xs: seq<A>): seq<B>
    decreases |xs|
  {
    if |xs| == 0 then []
    else FlatMap(f, xs[..|xs| - 1]) + f(xs[|xs| - 1])
  }

  lemma FlatMapSnoc<A, B>(f: A -> seq<B>, xs: seq<A>, x: A)
    ensures FlatMap(f, xs + [x]) == FlatMap(f, xs) + f(x)
  {
    assert (xs + [x])[..|xs|] == xs;
  }

  /** Flat-map is compositional over concatenation. */
  lemma {:induction false} FlatMapAppend<A, B>(f: A -> seq<B>, xs: seq<A>, ys: seq<A>)
    ensures FlatMap(f, xs + ys) == FlatMap(f, xs) + FlatMap(f, ys)
    decreases |ys|
  {
    if |ys| == 0 {
      assert xs + ys == xs;
    } else {
      var init, last := ys[..|ys| - 1], ys[|ys| - 1];
      assert ys == init + [last];
      assert xs + ys == (xs + init) + [last];
      FlatMapSnoc(f, xs + init, last);
      FlatMapSnoc(f, init, last);
      FlatMapAppend(f, xs, init);
      var fx, fi, fl := FlatMap(f, xs), FlatMap(f, init), f(last);
      assert FlatMap(f, xs + ys) == (fx + fi) + fl;
      assert FlatMap(f, ys) == fi + fl;
      assert (fx + fi) + fl == fx + (fi + fl);
    }
  }

  /** An element comes out exactly when some input yields it. */
  lemma {:induction false} FlatMapMember<A, B>(f: A -> seq<B>, xs: seq<A>, v: B)
    ensures v in FlatMap(f, xs) <==> exists a :: a in xs && v in f(a)
    decreases |xs|
  {
    if |xs| > 0 {
      var init, last := xs[..|xs| - 1], xs[|xs| - 1];
      assert xs == init + [last];
      FlatMapMember(f, init, v);
      if v in FlatMap(f, init) {
        var a :| a in init && v in f(a);
        assert a in xs;
      }
      if exists a :: a in xs && v in f(a) {
        var a :| a in xs && v in f(a);
        if a != last {
          assert a in init;
        }
      }
    }
  }

  /** Taking one input out of turn only moves its elements. */
  lemma FlatMapWithout<A, B>(f: A -> seq<B>, xs: seq<A>, k: nat)
    requires k < |xs|
    ensures multiset(FlatMap(f, xs)) == multiset(FlatMap(f, xs[..k] + xs[k + 1..])) + multiset(f(xs[k]))
  {
    var a, x, b := xs[..k], xs[k], xs[k + 1..];
    SplitAt(xs, k);
    FlatMapAppend(f, a + [x], b);
    FlatMapSnoc(f, a, x);
    FlatMapAppend(f, a, b);
    var fa, fx, fb := FlatMap(f, a), f(x), FlatMap(f, b);
    assert FlatMap(f, xs) == (fa + fx) + fb;
    assert FlatMap(f, a + b) == fa + fb;
    assert multiset((fa + fx) + fb) == multiset(fa) + multiset(fx) + multiset(fb);
    assert multiset(fa + fb) == multiset(fa) + multiset(fb);
  }

  lemma HeadIsMember<T>(s: seq<T>)
    ensures s != [] ==> s[0] in s
  {
  }

  /** Any two orders of the same inputs, each listed once, give the same elements
      the same number of times. */
  lemma {:induction false} FlatMapOrderFree<A, B>(f: A -> seq<B>, xs: seq<A>, ys: seq<A>)
    requires Distinct(xs) && Distinct(ys) && (forall x :: x in xs <==> x in ys)
    ensures multiset(FlatMap(f, xs)) == multiset(FlatMap(f, ys))
    decreases |xs|
  {
    if |xs| == 0 {
      HeadIsMember(ys);
    } else {
      var n := |xs|;
      var x := xs[n - 1];
      assert x in ys;
      var k :| 0 <= k < |ys| && ys[k] == x;
      var rest1, rest2 := xs[..n - 1] + xs[n..], ys[..k] + ys[k + 1..];
      RemoveAt(xs, n - 1);
      RemoveAt(ys, k);
      forall y
        ensures y in rest1 <==> y in rest2
      {
        assert y in xs <==> y in ys;
      }
      FlatMapOrderFree(f, rest1, rest2);
      FlatMapWithout(f, xs, n - 1);
      FlatMapWithout(f, ys, k);
    }
  }

  /** The largest `k` in `[lo, hi]` satisfying `p`: a search that starts at `hi` and
      steps down, as a greedy regex run backs off. */
  function LastWhere(p: nat -> bool, lo: nat, hi: nat): (r: Option<nat>)
    requires lo <= hi
    ensures r.Some? ==> lo <= r.value <= hi && p(r.value)
    ensures r.Some? ==> forall k :: r.value < k <= hi ==> !p(k)
    ensures r.None? ==> forall k :: lo <= k <= hi ==> !p(k)
    decreases hi - lo
  {
    if p(hi) then Some(hi)
    else if hi == lo then None
    else LastWhere(p, lo, hi - 1)
  }

  /** The smallest `k` in `[lo, hi]` satisfying `p`: the start positions an unanchored
      regex tries, left to right. */
  function FirstWhere(p: nat -> bool, lo: nat, hi: nat): (r: Option<nat>)
    requires lo <= hi
    ensures r.Some? ==> lo <= r.value <= hi && p(r.value)
    ensures r.Some? ==> forall k :: lo <= k < r.value ==> !p(k)
    ensures r.None? ==> forall k :: lo <= k <= hi ==> !p(k)
    decreases hi - lo
  {
    if p(lo) then Some(lo)
    else if lo == hi then None
    else FirstWhere(p, lo + 1, hi)
  }

  /** The first position is the one that holds with none before it. */
  lemma FirstWhereIs(p: nat -> bool, lo: nat, hi: nat, k: nat)
    requires lo <= k <= hi && p(k)
    requires forall q :: lo <= q < k ==> !p(q)
    ensures FirstWhere(p, lo, hi) == Some(k)
  {
  }
}
