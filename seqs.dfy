/**
 * Sequence operations the application code leans on: `Array.prototype.filter`,
 * joining strings, and the interleaving of text fragments with separators.
 */
module Seqs {
  import opened Wrappers

  /** `a` can be obtained from `b` by deleting elements (order is kept). */
  ghost predicate IsSubsequence<T>(a: seq<T>, b: seq<T>)
    decreases |b|
  {
    a == [] || (b != [] && ((a[0] == b[0] && IsSubsequence(a[1..], b[1..])) || IsSubsequence(a, b[1..])))
  }

  /** `s.filter(keep)`: the elements that pass `keep`, in their original order. */
  function Filter<T>(s: seq<T>, keep: T -> bool): (r: seq<T>)
    ensures |r| <= |s|
    ensures forall i :: 0 <= i < |r| ==> keep(r[i])
  {
    if s == [] then []
    else
      var rest := Filter(s[1..], keep);
      if keep(s[0]) then [s[0]] + rest else rest
  }

  /** A first element that is kept comes first. */
  lemma FilterFirst<T>(s: seq<T>, keep: T -> bool)
    requires s != [] && keep(s[0])
    ensures Filter(s, keep) != [] && Filter(s, keep)[0] == s[0]
  {
  }

  /** A last element that is kept comes last. */
  lemma {:induction false} FilterLast<T>(s: seq<T>, keep: T -> bool)
    requires s != [] && keep(s[|s| - 1])
    ensures var r := Filter(s, keep);
            r != [] && r[|r| - 1] == s[|s| - 1]
    decreases |s|
  {
    if |s| > 1 {
      FilterLast(s[1..], keep);
      assert s[1..][|s| - 2] == s[|s| - 1];
    }
  }

  /** An element is kept exactly when it is there and passes `keep`. */
  lemma {:induction false} FilterMembers<T>(s: seq<T>, keep: T -> bool)
    ensures forall x :: x in Filter(s, keep) <==> x in s && keep(x)
    decreases |s|
  {
    if s != [] {
      FilterMembers(s[1..], keep);
      assert s == [s[0]] + s[1..];
    }
  }

  /** An element is kept as many times as it occurs, or not at all. */
  lemma {:induction false} FilterCount<T>(s: seq<T>, keep: T -> bool)
    ensures forall x :: multiset(Filter(s, keep))[x] == if keep(x) then multiset(s)[x] else 0
    decreases |s|
  {
    if s != [] {
      FilterCount(s[1..], keep);
      assert s == [s[0]] + s[1..];
    }
  }

  /** The kept elements are in their original order. */
  lemma {:induction false} FilterOrder<T>(s: seq<T>, keep: T -> bool)
    ensures IsSubsequence(Filter(s, keep), s)
    decreases |s|
  {
    if s != [] {
      FilterOrder(s[1..], keep);
      var r := Filter(s, keep);
      if keep(s[0]) {
        assert r[1..] == Filter(s[1..], keep);
      }
    }
  }

  lemma {:induction false} FilterConcat<T>(a: seq<T>, b: seq<T>, keep: T -> bool)
    ensures Filter(a + b, keep) == Filter(a, keep) + Filter(b, keep)
    decreases |a|
  {
    if a == [] {
      assert a + b == b;
    } else {
      assert (a + b)[1..] == a[1..] + b;
      FilterConcat(a[1..], b, keep);
    }
  }

  /** Keeping everything leaves the sequence as it was. */
  lemma {:induction false} FilterKeepsAll<T>(s: seq<T>, keep: T -> bool)
    requires forall i :: 0 <= i < |s| ==> keep(s[i])
    ensures Filter(s, keep) == s
    decreases |s|
  {
    if s != [] {
      FilterKeepsAll(s[1..], keep);
    }
  }

  /** Keeping nothing gives the empty sequence. */
  lemma {:induction false} FilterDropsAll<T>(s: seq<T>, keep: T -> bool)
    requires forall i :: 0 <= i < |s| ==> !keep(s[i])
    ensures Filter(s, keep) == []
    decreases |s|
  {
    if s != [] {
      FilterDropsAll(s[1..], keep);
    }
  }

  /** No two elements are equal. */
  predicate Distinct<T(==)>(s: seq<T>) {
    forall i, j :: 0 <= i < j < |s| ==> s[i] != s[j]
  }

  /** Filtering a sequence without repeats leaves one without repeats. */
  lemma {:induction false} FilterDistinct<T>(s: seq<T>, keep: T -> bool)
    requires Distinct(s)
    ensures Distinct(Filter(s, keep))
    decreases |s|
  {
    if s != [] {
      FilterDistinct(s[1..], keep);
      FilterMembers(s[1..], keep);
      var rest := Filter(s[1..], keep);
      forall k | 0 <= k < |rest|
        ensures rest[k] != s[0]
      {
        assert rest[k] in rest;
      }
      if keep(s[0]) {
        assert Filter(s, keep) == [s[0]] + rest;
      }
    }
  }

  /** Two filters whose tests agree on every element give the same result. */
  lemma {:induction false} FilterAgrees<T>(s: seq<T>, p: T -> bool, q: T -> bool)
    requires forall i :: 0 <= i < |s| ==> p(s[i]) == q(s[i])
    ensures Filter(s, p) == Filter(s, q)
    decreases |s|
  {
    if s != [] {
      FilterAgrees(s[1..], p, q);
    }
  }

  /** Filtering twice is filtering once with both tests. */
  lemma {:induction false} FilterTwice<T>(s: seq<T>, p: T -> bool, q: T -> bool, both: T -> bool)
    requires forall x :: both(x) == (p(x) && q(x))
    ensures Filter(Filter(s, p), q) == Filter(s, both)
    decreases |s|
  {
    if s != [] {
      FilterTwice(s[1..], p, q, both);
    }
  }

  /** Join a sequence of strings with no separator. */
  function Concat<T>(parts: seq<seq<T>>): (r: seq<T>)
    ensures parts == [] ==> r == []
  {
    if parts == [] then [] else parts[0] + Concat(parts[1..])
  }

  lemma {:induction false} ConcatAppend<T>(a: seq<seq<T>>, b: seq<seq<T>>)
    ensures Concat(a + b) == Concat(a) + Concat(b)
    decreases |a|
  {
    if a == [] {
      assert a + b == b;
    } else {
      assert (a + b)[1..] == a[1..] + b;
      ConcatAppend(a[1..], b);
    }
  }

  /**
   * `[fs[0], ds[0], fs[1], ds[1], ..., fs[n]]`: the `n + 1` fragments `fs`
   * with the `n` separators `ds` between them.
   */
  function Weave<T>(fs: seq<T>, ds: seq<T>): (r: seq<T>)
    requires |fs| == |ds| + 1
    ensures |r| == |fs| + |ds|
    ensures forall i :: 0 <= i < |fs| ==> r[2 * i] == fs[i]
    ensures forall i :: 0 <= i < |ds| ==> r[2 * i + 1] == ds[i]
    decreases |ds|
  {
    if ds == [] then [fs[0]]
    else
      var rest := Weave(fs[1..], ds[1..]);
      assert forall i :: 1 <= i < |fs| ==> rest[2 * (i - 1)] == fs[i];
      assert forall i :: 1 <= i < |ds| ==> rest[2 * (i - 1) + 1] == ds[i];
      [fs[0], ds[0]] + rest
  }

  lemma AppendAssoc<T>(a: seq<T>, b: seq<T>, c: seq<T>)
    ensures (a + b) + c == a + (b + c)
  {
  }

  /** A property that holds of a new first element and of every other element holds of every element. */
  lemma AllCons<T>(x: T, xs: seq<T>, p: T -> bool)
    requires p(x) && forall j :: 0 <= j < |xs| ==> p(xs[j])
    ensures forall j :: 0 <= j < |[x] + xs| ==> p(([x] + xs)[j])
  {
    forall j | 0 <= j < |[x] + xs|
      ensures p(([x] + xs)[j])
    {
      if j > 0 {
        assert ([x] + xs)[j] == xs[j - 1];
      }
    }
  }

  /** Two adjacent slices make up the slice that spans both. */
  lemma SliceJoin<T>(s: seq<T>, a: nat, b: nat, c: nat)
    requires a <= b <= c <= |s|
    ensures s[a..b] + s[b..c] == s[a..c]
  {
  }

  /** A slice followed by the rest of the sequence from its end is the rest from its start. */
  lemma SliceJoinTail<T>(s: seq<T>, a: nat, b: nat)
    requires a <= b <= |s|
    ensures s[a..b] + s[b..] == s[a..]
  {
  }

  /** Moving two pieces from the front of the rest onto the end of the part already done. */
  lemma ShiftPrefix<T>(whole: seq<T>, done: seq<T>, a: seq<T>, b: seq<T>, rest: seq<T>)
    requires whole == done + (a + (b + rest))
    ensures whole == (done + a + b) + rest
  {
  }

  /** Weaving one more fragment and separator in front adds them in front of the joined text. */
  lemma WeaveConcatCons<T>(f: seq<T>, d: seq<T>, fs: seq<seq<T>>, ds: seq<seq<T>>)
    requires |fs| == |ds| + 1
    ensures Concat(Weave([f] + fs, [d] + ds)) == f + (d + Concat(Weave(fs, ds)))
  {
    WeaveCons(f, d, fs, ds);
    ConcatCons(f, d, Weave(fs, ds));
  }

  lemma WeaveCons<T>(f: T, d: T, fs: seq<T>, ds: seq<T>)
    requires |fs| == |ds| + 1
    ensures Weave([f] + fs, [d] + ds) == [f, d] + Weave(fs, ds)
  {
    assert ([f] + fs)[1..] == fs;
    assert ([d] + ds)[1..] == ds;
  }

  lemma ConcatCons<T>(a: seq<T>, b: seq<T>, rest: seq<seq<T>>)
    ensures Concat([a, b] + rest) == a + (b + Concat(rest))
  {
    assert ([a, b] + rest)[1..] == [b] + rest;
    assert ([b] + rest)[1..] == rest;
  }

  /**
   * `f` applied to every element, in order, failing as soon as one
   * application fails.
   */
  function MapAll<T, U>(xs: seq<T>, f: T -> Option<U>): (r: Option<seq<U>>)
    ensures r.Some? ==> |r.value| == |xs|
  {
    if xs == [] then Some([])
    else match f(xs[0])
      case None => None
      case Some(y) =>
        match MapAll(xs[1..], f)
        case None => None
        case Some(ys) => Some([y] + ys)
  }

  lemma MapAllCons<T, U>(x: T, xs: seq<T>, f: T -> Option<U>)
    ensures MapAll([x] + xs, f) ==
              match f(x)
              case None => None
              case Some(y) => (match MapAll(xs, f) case None => None case Some(ys) => Some([y] + ys))
  {
    assert ([x] + xs)[1..] == xs;
  }

  /** `MapAll` succeeds exactly when every application does, and then lines the results up with the inputs. */
  lemma {:induction false} MapAllAligned<T, U>(xs: seq<T>, f: T -> Option<U>)
    ensures MapAll(xs, f).Some? <==> forall i :: 0 <= i < |xs| ==> f(xs[i]).Some?
    ensures MapAll(xs, f).Some? ==> forall i :: 0 <= i < |xs| ==> f(xs[i]) == Some(MapAll(xs, f).value[i])
    decreases |xs|
  {
    if xs != [] {
      MapAllAligned(xs[1..], f);
      assert forall i :: 1 <= i < |xs| ==> xs[1..][i - 1] == xs[i];
      if MapAll(xs, f).Some? {
        var ys := MapAll(xs, f).value;
        assert forall i :: 1 <= i < |xs| ==> ys[i] == MapAll(xs[1..], f).value[i - 1];
      }
    }
  }
}
