/** SQL result sets over a table kept as a sequence of rows. */
module Tables {
  import opened Prelude
  import opened StableSort

  /** `WHERE p` */
  function Where<T(!new)>(xs: seq<T>, p: T -> bool): (r: seq<T>)
    ensures |r| <= |xs|
    ensures forall x :: x in r <==> x in xs && p(x)
  {
    if xs == [] then [] else (if p(xs[0]) then [xs[0]] else []) + Where(xs[1..], p)
  }

  /** `LIMIT n` */
  function Limit<T>(xs: seq<T>, n: nat): (r: seq<T>)
    ensures |r| == if |xs| < n then |xs| else n
    ensures r <= xs
  {
    if |xs| < n then xs else xs[..n]
  }

  /** `ORDER BY` */
  function OrderBy<T(!new)>(xs: seq<T>, le: (T, T) -> bool): (r: seq<T>)
    ensures |r| == |xs| && forall x :: x in r <==> x in xs
  {
    SortPermutes(xs, le);
    Sort(xs, le)
  }

  lemma {:induction false} WhereConcat<T(!new)>(a: seq<T>, b: seq<T>, p: T -> bool)
    ensures Where(a + b, p) == Where(a, p) + Where(b, p)
  {
    if a == [] {
      assert a + b == b;
    } else {
      ConcatHead(a, b);
      WhereConcat(a[1..], b, p);
      ConcatAssociative(if p(a[0]) then [a[0]] else [], Where(a[1..], p), Where(b, p));
    }
  }

  lemma WhereAppend<T(!new)>(xs: seq<T>, x: T, p: T -> bool)
    ensures Where(xs + [x], p) == Where(xs, p) + if p(x) then [x] else []
  {
    WhereConcat(xs, [x], p);
    assert Where([x][1..], p) == [];
  }

  lemma PrefixMember<T>(p: seq<T>, s: seq<T>, k: nat)
    requires p <= s && k < |s|
    ensures k < |p| ==> s[k] in p
  {
    if k < |p| {
      assert p[k] == s[k];
    }
  }

  /** Selecting rows keeps their order. */
  lemma {:induction false} WhereSorted<T(!new)>(xs: seq<T>, p: T -> bool, le: (T, T) -> bool)
    requires Sorted(xs, le)
    ensures Sorted(Where(xs, p), le)
  {
    if xs != [] {
      WhereSorted(xs[1..], p, le);
      var rest := Where(xs[1..], p);
      forall j | 0 <= j < |rest| ensures le(xs[0], rest[j]) {
        assert rest[j] in rest;
        var k :| 0 <= k < |xs[1..]| && xs[1..][k] == rest[j];
        assert le(xs[0], xs[k + 1]);
      }
    }
  }

  ghost predicate Ascending(at: seq<nat>) {
    forall i, j :: 0 <= i < j < |at| ==> at[i] < at[j]
  }

  lemma FirstIsLeast(at: seq<nat>)
    requires Ascending(at) && at != []
    ensures forall k :: k in at ==> at[0] <= k
  {
    forall k | k in at ensures at[0] <= k {
      var l :| 0 <= l < |at| && at[l] == k;
    }
  }

  function Shifted(at: seq<nat>): (r: seq<nat>)
    ensures |r| == |at| && forall k :: 0 <= k < |at| ==> r[k] == at[k] + 1
  {
    seq(|at|, k requires 0 <= k < |at| => at[k] + 1)
  }

  lemma ShiftedMembers(at: seq<nat>)
    ensures forall i: nat :: i + 1 in Shifted(at) <==> i in at
    ensures 0 !in Shifted(at)
  {
    forall i: nat | i in at ensures i + 1 in Shifted(at) {
      var k :| 0 <= k < |at| && at[k] == i;
      assert Shifted(at)[k] == i + 1;
    }
  }

  /** `at` are the positions in `xs` of the elements with `p`, in order. */
  ghost predicate Positions<T(!new)>(at: seq<nat>, xs: seq<T>, p: T -> bool) {
    && Ascending(at) && (forall i :: i in at ==> i < |xs|)
    && forall i :: 0 <= i < |xs| ==> (i in at <==> p(xs[i]))
  }

  lemma PositionsCons<T(!new)>(xs: seq<T>, p: T -> bool, rest: seq<nat>)
    requires xs != [] && Positions(rest, xs[1..], p)
    ensures Positions((if p(xs[0]) then [0] else []) + Shifted(rest), xs, p)
  {
    var at := (if p(xs[0]) then [0] else []) + Shifted(rest);
    ShiftedMembers(rest);
    forall i | 0 <= i < |xs| ensures i in at <==> p(xs[i]) {
      if i > 0 {
        assert (i - 1) + 1 in Shifted(rest) <==> i - 1 in rest;
        assert xs[1..][i - 1] == xs[i];
      }
    }
    forall i | i in at ensures i < |xs| {
      if i in Shifted(rest) {
        var k :| 0 <= k < |rest| && Shifted(rest)[k] == i;
        assert rest[k] in rest;
      }
    }
  }

  /** `r` are the elements of `xs` at `at`, in that order. */
  ghost predicate Picks<T>(r: seq<T>, xs: seq<T>, at: seq<nat>) {
    |r| == |at| && forall k :: 0 <= k < |at| ==> at[k] < |xs| && r[k] == xs[at[k]]
  }

  lemma PicksCons<T>(r: seq<T>, xs: seq<T>, at: seq<nat>)
    requires xs != [] && Picks(r, xs[1..], at)
    ensures Picks(r, xs, Shifted(at)) && Picks([xs[0]] + r, xs, [0] + Shifted(at))
  {
  }

  /** The selected rows are those at the positions, in order. */
  lemma {:induction false} WherePositions<T(!new)>(xs: seq<T>, p: T -> bool) returns (at: seq<nat>)
    ensures Positions(at, xs, p) && Picks(Where(xs, p), xs, at)
  {
    at := [];
    if xs != [] {
      var rest := WherePositions(xs[1..], p);
      PositionsCons(xs, p, rest);
      PicksCons(Where(xs[1..], p), xs, rest);
      at := (if p(xs[0]) then [0] else []) + Shifted(rest);
      assert [] + Where(xs[1..], p) == Where(xs[1..], p) && [] + Shifted(rest) == Shifted(rest);
      hide Positions, Picks, Shifted;
    }
  }

  function Composed(outer: seq<nat>, inner: seq<nat>): (at: seq<nat>)
    requires forall i :: i in inner ==> i < |outer|
    ensures |at| == |inner| && forall k :: 0 <= k < |inner| ==> inner[k] in inner && at[k] == outer[inner[k]]
  {
    seq(|inner|, k requires 0 <= k < |inner| => assert inner[k] in inner; outer[inner[k]])
  }

  /** Selecting among selected rows: the positions compose. */
  lemma ComposedPositions<T(!new)>(xs: seq<T>, ys: seq<T>, outer: seq<nat>, p: T -> bool, inner: seq<nat>)
    requires Ascending(outer) && Picks(ys, xs, outer) && Positions(inner, ys, p)
    ensures var at := Composed(outer, inner);
            && Ascending(at) && (forall i :: i in at ==> i < |xs|)
            && forall i :: 0 <= i < |xs| ==> (i in at <==> i in outer && p(xs[i]))
  {
    var at := Composed(outer, inner);
    forall i | 0 <= i < |xs| ensures i in at <==> i in outer && p(xs[i]) {
      if i in at {
        var k :| 0 <= k < |at| && at[k] == i;
        assert inner[k] in inner && ys[inner[k]] == xs[i];
      }
      if i in outer && p(xs[i]) {
        var k :| 0 <= k < |outer| && outer[k] == i;
        assert ys[k] == xs[i] && k in inner;
        var l :| 0 <= l < |inner| && inner[l] == k;
        assert at[l] == i;
      }
    }
  }

  lemma ComposedPicks<T>(xs: seq<T>, ys: seq<T>, zs: seq<T>, outer: seq<nat>, inner: seq<nat>)
    requires Picks(ys, xs, outer) && Picks(zs, ys, inner) && forall i :: i in inner ==> i < |outer|
    ensures Picks(zs, xs, Composed(outer, inner))
  {
  }

  lemma LimitPicks<T>(xs: seq<T>, r: seq<T>, at: seq<nat>, n: nat)
    requires Picks(r, xs, at)
    ensures Picks(Limit(r, n), xs, Limit(at, n))
    ensures Ascending(at) ==> Ascending(Limit(at, n))
  {
  }

  /** Two conditions one after the other are their conjunction. */
  lemma {:induction false} WhereTwice<T(!new)>(xs: seq<T>, p: T -> bool, q: T -> bool, both: T -> bool)
    requires forall x :: x in xs ==> (both(x) <==> p(x) && q(x))
    ensures Where(Where(xs, p), q) == Where(xs, both)
  {
    if xs != [] {
      assert xs[0] in xs;
      WhereTwice(xs[1..], p, q, both);
      var rest := Where(xs[1..], p);
      assert ([xs[0]] + rest)[1..] == rest && [] + rest == rest && [] + Where(rest, q) == Where(rest, q);
    }
  }

  lemma {:induction false} WhereSame<T(!new)>(xs: seq<T>, p: T -> bool, q: T -> bool)
    requires forall x :: x in xs ==> (p(x) <==> q(x))
    ensures Where(xs, p) == Where(xs, q)
  {
    if xs != [] {
      assert xs[0] in xs;
      WhereSame(xs[1..], p, q);
    }
  }

  lemma {:induction false} WhereAll<T(!new)>(xs: seq<T>, p: T -> bool)
    requires forall x :: x in xs ==> p(x)
    ensures Where(xs, p) == xs
  {
    if xs != [] {
      assert xs[0] in xs;
      WhereAll(xs[1..], p);
    }
  }

  lemma {:induction false} WhereNone<T(!new)>(xs: seq<T>, p: T -> bool)
    requires forall x :: x in xs ==> !p(x)
    ensures Where(xs, p) == []
  {
    if xs != [] {
      assert xs[0] in xs;
      WhereNone(xs[1..], p);
    }
  }

  lemma {:induction false} WhereNoRepeats<T(!new)>(xs: seq<T>, p: T -> bool)
    requires NoRepeats(xs)
    ensures NoRepeats(Where(xs, p))
  {
    if xs != [] {
      assert xs[0] !in xs[1..];
      WhereNoRepeats(xs[1..], p);
    }
  }

  lemma OrderByNoRepeats<T(!new)>(xs: seq<T>, le: (T, T) -> bool)
    requires NoRepeats(xs)
    ensures NoRepeats(OrderBy(xs, le))
  {
    SortPermutes(xs, le);
    RearrangedNoRepeats(xs, OrderBy(xs, le));
  }
}
