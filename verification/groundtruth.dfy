/**
 * The pre-clustering ground truth (`do_compute`): for every hypothesis
 * cluster, whether all its items share one reference cluster (it is pure)
 * and which; then a K x K matrix, indexed by hypothesis cluster id, holding
 * 1 for two pure clusters with the same reference cluster, 0 for two pure
 * clusters with different ones, and -1 in the row and column of an impure
 * cluster.
 *
 * The two clusterings enter as what `do_compute` reads of them: the
 * reference's item-to-cluster dictionary and the hypothesis's reverse index
 * (cluster id to member list).
 */
module Groundtruth {
  import opened Wrappers
  import opened Seqs

  datatype Error =
    | MissingReference(item: int)   // `reference[i]` raised KeyError
    | IndexOutOfRange               // a hypothesis cluster id is not a row of the K x K matrix

  // ----- sorted(hypothesis.clusters) -----

  /** A non-empty set has an element. */
  lemma {:induction false} Inhabited(s: set<int>)
    requires s != {}
    ensures exists x :: x in s
  {
    assert (forall x :: x !in s) ==> s == {};
  }

  /** The least element of a non-empty set. */
  ghost function Least(s: set<int>): (m: int)
    requires s != {}
    ensures m in s && forall y :: y in s ==> m <= y
  {
    Inhabited(s);
    var x :| x in s;
    assert forall y :: y in s ==> y == x || y in s - {x};
    if s - {x} == {} then x
    else
      var r := Least(s - {x});
      if x < r then x else r
  }

  /** The elements of `s` in ascending order. */
  ghost function Ascending(s: set<int>): (r: seq<int>)
    ensures |r| == |s|
    ensures forall x :: x in r <==> x in s
    ensures forall i, j :: 0 <= i < j < |r| ==> r[i] < r[j]
    decreases |s|
  {
    if s == {} then []
    else
      var m := Least(s);
      var rest := Ascending(s - {m});
      LeastInFront(s, m, rest);
      [m] + rest
  }

  /** Removing a member from a finite set leaves one element fewer. */
  lemma {:induction false} RemoveOneCard(s: set<int>, m: int)
    requires m in s
    ensures |s - {m}| == |s| - 1
  {
    var t := s - {m};
    assert s == t + {m};
  }

  /** The least element in front of the others in ascending order lists the whole set in ascending order. */
  lemma {:induction false} LeastInFront(s: set<int>, m: int, rest: seq<int>)
    requires m in s && forall y :: y in s ==> m <= y
    requires |rest| == |s - {m}|
    requires forall x :: x in rest <==> x in s - {m}
    requires forall i, j :: 0 <= i < j < |rest| ==> rest[i] < rest[j]
    ensures |[m] + rest| == |s|
    ensures forall x :: x in [m] + rest <==> x in s
    ensures forall i, j :: 0 <= i < j < |[m] + rest| ==> ([m] + rest)[i] < ([m] + rest)[j]
  {
    var r := [m] + rest;
    RemoveOneCard(s, m);
    forall i | 0 <= i < |rest| ensures m < rest[i] {
      assert rest[i] in rest;
    }
  }

  /** `sorted(keys)`: selection of the least remaining key, one at a time. */
  method SortedKeys(keys: set<int>) returns (r: seq<int>)
    ensures r == Ascending(keys)
  {
    r := [];
    var rest := keys;
    while rest != {}
      invariant rest <= keys
      invariant r + Ascending(rest) == Ascending(keys)
      decreases |rest|
    {
      ghost var least := Least(rest);
      var m :| m in rest && forall y :: y in rest ==> m <= y;
      assert m == least by {
        assert m <= least && least <= m;
      }
      AscendingStep(r, rest, m);
      r := r + [m];
      rest := rest - {m};
    }
  }

  lemma {:induction false} AscendingStep(r: seq<int>, rest: set<int>, m: int)
    requires rest != {} && m == Least(rest)
    ensures (r + [m]) + Ascending(rest - {m}) == r + Ascending(rest)
  {
    AscendingFront(rest);
    var tail := Ascending(rest - {m});
    assert (r + [m]) + tail == r + ([m] + tail);
  }

  /** Ascending order starts with the least element, followed by the others in ascending order. */
  lemma {:induction false} AscendingFront(s: set<int>)
    requires s != {}
    ensures Ascending(s) == [Least(s)] + Ascending(s - {Least(s)})
  {
  }

  // ----- clustersRef -----

  /**
   * `set([reference[i] for i in members])`: the reference clusters of the
   * members, or KeyError on the first member the reference does not know.
   */
  function RefsOf(reference: map<int, int>, members: seq<int>): (r: Result<set<int>, Error>)
    ensures r.Success? <==> forall i :: 0 <= i < |members| ==> members[i] in reference
    ensures r.Success? ==> forall i :: 0 <= i < |members| ==> reference[members[i]] in r.value
    ensures r.Success? ==> forall x :: x in r.value ==> exists i :: 0 <= i < |members| && reference[members[i]] == x
    ensures r.Failure? ==> r.error.MissingReference? && r.error.item !in reference && r.error.item in members
  {
    if members == [] then Success({})
    else
      var n := |members| - 1;
      match RefsOf(reference, members[..n])
      case Failure(e) =>
        assert members[..n] <= members;
        Failure(e)
      case Success(s) =>
        if members[n] !in reference then Failure(MissingReference(members[n]))
        else
          assert forall i :: 0 <= i < n ==> members[..n][i] == members[i];
          Success(s + {reference[members[n]]})
  }

  /**
   * The KeyError `RefsOf` reports is raised by the first member the
   * reference does not know: every member before it is known.
   */
  lemma {:induction false} RefsOfFirstMissing(reference: map<int, int>, members: seq<int>)
    requires RefsOf(reference, members).Failure?
    ensures var item := RefsOf(reference, members).error.item;
      exists i :: 0 <= i < |members| && members[i] == item && forall j :: 0 <= j < i ==> members[j] in reference
  {
    var n := |members| - 1;
    var item := RefsOf(reference, members).error.item;
    if RefsOf(reference, members[..n]).Failure? {
      RefsOfFirstMissing(reference, members[..n]);
      var i :| 0 <= i < n && members[..n][i] == item && forall j :: 0 <= j < i ==> members[..n][j] in reference;
      assert forall j :: 0 <= j < i ==> members[..n][j] == members[j];
    } else {
      assert forall j :: 0 <= j < n ==> members[..n][j] == members[j];
      assert members[n] == item;
    }
  }

  /** `clustersRef[c]`: the single reference cluster of the members, or `None` when there is not exactly one. */
  ghost function Purity(reference: map<int, int>, members: seq<int>): Result<Option<int>, Error> {
    match RefsOf(reference, members)
    case Failure(e) => Failure(e)
    case Success(s) =>
      if |s| == 1 then
        var x :| x in s;
        Success(Some(x))
      else Success(None)
  }

  /** The `clustersRef` dictionary after the loop over the ids `pre`. */
  ghost function ClustersRef(reference: map<int, int>, hyp: map<int, seq<int>>, pre: seq<int>)
    : (r: Result<map<int, Option<int>>, Error>)
    requires forall c :: c in pre ==> c in hyp
    ensures r.Success? <==> forall c, i :: c in pre && 0 <= i < |hyp[c]| ==> hyp[c][i] in reference
    ensures r.Success? ==> forall c :: c in r.value <==> c in pre
    ensures r.Success? ==> forall c :: c in pre ==> Purity(reference, hyp[c]) == Success(r.value[c])
  {
    if pre == [] then Success(map[])
    else
      var n := |pre| - 1;
      assert forall c :: c in pre <==> c in pre[..n] || c == pre[n] by {
        assert pre == pre[..n] + [pre[n]];
      }
      match ClustersRef(reference, hyp, pre[..n])
      case Failure(e) => Failure(e)
      case Success(m) =>
        match Purity(reference, hyp[pre[n]])
        case Failure(e) => Failure(e)
        case Success(p) => Success(m[pre[n] := p])
  }

  /** `clustersRef` as `do_compute` fills it: over the hypothesis ids in ascending order. */
  ghost function PurityMap(reference: map<int, int>, hyp: map<int, seq<int>>): Result<map<int, Option<int>>, Error> {
    ClustersRef(reference, hyp, Ascending(hyp.Keys))
  }

  /** Once a prefix of the ids fails, the whole loop fails with the same error. */
  lemma {:induction false} ClustersRefFailureStays(reference: map<int, int>, hyp: map<int, seq<int>>, pre: seq<int>, j: nat)
    requires forall c :: c in pre ==> c in hyp
    requires j <= |pre| && ClustersRef(reference, hyp, pre[..j]).Failure?
    ensures ClustersRef(reference, hyp, pre) == ClustersRef(reference, hyp, pre[..j])
  {
    if j < |pre| {
      assert pre[..|pre| - 1][..j] == pre[..j];
      ClustersRefFailureStays(reference, hyp, pre[..|pre| - 1], j);
    } else {
      assert pre[..j] == pre;
    }
  }

  /** A set of one element has no other element. */
  lemma {:induction false} SingletonUnique(s: set<int>, x: int, y: int)
    requires |s| == 1 && x in s && y in s
    ensures x == y
  {
    if x != y {
      SubsetCard({x, y}, s);
    }
  }

  /** `r = set([reference[i] for i in members])`, then `r.pop()` when `len(r) == 1`, else `None`. */
  method PurityOf(reference: map<int, int>, members: seq<int>) returns (p: Result<Option<int>, Error>)
    ensures p == Purity(reference, members)
  {
    var refsOf := RefsOf(reference, members);
    if refsOf.Failure? {
      return Failure(refsOf.error);
    }
    if |refsOf.value| == 1 {
      Inhabited(refsOf.value);
      var x :| x in refsOf.value;
      assert Purity(reference, members) == Success(Some(x)) by {
        var y :| y in refsOf.value && Purity(reference, members) == Success(Some(y));
        SingletonUnique(refsOf.value, x, y);
      }
      return Success(Some(x));
    }
    return Success(None);
  }

  /** One more id extends the `clustersRef` loop by that id's purity. */
  lemma {:induction false} ClustersRefStep(reference: map<int, int>, hyp: map<int, seq<int>>, pre: seq<int>, n: nat, m: map<int, Option<int>>)
    requires forall c :: c in pre ==> c in hyp
    requires n < |pre| && ClustersRef(reference, hyp, pre[..n]) == Success(m)
    ensures ClustersRef(reference, hyp, pre[..n + 1]) ==
      match Purity(reference, hyp[pre[n]])
      case Failure(e) => Failure(e)
      case Success(p) => Success(m[pre[n] := p])
  {
    assert pre[..n + 1][..n] == pre[..n] && pre[..n + 1][n] == pre[n];
  }

  /** The `clustersRef` loop over the ids `pre`. */
  method ReferenceClusters(reference: map<int, int>, hyp: map<int, seq<int>>, pre: seq<int>)
    returns (r: Result<map<int, Option<int>>, Error>)
    requires forall c :: c in pre ==> c in hyp
    ensures r == ClustersRef(reference, hyp, pre)
  {
    var clustersRef := map[];
    for n := 0 to |pre|
      invariant ClustersRef(reference, hyp, pre[..n]) == Success(clustersRef)
    {
      var c := pre[n];
      ClustersRefStep(reference, hyp, pre, n, clustersRef);
      var p := PurityOf(reference, hyp[c]);
      if p.Failure? {
        ClustersRefFailureStays(reference, hyp, pre, n + 1);
        return Failure(p.error);
      }
      clustersRef := clustersRef[c := p.value];
    }
    assert pre[..|pre|] == pre;
    return Success(clustersRef);
  }

  /**
   * A cluster whose members all have reference clusters is pure exactly when
   * it has members and they all share one reference cluster, and that
   * cluster is then the one recorded.
   */
  lemma {:induction false} PurityMeaning(reference: map<int, int>, members: seq<int>)
    requires forall i :: 0 <= i < |members| ==> members[i] in reference
    ensures Purity(reference, members).Success?
    ensures Purity(reference, members).value.Some? <==>
      |members| > 0 && forall i :: 0 <= i < |members| ==> reference[members[i]] == reference[members[0]]
    ensures Purity(reference, members).value.Some? ==>
      Purity(reference, members).value.value == reference[members[0]]
  {
    var s := RefsOf(reference, members).value;
    if |members| > 0 {
      var x := reference[members[0]];
      assert x in s;
      if forall i :: 0 <= i < |members| ==> reference[members[i]] == x {
        assert s == {x} by {
          forall y | y in s ensures y == x {
            var i :| 0 <= i < |members| && reference[members[i]] == y;
          }
        }
      } else {
        var i :| 0 <= i < |members| && reference[members[i]] != x;
        assert {x, reference[members[i]]} <= s;
        assert |{x, reference[members[i]]}| == 2;
        assert |s| >= 2 by {
          SubsetCard({x, reference[members[i]]}, s);
        }
      }
    } else {
      assert s == {};
    }
  }

  lemma {:induction false} SubsetCard(a: set<int>, b: set<int>)
    requires a <= b
    ensures |a| <= |b|
  {
    assert b == a + (b - a);
  }

  // ----- the matrix -----

  /** `groundtruth[a, b]` as the comment above the loop describes it. */
  ghost function Expected(refs: map<int, Option<int>>, a: int, b: int): int
    requires a in refs && b in refs
  {
    if refs[a].None? || refs[b].None? then -1
    else if refs[a].value == refs[b].value then 1
    else 0
  }

  /**
   * The cells already settled once the ids `done` were visited: both ends
   * visited, or one end visited and either that end impure or the other end
   * pure.
   */
  ghost predicate Covered(refs: map<int, Option<int>>, done: seq<int>, a: int, b: int)
    requires a in refs && b in refs
  {
    || (a in done && (b in done || refs[a].None? || refs[b].Some?))
    || (b in done && (a in done || refs[b].None? || refs[a].Some?))
  }

  /** Every settled cell of the matrix holds its expected value. */
  ghost predicate Settled(refs: map<int, Option<int>>, done: seq<int>, m: array2<int>)
    reads m
  {
    forall a, b :: 0 <= a < m.Length0 && 0 <= b < m.Length1 && a in refs && b in refs && Covered(refs, done, a, b) ==>
      m[a, b] == Expected(refs, a, b)
  }

  /** K distinct ids all in `0..K-1` are every one of them. */
  lemma {:induction false} CoverRange(pre: seq<int>, k: nat)
    requires NoDup(pre) && |pre| == k
    requires forall i :: 0 <= i < |pre| ==> 0 <= pre[i] < k
    ensures forall a :: 0 <= a < k ==> a in pre
  {
    var ids := set x | x in pre;
    NoDupCard(pre);
    var all := Range(k);
    assert ids <= all;
    assert all - ids == {} by {
      assert all == ids + (all - ids);
    }
    forall a | 0 <= a < k ensures a in pre {
      assert a in all;
    }
  }

  /**
   * The impure id `pre[n]`: `groundtruth[ci, :] = -1` and
   * `groundtruth[:, ci] = -1`, which settles its whole row and column.
   */
  method StrikeImpure(refs: map<int, Option<int>>, pre: seq<int>, n: nat, m: array2<int>)
    requires NoDup(pre) && n < |pre| && forall i :: 0 <= i < |pre| ==> pre[i] in refs
    requires refs[pre[n]].None? && 0 <= pre[n] < m.Length0 == m.Length1
    requires Settled(refs, pre[..n], m)
    modifies m
    ensures Settled(refs, pre[..n + 1], m)
    ensures forall a, b :: 0 <= a < m.Length0 && 0 <= b < m.Length1 ==>
      m[a, b] == if a == pre[n] || b == pre[n] then -1 else old(m[a, b])
  {
    var ci := pre[n];
    for j := 0 to m.Length1
      invariant forall a, b :: 0 <= a < m.Length0 && 0 <= b < m.Length1 ==>
        m[a, b] == if (a == ci && b < j) || (b == ci && a < j) then -1 else old(m[a, b])
    {
      m[ci, j] := -1;
      m[j, ci] := -1;
    }
    assert pre[..n + 1] == pre[..n] + [ci];
    forall a, b | 0 <= a < m.Length0 && 0 <= b < m.Length1 && a in refs && b in refs && Covered(refs, pre[..n + 1], a, b)
      ensures m[a, b] == Expected(refs, a, b)
    {
      if a != ci && b != ci {
        assert Covered(refs, pre[..n], a, b);
      }
    }
  }

  /**
   * The pure id `pre[n]`: for every later pure id `cj`, starting with
   * `pre[n]` itself, `groundtruth[ci, cj]` and `groundtruth[cj, ci]` get 1
   * when the reference clusters agree and 0 otherwise. It stops, with
   * `ok == false`, at the first cell outside the matrix.
   */
  method SettlePure(refs: map<int, Option<int>>, pre: seq<int>, n: nat, m: array2<int>) returns (ok: bool)
    requires NoDup(pre) && n < |pre| && forall i :: 0 <= i < |pre| ==> pre[i] in refs
    requires forall c :: c in refs ==> c in pre
    requires refs[pre[n]].Some? && m.Length0 == m.Length1
    requires Settled(refs, pre[..n], m)
    modifies m
    ensures ok <==> forall i :: n <= i < |pre| && refs[pre[i]].Some? ==> 0 <= pre[i] < m.Length0
    ensures ok ==> Settled(refs, pre[..n + 1], m)
  {
    var ci := pre[n];
    var k := m.Length0;
    for j := n to |pre|
      invariant j > n ==> 0 <= ci < k
      invariant forall i :: n <= i < j && refs[pre[i]].Some? ==> 0 <= pre[i] < k
      invariant Settled(refs, pre[..n], m)
      invariant forall i :: n <= i < j && refs[pre[i]].Some? ==>
        m[ci, pre[i]] == Expected(refs, ci, pre[i]) && m[pre[i], ci] == Expected(refs, pre[i], ci)
    {
      var cj := pre[j];
      if refs[cj].Some? {
        if !(0 <= ci < k && 0 <= cj < k) {
          return false;
        }
        m[ci, cj] := if refs[ci] == refs[cj] then 1 else 0;
        m[cj, ci] := m[ci, cj];
      }
    }
    CoveredStep(refs, pre, n, m);
    return true;
  }

  /** After the pure id `pre[n]`, the newly settled cells are the ones its loop wrote. */
  lemma {:induction false} CoveredStep(refs: map<int, Option<int>>, pre: seq<int>, n: nat, m: array2<int>)
    requires NoDup(pre) && n < |pre| && forall i :: 0 <= i < |pre| ==> pre[i] in refs
    requires forall c :: c in refs ==> c in pre
    requires refs[pre[n]].Some? && 0 <= pre[n] < m.Length0 == m.Length1
    requires Settled(refs, pre[..n], m)
    requires forall i :: n <= i < |pre| && refs[pre[i]].Some? ==>
      0 <= pre[i] < m.Length0
      && m[pre[n], pre[i]] == Expected(refs, pre[n], pre[i]) && m[pre[i], pre[n]] == Expected(refs, pre[i], pre[n])
    ensures Settled(refs, pre[..n + 1], m)
  {
    var ci := pre[n];
    assert pre[..n + 1] == pre[..n] + [ci];
    assert forall i :: 0 <= i < n ==> pre[..n][i] == pre[i];
    forall a, b | 0 <= a < m.Length0 && 0 <= b < m.Length1 && a in refs && b in refs && Covered(refs, pre[..n + 1], a, b)
      ensures m[a, b] == Expected(refs, a, b)
    {
      if !Covered(refs, pre[..n], a, b) {
        var other := if a == ci then b else a;
        assert other in pre;
        var i :| 0 <= i < |pre| && pre[i] == other;
      }
    }
  }

  /**
   * The fill loop over the ids `pre` in order, for a K x K matrix. It fails
   * exactly when some id is not a row of the matrix; otherwise every cell
   * holds its expected value.
   */
  method Fill(refs: map<int, Option<int>>, pre: seq<int>, k: nat) returns (r: Result<array2<int>, Error>)
    requires NoDup(pre) && |pre| == k
    requires forall c :: c in refs <==> c in pre
    ensures r.Failure? <==> exists i :: 0 <= i < |pre| && !(0 <= pre[i] < k)
    ensures r.Failure? ==> r.error == IndexOutOfRange
    ensures r.Success? ==> fresh(r.value) && r.value.Length0 == k && r.value.Length1 == k
    ensures r.Success? ==> forall a, b :: 0 <= a < k && 0 <= b < k ==>
      a in refs && b in refs && r.value[a, b] == Expected(refs, a, b)
    ensures r.Success? ==> IsGroundtruth(refs, r.value)
  {
    assert forall c :: c in refs <==> c in pre;
    assert forall i :: 0 <= i < |pre| ==> pre[i] in refs by {
      forall i | 0 <= i < |pre| ensures pre[i] in refs {
        assert pre[i] in pre;
      }
    }
    var m := new int[k, k];
    for n := 0 to |pre|
      invariant forall i :: 0 <= i < n ==> 0 <= pre[i] < k
      invariant Settled(refs, pre[..n], m)
    {
      var ci := pre[n];
      if refs[ci].None? {
        if !(0 <= ci < k) {
          return Failure(IndexOutOfRange);
        }
        StrikeImpure(refs, pre, n, m);
      } else {
        var ok := SettlePure(refs, pre, n, m);
        if !ok {
          return Failure(IndexOutOfRange);
        }
      }
    }
    assert pre[..|pre|] == pre;
    AllSettled(refs, pre, k, m);
    return Success(m);
  }

  /** Once every id was visited, every cell of the matrix holds its expected value. */
  lemma {:induction false} AllSettled(refs: map<int, Option<int>>, pre: seq<int>, k: nat, m: array2<int>)
    requires NoDup(pre) && |pre| == k && m.Length0 == k && m.Length1 == k
    requires forall c :: c in refs <==> c in pre
    requires forall i :: 0 <= i < |pre| ==> 0 <= pre[i] < k
    requires Settled(refs, pre, m)
    ensures forall a, b :: 0 <= a < k && 0 <= b < k ==> a in refs && b in refs && m[a, b] == Expected(refs, a, b)
    ensures IsGroundtruth(refs, m)
  {
    CoverRange(pre, k);
    forall a, b | 0 <= a < k && 0 <= b < k ensures a in refs && b in refs && m[a, b] == Expected(refs, a, b) {
      assert a in pre && b in pre;
      assert Covered(refs, pre, a, b);
    }
    ExpectedMatrix(refs, m, k);
  }

  /**
   * The ground-truth matrix for the purity map `refs`: square, symmetric,
   * -1 in the row and column of every impure cluster, 1 on the diagonal of
   * every pure one, and for two pure clusters 1 or 0 as their reference
   * clusters agree or not.
   */
  ghost predicate IsGroundtruth(refs: map<int, Option<int>>, m: array2<int>)
    reads m
  {
    && m.Length0 == m.Length1
    && forall a, b :: 0 <= a < m.Length0 && 0 <= b < m.Length1 ==>
      && a in refs && b in refs
      && m[a, b] == m[b, a]
      && (refs[a].None? || refs[b].None? ==> m[a, b] == -1)
      && (refs[a].Some? && refs[b].Some? ==> m[a, b] == if refs[a] == refs[b] then 1 else 0)
      && (refs[a].Some? ==> m[a, a] == 1)
  }

  /** A matrix holding the expected value in every cell is the ground-truth matrix. */
  lemma {:induction false} ExpectedMatrix(refs: map<int, Option<int>>, m: array2<int>, k: nat)
    requires m.Length0 == k && m.Length1 == k
    requires forall a, b :: 0 <= a < k && 0 <= b < k ==>
      a in refs && b in refs && m[a, b] == Expected(refs, a, b)
    ensures IsGroundtruth(refs, m)
  {
  }

  /**
   * `do_compute` between loading the two clusterings and saving the
   * matrix. It fails on the first hypothesis item without a reference
   * cluster, then on a hypothesis id that is not a row of the K x K matrix;
   * otherwise it returns the ground-truth matrix of the purity map.
   */
  method DoCompute(reference: map<int, int>, hyp: map<int, seq<int>>) returns (r: Result<array2<int>, Error>)
    ensures PurityMap(reference, hyp).Failure? ==> r == Failure(PurityMap(reference, hyp).error)
    ensures PurityMap(reference, hyp).Success? ==>
      (r.Failure? <==> exists c :: c in hyp && !(0 <= c < |hyp|))
    ensures r.Failure? && PurityMap(reference, hyp).Success? ==> r.error == IndexOutOfRange
    ensures r.Success? ==>
      PurityMap(reference, hyp).Success? && fresh(r.value) && r.value.Length0 == |hyp| && r.value.Length1 == |hyp|
    ensures r.Success? ==> IsGroundtruth(PurityMap(reference, hyp).value, r.value)
  {
    var pre := SortedKeys(hyp.Keys);
    SortedIds(hyp, pre);
    var refs := ReferenceClusters(reference, hyp, pre);
    if refs.Failure? {
      return Failure(refs.error);
    }
    assert forall c :: c in refs.value <==> c in pre;
    r := Fill(refs.value, pre, |hyp|);
  }

  /** The sorted hypothesis ids: each id once, and an id out of range among them iff among the hypothesis ids. */
  lemma {:induction false} SortedIds(hyp: map<int, seq<int>>, pre: seq<int>)
    requires pre == Ascending(hyp.Keys)
    ensures NoDup(pre) && |pre| == |hyp|
    ensures forall c :: c in pre <==> c in hyp
    ensures (exists i :: 0 <= i < |pre| && !(0 <= pre[i] < |hyp|)) <==> (exists c :: c in hyp && !(0 <= c < |hyp|))
  {
    assert NoDup(pre);
    assert |hyp.Keys| == |hyp|;
    if exists i :: 0 <= i < |pre| && !(0 <= pre[i] < |hyp|) {
      var i :| 0 <= i < |pre| && !(0 <= pre[i] < |hyp|);
      assert pre[i] in pre;
    }
    if exists c :: c in hyp && !(0 <= c < |hyp|) {
      var c :| c in hyp && !(0 <= c < |hyp|);
      assert c in pre;
      var i :| 0 <= i < |pre| && pre[i] == c;
    }
  }
}
