/**
 * The pairwise matrices over a photo list (`computeUserMatrix`,
 * `computeDateTakenMatrix`): for every pair of positions `i < j`, in the
 * order `itertools.combinations` yields them, the two photos are looked up;
 * the first pair with an unknown photo makes the whole result `None`.
 * Otherwise the user matrix holds 1 where the owners agree and the date
 * matrix the absolute difference of the dates taken.
 */
module PairMatrices {
  import opened Wrappers
  import opened Photos
  import opened UserGrouping

  /** The pair `a < b` comes before the pair `(i, j)` in combinations order. */
  predicate Before(a: int, b: int, i: int, j: int) {
    a < i || (a == i && b < j)
  }

  function Min(a: int, b: int): int {
    if a < b then a else b
  }

  function Max(a: int, b: int): int {
    if a < b then b else a
  }

  /** Both photos of the pair at positions `a` and `b` have a record. */
  predicate PairKnown(d: Metadata, imgs: seq<int>, a: int, b: int)
    requires 0 <= a < |imgs| && 0 <= b < |imgs|
  {
    imgs[a] in d && imgs[b] in d
  }

  /** Every pair visited before `(i, j)` has both photos known. */
  ghost predicate Checked(d: Metadata, imgs: seq<int>, i: int, j: int) {
    forall a, b :: 0 <= a < b < |imgs| && Before(a, b, i, j) ==> PairKnown(d, imgs, a, b)
  }

  /** The result is `None` exactly when some pair has an unknown photo: never for fewer than two photos. */
  predicate Fails(d: Metadata, imgs: seq<int>) {
    |imgs| >= 2 && !AllKnown(d, imgs)
  }

  /** Once every pair was visited, two or more photos are all known. */
  lemma {:induction false} CheckedAll(d: Metadata, imgs: seq<int>)
    requires Checked(d, imgs, |imgs|, |imgs| + 1)
    ensures !Fails(d, imgs)
  {
    if |imgs| >= 2 {
      forall a | 0 <= a < |imgs| ensures imgs[a] in d {
        if a == 0 {
          assert Before(0, 1, |imgs|, |imgs| + 1);
        } else {
          assert Before(0, a, |imgs|, |imgs| + 1);
        }
      }
    }
  }

  // ----- computeUserMatrix -----

  /** `matrix[a][b]` of the user matrix, as filled up to the pair `(i, j)`. */
  ghost function UserFilled(d: Metadata, imgs: seq<int>, i: int, j: int, a: int, b: int): int
    requires 0 <= a < |imgs| && 0 <= b < |imgs| && Checked(d, imgs, i, j)
  {
    if a == b then 1
    else if Before(Min(a, b), Max(a, b), i, j) && d[imgs[a]].username == d[imgs[b]].username then 1
    else 0
  }

  /**
   * The user matrix: 1 on the diagonal, and off it 1 exactly when the two
   * photos have the same owner and 0 otherwise; hence symmetric, and
   * "same entry 1" is an equivalence on positions.
   */
  ghost predicate IsUserMatrix(d: Metadata, imgs: seq<int>, m: array2<int>)
    reads m
  {
    && m.Length0 == |imgs| && m.Length1 == |imgs|
    && (forall a :: 0 <= a < |imgs| ==> m[a, a] == 1)
    && (forall a, b :: 0 <= a < |imgs| && 0 <= b < |imgs| && a != b ==>
          && imgs[a] in d && imgs[b] in d
          && m[a, b] == m[b, a]
          && (m[a, b] == 1 <==> d[imgs[a]].username == d[imgs[b]].username)
          && (m[a, b] == 0 <==> d[imgs[a]].username != d[imgs[b]].username))
  }

  /** One row of the combinations loop: the pairs `(i, j)` for `j > i`. */
  method UserRow(d: Metadata, imgs: seq<int>, m: array2<int>, i: int) returns (ok: bool)
    requires 0 <= i < |imgs| && m.Length0 == |imgs| && m.Length1 == |imgs|
    requires Checked(d, imgs, i, i + 1)
    requires forall a, b :: 0 <= a < |imgs| && 0 <= b < |imgs| ==> m[a, b] == UserFilled(d, imgs, i, i + 1, a, b)
    modifies m
    ensures ok <==> Checked(d, imgs, i + 1, i + 2)
    ensures ok ==> forall a, b :: 0 <= a < |imgs| && 0 <= b < |imgs| ==> m[a, b] == UserFilled(d, imgs, i + 1, i + 2, a, b)
  {
    for j := i + 1 to |imgs|
      invariant Checked(d, imgs, i, j)
      invariant forall a, b :: 0 <= a < |imgs| && 0 <= b < |imgs| ==> m[a, b] == UserFilled(d, imgs, i, j, a, b)
    {
      if imgs[i] in d && imgs[j] in d {
        if d[imgs[i]].username == d[imgs[j]].username {
          m[i, j] := 1;
          m[j, i] := 1;
        }
      } else {
        assert Before(i, j, i + 1, i + 2);
        return false;
      }
    }
    assert Checked(d, imgs, i, |imgs|);
    forall a, b | 0 <= a < b < |imgs| && Before(a, b, i + 1, i + 2) ensures PairKnown(d, imgs, a, b) {
      assert Before(a, b, i, |imgs|);
    }
    forall a, b | 0 <= a < |imgs| && 0 <= b < |imgs| ensures m[a, b] == UserFilled(d, imgs, i + 1, i + 2, a, b) {
      assert a != b ==> (Before(Min(a, b), Max(a, b), i, |imgs|) <==> Before(Min(a, b), Max(a, b), i + 1, i + 2));
    }
    return true;
  }

  /**
   * `computeUserMatrix` over the photo list already read: `None` when a pair
   * involves a photo without a record, else the user matrix.
   */
  method UserMatrix(d: Metadata, imgs: seq<int>) returns (r: Option<array2<int>>)
    ensures r.None? <==> Fails(d, imgs)
    ensures r.Some? ==> fresh(r.value) && IsUserMatrix(d, imgs, r.value)
  {
    var n := |imgs|;
    var m := new int[n, n]((a, b) => if a == b then 1 else 0);
    for i := 0 to n
      invariant Checked(d, imgs, i, i + 1)
      invariant forall a, b :: 0 <= a < n && 0 <= b < n ==> m[a, b] == UserFilled(d, imgs, i, i + 1, a, b)
    {
      var ok := UserRow(d, imgs, m, i);
      if !ok {
        return None;
      }
    }
    CheckedAll(d, imgs);
    return Some(m);
  }

  /**
   * The user matrix and the owner groups of `clusterUser` agree: a row of
   * the matrix holds 1 exactly at the photos of the group of that row's
   * photo.
   */
  lemma {:induction false} UserMatrixMatchesGroups(d: Metadata, imgs: seq<int>, m: array2<int>, a: int, b: int, g: int)
    requires IsUserMatrix(d, imgs, m) && AllKnown(d, imgs)
    requires 0 <= a < |imgs| && 0 <= b < |imgs|
    requires g in UserGroups(d, imgs) && imgs[a] in UserGroups(d, imgs)[g]
    ensures m[a, b] == 1 <==> imgs[b] in UserGroups(d, imgs)[g]
  {
    if a != b {
      SameGroupIffSameOwner(d, imgs, g, imgs[a], imgs[b]);
    }
  }

  // ----- computeDateTakenMatrix -----

  /**
   * `abs` of a difference of whole seconds; the date splitting has its own
   * `Abs` on reals, since its representatives are not whole seconds.
   */
  function AbsInt(x: int): nat {
    if x < 0 then -x else x
  }

  /** `matrix[a][b]` of the date matrix, as filled up to the pair `(i, j)`. */
  ghost function DateFilled(d: Metadata, imgs: seq<int>, i: int, j: int, a: int, b: int): int
    requires 0 <= a < |imgs| && 0 <= b < |imgs| && Checked(d, imgs, i, j)
  {
    if a != b && Before(Min(a, b), Max(a, b), i, j) then AbsInt(d[imgs[b]].taken - d[imgs[a]].taken)
    else 0
  }

  /**
   * The date matrix: 0 on the diagonal, and off it the absolute difference
   * in seconds of the two dates taken; hence symmetric and non-negative.
   */
  ghost predicate IsDateMatrix(d: Metadata, imgs: seq<int>, m: array2<int>)
    reads m
  {
    && m.Length0 == |imgs| && m.Length1 == |imgs|
    && (forall a :: 0 <= a < |imgs| ==> m[a, a] == 0)
    && (forall a, b :: 0 <= a < |imgs| && 0 <= b < |imgs| && a != b ==>
          && imgs[a] in d && imgs[b] in d
          && m[a, b] == m[b, a] >= 0
          && (m[a, b] == d[imgs[b]].taken - d[imgs[a]].taken || m[a, b] == d[imgs[a]].taken - d[imgs[b]].taken))
  }

  /** One row of the combinations loop: the pairs `(i, j)` for `j > i`. */
  method DateRow(d: Metadata, imgs: seq<int>, m: array2<int>, i: int) returns (ok: bool)
    requires 0 <= i < |imgs| && m.Length0 == |imgs| && m.Length1 == |imgs|
    requires Checked(d, imgs, i, i + 1)
    requires forall a, b :: 0 <= a < |imgs| && 0 <= b < |imgs| ==> m[a, b] == DateFilled(d, imgs, i, i + 1, a, b)
    modifies m
    ensures ok <==> Checked(d, imgs, i + 1, i + 2)
    ensures ok ==> forall a, b :: 0 <= a < |imgs| && 0 <= b < |imgs| ==> m[a, b] == DateFilled(d, imgs, i + 1, i + 2, a, b)
  {
    for j := i + 1 to |imgs|
      invariant Checked(d, imgs, i, j)
      invariant forall a, b :: 0 <= a < |imgs| && 0 <= b < |imgs| ==> m[a, b] == DateFilled(d, imgs, i, j, a, b)
    {
      if imgs[i] in d && imgs[j] in d {
        var diff := d[imgs[j]].taken - d[imgs[i]].taken;
        m[i, j] := AbsInt(diff);
        m[j, i] := AbsInt(diff);
      } else {
        assert Before(i, j, i + 1, i + 2);
        return false;
      }
    }
    assert Checked(d, imgs, i, |imgs|);
    forall a, b | 0 <= a < b < |imgs| && Before(a, b, i + 1, i + 2) ensures PairKnown(d, imgs, a, b) {
      assert Before(a, b, i, |imgs|);
    }
    forall a, b | 0 <= a < |imgs| && 0 <= b < |imgs| ensures m[a, b] == DateFilled(d, imgs, i + 1, i + 2, a, b) {
      assert a != b ==> (Before(Min(a, b), Max(a, b), i, |imgs|) <==> Before(Min(a, b), Max(a, b), i + 1, i + 2));
    }
    return true;
  }

  /**
   * `computeDateTakenMatrix` over the photo list already read: `None` when
   * a pair involves a photo without a record, else the date matrix.
   */
  method DateMatrix(d: Metadata, imgs: seq<int>) returns (r: Option<array2<int>>)
    ensures r.None? <==> Fails(d, imgs)
    ensures r.Some? ==> fresh(r.value) && IsDateMatrix(d, imgs, r.value)
  {
    var n := |imgs|;
    var m := new int[n, n]((a, b) => 0);
    for i := 0 to n
      invariant Checked(d, imgs, i, i + 1)
      invariant forall a, b :: 0 <= a < n && 0 <= b < n ==> m[a, b] == DateFilled(d, imgs, i, i + 1, a, b)
    {
      var ok := DateRow(d, imgs, m, i);
      if !ok {
        return None;
      }
    }
    CheckedAll(d, imgs);
    return Some(m);
  }
}
