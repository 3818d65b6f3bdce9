/**
 * Sequence and dictionary helpers shared by the clustering modules: Python's
 * `list.remove`, `dict.setdefault(k, [])`, and the key order of a dictionary
 * filled from a sequence (first occurrence wins).
 */
module Seqs {

  /** No element occurs twice. */
  ghost predicate NoDup<T>(s: seq<T>) {
    forall i, j :: 0 <= i < j < |s| ==> s[i] != s[j]
  }

  /** `list.remove(x)`: the first occurrence of `x` is dropped, nothing else. */
  function RemoveFirst<T(==)>(s: seq<T>, x: T): (r: seq<T>)
    ensures x !in s ==> r == s
    ensures x in s ==> |r| == |s| - 1 && multiset(r) == multiset(s) - multiset{x}
  {
    if s == [] then []
    else if s[0] == x then
      assert s == [s[0]] + s[1..];
      s[1..]
    else
      assert s == [s[0]] + s[1..];
      [s[0]] + RemoveFirst(s[1..], x)
  }

  /**
   * `list.remove(x)` drops exactly the first occurrence of `x`: the elements
   * before it and the elements after it stay, in their order.
   */
  lemma {:induction false} RemoveFirstSplice<T>(s: seq<T>, x: T)
    requires x in s
    ensures RemoveFirst(s, x) == s[..IndexOf(s, x)] + s[IndexOf(s, x) + 1..]
  {
    if s[0] != x {
      assert s == [s[0]] + s[1..];
      RemoveFirstSplice(s[1..], x);
      ConsSplice(s, IndexOf(s[1..], x));
    }
  }

  /** Dropping position `i + 1` of `s` is keeping `s[0]` and dropping position `i` of the rest. */
  lemma {:induction false} ConsSplice<T>(s: seq<T>, i: nat)
    requires i + 1 < |s|
    ensures [s[0]] + (s[1..][..i] + s[1..][i + 1..]) == s[..i + 1] + s[i + 2..]
  {
    assert s[..i + 1] == [s[0]] + s[1..][..i];
    assert s[i + 2..] == s[1..][i + 1..];
  }

  /** On a list without repetitions, `remove(x)` leaves exactly the other elements. */
  lemma {:induction false} RemoveFirstNoDup<T>(s: seq<T>, x: T)
    requires NoDup(s)
    ensures NoDup(RemoveFirst(s, x))
    ensures forall y :: y in RemoveFirst(s, x) <==> y in s && y != x
  {
    if s != [] {
      assert s == [s[0]] + s[1..];
      assert NoDup(s[1..]) by {
        forall i, j | 0 <= i < j < |s[1..]| ensures s[1..][i] != s[1..][j] {
          assert s[1..][i] == s[i + 1] && s[1..][j] == s[j + 1];
        }
      }
      assert s[0] !in s[1..] by {
        forall j | 0 <= j < |s[1..]| ensures s[1..][j] != s[0] {
          assert s[1..][j] == s[j + 1];
        }
      }
      if s[0] != x {
        RemoveFirstNoDup(s[1..], x);
        var r := RemoveFirst(s[1..], x);
        assert RemoveFirst(s, x) == [s[0]] + r;
        forall i, j | 0 <= i < j < |[s[0]] + r| ensures ([s[0]] + r)[i] != ([s[0]] + r)[j] {
          if i > 0 {
            assert ([s[0]] + r)[i] == r[i - 1] && ([s[0]] + r)[j] == r[j - 1];
          } else {
            assert ([s[0]] + r)[j] == r[j - 1];
            assert r[j - 1] in r;
          }
        }
      }
    }
  }

  /** Appending a new element keeps a sequence free of repetitions. */
  lemma {:induction false} NoDupSnoc<T>(s: seq<T>, x: T)
    requires NoDup(s) && x !in s
    ensures NoDup(s + [x])
  {
    forall i, j | 0 <= i < j < |s + [x]| ensures (s + [x])[i] != (s + [x])[j] {
      assert (s + [x])[i] == s[i];
      if j == |s| {
        assert s[i] in s;
      }
    }
  }

  /** Two repetition-free sequences with no element in common concatenate to one. */
  lemma {:induction false} NoDupConcat<T>(s: seq<T>, t: seq<T>)
    requires NoDup(s) && NoDup(t)
    requires forall x :: x in s ==> x !in t
    ensures NoDup(s + t)
  {
    forall i, j | 0 <= i < j < |s + t| ensures (s + t)[i] != (s + t)[j] {
      if j < |s| {
        assert (s + t)[i] == s[i] && (s + t)[j] == s[j];
      } else if i < |s| {
        assert (s + t)[i] == s[i] && s[i] in s;
        assert (s + t)[j] == t[j - |s|] && t[j - |s|] in t;
      } else {
        assert (s + t)[i] == t[i - |s|] && (s + t)[j] == t[j - |s|];
      }
    }
  }

  /** `dict.setdefault(k, [])` read: the list at `k`, or the empty list. */
  function SetDefault<K, V>(m: map<K, seq<V>>, k: K): seq<V> {
    if k in m then m[k] else []
  }

  /** Every list of `m` is free of repetitions and holds elements of `all` only. */
  ghost predicate ListsWithin<K(!new), V>(m: map<K, seq<V>>, all: set<V>) {
    forall k :: NoDup(SetDefault(m, k)) && forall x :: x in SetDefault(m, k) ==> x in all
  }

  /** Every element of `all` is in some list of `m`. */
  ghost predicate Covers<K(!new), V>(m: map<K, seq<V>>, all: set<V>) {
    forall x :: x in all ==> exists k :: x in SetDefault(m, k)
  }

  /** No element is in the lists of two different keys of `m`. */
  ghost predicate Exclusive<K(!new), V>(m: map<K, seq<V>>) {
    forall k, l, x :: x in SetDefault(m, k) && x in SetDefault(m, l) ==> k == l
  }

  /**
   * The lists of `m` split `all`: each element of `all` is in exactly one
   * list, exactly once, and the lists hold nothing else.
   */
  ghost predicate Partition<K(!new), V>(m: map<K, seq<V>>, all: set<V>) {
    ListsWithin(m, all) && Covers(m, all) && Exclusive(m)
  }

  /** Position of the first occurrence of `x`. */
  function IndexOf<T(==)>(s: seq<T>, x: T): (i: nat)
    requires x in s
    ensures i < |s| && s[i] == x && x !in s[..i]
  {
    if s[0] == x then 0
    else
      var i := 1 + IndexOf(s[1..], x);
      assert s[..i] == [s[0]] + s[1..][..i - 1];
      i
  }

  /**
   * The distinct elements of `s` in order of first occurrence: the key order
   * of a dictionary whose keys are inserted in the order of `s`.
   */
  function Dedup<T(==,!new)>(s: seq<T>): (r: seq<T>)
    ensures NoDup(r)
    ensures forall x :: x in r <==> x in s
  {
    if s == [] then []
    else
      var p := Dedup(s[..|s| - 1]);
      assert s == s[..|s| - 1] + [s[|s| - 1]];
      if s[|s| - 1] in p then p else p + [s[|s| - 1]]
  }

  /** Appending one element extends the first-occurrence order by it iff it is new. */
  lemma {:induction false} DedupSnoc<T(!new)>(s: seq<T>, x: T)
    ensures Dedup(s + [x]) == if x in s then Dedup(s) else Dedup(s) + [x]
  {
    assert (s + [x])[..|s|] == s;
  }

  /** A sequence without repetitions has as many elements as its set. */
  lemma {:induction false} NoDupCard<T>(s: seq<T>)
    requires NoDup(s)
    ensures |(set x | x in s)| == |s|
  {
    if s != [] {
      var t := s[..|s| - 1];
      assert s == t + [s[|s| - 1]];
      assert NoDup(t);
      NoDupCard(t);
      assert s[|s| - 1] !in t by {
        forall i | 0 <= i < |t| ensures t[i] != s[|s| - 1] {
          assert t[i] == s[i];
        }
      }
      assert (set x | x in s) == (set x | x in t) + {s[|s| - 1]};
    }
  }

  /** The first-occurrence order lists each distinct element exactly once. */
  lemma {:induction false} DedupCard<T(!new)>(s: seq<T>)
    ensures |Dedup(s)| == |(set x | x in s)|
  {
    NoDupCard(Dedup(s));
    assert (set x | x in Dedup(s)) == (set x | x in s);
  }

  /** First occurrences in a longer sequence are those of the prefix, for elements of the prefix. */
  lemma {:induction false} IndexOfPrefix<T>(s: seq<T>, t: seq<T>, x: T)
    requires x in s
    ensures x in s + t && IndexOf(s + t, x) == IndexOf(s, x)
  {
    var i := IndexOf(s, x);
    var j := IndexOf(s + t, x);
    assert (s + t)[i] == x;
  }

  /** In a list without repeats, the position of an element is where it stands. */
  lemma {:induction false} IndexOfNoDup<T>(s: seq<T>, g: nat)
    requires NoDup(s) && g < |s|
    ensures IndexOf(s, s[g]) == g
  {
  }

  /**
   * `Dedup` keeps the order of first occurrence: an element listed earlier
   * was first seen earlier.
   */
  lemma {:induction false} DedupFirstSeenOrder<T(!new)>(s: seq<T>, i: nat, j: nat)
    requires i < j < |Dedup(s)|
    ensures Dedup(s)[i] in s && Dedup(s)[j] in s
    ensures IndexOf(s, Dedup(s)[i]) < IndexOf(s, Dedup(s)[j])
  {
    assert Dedup(s)[i] in Dedup(s) && Dedup(s)[j] in Dedup(s);
    var t := s[..|s| - 1];
    var x := s[|s| - 1];
    assert s == t + [x];
    var p := Dedup(t);
    assert Dedup(s) == if x in p then p else p + [x];
    assert p[i] in p;
    IndexOfPrefix(t, [x], p[i]);
    if j < |p| {
      assert p[j] in p;
      IndexOfPrefix(t, [x], p[j]);
      DedupFirstSeenOrder(t, i, j);
    } else {
      assert x !in t && Dedup(s)[j] == x;
      assert IndexOf(s, x) == |t| by {
        assert s[|t|] == x;
      }
    }
  }

  /** The keys of `keys` whose value in `init` is `c`, in order. */
  function Members<K(==), V(==)>(init: map<K, V>, keys: seq<K>, c: V): seq<K>
    requires forall k :: k in keys ==> k in init
  {
    if keys == [] then []
    else
      var last := keys[|keys| - 1];
      Members(init, keys[..|keys| - 1], c) + (if init[last] == c then [last] else [])
  }

  /** A member of a filtered list is a key with that value. */
  lemma {:induction false} MembersIn<K, V>(init: map<K, V>, keys: seq<K>, c: V)
    requires forall k :: k in keys ==> k in init
    ensures forall m :: m in Members(init, keys, c) <==> m in keys && init[m] == c
  {
    if keys != [] {
      MembersIn(init, keys[..|keys| - 1], c);
      assert keys == keys[..|keys| - 1] + [keys[|keys| - 1]];
    }
  }

  lemma {:induction false} MembersNoDup<K, V>(init: map<K, V>, keys: seq<K>, c: V)
    requires NoDup(keys) && forall k :: k in keys ==> k in init
    ensures NoDup(Members(init, keys, c))
  {
    if keys != [] {
      var t := keys[..|keys| - 1];
      assert NoDup(t);
      MembersNoDup(init, t, c);
      MembersIn(init, t, c);
      var last := keys[|keys| - 1];
      assert last !in t by {
        forall i | 0 <= i < |t| ensures t[i] != last {
          assert t[i] == keys[i];
        }
      }
      if init[last] == c {
        NoDupSnoc(Members(init, t, c), last);
      }
    }
  }

  /**
   * `for k, v in labels.iteritems(): groups.setdefault(v, []).append(k)`,
   * with `keys` the iteration order of `labels`: each label gets the list of
   * its keys, in order, and no label gets an empty list.
   */
  method Gather<K(==), V(==)>(tags: map<K, V>, keys: seq<K>) returns (groups: map<V, seq<K>>)
    requires forall k :: k in keys ==> k in tags
    ensures forall c :: SetDefault(groups, c) == Members(tags, keys, c)
    ensures forall c :: c in groups ==> groups[c] != []
  {
    groups := map[];
    for j := 0 to |keys|
      invariant forall c :: SetDefault(groups, c) == Members(tags, keys[..j], c)
      invariant forall c :: c in groups ==> groups[c] != []
    {
      var k := keys[j];
      var v := tags[k];
      assert keys[..j + 1] == keys[..j] + [k];
      groups := groups[v := SetDefault(groups, v) + [k]];
    }
    assert keys[..|keys|] == keys;
  }

  /**
   * A dictionary whose every list is the filtered list of its key (and that
   * holds no empty list) has exactly the values in use as its keys.
   */
  lemma {:induction false} GroupedDomain<K, V>(tags: map<K, V>, keys: seq<K>, groups: map<V, seq<K>>)
    requires forall k :: k in keys ==> k in tags
    requires forall c :: SetDefault(groups, c) == Members(tags, keys, c)
    requires forall c :: c in groups ==> groups[c] != []
    ensures forall c :: c in groups <==> exists j :: 0 <= j < |keys| && tags[keys[j]] == c
  {
    forall c ensures c in groups <==> exists j :: 0 <= j < |keys| && tags[keys[j]] == c {
      MembersIn(tags, keys, c);
      if c in groups {
        var m := groups[c][0];
        assert m in Members(tags, keys, c);
        var j := IndexOf(keys, m);
        assert tags[keys[j]] == c;
      }
      if j :| 0 <= j < |keys| && tags[keys[j]] == c {
        assert keys[j] in Members(tags, keys, c);
      }
    }
  }

  /** The integers 0 .. n-1. */
  function Range(n: nat): (r: set<int>)
    ensures forall i :: i in r <==> 0 <= i < n
    ensures |r| == n
  {
    if n == 0 then {} else Range(n - 1) + {n - 1}
  }
}
