/**
 * A clustering result: a dictionary from item id to cluster id that also keeps
 * the reverse index (cluster id -> ordered member list) in step with it.
 *
 * The state is described as a value (`Index`) with one specification function
 * per mutating operation; the class `Clustering` holds the same three parts as
 * fields and its methods are proved to perform exactly those transitions.
 * Dictionary iteration order is modelled as insertion order (`order`): a key
 * that is re-assigned is deleted first, so it moves to the end.
 */
module Clusterings {
  import opened Wrappers
  import opened Seqs
  import opened TextFormat

  datatype Index = Index(forward: map<int, int>, order: seq<int>, clusters: map<int, seq<int>>)

  /** `Clustering()`: no item, no cluster. */
  const Empty := Index(map[], [], map[])

  datatype Error =
    | UnknownItem(item: int)   // KeyError: the item has no cluster
    | MalformedLine(line: nat) // ValueError: the line is not two integer tokens

  function Last(s: seq<int>): int
    requires s != []
  {
    s[|s| - 1]
  }

  /**
   * The two directions agree: every item sits in the member list of its
   * cluster, every member of a list has that list's cluster, lists are never
   * empty and never repeat an item, and `order` lists each item once.
   */
  ghost predicate Consistent(ix: Index) {
    && NoDup(ix.order)
    && (forall k :: k in ix.forward <==> k in ix.order)
    && (forall i :: 0 <= i < |ix.order| ==> ix.order[i] in ix.forward)
    && (forall k :: k in ix.forward ==> ix.forward[k] in ix.clusters && k in ix.clusters[ix.forward[k]])
    && (forall c :: c in ix.clusters ==> ix.clusters[c] != [] && NoDup(ix.clusters[c]))
    && (forall c, m :: c in ix.clusters && m in ix.clusters[c] ==> m in ix.forward && ix.forward[m] == c)
  }

  /**
   * `del c[key]`: the key leaves its member list, the list is dropped when it
   * becomes empty, and the key leaves the dictionary.
   */
  function Deleted(ix: Index, key: int): (r: Index)
    requires key in ix.forward
    ensures key !in r.forward && r.forward == ix.forward - {key}
  {
    var c := ix.forward[key];
    var rest := RemoveFirst(SetDefault(ix.clusters, c), key);
    Index(ix.forward - {key}, RemoveFirst(ix.order, key),
          if rest == [] then ix.clusters - {c} else ix.clusters[c := rest])
  }

  /**
   * `del c[key]` (on a key listed in its cluster and in `order`, as in a
   * consistent index) changes only the key's own list, which loses exactly the
   * key and keeps the order of the other members (an emptied list reads as
   * absent); every other list stays as it was, and the key leaves `order`
   * with the other keys kept in order.
   */
  lemma {:induction false} DeletedFrame(ix: Index, key: int)
    requires key in ix.forward && ix.forward[key] in ix.clusters
    requires key in ix.clusters[ix.forward[key]] && key in ix.order
    ensures var c := ix.forward[key];
      var members := ix.clusters[c];
      var r := Deleted(ix, key);
      && SetDefault(r.clusters, c) == members[..IndexOf(members, key)] + members[IndexOf(members, key) + 1..]
      && (forall d :: d != c ==> SetDefault(r.clusters, d) == SetDefault(ix.clusters, d))
      && r.order == ix.order[..IndexOf(ix.order, key)] + ix.order[IndexOf(ix.order, key) + 1..]
  {
    var c := ix.forward[key];
    RemoveFirstSplice(ix.clusters[c], key);
    RemoveFirstSplice(ix.order, key);
  }

  /**
   * `c[key] = value`: an existing key is deleted first; then the key is
   * (re)inserted and appended to the member list of `value`.
   */
  function Assigned(ix: Index, key: int, value: int): (r: Index)
    ensures key in r.forward && r.forward[key] == value
    ensures value in r.clusters && r.clusters[value] != [] && Last(r.clusters[value]) == key
    ensures r.forward == ix.forward[key := value]
  {
    var base := if key in ix.forward then Deleted(ix, key) else ix;
    Index(base.forward[key := value], base.order + [key],
          base.clusters[value := SetDefault(base.clusters, value) + [key]])
  }

  /** Assigning the pairs one after the other, as `load` does. */
  function Replay(ix: Index, pairs: seq<(int, int)>): Index {
    if pairs == [] then ix
    else Assigned(Replay(ix, pairs[..|pairs| - 1]), pairs[|pairs| - 1].0, pairs[|pairs| - 1].1)
  }

  /** The dictionary after the pairs were stored into `m` in order; a later pair wins. */
  function Stored(m: map<int, int>, pairs: seq<(int, int)>): map<int, int> {
    if pairs == [] then m
    else Stored(m, pairs[..|pairs| - 1])[pairs[|pairs| - 1].0 := pairs[|pairs| - 1].1]
  }

  lemma {:induction false} DeletedConsistent(ix: Index, key: int)
    requires Consistent(ix) && key in ix.forward
    ensures Consistent(Deleted(ix, key))
  {
    DeletedOrder(ix, key);
    DeletedLists(ix, key);
  }

  /** After `del c[key]`, `order` lists exactly the remaining keys, once each. */
  lemma {:induction false} DeletedOrder(ix: Index, key: int)
    requires Consistent(ix) && key in ix.forward
    ensures var r := Deleted(ix, key);
      && NoDup(r.order)
      && (forall k :: k in r.forward <==> k in r.order)
      && (forall i :: 0 <= i < |r.order| ==> r.order[i] in r.forward)
  {
    var r := Deleted(ix, key);
    RemoveFirstNoDup(ix.order, key);
    assert r.order == RemoveFirst(ix.order, key);
    forall i | 0 <= i < |r.order| ensures r.order[i] in r.forward {
      assert r.order[i] in r.order;
    }
  }

  /** After `del c[key]`, the member lists and the dictionary still agree. */
  lemma {:induction false} DeletedLists(ix: Index, key: int)
    requires Consistent(ix) && key in ix.forward
    ensures var r := Deleted(ix, key);
      && (forall k :: k in r.forward ==> r.forward[k] in r.clusters && k in r.clusters[r.forward[k]])
      && (forall c :: c in r.clusters ==> r.clusters[c] != [] && NoDup(r.clusters[c]))
      && (forall c, m :: c in r.clusters && m in r.clusters[c] ==> m in r.forward && r.forward[m] == c)
  {
    var c := ix.forward[key];
    var rest := RemoveFirst(ix.clusters[c], key);
    RemoveFirstNoDup(ix.clusters[c], key);
    var clusters := if rest == [] then ix.clusters - {c} else ix.clusters[c := rest];
    assert Deleted(ix, key) == Index(ix.forward - {key}, RemoveFirst(ix.order, key), clusters);
    forall k | k in ix.forward && k != key ensures ix.forward[k] in clusters && k in clusters[ix.forward[k]] {
      assert k in ix.clusters[ix.forward[k]];
      if ix.forward[k] == c {
        assert k in rest;
      }
    }
    forall d, m | d in clusters && m in clusters[d] ensures m in ix.forward && m != key && ix.forward[m] == d {
      if d == c {
        assert m in ix.clusters[c];
      } else {
        assert m in ix.clusters[d];
      }
    }
  }

  /** Inserting a key that has no cluster yet keeps the index consistent. */
  lemma {:induction false} InsertedConsistent(ix: Index, key: int, value: int)
    requires Consistent(ix) && key !in ix.forward
    ensures Consistent(Index(ix.forward[key := value], ix.order + [key],
                             ix.clusters[value := SetDefault(ix.clusters, value) + [key]]))
  {
    var members := SetDefault(ix.clusters, value);
    var r := Index(ix.forward[key := value], ix.order + [key], ix.clusters[value := members + [key]]);
    NoDupSnoc(ix.order, key);
    assert key !in members;
    assert members != [] ==> NoDup(members);
    NoDupSnoc(members, key);
    forall k | k in r.forward ensures r.forward[k] in r.clusters && k in r.clusters[r.forward[k]] {
      if k != key {
        assert k in ix.clusters[ix.forward[k]];
      }
    }
    forall c, m | c in r.clusters && m in r.clusters[c] ensures m in r.forward && r.forward[m] == c {
      if c == value {
        assert m in members || m == key;
      }
    }
  }

  /** Every assignment keeps the two directions consistent. */
  lemma {:induction false} AssignedConsistent(ix: Index, key: int, value: int)
    requires Consistent(ix)
    ensures Consistent(Assigned(ix, key, value))
  {
    if key in ix.forward {
      DeletedConsistent(ix, key);
      InsertedConsistent(Deleted(ix, key), key, value);
    } else {
      InsertedConsistent(ix, key, value);
    }
  }

  /**
   * Assigning `key` changes only the entry of `key`, the list it leaves and
   * the list it joins: every other item keeps its cluster, every other list
   * is unchanged, the left list loses exactly `key`, and the joined list
   * gains `key` at its end.
   */
  lemma {:induction false} AssignedFrame(ix: Index, key: int, value: int)
    requires Consistent(ix)
    ensures var r := Assigned(ix, key, value);
      && (forall k :: k != key ==> (k in r.forward <==> k in ix.forward))
      && (forall k :: k != key && k in ix.forward ==> r.forward[k] == ix.forward[k])
      && (forall c :: c != value && (key !in ix.forward || c != ix.forward[key]) ==>
            SetDefault(r.clusters, c) == SetDefault(ix.clusters, c))
      && (key in ix.forward && ix.forward[key] != value ==>
            SetDefault(r.clusters, ix.forward[key]) == RemoveFirst(ix.clusters[ix.forward[key]], key))
      && r.clusters[value] == RemoveFirst(SetDefault(ix.clusters, value), key) + [key]
  {
    if key in ix.forward {
      AssignedFrameMoved(ix, key, value);
    } else {
      assert key !in SetDefault(ix.clusters, value);
      AssignedNew(ix, key, value);
    }
  }

  /** `AssignedFrame` for a key that had a cluster: it is deleted, then inserted. */
  lemma {:induction false} AssignedFrameMoved(ix: Index, key: int, value: int)
    requires Consistent(ix) && key in ix.forward
    ensures var r := Assigned(ix, key, value);
      && (forall c :: c != value && c != ix.forward[key] ==> SetDefault(r.clusters, c) == SetDefault(ix.clusters, c))
      && (ix.forward[key] != value ==>
            SetDefault(r.clusters, ix.forward[key]) == RemoveFirst(ix.clusters[ix.forward[key]], key))
      && r.clusters[value] == RemoveFirst(SetDefault(ix.clusters, value), key) + [key]
  {
    var b := Deleted(ix, key);
    assert Assigned(ix, key, value) == Index(b.forward[key := value], b.order + [key],
      b.clusters[value := SetDefault(b.clusters, value) + [key]]);
    var c := ix.forward[key];
    assert forall d :: d != c ==> SetDefault(b.clusters, d) == SetDefault(ix.clusters, d);
    assert SetDefault(b.clusters, c) == RemoveFirst(ix.clusters[c], key);
    if c != value {
      assert key !in SetDefault(ix.clusters, value);
    }
  }

  /** Each assigned item is in exactly one member list, and in no list once deleted. */
  lemma {:induction false} InExactlyOneList(ix: Index, key: int)
    requires Consistent(ix)
    ensures forall c :: c in ix.clusters ==> (key in ix.clusters[c] <==> key in ix.forward && c == ix.forward[key])
    ensures key in ix.forward ==> NoDup(ix.clusters[ix.forward[key]])
  {
  }

  /** Loading assigns line by line, so a consistent start stays consistent. */
  lemma {:induction false} ReplayConsistent(ix: Index, pairs: seq<(int, int)>)
    requires Consistent(ix)
    ensures Consistent(Replay(ix, pairs))
  {
    if pairs != [] {
      ReplayConsistent(ix, pairs[..|pairs| - 1]);
      AssignedConsistent(Replay(ix, pairs[..|pairs| - 1]), pairs[|pairs| - 1].0, pairs[|pairs| - 1].1);
    }
  }

  /** The dictionary part of a replay depends only on the pairs: a later pair overrides an earlier one. */
  lemma {:induction false} ReplayForward(ix: Index, pairs: seq<(int, int)>)
    ensures Replay(ix, pairs).forward == Stored(ix.forward, pairs)
  {
    if pairs != [] {
      ReplayForward(ix, pairs[..|pairs| - 1]);
    }
  }

  /** The doc-string example: images 1..6 assigned to clusters 0, 0, 1, 1, 2, 2. */
  lemma {:induction false} DocstringExample(ps: seq<(int, int)>)
    requires ps == [(1, 0), (2, 0), (3, 1), (4, 1), (5, 2), (6, 2)]
    ensures var c := Replay(Empty, ps);
      && c.forward == map[1 := 0, 2 := 0, 3 := 1, 4 := 1, 5 := 2, 6 := 2]
      && c.forward[5] == 2
      && 1 in c.clusters && c.clusters[1] == [3, 4]
      && c.forward[6] in c.clusters && c.clusters[c.forward[6]] == [5, 6]
  {
    assert ps[..0] == [] && ps[..6] == ps;
    for n := 1 to 7
      invariant Replay(Empty, ps[..n - 1]) == DocState(n - 1)
    {
      ReplayStep(ps, n);
      DocStep(n);
    }
  }

  /** The doc-string clustering after its first `n` assignments. */
  function DocState(n: nat): Index
    requires n <= 6
  {
    match n
    case 0 => Empty
    case 1 => Index(map[1 := 0], [1], map[0 := [1]])
    case 2 => Index(map[1 := 0, 2 := 0], [1, 2], map[0 := [1, 2]])
    case 3 => Index(map[1 := 0, 2 := 0, 3 := 1], [1, 2, 3], map[0 := [1, 2], 1 := [3]])
    case 4 => Index(map[1 := 0, 2 := 0, 3 := 1, 4 := 1], [1, 2, 3, 4], map[0 := [1, 2], 1 := [3, 4]])
    case 5 => Index(map[1 := 0, 2 := 0, 3 := 1, 4 := 1, 5 := 2], [1, 2, 3, 4, 5],
                    map[0 := [1, 2], 1 := [3, 4], 2 := [5]])
    case _ => Index(map[1 := 0, 2 := 0, 3 := 1, 4 := 1, 5 := 2, 6 := 2], [1, 2, 3, 4, 5, 6],
                    map[0 := [1, 2], 1 := [3, 4], 2 := [5, 6]])
  }

  lemma {:induction false} DocStep(n: nat)
    requires 1 <= n <= 6
    ensures var p := [(1, 0), (2, 0), (3, 1), (4, 1), (5, 2), (6, 2)][n - 1];
      Assigned(DocState(n - 1), p.0, p.1) == DocState(n)
  {
    var a := DocState(n - 1);
    var p := [(1, 0), (2, 0), (3, 1), (4, 1), (5, 2), (6, 2)][n - 1];
    assert p.0 == n && p.0 !in a.forward;
    AssignedNew(a, p.0, p.1);
    if n == 1 {
      assert a.order + [1] == [1];
      assert [] + [1] == [1];
    } else if n == 2 {
      assert a.clusters[0] == [1];
      assert a.order + [2] == [1, 2];
      assert a.clusters[0 := [1, 2]] == map[0 := [1, 2]];
    } else if n == 3 {
      assert 1 !in a.clusters;
      assert a.order + [3] == [1, 2, 3];
      assert [] + [3] == [3];
      assert a.clusters[1 := [3]] == map[0 := [1, 2], 1 := [3]];
    } else if n == 4 {
      assert a.clusters[1] == [3] && [3] + [4] == [3, 4];
      assert a.order + [4] == [1, 2, 3, 4];
      assert a.clusters[1 := [3, 4]] == map[0 := [1, 2], 1 := [3, 4]];
    } else if n == 5 {
      assert 2 !in a.clusters;
      assert a.order + [5] == [1, 2, 3, 4, 5];
      assert [] + [5] == [5];
      assert a.clusters[2 := [5]] == map[0 := [1, 2], 1 := [3, 4], 2 := [5]];
    } else {
      assert a.clusters[2] == [5] && [5] + [6] == [5, 6];
      assert a.order + [6] == [1, 2, 3, 4, 5, 6];
      assert a.clusters[2 := [5, 6]] == map[0 := [1, 2], 1 := [3, 4], 2 := [5, 6]];
    }
  }

  /** Assigning a key that has no cluster yet only inserts it. */
  lemma {:induction false} AssignedNew(ix: Index, key: int, value: int)
    requires key !in ix.forward
    ensures Assigned(ix, key, value) ==
      Index(ix.forward[key := value], ix.order + [key], ix.clusters[value := SetDefault(ix.clusters, value) + [key]])
  {
  }

  /** One more pair is one more assignment. */
  lemma {:induction false} ReplayStep(pairs: seq<(int, int)>, j: nat)
    requires 0 < j <= |pairs|
    ensures Replay(Empty, pairs[..j]) == Assigned(Replay(Empty, pairs[..j - 1]), pairs[j - 1].0, pairs[j - 1].1)
  {
    assert pairs[..j][..j - 1] == pairs[..j - 1];
  }

  // ----- the two-column text form -----

  /** The lines `'%d<sep>%d\n'`, one per pair, in order. */
  function Lines(pairs: seq<(int, int)>, sep: char): (lines: seq<string>)
    ensures |lines| == |pairs|
  {
    seq(|pairs|, i requires 0 <= i < |pairs| => FormatLine(pairs[i].0, sep, pairs[i].1))
  }

  /** `key, value = line.strip().split()` followed by `int(key)`, `int(value)`. */
  function ParseLine(line: string): Option<(int, int)> {
    var tokens := Split(line);
    if |tokens| != 2 then None
    else match (ParseInt(tokens[0]), ParseInt(tokens[1]))
      case (Some(k), Some(v)) => Some((k, v))
      case _ => None
  }

  /** The pairs of a clustering file; the first line that is not two integers stops the load. */
  function ParseLines(lines: seq<string>): Result<seq<(int, int)>, Error> {
    if lines == [] then Success([])
    else match ParseLines(lines[..|lines| - 1])
      case Failure(e) => Failure(e)
      case Success(pairs) =>
        match ParseLine(lines[|lines| - 1])
        case None => Failure(MalformedLine(|lines| - 1))
        case Some(p) => Success(pairs + [p])
  }

  /**
   * `Clustering.load`: parse every line, then assign the pairs in file order.
   * A load that succeeds gives a consistent index whose dictionary holds, for
   * each item, the cluster of its last line; one that fails names the first
   * line that is not two integers.
   */
  function Loaded(lines: seq<string>): (r: Result<Index, Error>)
    ensures r.Success? ==> Consistent(r.value)
    ensures r.Success? ==> ParseLines(lines).Success? && r.value.forward == Stored(map[], ParseLines(lines).value)
    ensures r.Failure? ==>
      && r.error.MalformedLine? && r.error.line < |lines|
      && ParseLine(lines[r.error.line]).None?
      && forall j :: 0 <= j < r.error.line ==> ParseLine(lines[j]).Some?
  {
    match ParseLines(lines)
    case Failure(e) =>
      ParseLinesFirstMalformed(lines);
      Failure(e)
    case Success(pairs) =>
      ReplayConsistent(Empty, pairs);
      ReplayForward(Empty, pairs);
      Success(Replay(Empty, pairs))
  }

  /** A file that fails to parse fails at its first line that is not two integers. */
  lemma {:induction false} ParseLinesFirstMalformed(lines: seq<string>)
    requires ParseLines(lines).Failure?
    ensures var e := ParseLines(lines).error;
      && e.MalformedLine? && e.line < |lines| && ParseLine(lines[e.line]).None?
      && forall j :: 0 <= j < e.line ==> ParseLine(lines[j]).Some?
  {
    var n := |lines| - 1;
    var front := lines[..n];
    assert forall j :: 0 <= j < n ==> front[j] == lines[j];
    if ParseLines(front).Failure? {
      ParseLinesFirstMalformed(front);
    } else {
      ParseLinesAllWell(front);
    }
  }

  /** Every line of a file that parses is two integers. */
  lemma {:induction false} ParseLinesAllWell(lines: seq<string>)
    requires ParseLines(lines).Success?
    ensures forall j :: 0 <= j < |lines| ==> ParseLine(lines[j]).Some?
  {
    if lines != [] {
      var n := |lines| - 1;
      ParseLinesAllWell(lines[..n]);
      assert forall j :: 0 <= j < n ==> lines[..n][j] == lines[j];
    }
  }

  /** Reading back lines written with a whitespace separator yields the pairs written. */
  lemma {:induction false} ParseLinesOfLines(pairs: seq<(int, int)>, sep: char)
    requires IsSpace(sep)
    ensures ParseLines(Lines(pairs, sep)) == Success(pairs)
  {
    var lines := Lines(pairs, sep);
    forall i | 0 <= i < |lines| ensures ParseLine(lines[i]) == Some(pairs[i]) {
      ParseLineOfFormat(pairs[i].0, sep, pairs[i].1);
    }
    ParseAll(lines, pairs);
  }

  /** Lines that each parse to their pair parse, together, to all the pairs in order. */
  lemma {:induction false} ParseAll(lines: seq<string>, pairs: seq<(int, int)>)
    requires |lines| == |pairs| && forall i :: 0 <= i < |lines| ==> ParseLine(lines[i]) == Some(pairs[i])
    ensures ParseLines(lines) == Success(pairs)
  {
    if lines != [] {
      var n := |lines|;
      var front, done := lines[..n - 1], pairs[..n - 1];
      forall i | 0 <= i < n - 1 ensures ParseLine(front[i]) == Some(done[i]) {
        assert front[i] == lines[i] && done[i] == pairs[i];
      }
      ParseAll(front, done);
      ParseLinesSnoc(lines, pairs[..n - 1], pairs[n - 1]);
      assert pairs == pairs[..n - 1] + [pairs[n - 1]];
    }
  }

  /** A file whose front parses and whose last line is a pair parses to the front's pairs and that pair. */
  lemma {:induction false} ParseLinesSnoc(lines: seq<string>, front: seq<(int, int)>, p: (int, int))
    requires lines != [] && ParseLines(lines[..|lines| - 1]) == Success(front)
    requires ParseLine(lines[|lines| - 1]) == Some(p)
    ensures ParseLines(lines) == Success(front + [p])
  {
  }

  /** One line written with a whitespace separator parses back to its pair. */
  lemma {:induction false} ParseLineOfFormat(key: int, sep: char, value: int)
    requires IsSpace(sep)
    ensures ParseLine(FormatLine(key, sep, value)) == Some((key, value))
  {
    SplitFormatLine(key, sep, value);
    ParseShowInt(key);
    ParseShowInt(value);
  }

  /** Once a prefix of the file fails to parse, the whole file fails with the same error. */
  lemma {:induction false} ParseLinesFailureStays(lines: seq<string>, j: nat)
    requires j <= |lines| && ParseLines(lines[..j]).Failure?
    ensures ParseLines(lines) == ParseLines(lines[..j])
  {
    if j < |lines| {
      assert lines[..|lines| - 1][..j] == lines[..j];
      ParseLinesFailureStays(lines[..|lines| - 1], j);
    } else {
      assert lines[..j] == lines;
    }
  }

  /** The pairs `(key, c[key])` in dictionary order. */
  function Pairs(ix: Index): (pairs: seq<(int, int)>)
    requires Consistent(ix)
    ensures |pairs| == |ix.order|
  {
    seq(|ix.order|, i requires 0 <= i < |ix.order| =>
      var k := ix.order[i];
      assert k in ix.order;
      (k, ix.forward[k]))
  }

  /** Storing each key once, in any order, rebuilds the dictionary they came from. */
  lemma {:induction false} StoredPairs(ix: Index, j: nat)
    requires Consistent(ix) && j <= |ix.order|
    ensures forall k :: k in Stored(map[], Pairs(ix)[..j]) <==> k in ix.order[..j]
    ensures forall k :: k in Stored(map[], Pairs(ix)[..j]) ==> Stored(map[], Pairs(ix)[..j])[k] == ix.forward[k]
  {
    if j > 0 {
      StoredPairs(ix, j - 1);
      var ps := Pairs(ix)[..j];
      assert ps[..j - 1] == Pairs(ix)[..j - 1];
      assert ix.order[j - 1] in ix.order;
      assert ps[j - 1] == (ix.order[j - 1], ix.forward[ix.order[j - 1]]);
      assert ix.order[..j] == ix.order[..j - 1] + [ix.order[j - 1]];
    }
  }

  /**
   * `load(save(c))`: saving writes one `key value` line per item, and loading
   * those lines rebuilds the same item-to-cluster mapping.
   */
  lemma {:induction false} LoadSaveRoundTrip(ix: Index)
    requires Consistent(ix)
    ensures Loaded(Lines(Pairs(ix), ' ')).Success?
    ensures Loaded(Lines(Pairs(ix), ' ')).value.forward == ix.forward
  {
    var pairs := Pairs(ix);
    ParseLinesOfLines(pairs, ' ');
    assert Loaded(Lines(pairs, ' ')) == Success(Replay(Empty, pairs));
    ReplayForward(Empty, pairs);
    StoredAll(ix);
  }

  /** Storing all the pairs of a consistent index rebuilds its dictionary. */
  lemma {:induction false} StoredAll(ix: Index)
    requires Consistent(ix)
    ensures Stored(map[], Pairs(ix)) == ix.forward
  {
    var pairs := Pairs(ix);
    var m := Stored(map[], pairs);
    StoredPairs(ix, |ix.order|);
    assert pairs[..|ix.order|] == pairs;
    assert ix.order[..|ix.order|] == ix.order;
    assert forall k :: k in m <==> k in ix.forward;
    assert forall k :: k in m ==> m[k] == ix.forward[k];
  }

  // ----- the container -----

  class Clustering {
    var forward: map<int, int>
    var order: seq<int>
    var clusters: map<int, seq<int>>

    function Abs(): Index
      reads this
    {
      Index(forward, order, clusters)
    }

    ghost predicate Valid()
      reads this
    {
      Consistent(Abs())
    }

    /**
     * `Clustering(d)`: the dictionary `init`, iterated in the order `keys`,
     * with the reverse index built by appending each key to its cluster's list.
     */
    constructor (init: map<int, int>, keys: seq<int>)
      requires NoDup(keys) && forall k :: k in init <==> k in keys
      ensures Valid() && forward == init && order == keys
      ensures forall c :: SetDefault(clusters, c) == Members(init, keys, c)
    {
      assert forall k :: k in keys ==> k in init;
      var groups := Gather(init, keys);
      forward := init;
      order := keys;
      clusters := groups;
      new;
      MembersConsistent(init, keys, clusters);
    }

    /** `c[key] = value`. */
    method Assign(key: int, value: int)
      requires Valid()
      modifies this
      ensures Valid() && Abs() == Assigned(old(Abs()), key, value)
    {
      AssignedConsistent(Abs(), key, value);
      if key in forward {
        var _ := Delete(key);
      }
      forward := forward[key := value];
      order := order + [key];
      clusters := clusters[value := SetDefault(clusters, value) + [key]];
    }

    /** `del c[key]`; a key without a cluster is a KeyError and changes nothing. */
    method Delete(key: int) returns (r: Outcome<Error>)
      requires Valid()
      modifies this
      ensures key in old(forward) ==> r == Pass && Valid() && Abs() == Deleted(old(Abs()), key)
      ensures key !in old(forward) ==> r == Fail(UnknownItem(key)) && Abs() == old(Abs())
    {
      if key !in forward {
        return Fail(UnknownItem(key));
      }
      ghost var before := Abs();
      DeletedConsistent(before, key);
      var c := forward[key];
      var rest := RemoveFirst(SetDefault(clusters, c), key);
      clusters := clusters[c := rest];
      if c in clusters && clusters[c] == [] {
        assert clusters - {c} == before.clusters - {c};
        clusters := clusters - {c};
      }
      forward := forward - {key};
      order := RemoveFirst(order, key);
      assert Abs() == Deleted(before, key);
      r := Pass;
    }

    /** `c.to_list(items)`: the cluster of each item, in order; the first unassigned item is a KeyError. */
    function ToList(items: seq<int>): (r: Result<seq<int>, Error>)
      reads this
      ensures r.Success? <==> forall i :: 0 <= i < |items| ==> items[i] in forward
      ensures r.Success? ==> |r.value| == |items| && forall i :: 0 <= i < |items| ==> r.value[i] == forward[items[i]]
      ensures r.Failure? ==> exists i :: (0 <= i < |items| && items[i] !in forward
        && (forall j :: 0 <= j < i ==> items[j] in forward) && r.error == UnknownItem(items[i]))
    {
      if items == [] then Success([])
      else if items[0] !in forward then Failure(UnknownItem(items[0]))
      else match ToList(items[1..])
        case Failure(e) =>
          var i :| 0 <= i < |items| - 1 && items[1..][i] !in forward
            && (forall j :: 0 <= j < i ==> items[1..][j] in forward) && e == UnknownItem(items[1..][i]);
          assert items[i + 1] !in forward && forall j :: 0 <= j < i + 1 ==> items[j] in forward;
          Failure(e)
        case Success(rest) => Success([forward[items[0]]] + rest)
    }

    /** `c.save(path)`: one line `'%d %d\n' % (key, value)` per item, in dictionary order. */
    function Save(): (lines: seq<string>)
      reads this
      requires Valid()
      ensures |lines| == |order|
      ensures forall i :: 0 <= i < |order| ==> lines[i] == FormatLine(order[i], ' ', forward[order[i]])
    {
      Lines(Pairs(Abs()), ' ')
    }

    /** `Clustering.load(path)` over the file's lines. */
    static method Load(lines: seq<string>) returns (r: Result<Clustering, Error>)
      ensures Loaded(lines).Failure? ==> r == Failure(Loaded(lines).error)
      ensures Loaded(lines).Success? ==>
        r.Success? && fresh(r.value) && r.value.Valid() && r.value.Abs() == Loaded(lines).value
    {
      var c := new Clustering(map[], []);
      forall k ensures k !in c.clusters {
        assert SetDefault(c.clusters, k) == Members(map[], [], k);
      }
      assert c.clusters == map[];
      assert c.Abs() == Empty;
      for i := 0 to |lines|
        invariant fresh(c) && c.Valid()
        invariant ParseLines(lines[..i]).Success?
        invariant c.Abs() == Replay(Empty, ParseLines(lines[..i]).value)
      {
        LoadStep(lines, i);
        var tokens := Split(lines[i]);
        var key := if |tokens| == 2 then ParseInt(tokens[0]) else None;
        var value := if |tokens| == 2 then ParseInt(tokens[1]) else None;
        if key.None? || value.None? {
          assert ParseLine(lines[i]).None?;
          ParseLinesFailureStays(lines, i + 1);
          return Failure(MalformedLine(i));
        }
        assert ParseLine(lines[i]) == Some((key.value, value.value));
        c.Assign(key.value, value.value);
      }
      assert lines[..|lines|] == lines;
      return Success(c);
    }
  }

  /** Loading one more line: a malformed line fails there, a good one is one more assignment. */
  lemma {:induction false} LoadStep(lines: seq<string>, i: nat)
    requires i < |lines| && ParseLines(lines[..i]).Success?
    ensures ParseLine(lines[i]).None? ==> ParseLines(lines[..i + 1]) == Failure(MalformedLine(i))
    ensures ParseLine(lines[i]).Some? ==>
      && ParseLines(lines[..i + 1]).Success?
      && Replay(Empty, ParseLines(lines[..i + 1]).value)
         == Assigned(Replay(Empty, ParseLines(lines[..i]).value), ParseLine(lines[i]).value.0, ParseLine(lines[i]).value.1)
  {
    assert lines[..i + 1][..i] == lines[..i];
    var front := ParseLines(lines[..i]).value;
    if ParseLine(lines[i]).Some? {
      var p := ParseLine(lines[i]).value;
      assert ParseLines(lines[..i + 1]) == Success(front + [p]);
      assert (front + [p])[..|front|] == front;
    }
  }

  /** The index built by the constructor is consistent. */
  lemma {:induction false} MembersConsistent(init: map<int, int>, keys: seq<int>, clusters: map<int, seq<int>>)
    requires NoDup(keys) && forall k :: k in init <==> k in keys
    requires forall c :: SetDefault(clusters, c) == Members(init, keys, c)
    requires forall c :: c in clusters ==> clusters[c] != []
    ensures Consistent(Index(init, keys, clusters))
  {
    assert forall k :: k in keys ==> k in init;
    forall k | k in init ensures init[k] in clusters && k in clusters[init[k]] {
      MembersIn(init, keys, init[k]);
      assert k in Members(init, keys, init[k]);
    }
    forall c | c in clusters ensures NoDup(clusters[c]) {
      MembersNoDup(init, keys, c);
    }
    forall c, m | c in clusters && m in clusters[c] ensures m in init && init[m] == c {
      MembersIn(init, keys, c);
      assert m in Members(init, keys, c);
    }
  }
}
