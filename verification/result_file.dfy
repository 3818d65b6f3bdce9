/**
 * The result file of the event clustering (`print_result_file`): one line
 * `photo<TAB>event` per photo, events in dictionary order and photos in
 * list order. The driver reads this file back with `Clustering.load`; the
 * lemmas here say what that load yields.
 */
module ResultFile {
  import opened Wrappers
  import opened Seqs
  import opened TextFormat
  import opened Clusterings

  /** The pairs `(photo, event)` of one event's list. */
  function Tagged(photos: seq<int>, event: int): (pairs: seq<(int, int)>)
    ensures |pairs| == |photos|
    ensures forall i :: 0 <= i < |pairs| ==> pairs[i] == (photos[i], event)
  {
    seq(|photos|, i requires 0 <= i < |photos| => (photos[i], event))
  }

  /** The pairs written, in the order `for k, v in cluster.iteritems(): for photo in v`. */
  function ResultPairs(cluster: map<int, seq<int>>, order: seq<int>): (pairs: seq<(int, int)>)
    requires forall v :: v in order ==> v in cluster
    ensures forall i :: 0 <= i < |pairs| ==>
      pairs[i].1 in order && pairs[i].1 in cluster && pairs[i].0 in cluster[pairs[i].1]
  {
    if order == [] then []
    else
      var v := order[|order| - 1];
      ResultPairs(cluster, order[..|order| - 1]) + Tagged(cluster[v], v)
  }

  /** The lines of the result file. */
  function ResultLines(cluster: map<int, seq<int>>, order: seq<int>): (lines: seq<string>)
    requires forall v :: v in order ==> v in cluster
    ensures |lines| == |ResultPairs(cluster, order)|
    ensures forall i :: 0 <= i < |lines| ==>
      var (photo, event) := ResultPairs(cluster, order)[i];
      lines[i] == FormatLine(photo, '\t', event) && event in order && photo in cluster[event]
  {
    Lines(ResultPairs(cluster, order), '\t')
  }

  /** Every photo of every listed event is written, with that event. */
  lemma {:induction false} ResultPairsComplete(cluster: map<int, seq<int>>, order: seq<int>, v: int, j: nat)
    requires forall w :: w in order ==> w in cluster
    requires v in order && j < |cluster[v]|
    ensures (cluster[v][j], v) in ResultPairs(cluster, order)
  {
    var n := |order| - 1;
    var front := ResultPairs(cluster, order[..n]);
    if order[n] == v {
      var tail := Tagged(cluster[v], v);
      assert (front + tail)[|front| + j] == tail[j];
    } else {
      assert v in order[..n] by {
        var i :| 0 <= i < |order| && order[i] == v;
        assert order[..n][i] == v;
      }
      ResultPairsComplete(cluster, order[..n], v, j);
      var i :| 0 <= i < |front| && front[i] == (cluster[v][j], v);
      assert (front + Tagged(cluster[order[n]], order[n]))[i] == front[i];
    }
  }

  /**
   * Loading the result file back gives a photo an event only when it is in
   * that event's list, and so only a photo of some list.
   */
  lemma {:induction false} ResultFileWithin(cluster: map<int, seq<int>>, order: seq<int>, photos: set<int>)
    requires forall v :: v in order ==> v in cluster
    requires PhotosUnique(ResultPairs(cluster, order)) && ListsWithin(cluster, photos)
    ensures Loaded(ResultLines(cluster, order)).Success?
    ensures var forward := Loaded(ResultLines(cluster, order)).value.forward;
      forall p :: p in forward ==> p in photos && p in SetDefault(cluster, forward[p])
  {
    ResultFileLoads(cluster, order);
    var forward := Loaded(ResultLines(cluster, order)).value.forward;
    forall p | p in forward ensures p in photos && p in SetDefault(cluster, forward[p]) {
      assert SetDefault(cluster, forward[p]) == cluster[forward[p]];
    }
  }

  /** Loading the result file back gives an event to every photo of every listed event's list. */
  lemma {:induction false} ResultFileCovers(cluster: map<int, seq<int>>, order: seq<int>, photos: set<int>)
    requires forall v :: v in order <==> v in cluster
    requires PhotosUnique(ResultPairs(cluster, order)) && Covers(cluster, photos)
    ensures Loaded(ResultLines(cluster, order)).Success?
    ensures var forward := Loaded(ResultLines(cluster, order)).value.forward;
      forall p :: p in photos ==> p in forward
  {
    ResultFileLoads(cluster, order);
    var forward := Loaded(ResultLines(cluster, order)).value.forward;
    forall p | p in photos ensures p in forward {
      var v :| p in SetDefault(cluster, v);
      var j := IndexOf(cluster[v], p);
      assert cluster[v][j] in forward;
    }
  }

  /** No photo is written twice. */
  ghost predicate PhotosUnique(pairs: seq<(int, int)>) {
    forall i, j :: 0 <= i < j < |pairs| ==> pairs[i].0 != pairs[j].0
  }

  /**
   * When `order` lists each event once, every list is free of repetitions
   * and no photo is under two events, no photo is written twice.
   */
  lemma {:induction false} ResultPairsUnique(cluster: map<int, seq<int>>, order: seq<int>)
    requires forall v :: v in order ==> v in cluster
    requires NoDup(order) && Exclusive(cluster)
    requires forall v :: NoDup(SetDefault(cluster, v))
    ensures PhotosUnique(ResultPairs(cluster, order))
  {
    if order != [] {
      var n := |order| - 1;
      var v := order[n];
      assert NoDup(order[..n]) && v !in order[..n] by {
        assert forall i :: 0 <= i < n ==> order[..n][i] == order[i];
      }
      ResultPairsUnique(cluster, order[..n]);
      var front := ResultPairs(cluster, order[..n]);
      var tail := Tagged(cluster[v], v);
      var pairs := front + tail;
      assert SetDefault(cluster, v) == cluster[v];
      forall i, j | 0 <= i < j < |pairs| ensures pairs[i].0 != pairs[j].0 {
        if j < |front| {
          assert pairs[i] == front[i] && pairs[j] == front[j];
        } else if i < |front| {
          var w := front[i].1;
          assert pairs[i] == front[i] && w in order[..n] && front[i].0 in SetDefault(cluster, w);
          assert pairs[j] == tail[j - |front|] && pairs[j].0 in SetDefault(cluster, v);
        } else {
          assert pairs[i] == tail[i - |front|] && pairs[j] == tail[j - |front|];
        }
      }
    }
  }

  /** Storing pairs whose keys are all different keeps every pair. */
  lemma {:induction false} StoredUnique(pairs: seq<(int, int)>)
    requires PhotosUnique(pairs)
    ensures forall i :: 0 <= i < |pairs| ==>
      pairs[i].0 in Stored(map[], pairs) && Stored(map[], pairs)[pairs[i].0] == pairs[i].1
    ensures forall k :: k in Stored(map[], pairs) ==> exists i :: 0 <= i < |pairs| && pairs[i] == (k, Stored(map[], pairs)[k])
  {
    if pairs != [] {
      var n := |pairs| - 1;
      var front := pairs[..n];
      assert PhotosUnique(front);
      StoredUnique(front);
      var m := Stored(map[], pairs);
      forall k | k in m
        ensures exists i :: 0 <= i < |pairs| && pairs[i] == (k, m[k])
      {
        if k == pairs[n].0 {
          assert pairs[n] == (k, m[k]);
        } else {
          assert k in Stored(map[], front);
          var i :| 0 <= i < |front| && front[i] == (k, Stored(map[], front)[k]);
          assert pairs[i] == (k, m[k]);
        }
      }
    }
  }

  /**
   * Loading the result file back with `Clustering.load` succeeds and, when
   * no photo was written twice, gives each photo the event it was listed
   * under and no other photo.
   */
  lemma {:induction false} ResultFileLoads(cluster: map<int, seq<int>>, order: seq<int>)
    requires forall v :: v in order ==> v in cluster
    requires PhotosUnique(ResultPairs(cluster, order))
    ensures Loaded(ResultLines(cluster, order)).Success?
    ensures var forward := Loaded(ResultLines(cluster, order)).value.forward;
      && (forall v, j :: v in order && 0 <= j < |cluster[v]| ==> cluster[v][j] in forward && forward[cluster[v][j]] == v)
      && (forall p :: p in forward ==> forward[p] in order && p in cluster[forward[p]])
  {
    var pairs := ResultPairs(cluster, order);
    ParseLinesOfLines(pairs, '\t');
    assert Loaded(ResultLines(cluster, order)) == Success(Replay(Empty, pairs));
    ReplayForward(Empty, pairs);
    StoredUnique(pairs);
    var forward := Stored(map[], pairs);
    forall v, j | v in order && 0 <= j < |cluster[v]|
      ensures cluster[v][j] in forward && forward[cluster[v][j]] == v
    {
      ResultPairsComplete(cluster, order, v, j);
    }
  }
}
