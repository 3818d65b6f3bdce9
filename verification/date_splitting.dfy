/**
 * The second pass of the event clustering (`clusterDate`): each owner group
 * is split into events by date. One left-to-right pass per group keeps a
 * list of nuclei (cluster id and representative time); each photo joins the
 * nearest nucleus when it is strictly closer than the threshold, and
 * otherwise opens a new nucleus from a counter shared by all groups.
 *
 * Times are whole seconds; representatives are reals because a merge moves
 * a representative by half a difference. Dictionaries are modelled with
 * their insertion order: the nuclei as a list of entries, the per-group
 * labels and the result as a map plus the order its keys were inserted.
 */
module DateSplitting {
  import opened Wrappers
  import opened Seqs
  import opened Photos

  /** The initial "no nucleus yet" distance, 1e17 seconds. */
  const Sentinel: real := 100000000000000000.0

  datatype Error =
    | MissingRecord(photo: int)     // a listed photo has no metadata record
    | EmptyGroup(group: nat)        // `c[0]` of an empty group
    | UnlistedImage(photo: int)     // a grouped photo was not in the photo list
    | UnboundNearest(photo: int)    // merge chosen while no nucleus was ever nearest

  /** One entry of `noyau`: a cluster id and its representative time. */
  datatype Nucleus = Nucleus(id: int, rep: real)

  /** The running minimum of the scan over the nuclei: `pos` is -1 until one beats `min`. */
  datatype Scan = Scan(min: real, pos: int)

  /** The state of one group's pass: nuclei, the shared counter and `cluster_prov`. */
  datatype Prov = Prov(nuclei: seq<Nucleus>, counter: int, labels: map<int, int>, order: seq<int>)

  /** The state between groups: the counter and the result dictionary `cluster`. */
  datatype Output = Output(counter: int, cluster: map<int, seq<int>>, order: seq<int>)

  /**
   * `abs` on reals, for distances to representatives; the date matrix uses
   * an integer `AbsInt` of its own, since its differences are whole seconds.
   */
  function Abs(x: real): real {
    if x < 0.0 then -x else x
  }

  /** `abs((d - dateI).total_seconds())` */
  function Dist(rep: real, t: int): real {
    Abs(rep - t as real)
  }

  /** The dates of the listed photos (`date[img_i] = dateI`). */
  function Dates(d: Metadata, imgs: seq<int>): (date: map<int, int>)
    requires AllKnown(d, imgs)
    ensures forall i :: 0 <= i < |imgs| ==> imgs[i] in date
    ensures forall p :: p in date ==> p in imgs && p in d && date[p] == d[p].taken
  {
    if imgs == [] then map[]
    else
      var last := imgs[|imgs| - 1];
      assert AllKnown(d, imgs[..|imgs| - 1]);
      Dates(d, imgs[..|imgs| - 1])[last := d[last].taken]
  }

  /**
   * The scan for the nearest nucleus: the strict `min > diff` test keeps the
   * first of equally near nuclei, and no nucleus at 1e17 seconds or more is
   * ever chosen.
   */
  function Nearest(ns: seq<Nucleus>, t: int): (s: Scan)
    ensures -1 <= s.pos < |ns|
    ensures s.min <= Sentinel
    ensures forall i :: 0 <= i < |ns| ==> s.min <= Dist(ns[i].rep, t)
    ensures s.pos == -1 ==> s.min == Sentinel
    ensures s.pos >= 0 ==> s.min == Dist(ns[s.pos].rep, t) && s.min < Sentinel
    ensures s.pos >= 0 ==> forall i :: 0 <= i < s.pos ==> Dist(ns[i].rep, t) > s.min
  {
    if ns == [] then Scan(Sentinel, -1)
    else
      var s := Nearest(ns[..|ns| - 1], t);
      var diff := Dist(ns[|ns| - 1].rep, t);
      if s.min > diff then Scan(diff, |ns| - 1) else s
  }

  /** `order` lists exactly the photos labelled so far. */
  ghost predicate Tracked(p: Prov) {
    forall k :: k in p.order <==> k in p.labels
  }

  /** `cluster_prov[img] = id`, keeping the dictionary's insertion order. */
  function Label(p: Prov, img: int, id: int): (q: Prov)
    ensures Tracked(p) ==> Tracked(q)
    ensures img in q.labels && q.labels[img] == id
  {
    p.(labels := p.labels[img := id], order := if img in p.labels then p.order else p.order + [img])
  }

  /**
   * One photo of a group, taken at `t`: merge it into the nearest nucleus if
   * that one is strictly closer than `threshold` (moving its representative
   * by half the distance), else open nucleus `counter + 1` at `t`.
   */
  function Step(p: Prov, img: int, t: int, threshold: int): (r: Result<Prov, Error>)
    ensures Tracked(p) && r.Success? ==> Tracked(r.value)
  {
    var s := Nearest(p.nuclei, t);
    if s.min < threshold as real then
      if s.pos < 0 then Failure(UnboundNearest(img))
      else
        var n := p.nuclei[s.pos];
        Success(Label(p.(nuclei := p.nuclei[s.pos := Nucleus(n.id, n.rep + s.min / 2.0)]), img, n.id))
    else
      var id := p.counter + 1;
      Success(Label(p.(nuclei := p.nuclei + [Nucleus(id, t as real)], counter := id), img, id))
  }

  /** The pass over the photos `items` of a group, from state `p`. */
  function Steps(p: Prov, items: seq<int>, date: map<int, int>, threshold: int): (r: Result<Prov, Error>)
    ensures Tracked(p) && r.Success? ==> Tracked(r.value)
  {
    if items == [] then Success(p)
    else
      var img := items[|items| - 1];
      match Steps(p, items[..|items| - 1], date, threshold)
      case Failure(e) => Failure(e)
      case Success(q) =>
        if img !in date then Failure(UnlistedImage(img))
        else Step(q, img, date[img], threshold)
  }

  /** The state after the first photo of a group: one nucleus, with the current counter as id. */
  function Seeded(first: int, t: int, seed: int): Prov {
    Prov([Nucleus(seed, t as real)], seed, map[first := seed], [first])
  }

  /** The whole pass over group number `g`, `c`, starting from counter `seed`. */
  function SplitGroup(g: nat, c: seq<int>, date: map<int, int>, seed: int, threshold: int): (r: Result<Prov, Error>)
    ensures r.Success? ==> Tracked(r.value)
  {
    if c == [] then Failure(EmptyGroup(g))
    else if c[0] !in date then Failure(UnlistedImage(c[0]))
    else Steps(Seeded(c[0], date[c[0]], seed), c[1..], date, threshold)
  }

  /** `for k, v in cluster_prov.iteritems(): cluster.setdefault(v, []).append(k)` over `keys`. */
  function Flush(out: Output, labels: map<int, int>, keys: seq<int>): Output
    requires forall k :: k in keys ==> k in labels
  {
    if keys == [] then out
    else
      var k := keys[|keys| - 1];
      var o := Flush(out, labels, keys[..|keys| - 1]);
      var v := labels[k];
      o.(cluster := o.cluster[v := SetDefault(o.cluster, v) + [k]],
         order := if v in o.cluster then o.order else o.order + [v])
  }

  /** The groups `groups` in turn, the counter carried over from one group to the next. */
  function Groups(groups: seq<seq<int>>, date: map<int, int>, threshold: int): Result<Output, Error> {
    if groups == [] then Success(Output(0, map[], []))
    else
      var g := |groups| - 1;
      match Groups(groups[..g], date, threshold)
      case Failure(e) => Failure(e)
      case Success(out) =>
        match SplitGroup(g, groups[g], date, out.counter, threshold)
        case Failure(e) => Failure(e)
        case Success(p) => Success(Flush(out.(counter := p.counter), p.labels, p.order))
  }

  /** `clusterDate`: the photo dates first, then every group in turn. */
  function ClusterDateSpec(d: Metadata, imgs: seq<int>, groups: seq<seq<int>>, threshold: int)
    : Result<map<int, seq<int>>, Error>
  {
    if !AllKnown(d, imgs) then Failure(MissingRecord(imgs[FirstMissing(d, imgs)]))
    else
      match Groups(groups, Dates(d, imgs), threshold)
      case Failure(e) => Failure(e)
      case Success(out) => Success(out.cluster)
  }

  /** Once every listed photo has a record, `clusterDate` returns the dictionary of the run over the groups. */
  lemma {:induction false} ClusterDateSpecGroups(d: Metadata, imgs: seq<int>, groups: seq<seq<int>>, threshold: int)
    requires AllKnown(d, imgs)
    ensures var r := Groups(groups, Dates(d, imgs), threshold);
      && (ClusterDateSpec(d, imgs, groups, threshold).Success? <==> r.Success?)
      && (r.Success? ==> ClusterDateSpec(d, imgs, groups, threshold).value == r.value.cluster)
  {
  }

  /**
   * `clusterDate` over an already-read photo list and the groups of
   * `clusterUser` in dictionary order.
   */
  method ClusterDate(d: Metadata, imgs: seq<int>, groups: seq<seq<int>>, threshold: int)
    returns (r: Result<map<int, seq<int>>, Error>)
    ensures r == ClusterDateSpec(d, imgs, groups, threshold)
  {
    var dates := ReadDates(d, imgs);
    if dates.Failure? {
      return Failure(dates.error);
    }
    var date := dates.value;
    var out := Output(0, map[], []);
    for g := 0 to |groups|
      invariant Groups(groups[..g], date, threshold) == Success(out)
    {
      assert groups[..g + 1][..g] == groups[..g];
      var p := SplitOne(g, groups[g], date, out.counter, threshold);
      if p.Failure? {
        GroupsFailureStays(groups, date, threshold, g + 1);
        return Failure(p.error);
      }
      out := FlushInto(out.(counter := p.value.counter), p.value.labels, p.value.order);
    }
    assert groups[..|groups|] == groups;
    return Success(out.cluster);
  }

  /** The loop `date[img_i] = dateI` over the listed photos. */
  method ReadDates(d: Metadata, imgs: seq<int>) returns (r: Result<map<int, int>, Error>)
    ensures AllKnown(d, imgs) ==> r == Success(Dates(d, imgs))
    ensures !AllKnown(d, imgs) ==> r == Failure(MissingRecord(imgs[FirstMissing(d, imgs)]))
  {
    var date: map<int, int> := map[];
    for i := 0 to |imgs|
      invariant AllKnown(d, imgs[..i]) && date == Dates(d, imgs[..i])
    {
      var img := imgs[i];
      if img !in d {
        FirstMissingAt(d, imgs, i);
        return Failure(MissingRecord(img));
      }
      DatesSnoc(d, imgs, i);
      date := date[img := d[img].taken];
    }
    assert imgs[..|imgs|] == imgs;
    return Success(date);
  }

  /** One more listed photo adds its own date to the dates of those before it. */
  lemma DatesSnoc(d: Metadata, imgs: seq<int>, i: nat)
    requires i < |imgs| && AllKnown(d, imgs[..i]) && imgs[i] in d
    ensures AllKnown(d, imgs[..i + 1])
    ensures Dates(d, imgs[..i + 1]) == Dates(d, imgs[..i])[imgs[i] := d[imgs[i]].taken]
  {
    assert imgs[..i + 1][..i] == imgs[..i];
  }

  /** The pass over one group `c` (the body of `for c in clusterU.values()`). */
  method SplitOne(g: nat, c: seq<int>, date: map<int, int>, seed: int, threshold: int)
    returns (r: Result<Prov, Error>)
    ensures r == SplitGroup(g, c, date, seed, threshold)
  {
    if |c| == 0 {
      return Failure(EmptyGroup(g));
    }
    if c[0] !in date {
      return Failure(UnlistedImage(c[0]));
    }
    var noyau := [Nucleus(seed, date[c[0]] as real)];
    var clusterId := seed;
    var prov := map[c[0] := seed];
    var provOrder := [c[0]];
    ghost var start := Seeded(c[0], date[c[0]], seed);
    for i := 1 to |c|
      invariant Steps(start, c[1..i], date, threshold) == Success(Prov(noyau, clusterId, prov, provOrder))
    {
      var img := c[i];
      StepsExtend(start, c, i, date, threshold);
      if img !in date {
        return Failure(UnlistedImage(img));
      }
      var t := date[img];
      var next := Place(noyau, clusterId, prov, provOrder, img, t, threshold);
      if next.Failure? {
        return Failure(next.error);
      }
      noyau, clusterId, prov, provOrder := next.value.nuclei, next.value.counter, next.value.labels, next.value.order;
    }
    assert c[1..|c|] == c[1..];
    return Success(Prov(noyau, clusterId, prov, provOrder));
  }

  /**
   * One photo `img` at time `t` (the body of `for i in range(1, len(c))`):
   * scan the nuclei, then merge or open a nucleus.
   */
  method Place(noyau: seq<Nucleus>, clusterId: int, prov: map<int, int>, provOrder: seq<int>,
               img: int, t: int, threshold: int) returns (r: Result<Prov, Error>)
    ensures r == Step(Prov(noyau, clusterId, prov, provOrder), img, t, threshold)
  {
    var min, indice := NearestNucleus(noyau, t);
    var order := if img in prov then provOrder else provOrder + [img];
    if min < threshold as real {
      if indice < 0 {
        return Failure(UnboundNearest(img));
      }
      var id := noyau[indice].id;
      var mean := noyau[indice].rep + min / 2.0;
      return Success(Prov(noyau[indice := Nucleus(id, mean)], clusterId, prov[img := id], order));
    } else {
      var id := clusterId + 1;
      return Success(Prov(noyau + [Nucleus(id, t as real)], id, prov[img := id], order));
    }
  }

  /** The inner loop `for k, d in noyau.iteritems()` with its running minimum. */
  method NearestNucleus(noyau: seq<Nucleus>, t: int) returns (min: real, indice: int)
    ensures Scan(min, indice) == Nearest(noyau, t)
  {
    min := Sentinel;
    indice := -1;
    for j := 0 to |noyau|
      invariant Nearest(noyau[..j], t) == Scan(min, indice)
    {
      assert noyau[..j + 1][..j] == noyau[..j];
      var diff := Dist(noyau[j].rep, t);
      if min > diff {
        min := diff;
        indice := j;
      }
    }
    assert noyau[..|noyau|] == noyau;
  }

  /** The loop `cluster.setdefault(v, []).append(k)` over `cluster_prov`. */
  method FlushInto(out: Output, labels: map<int, int>, keys: seq<int>) returns (res: Output)
    requires forall k :: k in keys ==> k in labels
    ensures res == Flush(out, labels, keys)
  {
    res := out;
    for j := 0 to |keys|
      invariant Flush(out, labels, keys[..j]) == res
    {
      var k := keys[j];
      var v := labels[k];
      assert keys[..j + 1][..j] == keys[..j];
      var cluster := res.cluster;
      var order := if v in cluster then res.order else res.order + [v];
      res := Output(res.counter, cluster[v := SetDefault(cluster, v) + [k]], order);
    }
    assert keys[..|keys|] == keys;
  }

  /**
   * One more photo of a group is one more `Step`; a failure there is the
   * failure of the whole group.
   */
  lemma {:induction false} StepsExtend(p: Prov, c: seq<int>, i: nat, date: map<int, int>, threshold: int)
    requires 1 <= i < |c| && Steps(p, c[1..i], date, threshold).Success?
    ensures var q := Steps(p, c[1..i], date, threshold).value;
      Steps(p, c[1..i + 1], date, threshold) ==
        if c[i] !in date then Failure(UnlistedImage(c[i])) else Step(q, c[i], date[c[i]], threshold)
    ensures Steps(p, c[1..i + 1], date, threshold).Failure? ==>
      Steps(p, c[1..], date, threshold) == Steps(p, c[1..i + 1], date, threshold)
  {
    assert c[1..i + 1][..i - 1] == c[1..i];
    if Steps(p, c[1..i + 1], date, threshold).Failure? {
      assert c[1..][..i] == c[1..i + 1];
      StepsFailureStays(p, c[1..], date, threshold, i);
    }
  }

  /** Once the groups so far fail, all the groups fail with the same error. */
  lemma {:induction false} GroupsFailureStays(groups: seq<seq<int>>, date: map<int, int>, threshold: int, n: nat)
    requires n <= |groups| && Groups(groups[..n], date, threshold).Failure?
    ensures Groups(groups, date, threshold) == Groups(groups[..n], date, threshold)
    decreases |groups|
  {
    if n < |groups| {
      var g := |groups| - 1;
      assert groups[..g][..n] == groups[..n];
      GroupsFailureStays(groups[..g], date, threshold, n);
    } else {
      assert groups[..n] == groups;
    }
  }

  /** Once the photos so far fail, the whole group fails with the same error. */
  lemma {:induction false} StepsFailureStays(p: Prov, items: seq<int>, date: map<int, int>, threshold: int, n: nat)
    requires n <= |items| && Steps(p, items[..n], date, threshold).Failure?
    ensures Steps(p, items, date, threshold) == Steps(p, items[..n], date, threshold)
    decreases |items|
  {
    if n < |items| {
      var m := |items| - 1;
      assert items[..m][..n] == items[..n];
      StepsFailureStays(p, items[..m], date, threshold, n);
    } else {
      assert items[..n] == items;
    }
  }

  /**
   * A photo strictly closer than the threshold to some nucleus (and nearer
   * than 1e17 seconds) joins the nearest one, the first of equally near
   * ones; that nucleus moves by half the distance and no other changes.
   */
  lemma {:induction false} StepMerges(p: Prov, img: int, t: int, threshold: int, i: nat)
    requires i < |p.nuclei| && Dist(p.nuclei[i].rep, t) < threshold as real
    requires Dist(p.nuclei[i].rep, t) < Sentinel
    ensures var s := Nearest(p.nuclei, t);
      var r := Step(p, img, t, threshold);
      && 0 <= s.pos < |p.nuclei|
      && (forall j :: 0 <= j < |p.nuclei| ==> Dist(p.nuclei[s.pos].rep, t) <= Dist(p.nuclei[j].rep, t))
      && (forall j :: 0 <= j < s.pos ==> Dist(p.nuclei[j].rep, t) > Dist(p.nuclei[s.pos].rep, t))
      && r.Success?
      && r.value.counter == p.counter
      && |r.value.nuclei| == |p.nuclei|
      && r.value.nuclei[s.pos] == Nucleus(p.nuclei[s.pos].id, p.nuclei[s.pos].rep + Dist(p.nuclei[s.pos].rep, t) / 2.0)
      && (forall j :: 0 <= j < |p.nuclei| && j != s.pos ==> r.value.nuclei[j] == p.nuclei[j])
      && r.value.labels == p.labels[img := p.nuclei[s.pos].id]
  {
    var s := Nearest(p.nuclei, t);
    assert s.min <= Dist(p.nuclei[i].rep, t);
  }

  /**
   * A photo at the threshold or farther from every nucleus opens nucleus
   * `counter + 1` at its own time (as long as the threshold is at most
   * 1e17 seconds); a distance equal to the threshold does not merge.
   */
  lemma {:induction false} StepOpens(p: Prov, img: int, t: int, threshold: int)
    requires threshold as real <= Sentinel
    requires forall j :: 0 <= j < |p.nuclei| ==> Dist(p.nuclei[j].rep, t) >= threshold as real
    ensures var r := Step(p, img, t, threshold);
      && r.Success?
      && r.value.counter == p.counter + 1
      && r.value.nuclei == p.nuclei + [Nucleus(p.counter + 1, t as real)]
      && r.value.labels == p.labels[img := p.counter + 1]
  {
    var s := Nearest(p.nuclei, t);
    if s.pos >= 0 {
      assert s.min == Dist(p.nuclei[s.pos].rep, t);
    }
  }

  /**
   * The representative update is `old + distance / 2` in both directions:
   * a midpoint for a later photo, but a move away from an earlier photo.
   */
  lemma {:induction false} MergedRepresentative(p: Prov, img: int, t: int, threshold: int, i: nat)
    requires i < |p.nuclei| && Dist(p.nuclei[i].rep, t) < threshold as real
    requires Dist(p.nuclei[i].rep, t) < Sentinel
    ensures var s := Nearest(p.nuclei, t);
      var old_rep := p.nuclei[s.pos].rep;
      var new_rep := Step(p, img, t, threshold).value.nuclei[s.pos].rep;
      && 0 <= s.pos < |p.nuclei|
      && (t as real >= old_rep ==> new_rep == (old_rep + t as real) / 2.0)
      && (t as real < old_rep ==> new_rep > old_rep && Dist(new_rep, t) > Dist(old_rep, t))
  {
    StepMerges(p, img, t, threshold, i);
  }

  /**
   * The shape of a group's state: nuclei numbered `seed`, `seed + 1`, ... in
   * insertion order, the counter at the last of them, each labelled photo
   * listed once and labelled with one of those ids.
   */
  ghost predicate Chain(p: Prov, seed: int) {
    && |p.nuclei| >= 1
    && (forall j :: 0 <= j < |p.nuclei| ==> p.nuclei[j].id == seed + j)
    && p.counter == seed + |p.nuclei| - 1
    && Tracked(p) && NoDup(p.order)
    && (forall k :: k in p.labels ==> seed <= p.labels[k] <= p.counter)
  }

  lemma {:induction false} StepChain(p: Prov, img: int, t: int, threshold: int, seed: int)
    requires Chain(p, seed) && Step(p, img, t, threshold).Success?
    ensures var q := Step(p, img, t, threshold).value;
      Chain(q, seed) && q.order == if img in p.labels then p.order else p.order + [img]
  {
    if img !in p.labels {
      NoDupSnoc(p.order, img);
    }
  }

  /**
   * The pass over photos `items` from a chain whose `order` is the first
   * listings of `prefix` ends in a chain whose `order` is the first listings
   * of `prefix + items`.
   */
  lemma {:induction false} StepsChain(p: Prov, items: seq<int>, date: map<int, int>, threshold: int, seed: int, prefix: seq<int>)
    requires Chain(p, seed) && p.order == Dedup(prefix)
    requires Steps(p, items, date, threshold).Success?
    ensures var q := Steps(p, items, date, threshold).value;
      Chain(q, seed) && q.order == Dedup(prefix + items)
  {
    if items == [] {
      assert prefix + items == prefix;
    } else {
      var m := |items| - 1;
      StepsLast(p, items, date, threshold);
      StepsChain(p, items[..m], date, threshold, seed, prefix);
      StepChainOrder(Steps(p, items[..m], date, threshold).value, Steps(p, items, date, threshold).value,
        items, date[items[m]], threshold, seed, prefix);
    }
  }

  /** A run that succeeds is a successful run over all photos but the last, then one step for the last. */
  lemma StepsLast(p: Prov, items: seq<int>, date: map<int, int>, threshold: int)
    requires items != [] && Steps(p, items, date, threshold).Success?
    ensures var m := |items| - 1;
      && Steps(p, items[..m], date, threshold).Success? && items[m] in date
      && Step(Steps(p, items[..m], date, threshold).value, items[m], date[items[m]], threshold)
        == Steps(p, items, date, threshold)
  {
  }

  /** The step for the last photo keeps the chain and extends the order as `Dedup` of the photos seen. */
  lemma {:induction false} StepChainOrder(q: Prov, r: Prov, items: seq<int>, t: int, threshold: int, seed: int, prefix: seq<int>)
    requires items != [] && Chain(q, seed) && q.order == Dedup(prefix + items[..|items| - 1])
    requires Step(q, items[|items| - 1], t, threshold) == Success(r)
    ensures Chain(r, seed) && r.order == Dedup(prefix + items)
  {
    StepChain(q, items[|items| - 1], t, threshold, seed);
    OrderSnoc(q, r, items, prefix);
  }

  lemma {:induction false} OrderSnoc(q: Prov, r: Prov, items: seq<int>, prefix: seq<int>)
    requires Tracked(q) && items != [] && q.order == Dedup(prefix + items[..|items| - 1])
    requires var img := items[|items| - 1];
      r.order == if img in q.labels then q.order else q.order + [img]
    ensures r.order == Dedup(prefix + items)
  {
    var m := |items| - 1;
    assert prefix + items == (prefix + items[..m]) + [items[m]];
    DedupSnoc(prefix + items[..m], items[m]);
  }


  /**
   * A group that is split successfully labels every one of its photos with
   * exactly one id from `seed` to the final counter, lists each photo once
   * in order of first listing, and never lowers the counter.
   */
  lemma {:induction false} SplitGroupChain(g: nat, c: seq<int>, date: map<int, int>, seed: int, threshold: int)
    requires SplitGroup(g, c, date, seed, threshold).Success?
    ensures var q := SplitGroup(g, c, date, seed, threshold).value;
      && Chain(q, seed)
      && q.counter >= seed
      && q.order == Dedup(c)
      && (forall k :: k in q.labels <==> k in c)
      && q.nuclei[0].id == seed
      && q.nuclei[|q.nuclei| - 1].id == q.counter
  {
    var start := Seeded(c[0], date[c[0]], seed);
    assert Dedup([] + [c[0]]) == [c[0]] by {
      DedupSnoc([], c[0]);
    }
    StepsChain(start, c[1..], date, threshold, seed, [c[0]]);
    assert [c[0]] + c[1..] == c;
  }

  /**
   * Flushing a group appends, to each id's list, that group's photos with
   * this id, in the group's order; the counter is left alone.
   */
  lemma {:induction false} FlushMembers(out: Output, labels: map<int, int>, keys: seq<int>)
    requires forall k :: k in keys ==> k in labels
    ensures Flush(out, labels, keys).counter == out.counter
    ensures forall v ::
      SetDefault(Flush(out, labels, keys).cluster, v) == SetDefault(out.cluster, v) + Members(labels, keys, v)
  {
    if keys != [] {
      var m := |keys| - 1;
      FlushMembers(out, labels, keys[..m]);
      var o := Flush(out, labels, keys[..m]);
      var r := Flush(out, labels, keys);
      forall v ensures SetDefault(r.cluster, v) == SetDefault(out.cluster, v) + Members(labels, keys, v) {
        if labels[keys[m]] == v {
          assert SetDefault(r.cluster, v) == SetDefault(o.cluster, v) + [keys[m]];
        }
      }
    }
  }

  /** A successful run over the first `g + 1` groups is a successful run over the first `g`, then group `g`. */
  lemma {:induction false} GroupsStep(groups: seq<seq<int>>, date: map<int, int>, threshold: int, g: nat)
    requires g < |groups| && Groups(groups[..g + 1], date, threshold).Success?
    ensures Groups(groups[..g], date, threshold).Success?
    ensures var seed := Groups(groups[..g], date, threshold).value.counter;
      && SplitGroup(g, groups[g], date, seed, threshold).Success?
      && Groups(groups[..g + 1], date, threshold).value.counter == SplitGroup(g, groups[g], date, seed, threshold).value.counter
  {
    var gs := groups[..g + 1];
    assert gs[..g] == groups[..g] && gs[g] == groups[g];
    var out := Groups(groups[..g], date, threshold).value;
    var p := SplitGroup(g, groups[g], date, out.counter, threshold).value;
    FlushMembers(out.(counter := p.counter), p.labels, p.order);
  }

  /**
   * The counter is handed from one group to the next without being
   * advanced: group `g` seeds its first nucleus with the id of the last
   * nucleus of group `g - 1`, and the counter never decreases.
   */
  lemma {:induction false} SeedReusesLastId(groups: seq<seq<int>>, date: map<int, int>, threshold: int, g: nat)
    requires 1 <= g < |groups| && Groups(groups[..g + 1], date, threshold).Success?
    ensures Groups(groups[..g - 1], date, threshold).Success? && Groups(groups[..g], date, threshold).Success?
    ensures var before := Groups(groups[..g - 1], date, threshold).value.counter;
      SplitGroup(g - 1, groups[g - 1], date, before, threshold).Success?
    ensures var before := Groups(groups[..g - 1], date, threshold).value.counter;
      var prev := SplitGroup(g - 1, groups[g - 1], date, before, threshold).value;
      var seed := Groups(groups[..g], date, threshold).value.counter;
      && SplitGroup(g, groups[g], date, seed, threshold).Success?
      && seed == prev.counter >= before
      && SplitGroup(g, groups[g], date, seed, threshold).value.nuclei[0].id == prev.nuclei[|prev.nuclei| - 1].id
  {
    GroupsStep(groups, date, threshold, g);
    GroupsStep(groups, date, threshold, g - 1);
    var before := Groups(groups[..g - 1], date, threshold).value.counter;
    SplitGroupChain(g - 1, groups[g - 1], date, before, threshold);
    var seed := Groups(groups[..g], date, threshold).value.counter;
    SplitGroupChain(g, groups[g], date, seed, threshold);
  }

  /**
   * With a threshold of at most 1e17 seconds a merge always has a nucleus
   * to join, so the pass over dated photos cannot fail.
   */
  lemma {:induction false} StepsSucceed(p: Prov, items: seq<int>, date: map<int, int>, threshold: int)
    requires threshold as real <= Sentinel
    requires forall k :: k in items ==> k in date
    ensures Steps(p, items, date, threshold).Success?
  {
    if items != [] {
      var m := |items| - 1;
      assert forall k :: k in items[..m] ==> k in items;
      StepsSucceed(p, items[..m], date, threshold);
      assert items[m] in items;
    }
  }

  /**
   * A run fails only on an empty group, an undated photo or a threshold
   * above 1e17 seconds: without those, every group is split.
   */
  lemma {:induction false} GroupsSucceed(groups: seq<seq<int>>, date: map<int, int>, threshold: int)
    requires threshold as real <= Sentinel
    requires forall g :: 0 <= g < |groups| ==> groups[g] != []
    requires forall g, p :: 0 <= g < |groups| && p in groups[g] ==> p in date
    ensures Groups(groups, date, threshold).Success?
  {
    if groups != [] {
      var g := |groups| - 1;
      assert forall h :: 0 <= h < g ==> groups[..g][h] == groups[h];
      GroupsSucceed(groups[..g], date, threshold);
      var c := groups[g];
      var seed := Groups(groups[..g], date, threshold).value.counter;
      assert c[0] in c;
      assert forall k :: k in c[1..] ==> k in c;
      StepsSucceed(Seeded(c[0], date[c[0]], seed), c[1..], date, threshold);
    }
  }

  /** The photos of all the groups. */
  function AllPhotos(groups: seq<seq<int>>): (r: set<int>)
    ensures forall p :: p in r <==> exists g :: 0 <= g < |groups| && p in groups[g]
  {
    if groups == [] then {}
    else
      var g := |groups| - 1;
      var front := AllPhotos(groups[..g]);
      assert forall h :: 0 <= h < g ==> groups[..g][h] == groups[h];
      front + set p | p in groups[g]
  }

  /** No photo is in two groups (as with one group per owner). */
  ghost predicate Disjoint(groups: seq<seq<int>>) {
    forall g, h, p :: 0 <= g < h < |groups| && p in groups[g] ==> p !in groups[h]
  }

  /**
   * The shape of the result dictionary: `order` lists each of its keys
   * once, and no key holds an empty list.
   */
  ghost predicate Listed(out: Output) {
    && NoDup(out.order)
    && (forall v :: v in out.order <==> v in out.cluster)
    && (forall v :: v in out.cluster ==> out.cluster[v] != [])
  }

  /** Flushing a group keeps the dictionary's shape. */
  lemma {:induction false} FlushListed(out: Output, labels: map<int, int>, keys: seq<int>)
    requires forall k :: k in keys ==> k in labels
    requires Listed(out)
    ensures Listed(Flush(out, labels, keys))
  {
    if keys != [] {
      var m := |keys| - 1;
      FlushListed(out, labels, keys[..m]);
      var o := Flush(out, labels, keys[..m]);
      var k := keys[m];
      assert k in keys && k in labels;
      var v := labels[k];
      if v !in o.cluster {
        NoDupSnoc(o.order, v);
      }
    }
  }

  /**
   * Flushing a group whose photos are new to the dictionary leaves every
   * list free of repetitions, holding only photos seen so far.
   */
  lemma {:induction false} FlushWithin(out: Output, labels: map<int, int>, keys: seq<int>, photos: set<int>, all: set<int>)
    requires forall k :: k in keys ==> k in labels && k !in photos
    requires NoDup(keys) && ListsWithin(out.cluster, photos)
    requires forall p :: p in photos || p in keys ==> p in all
    ensures ListsWithin(Flush(out, labels, keys).cluster, all)
  {
    var r := Flush(out, labels, keys);
    FlushMembers(out, labels, keys);
    forall v ensures NoDup(SetDefault(r.cluster, v)) && forall p :: p in SetDefault(r.cluster, v) ==> p in all {
      MembersIn(labels, keys, v);
      MembersNoDup(labels, keys, v);
      NoDupConcat(SetDefault(out.cluster, v), Members(labels, keys, v));
    }
  }

  /** Flushing a group puts each of its photos in a list and takes none out. */
  lemma {:induction false} FlushCovers(out: Output, labels: map<int, int>, keys: seq<int>, photos: set<int>, all: set<int>)
    requires forall k :: k in keys ==> k in labels
    requires Covers(out.cluster, photos)
    requires forall p :: p in all ==> p in photos || p in keys
    ensures Covers(Flush(out, labels, keys).cluster, all)
  {
    var r := Flush(out, labels, keys);
    FlushMembers(out, labels, keys);
    forall p | p in all ensures exists v :: p in SetDefault(r.cluster, v) {
      if p in photos {
        var v :| p in SetDefault(out.cluster, v);
        assert p in SetDefault(r.cluster, v);
      } else {
        MembersIn(labels, keys, labels[p]);
        assert p in SetDefault(r.cluster, labels[p]);
      }
    }
  }

  /** Flushing a group whose photos are new to the dictionary puts no photo under two ids. */
  lemma {:induction false} FlushExclusive(out: Output, labels: map<int, int>, keys: seq<int>, photos: set<int>)
    requires forall k :: k in keys ==> k in labels && k !in photos
    requires Exclusive(out.cluster) && ListsWithin(out.cluster, photos)
    ensures Exclusive(Flush(out, labels, keys).cluster)
  {
    var r := Flush(out, labels, keys);
    FlushMembers(out, labels, keys);
    forall v, w, p | p in SetDefault(r.cluster, v) && p in SetDefault(r.cluster, w) ensures v == w {
      MembersIn(labels, keys, v);
      MembersIn(labels, keys, w);
      if p in photos {
        assert p in SetDefault(out.cluster, v) && p in SetDefault(out.cluster, w);
      } else {
        assert p in Members(labels, keys, v) && p in Members(labels, keys, w);
      }
    }
  }

  /**
   * Over groups no two of which share a photo, a successful run gives a
   * dictionary in which every photo of every group is in exactly one list,
   * exactly once, and the lists hold no other photo; `order` lists every
   * event id once and no event is empty.
   */
  lemma {:induction false} GroupsPartition(groups: seq<seq<int>>, date: map<int, int>, threshold: int)
    requires Groups(groups, date, threshold).Success? && Disjoint(groups)
    ensures var out := Groups(groups, date, threshold).value;
      Listed(out) && Partition(out.cluster, AllPhotos(groups))
  {
    if groups != [] {
      var g := |groups| - 1;
      var front := groups[..g];
      assert Disjoint(front) by {
        assert forall h :: 0 <= h < g ==> front[h] == groups[h];
      }
      GroupsPartition(front, date, threshold);
      var out := Groups(front, date, threshold).value;
      var c := groups[g];
      SplitGroupKeys(g, c, date, out.counter, threshold);
      var q := SplitGroup(g, c, date, out.counter, threshold).value;
      var o := out.(counter := q.counter);
      var photos := AllPhotos(front);
      assert forall p :: p in photos ==> p !in c by {
        assert forall h :: 0 <= h < g ==> front[h] == groups[h];
      }
      FlushPartition(o, q.labels, q.order, photos, AllPhotos(groups));
    }
  }

  /** A group split successfully lists each of its photos once, with a label. */
  lemma {:induction false} SplitGroupKeys(g: nat, c: seq<int>, date: map<int, int>, seed: int, threshold: int)
    requires SplitGroup(g, c, date, seed, threshold).Success?
    ensures var q := SplitGroup(g, c, date, seed, threshold).value;
      && NoDup(q.order)
      && (forall k :: k in q.order ==> k in q.labels)
      && (forall k :: k in q.order <==> k in c)
  {
    SplitGroupChain(g, c, date, seed, threshold);
  }

  /**
   * Flushing a group whose photos are new to the dictionary extends a
   * partition of the photos seen so far to one of these and the group's.
   */
  lemma {:induction false} FlushPartition(out: Output, labels: map<int, int>, keys: seq<int>, photos: set<int>, all: set<int>)
    requires forall k :: k in keys ==> k in labels && k !in photos
    requires NoDup(keys) && Listed(out) && Partition(out.cluster, photos)
    requires forall p :: p in all <==> p in photos || p in keys
    ensures Listed(Flush(out, labels, keys)) && Partition(Flush(out, labels, keys).cluster, all)
  {
    FlushListed(out, labels, keys);
    FlushWithin(out, labels, keys, photos, all);
    FlushCovers(out, labels, keys, photos, all);
    FlushExclusive(out, labels, keys, photos);
  }

  /**
   * One group taken at 0 s, 500 s and 5000 s with a one-hour threshold: the
   * second photo joins the first nucleus (whose representative moves to
   * 250 s) and the third opens nucleus 1.
   */
  lemma {:induction false} OneGroupExample(date: map<int, int>)
    requires date == map[1 := 0, 2 := 500, 3 := 5000]
    ensures SplitGroup(0, [1, 2, 3], date, 0, 3600) ==
      Success(Prov([Nucleus(0, 250.0), Nucleus(1, 5000.0)], 1, map[1 := 0, 2 := 0, 3 := 1], [1, 2, 3]))
  {
    var p0 := Seeded(1, 0, 0);
    var p1 := Prov([Nucleus(0, 250.0)], 0, map[1 := 0, 2 := 0], [1, 2]);
    var p2 := Prov([Nucleus(0, 250.0), Nucleus(1, 5000.0)], 1, map[1 := 0, 2 := 0, 3 := 1], [1, 2, 3]);
    assert Nearest(p0.nuclei, 500) == Scan(500.0, 0) by {
      assert p0.nuclei[..0] == [];
    }
    assert Step(p0, 2, 500, 3600) == Success(p1) by {
      assert p0.nuclei[0 := Nucleus(0, 0.0 + 500.0 / 2.0)] == p1.nuclei;
      assert p0.labels[2 := 0] == p1.labels;
      assert p0.order + [2] == p1.order;
    }
    assert Nearest(p1.nuclei, 5000) == Scan(4750.0, 0) by {
      assert p1.nuclei[..0] == [];
    }
    assert Step(p1, 3, 5000, 3600) == Success(p2) by {
      assert p1.nuclei + [Nucleus(1, 5000 as real)] == p2.nuclei;
      assert p1.labels[3 := 1] == p2.labels;
      assert p1.order + [3] == p2.order;
    }
    assert [2][..0] == [] && [2, 3][..1] == [2];
    assert Steps(p0, [2], date, 3600) == Success(p1);
    assert [1, 2, 3][1..] == [2, 3];
  }

  /**
   * The pass depends on the order of a group's photos. Photos at 0 s,
   * 3000 s and 5000 s with a one-hour threshold form one event when taken in
   * that order: the representative moves 0 -> 1500 -> 3250 s.
   * `OrderSensitivityExample` takes the same photos in another order.
   */
  lemma {:induction false} InOrderExample(date: map<int, int>)
    requires date == map[1 := 0, 2 := 3000, 3 := 5000]
    ensures SplitGroup(0, [1, 2, 3], date, 0, 3600) ==
      Success(Prov([Nucleus(0, 3250.0)], 0, map[1 := 0, 2 := 0, 3 := 0], [1, 2, 3]))
  {
    var p0 := Seeded(1, 0, 0);
    var p1 := Prov([Nucleus(0, 1500.0)], 0, map[1 := 0, 2 := 0], [1, 2]);
    var p2 := Prov([Nucleus(0, 3250.0)], 0, map[1 := 0, 2 := 0, 3 := 0], [1, 2, 3]);
    assert Nearest(p0.nuclei, 3000) == Scan(3000.0, 0) by { assert p0.nuclei[..0] == []; }
    assert Step(p0, 2, 3000, 3600) == Success(p1) by {
      assert p0.nuclei[0 := Nucleus(0, 0.0 + 3000.0 / 2.0)] == p1.nuclei;
      assert p0.labels[2 := 0] == p1.labels;
      assert p0.order + [2] == p1.order;
    }
    assert Nearest(p1.nuclei, 5000) == Scan(3500.0, 0) by { assert p1.nuclei[..0] == []; }
    assert Step(p1, 3, 5000, 3600) == Success(p2) by {
      assert p1.nuclei[0 := Nucleus(0, 1500.0 + 3500.0 / 2.0)] == p2.nuclei;
      assert p1.labels[3 := 0] == p2.labels;
      assert p1.order + [3] == p2.order;
    }
    assert [2][..0] == [] && [2, 3][..1] == [2];
    assert Steps(p0, [2], date, 3600) == Success(p1);
    assert [1, 2, 3][1..] == [2, 3];
  }

  /**
   * The photos of `InOrderExample` taken as 0 s, 5000 s, 3000 s form two
   * events: the second photo is too far from the first and opens an event of
   * its own, and the third, 2000 s from it but 3000 s from the first, joins
   * it, moving its representative away to 6000 s.
   */
  lemma {:induction false} OrderSensitivityExample(date: map<int, int>)
    requires date == map[1 := 0, 2 := 3000, 3 := 5000]
    ensures SplitGroup(0, [1, 3, 2], date, 0, 3600) ==
      Success(Prov([Nucleus(0, 0.0), Nucleus(1, 6000.0)], 1, map[1 := 0, 3 := 1, 2 := 1], [1, 3, 2]))
  {
    var p0 := Seeded(1, 0, 0);
    var q1 := Prov([Nucleus(0, 0.0), Nucleus(1, 5000.0)], 1, map[1 := 0, 3 := 1], [1, 3]);
    var q2 := Prov([Nucleus(0, 0.0), Nucleus(1, 6000.0)], 1, map[1 := 0, 3 := 1, 2 := 1], [1, 3, 2]);
    assert Nearest(p0.nuclei, 5000) == Scan(5000.0, 0) by { assert p0.nuclei[..0] == []; }
    assert Step(p0, 3, 5000, 3600) == Success(q1) by {
      assert p0.nuclei + [Nucleus(1, 5000 as real)] == q1.nuclei;
      assert p0.labels[3 := 1] == q1.labels;
      assert p0.order + [3] == q1.order;
    }
    assert Nearest(q1.nuclei, 3000) == Scan(2000.0, 1) by {
      assert q1.nuclei[..1] == [Nucleus(0, 0.0)] && q1.nuclei[..1][..0] == [];
      assert Nearest(q1.nuclei[..1], 3000) == Scan(3000.0, 0);
    }
    assert Step(q1, 2, 3000, 3600) == Success(q2) by {
      assert q1.nuclei[1 := Nucleus(1, 5000.0 + 2000.0 / 2.0)] == q2.nuclei;
      assert q1.labels[2 := 1] == q2.labels;
      assert q1.order + [2] == q2.order;
    }
    assert [3][..0] == [] && [3, 2][..1] == [3];
    assert Steps(p0, [3], date, 3600) == Success(q1);
    assert [1, 3, 2][1..] == [3, 2];
  }

  /**
   * Two owners with one photo each, eleven days apart: since the counter is
   * not advanced between groups, both photos land in event 0.
   */
  lemma {:induction false} SharedIdExample(d: Metadata)
    requires d == map[1 := Record("alice", 0), 2 := Record("bob", 1000000)]
    ensures ClusterDateSpec(d, [1, 2], [[1], [2]], 3600) == Success(map[0 := [1, 2]])
  {
    assert AllKnown(d, [1, 2]);
    var date := Dates(d, [1, 2]);
    assert date == map[1 := 0, 2 := 1000000] by {
      assert [1, 2][..1] == [1] && [1][..0] == [];
      assert Dates(d, [1]) == map[1 := 0];
      assert Dates(d, [1, 2]) == Dates(d, [1])[2 := 1000000];
    }
    SharedIdGroups(date);
  }

  /** The two single-photo groups of `SharedIdExample`, split and flushed one after the other. */
  lemma {:induction false} SharedIdGroups(date: map<int, int>)
    requires date == map[1 := 0, 2 := 1000000]
    ensures Groups([[1], [2]], date, 3600) == Success(Output(0, map[0 := [1, 2]], [0]))
  {
    var groups: seq<seq<int>> := [[1], [2]];
    assert groups[..1] == [[1]] && groups[..1][..0] == [] && groups[..2] == groups;
    assert [1][1..] == [] && [2][1..] == [];
    var out0 := Output(0, map[], []);
    var out1 := Output(0, map[0 := [1]], [0]);
    assert SplitGroup(0, [1], date, 0, 3600) == Success(Seeded(1, 0, 0));
    assert Flush(out0, map[1 := 0], [1]) == out1 by {
      assert [1][..0] == [];
      assert SetDefault(out0.cluster, 0) == [];
      assert [] + [1] == [1];
      assert out0.cluster[0 := [1]] == out1.cluster;
    }
    assert Groups(groups[..1], date, 3600) == Success(out1);
    assert SplitGroup(1, [2], date, 0, 3600) == Success(Seeded(2, 1000000, 0));
    assert Flush(out1, map[2 := 0], [2]) == Output(0, map[0 := [1, 2]], [0]) by {
      assert [2][..0] == [];
      assert SetDefault(out1.cluster, 0) == [1];
      assert [1] + [2] == [1, 2];
      assert out1.cluster[0 := [1, 2]] == map[0 := [1, 2]];
    }
  }

}
