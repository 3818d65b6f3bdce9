/**
 * The first pass of the event clustering: one group per photo owner
 * (`clusterUser`). Owners are numbered 0, 1, 2, ... in the order their first
 * photo appears in the list, and each group lists its photos in the order
 * they were first listed.
 */
module UserGrouping {
  import opened Wrappers
  import opened Seqs
  import opened Photos

  /** The only failure: a listed photo has no metadata record (KeyError). */
  datatype Error = MissingRecord(photo: int)

  /** The owner of each listed photo, position by position. */
  function Usernames(d: Metadata, imgs: seq<int>): (r: seq<string>)
    requires AllKnown(d, imgs)
    ensures |r| == |imgs| && forall i :: 0 <= i < |imgs| ==> r[i] == d[imgs[i]].username
  {
    seq(|imgs|, i requires 0 <= i < |imgs| => d[imgs[i]].username)
  }

  /** The distinct owners in order of first appearance; owner `g` gets group id `g`. */
  function Owners(d: Metadata, imgs: seq<int>): seq<string>
    requires AllKnown(d, imgs)
  {
    Dedup(Usernames(d, imgs))
  }

  /** The photos of `keys` owned by `u`, in order. */
  function OwnedBy(d: Metadata, keys: seq<int>, u: string): seq<int>
    requires forall k :: k in keys ==> k in d
  {
    if keys == [] then []
    else
      var last := keys[|keys| - 1];
      OwnedBy(d, keys[..|keys| - 1], u) + (if d[last].username == u then [last] else [])
  }

  /**
   * The dictionary `clusterUser` returns: group `g` holds the listed photos
   * of the `g`-th owner, each once, in order of first listing.
   */
  function UserGroups(d: Metadata, imgs: seq<int>): map<int, seq<int>>
    requires AllKnown(d, imgs)
  {
    var owners := Owners(d, imgs);
    var keys := Dedup(imgs);
    map g | 0 <= g < |owners| :: OwnedBy(d, keys, owners[g])
  }

  lemma {:induction false} OwnedByIn(d: Metadata, keys: seq<int>, u: string)
    requires forall k :: k in keys ==> k in d
    ensures forall p :: p in OwnedBy(d, keys, u) <==> p in keys && d[p].username == u
  {
    if keys != [] {
      OwnedByIn(d, keys[..|keys| - 1], u);
      assert keys == keys[..|keys| - 1] + [keys[|keys| - 1]];
    }
  }

  lemma {:induction false} OwnedByNoDup(d: Metadata, keys: seq<int>, u: string)
    requires NoDup(keys) && forall k :: k in keys ==> k in d
    ensures NoDup(OwnedBy(d, keys, u))
  {
    if keys != [] {
      var t := keys[..|keys| - 1];
      var last := keys[|keys| - 1];
      assert NoDup(t);
      OwnedByNoDup(d, t, u);
      OwnedByIn(d, t, u);
      assert last !in t by {
        forall i | 0 <= i < |t| ensures t[i] != last {
          assert t[i] == keys[i];
        }
      }
      if d[last].username == u {
        NoDupSnoc(OwnedBy(d, t, u), last);
      }
    }
  }

  /**
   * A photo is in group `g` exactly when it is listed and its owner is the
   * `g`-th owner to appear.
   */
  lemma {:induction false} UserGroupMembers(d: Metadata, imgs: seq<int>, g: int, p: int)
    requires AllKnown(d, imgs) && g in UserGroups(d, imgs)
    ensures 0 <= g < |Owners(d, imgs)|
    ensures p in UserGroups(d, imgs)[g] <==> p in imgs && d[p].username == Owners(d, imgs)[g]
  {
    OwnedByIn(d, Dedup(imgs), Owners(d, imgs)[g]);
  }

  /** Photos share a group exactly when they share an owner. */
  lemma {:induction false} SameGroupIffSameOwner(d: Metadata, imgs: seq<int>, g: int, p: int, q: int)
    requires AllKnown(d, imgs) && g in UserGroups(d, imgs)
    requires p in imgs && q in imgs && p in UserGroups(d, imgs)[g]
    ensures q in UserGroups(d, imgs)[g] <==> d[q].username == d[p].username
  {
    UserGroupMembers(d, imgs, g, p);
    UserGroupMembers(d, imgs, g, q);
  }

  /** Every listed photo sits in exactly one group: the group of its owner. */
  lemma {:induction false} ExactlyOneGroup(d: Metadata, imgs: seq<int>, p: int)
    requires AllKnown(d, imgs) && p in imgs
    ensures exists g :: g in UserGroups(d, imgs) && p in UserGroups(d, imgs)[g]
    ensures forall g, h ::
      (g in UserGroups(d, imgs) && h in UserGroups(d, imgs) &&
       p in UserGroups(d, imgs)[g] && p in UserGroups(d, imgs)[h]) ==> g == h
  {
    var owners := Owners(d, imgs);
    var groups := UserGroups(d, imgs);
    var names := Usernames(d, imgs);
    var i := IndexOf(imgs, p);
    assert names[i] in owners;
    var g := IndexOf(owners, d[p].username);
    assert g in groups;
    UserGroupMembers(d, imgs, g, p);
    forall g', h | g' in groups && h in groups && p in groups[g'] && p in groups[h]
      ensures g' == h
    {
      UserGroupMembers(d, imgs, g', p);
      UserGroupMembers(d, imgs, h, p);
    }
  }

  /** Groups are never empty and list each photo once, even one listed twice. */
  lemma {:induction false} GroupsNonEmptyNoDup(d: Metadata, imgs: seq<int>, g: int)
    requires AllKnown(d, imgs) && g in UserGroups(d, imgs)
    ensures UserGroups(d, imgs)[g] != [] && NoDup(UserGroups(d, imgs)[g])
  {
    var owners := Owners(d, imgs);
    var names := Usernames(d, imgs);
    OwnedByNoDup(d, Dedup(imgs), owners[g]);
    assert owners[g] in names;
    var i := IndexOf(names, owners[g]);
    UserGroupMembers(d, imgs, g, imgs[i]);
  }

  /** There are as many groups as distinct owners among the listed photos. */
  lemma {:induction false} GroupCount(d: Metadata, imgs: seq<int>)
    requires AllKnown(d, imgs)
    ensures |UserGroups(d, imgs)| == |(set i | 0 <= i < |imgs| :: d[imgs[i]].username)|
  {
    var names := Usernames(d, imgs);
    DedupCard(names);
    assert (set i | 0 <= i < |imgs| :: d[imgs[i]].username) == (set x | x in names) by {
      forall x | x in names ensures exists i :: 0 <= i < |imgs| && d[imgs[i]].username == x {
        var i := IndexOf(names, x);
      }
    }
    assert UserGroups(d, imgs).Keys == Range(|Owners(d, imgs)|);
  }

  /** Group ids follow the order in which owners first appear in the list. */
  lemma {:induction false} GroupsInFirstSeenOrder(d: Metadata, imgs: seq<int>, g: nat, h: nat)
    requires AllKnown(d, imgs) && g < h < |Owners(d, imgs)|
    ensures Owners(d, imgs)[g] in Usernames(d, imgs) && Owners(d, imgs)[h] in Usernames(d, imgs)
    ensures IndexOf(Usernames(d, imgs), Owners(d, imgs)[g]) < IndexOf(Usernames(d, imgs), Owners(d, imgs)[h])
  {
    DedupFirstSeenOrder(Usernames(d, imgs), g, h);
  }

  /**
   * `clusterUser` over an already-read photo list: number the owners as they
   * are met, label each photo with its owner's number, then gather the photos
   * by label (`setdefault(v, []).append(k)`).
   */
  method ClusterUser(d: Metadata, imgs: seq<int>) returns (r: Result<map<int, seq<int>>, Error>)
    ensures AllKnown(d, imgs) ==> r == Success(UserGroups(d, imgs))
    ensures !AllKnown(d, imgs) ==> r == Failure(MissingRecord(imgs[FirstMissing(d, imgs)]))
  {
    var ok, missing, clusterId, cluster, keys := LabelPhotos(d, imgs);
    if !ok {
      return Failure(MissingRecord(imgs[missing]));
    }
    assert forall k :: k in keys ==> k in cluster;
    var groups := Gather(cluster, keys);
    SameGroups(d, imgs, clusterId, cluster, groups);
    return Success(groups);
  }

  /**
   * The first loop of `clusterUser`: `ok` is false when a photo has no
   * record, and `missing` is then the position of the first such photo; otherwise `clusterId` numbers the owners in order of appearance
   * and `cluster` labels each photo (keys in insertion order `keys`) with
   * its owner's number.
   */
  method LabelPhotos(d: Metadata, imgs: seq<int>)
    returns (ok: bool, missing: nat, clusterId: map<string, int>, cluster: map<int, int>, keys: seq<int>)
    ensures ok <==> AllKnown(d, imgs)
    ensures !ok ==> missing == FirstMissing(d, imgs)
    ensures ok ==> Numbered(d, imgs, clusterId, |Owners(d, imgs)|)
    ensures ok ==> Labelled(d, imgs, clusterId, cluster, keys) && keys == Dedup(imgs)
  {
    clusterId := map[];
    var next := 0;
    cluster := map[];
    keys := [];
    for i := 0 to |imgs|
      invariant AllKnown(d, imgs[..i])
      invariant Numbered(d, imgs[..i], clusterId, next)
      invariant Labelled(d, imgs[..i], clusterId, cluster, keys)
    {
      var img := imgs[i];
      if img !in d {
        FirstMissingAt(d, imgs, i);
        return false, i, clusterId, cluster, keys;
      }
      var user := d[img].username;
      NumberStep(d, imgs, i, clusterId, next);
      ghost var before := clusterId;
      if user !in clusterId {
        clusterId := clusterId[user := next];
        next := next + 1;
      }
      LabelStep(d, imgs, i, before, cluster, keys, clusterId);
      keys := if img in cluster then keys else keys + [img];
      cluster := cluster[img := clusterId[user]];
    }
    assert imgs[..|imgs|] == imgs;
    return true, 0, clusterId, cluster, keys;
  }

  /**
   * The numbering of the first loop of `ClusterUser` after the photos `seen`:
   * `clusterId` numbers the owners met so far in order and `next` counts them.
   */
  ghost predicate Numbered(d: Metadata, seen: seq<int>, clusterId: map<string, int>, next: int)
    requires AllKnown(d, seen)
  {
    var owners := Owners(d, seen);
    && next == |owners|
    && (forall u :: u in clusterId <==> u in owners)
    && (forall g :: 0 <= g < |owners| ==> clusterId[owners[g]] == g)
  }

  /**
   * The labelling of the first loop of `ClusterUser` after the photos `seen`:
   * `cluster` holds each photo met so far (in insertion order `keys`) with
   * its owner's number.
   */
  ghost predicate Labelled(d: Metadata, seen: seq<int>, clusterId: map<string, int>,
                           cluster: map<int, int>, keys: seq<int>)
  {
    && keys == Dedup(seen)
    && (forall k :: k in cluster <==> k in keys)
    && (forall j :: 0 <= j < |keys| ==> keys[j] in d && d[keys[j]].username in clusterId)
    && (forall j :: 0 <= j < |keys| ==> cluster[keys[j]] == clusterId[d[keys[j]].username])
  }

  /** Listing one more photo adds its owner to the owners, unless already there. */
  lemma {:induction false} OwnersSnoc(d: Metadata, imgs: seq<int>, i: nat)
    requires i < |imgs| && AllKnown(d, imgs[..i]) && imgs[i] in d
    ensures AllKnown(d, imgs[..i + 1])
    ensures var user := d[imgs[i]].username;
      var owners := Owners(d, imgs[..i]);
      Owners(d, imgs[..i + 1]) == if user in owners then owners else owners + [user]
  {
    var user := d[imgs[i]].username;
    var before := Usernames(d, imgs[..i]);
    assert imgs[..i + 1] == imgs[..i] + [imgs[i]];
    assert Usernames(d, imgs[..i + 1]) == before + [user];
    DedupSnoc(before, user);
  }

  lemma {:induction false} NumberStep(d: Metadata, imgs: seq<int>, i: nat, clusterId: map<string, int>, next: int)
    requires i < |imgs| && AllKnown(d, imgs[..i]) && imgs[i] in d
    requires Numbered(d, imgs[..i], clusterId, next)
    ensures AllKnown(d, imgs[..i + 1])
    ensures var user := d[imgs[i]].username;
      if user in clusterId then Numbered(d, imgs[..i + 1], clusterId, next)
      else Numbered(d, imgs[..i + 1], clusterId[user := next], next + 1)
  {
    OwnersSnoc(d, imgs, i);
    var user := d[imgs[i]].username;
    if user !in clusterId {
      NoDupSnoc(Owners(d, imgs[..i]), user);
    }
  }

  lemma {:induction false} LabelStep(d: Metadata, imgs: seq<int>, i: nat, clusterId: map<string, int>,
                  cluster: map<int, int>, keys: seq<int>, ids: map<string, int>)
    requires i < |imgs| && imgs[i] in d
    requires Labelled(d, imgs[..i], clusterId, cluster, keys)
    requires forall u :: u in clusterId ==> u in ids && ids[u] == clusterId[u]
    requires d[imgs[i]].username in ids
    ensures var keys' := if imgs[i] in cluster then keys else keys + [imgs[i]];
      Labelled(d, imgs[..i + 1], ids, cluster[imgs[i] := ids[d[imgs[i]].username]], keys')
  {
    var img := imgs[i];
    var seen := imgs[..i];
    DedupSnoc(seen, img);
    assert imgs[..i + 1] == seen + [img];
  }

  /** The dictionary the two loops of `ClusterUser` build is `UserGroups`. */
  lemma {:induction false} SameGroups(d: Metadata, imgs: seq<int>, clusterId: map<string, int>,
                   cluster: map<int, int>, groups: map<int, seq<int>>)
    requires AllKnown(d, imgs)
    requires Numbered(d, imgs, clusterId, |Owners(d, imgs)|)
    requires Labelled(d, imgs, clusterId, cluster, Dedup(imgs))
    requires forall c :: SetDefault(groups, c) == Members(cluster, Dedup(imgs), c)
    requires forall c :: c in groups ==> groups[c] != []
    ensures groups == UserGroups(d, imgs)
  {
    var n := |Owners(d, imgs)|;
    LabelsAreOwnerNumbers(d, imgs, clusterId, cluster);
    GroupsCover(d, imgs, clusterId, cluster, groups);
    GroupsBounded(cluster, Dedup(imgs), groups, n);
    UserGroupsShape(d, imgs);
    SameDictionary(groups, UserGroups(d, imgs), n);
  }

  /** The label of every photo is the number of its owner. */
  lemma {:induction false} LabelsAreOwnerNumbers(d: Metadata, imgs: seq<int>, clusterId: map<string, int>,
                              cluster: map<int, int>)
    requires AllKnown(d, imgs)
    requires Numbered(d, imgs, clusterId, |Owners(d, imgs)|)
    requires Labelled(d, imgs, clusterId, cluster, Dedup(imgs))
    ensures forall k :: k in Dedup(imgs) ==>
      k in d && k in cluster && d[k].username in Owners(d, imgs) &&
      cluster[k] == clusterId[d[k].username] && 0 <= cluster[k] < |Owners(d, imgs)|
  {
    var owners := Owners(d, imgs);
    var keys := Dedup(imgs);
    forall k | k in keys
      ensures k in d && k in cluster && d[k].username in owners
      ensures cluster[k] == clusterId[d[k].username] && 0 <= cluster[k] < |owners|
    {
      var j := IndexOf(keys, k);
      var h := IndexOf(owners, d[k].username);
    }
  }

  /** Every owner number has its group, holding that owner's photos. */
  lemma {:induction false} GroupsCover(d: Metadata, imgs: seq<int>, clusterId: map<string, int>,
                    cluster: map<int, int>, groups: map<int, seq<int>>)
    requires AllKnown(d, imgs)
    requires Numbered(d, imgs, clusterId, |Owners(d, imgs)|)
    requires forall k :: k in Dedup(imgs) ==>
      k in d && k in cluster && d[k].username in Owners(d, imgs) && cluster[k] == clusterId[d[k].username]
    requires forall c :: SetDefault(groups, c) == Members(cluster, Dedup(imgs), c)
    ensures forall c :: 0 <= c < |Owners(d, imgs)| ==>
      c in groups && groups[c] == OwnedBy(d, Dedup(imgs), Owners(d, imgs)[c])
  {
    var owners := Owners(d, imgs);
    forall c | 0 <= c < |owners|
      ensures c in groups && groups[c] == OwnedBy(d, Dedup(imgs), owners[c])
    {
      MembersOwnedBy(d, Dedup(imgs), owners, clusterId, cluster, c);
      UserGroupsShape(d, imgs);
      GroupsNonEmptyNoDup(d, imgs, c);
    }
  }

  /** A group exists only for a label some key carries. */
  lemma {:induction false} GroupsBounded(cluster: map<int, int>, keys: seq<int>, groups: map<int, seq<int>>, n: int)
    requires forall k :: k in keys ==> k in cluster && 0 <= cluster[k] < n
    requires forall c :: SetDefault(groups, c) == Members(cluster, keys, c)
    requires forall c :: c in groups ==> groups[c] != []
    ensures forall c :: c in groups ==> 0 <= c < n
  {
    assert forall k :: k in keys ==> k in cluster;
    forall c | c in groups ensures 0 <= c < n {
      MembersIn(cluster, keys, c);
      var p := groups[c][0];
      assert p in Members(cluster, keys, c);
      assert p in keys && cluster[p] == c;
    }
  }

  lemma {:induction false} SameDictionary(a: map<int, seq<int>>, b: map<int, seq<int>>, n: int)
    requires forall c :: c in a <==> 0 <= c < n
    requires forall c :: c in b <==> 0 <= c < n
    requires forall c :: c in a ==> a[c] == b[c]
    ensures a == b
  {
    assert forall c :: c in a <==> c in b;
    assert forall c :: c in a ==> a[c] == b[c];
  }

  /** The keys of `UserGroups` are the owner numbers; key `g` holds the photos of owner `g`. */
  lemma {:induction false} UserGroupsShape(d: Metadata, imgs: seq<int>)
    requires AllKnown(d, imgs)
    ensures forall c :: c in UserGroups(d, imgs) <==> 0 <= c < |Owners(d, imgs)|
    ensures forall c :: 0 <= c < |Owners(d, imgs)| ==>
      UserGroups(d, imgs)[c] == OwnedBy(d, Dedup(imgs), Owners(d, imgs)[c])
  {
  }

  /** Labelling by owner number and filtering by owner pick the same photos. */
  lemma {:induction false} MembersOwnedBy(d: Metadata, keys: seq<int>, owners: seq<string>,
                                          clusterId: map<string, int>, cluster: map<int, int>, c: nat)
    requires c < |owners|
    requires forall k :: k in keys ==> k in d && k in cluster && d[k].username in owners
    requires forall g :: 0 <= g < |owners| ==> owners[g] in clusterId && clusterId[owners[g]] == g
    requires forall k :: k in keys ==> cluster[k] == clusterId[d[k].username]
    ensures Members(cluster, keys, c) == OwnedBy(d, keys, owners[c])
  {
    if keys != [] {
      var last := keys[|keys| - 1];
      MembersOwnedBy(d, keys[..|keys| - 1], owners, clusterId, cluster, c);
      var h := IndexOf(owners, d[last].username);
      assert cluster[last] == h;
    }
  }
}
