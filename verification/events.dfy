/**
 * The event clustering as the driver chains it: `clusterUser` groups the
 * photos by owner, `clusterDate` splits the owner groups, taken in the
 * dictionary's key order 0, 1, ..., into events, and `print_result_file`
 * writes the events, which `Clustering.load` reads back.
 */
module Events {
  import opened Wrappers
  import opened Seqs
  import opened Photos
  import UserGrouping
  import DateSplitting
  import ResultFile
  import Clusterings

  /** `clusterU.values()`: the owner groups in key order. */
  function OwnerGroups(d: Metadata, imgs: seq<int>): (groups: seq<seq<int>>)
    requires AllKnown(d, imgs)
    ensures |groups| == |UserGrouping.Owners(d, imgs)|
    ensures forall g :: 0 <= g < |groups| ==>
      g in UserGrouping.UserGroups(d, imgs) && groups[g] == UserGrouping.UserGroups(d, imgs)[g]
  {
    var n := |UserGrouping.Owners(d, imgs)|;
    seq(n, g requires 0 <= g < n => UserGrouping.UserGroups(d, imgs)[g])
  }

  /**
   * The owner groups share no photo, none is empty, and together they hold
   * exactly the listed photos.
   */
  lemma {:induction false} OwnerGroupsSplitPhotos(d: Metadata, imgs: seq<int>)
    requires AllKnown(d, imgs)
    ensures DateSplitting.Disjoint(OwnerGroups(d, imgs))
    ensures forall g :: 0 <= g < |OwnerGroups(d, imgs)| ==> OwnerGroups(d, imgs)[g] != []
    ensures DateSplitting.AllPhotos(OwnerGroups(d, imgs)) == set p | p in imgs
  {
    var groups := OwnerGroups(d, imgs);
    var users := UserGrouping.UserGroups(d, imgs);
    forall g, h, p | 0 <= g < h < |groups| && p in groups[g]
      ensures p !in groups[h]
    {
      UserGrouping.UserGroupMembers(d, imgs, g, p);
      UserGrouping.ExactlyOneGroup(d, imgs, p);
    }
    forall g | 0 <= g < |groups| ensures groups[g] != [] {
      UserGrouping.GroupsNonEmptyNoDup(d, imgs, g);
    }
    forall p ensures p in DateSplitting.AllPhotos(groups) <==> p in imgs {
      if p in imgs {
        UserGrouping.ExactlyOneGroup(d, imgs, p);
        var g :| g in users && p in users[g];
        UserGrouping.UserGroupMembers(d, imgs, g, p);
        assert p in groups[g];
      }
      if p in DateSplitting.AllPhotos(groups) {
        var g :| 0 <= g < |groups| && p in groups[g];
        UserGrouping.UserGroupMembers(d, imgs, g, p);
      }
    }
    assert DateSplitting.AllPhotos(groups) == set p | p in imgs;
  }

  /**
   * `clusterDate` over the owner groups puts every listed photo in exactly
   * one event, exactly once, and no other photo in any event; no event is
   * empty.
   */
  lemma {:induction false} EventsPartition(d: Metadata, imgs: seq<int>, threshold: int, cluster: map<int, seq<int>>)
    requires AllKnown(d, imgs)
    requires DateSplitting.ClusterDateSpec(d, imgs, OwnerGroups(d, imgs), threshold) == Success(cluster)
    ensures Partition(cluster, set p | p in imgs)
    ensures forall v :: v in cluster ==> cluster[v] != []
  {
    var groups := OwnerGroups(d, imgs);
    var date := DateSplitting.Dates(d, imgs);
    DateSplitting.ClusterDateSpecGroups(d, imgs, groups, threshold);
    OwnerGroupsSplitPhotos(d, imgs);
    DateSplitting.GroupsPartition(groups, date, threshold);
  }

  /**
   * The result file of a dictionary that partitions `photos` writes no
   * photo twice, and loading it back gives every photo of `photos`, and no
   * other, the one event whose list holds it.
   */
  lemma {:induction false} PartitionFileLoads(out: DateSplitting.Output, photos: set<int>)
    requires DateSplitting.Listed(out) && Partition(out.cluster, photos)
    ensures forall v :: v in out.order ==> v in out.cluster
    ensures ResultFile.PhotosUnique(ResultFile.ResultPairs(out.cluster, out.order))
    ensures Clusterings.Loaded(ResultFile.ResultLines(out.cluster, out.order)).Success?
    ensures var forward := Clusterings.Loaded(ResultFile.ResultLines(out.cluster, out.order)).value.forward;
      && (forall p :: p in forward <==> p in photos)
      && (forall p :: p in forward ==> p in SetDefault(out.cluster, forward[p]))
  {
    ResultFile.ResultPairsUnique(out.cluster, out.order);
    ResultFile.ResultFileWithin(out.cluster, out.order, photos);
    ResultFile.ResultFileCovers(out.cluster, out.order, photos);
  }

  /**
   * With a record for every listed photo and a threshold of at most 1e17
   * seconds the clustering succeeds, no photo is written twice, and
   * reading the result file back with `Clustering.load` gives every listed
   * photo, and no other, the one event whose list holds it.
   */
  lemma {:induction false} EventsFileLoads(d: Metadata, imgs: seq<int>, threshold: int)
    requires AllKnown(d, imgs) && threshold as real <= DateSplitting.Sentinel
    ensures var r := DateSplitting.Groups(OwnerGroups(d, imgs), DateSplitting.Dates(d, imgs), threshold);
      && r.Success?
      && DateSplitting.ClusterDateSpec(d, imgs, OwnerGroups(d, imgs), threshold) == Success(r.value.cluster)
      && (forall v :: v in r.value.order <==> v in r.value.cluster)
      && ResultFile.PhotosUnique(ResultFile.ResultPairs(r.value.cluster, r.value.order))
      && Clusterings.Loaded(ResultFile.ResultLines(r.value.cluster, r.value.order)).Success?
      && var forward := Clusterings.Loaded(ResultFile.ResultLines(r.value.cluster, r.value.order)).value.forward;
        && (forall p :: p in forward <==> p in imgs)
        && (forall p :: p in forward ==> p in SetDefault(r.value.cluster, forward[p]))
  {
    var groups := OwnerGroups(d, imgs);
    var date := DateSplitting.Dates(d, imgs);
    EventsSucceed(d, imgs, threshold);
    DateSplitting.ClusterDateSpecGroups(d, imgs, groups, threshold);
    var out := DateSplitting.Groups(groups, date, threshold).value;
    OwnerGroupsSplitPhotos(d, imgs);
    DateSplitting.GroupsPartition(groups, date, threshold);
    PartitionFileLoads(out, set p | p in imgs);
  }

  /** With a record for every listed photo and a threshold of at most 1e17 seconds, `clusterDate` succeeds. */
  lemma {:induction false} EventsSucceed(d: Metadata, imgs: seq<int>, threshold: int)
    requires AllKnown(d, imgs) && threshold as real <= DateSplitting.Sentinel
    ensures DateSplitting.Groups(OwnerGroups(d, imgs), DateSplitting.Dates(d, imgs), threshold).Success?
  {
    var groups := OwnerGroups(d, imgs);
    var date := DateSplitting.Dates(d, imgs);
    OwnerGroupsSplitPhotos(d, imgs);
    forall g, p | 0 <= g < |groups| && p in groups[g] ensures p in date {
      assert p in DateSplitting.AllPhotos(groups);
    }
    DateSplitting.GroupsSucceed(groups, date, threshold);
  }
}
