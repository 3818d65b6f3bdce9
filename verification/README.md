# byzance event clustering: a Dafny model

byzance groups a collection of Flickr-style photos into social events. The
modelled core has three parts.

- **The `Clustering` container** (`scripts/clustering.py`). It is a dictionary
  from item id to cluster id that also keeps a reverse index from each cluster
  id to the ordered list of its members. Its operations are assignment,
  deletion, `to_list`, `save` and `load`.
- **The two-pass event clustering** (`scripts/DataReduction.py`).
  - `clusterUser` puts the photos into one group per owner, numbered 0, 1, …
    in the order the owners are first seen.
  - `clusterDate` splits every owner group into events by the date the photos
    were taken. It keeps a list of "nuclei", each a cluster id with a
    representative time. A photo joins the nearest nucleus when that nucleus
    is strictly closer than the threshold; otherwise it opens a new one. The
    cluster-id counter is shared by all groups.
  - `print_result_file` writes the result as one `photo<TAB>event` line per
    photo.
- **Evaluation helpers.**
  - `do_compute` (`scripts/groundtruth.py`) decides which hypothesis clusters
    are pure with respect to a reference clustering. It then fills the
    ground-truth matrix: 1 or 0 for two pure clusters with the same or
    different reference cluster, and -1 in the row and column of every impure
    cluster.
  - `computeUserMatrix` and `computeDateTakenMatrix`
    (`scripts/computeMatrix.py`) fill the pairwise same-owner and
    date-difference matrices over a photo list.

Modules, one file each:

- `wrappers.dfy`: `Option`, `Result` and `Outcome`.
- `seqs.dfy`: list helpers. These are `list.remove`, `dict.setdefault`, the
  first-seen order of a list, and grouping keys by a tag.
- `photos.dfy`: the metadata record of a photo.
- `text_format.dfy`: `'%d'` formatting, `int()` parsing, and whitespace
  `split()`.
- `clustering.dfy`: the `Clustering` class.
- `user_grouping.dfy`: `clusterUser`.
- `date_splitting.dfy`: `clusterDate`.
- `result_file.dfy`: `print_result_file`.
- `groundtruth.dfy`: `do_compute`.
- `pair_matrices.dfy`: the two pairwise matrices.
- `events.dfy`: the driver's chain `clusterUser`, then `clusterDate`, then
  `print_result_file`, then `Clustering.load` of the result file.

How the model is built:

- **Specification functions and the code that meets them.** Every mutating
  operation is specified by a function over values. The class or method that
  performs it step by step is proved to produce exactly that function's
  result. The properties are then lemmas about the functions.
- **Mutable state.** `Clustering` is a class whose fields are the forward
  map, the insertion order and the reverse index. The matrices are `array2`
  values that the methods fill cell by cell.
- **Dictionary iteration order.** Python dictionaries are modelled with
  their insertion order.

## Model

| member | source | states |
|---|---|---|
| Clusterings.Deleted | scripts/clustering.py:75-79 | after `del c[key]` the key has no cluster and every other item keeps its cluster |
| Clusterings.DeletedFrame | scripts/clustering.py:75-79 | `del c[key]` changes only the key's own list, which loses exactly the key and keeps the others in order; every other list is unchanged, and the key leaves the insertion order with the rest kept in order |
| Clusterings.Assigned | scripts/clustering.py:69-73 | after `c[key] = value` the key maps to `value`, it is the last member of `value`'s list, and no other item's cluster changes |
| Clusterings.DeletedConsistent | scripts/clustering.py:75-79 | deletion keeps the two directions consistent: every item is in its cluster's list, lists are non-empty and have no repeats, and an emptied list is dropped |
| Clusterings.InsertedConsistent | scripts/clustering.py:72-73 | inserting a fresh key and appending it to its cluster's list keeps the index consistent |
| Clusterings.AssignedConsistent | scripts/clustering.py:69-73 | assignment, with or without an earlier cluster for the key, keeps the index consistent |
| Clusterings.AssignedFrame | scripts/clustering.py:69-73 | assignment changes only the key's entry, the key's old list (the key removed) and the new list (the key moved to the end) |
| Clusterings.InExactlyOneList | scripts/clustering.py:50-60 | in a consistent index an item is in a cluster's list iff it is assigned to that cluster, so it is in exactly one list |
| Clusterings.ReplayConsistent | scripts/clustering.py:82-89 | assigning the pairs of a file in turn keeps the index consistent |
| Clusterings.ReplayForward | scripts/clustering.py:82-89 | after loading, each item has the cluster of its last line in the file |
| Clusterings.DocstringExample | scripts/clustering.py:30-60 | the class docstring example: the dictionary `{1:0, …, 6:2}`, `c[5] == 2`, `c.clusters[1] == [3, 4]`, `c.clusters[c[6]] == [5, 6]` |
| Clusterings.ReplayStep | scripts/clustering.py:86-88 | loading one more line is one more assignment |
| Clusterings.ParseLinesOfLines | scripts/clustering.py:82-94 | lines written as `'%d %d\n'` with any whitespace separator parse back to the pairs written |
| Clusterings.ParseLinesFailureStays | scripts/clustering.py:86-88 | the first malformed line decides the error of the whole load |
| Clusterings.Loaded | scripts/clustering.py:81-89 | a load that succeeds gives a consistent index whose dictionary holds, for each item, the value of its last line; a load that fails names the first line that is not two integers, every line before it being well formed |
| Clusterings.ParseLinesFirstMalformed | scripts/clustering.py:86-88 | a file that does not parse fails at a line that is not two integers, and every earlier line is two integers |
| Clusterings.ParseLinesAllWell | scripts/clustering.py:86-88 | every line of a file that parses is two integers |
| Clusterings.StoredPairs | scripts/clustering.py:91-94 | the saved pairs, replayed, give back exactly the saved items with their clusters |
| Clusterings.LoadSaveRoundTrip | scripts/clustering.py:82-94 | `load` of the lines `save` writes succeeds and gives back the same item-to-cluster dictionary |
| Clusterings.MembersConsistent | scripts/clustering.py:63-67 | the reverse index built from an initial dictionary is consistent with it |
| Clusterings.Clustering.constructor | scripts/clustering.py:63-67 | the new object holds the given dictionary, and each cluster's list holds its items in dictionary order |
| Clusterings.Clustering.Assign | scripts/clustering.py:69-73 | the object makes exactly the `Assigned` transition and stays consistent |
| Clusterings.Clustering.Delete | scripts/clustering.py:75-79 | for an assigned key: the `Deleted` transition; for an unassigned key: a KeyError and no change |
| Clusterings.Clustering.ToList | scripts/clustering.py:96-97 | the clusters of the items in order; fails iff some item is unassigned, reporting the first such item |
| Clusterings.Clustering.Save | scripts/clustering.py:91-94 | one line `'%d %d\n'` per item, in dictionary order, holding the item and its cluster |
| Clusterings.Clustering.Load | scripts/clustering.py:81-89 | a malformed line gives its error; otherwise a fresh, consistent object equal to the file's pairs assigned in turn |
| TextFormat.Word | scripts/clustering.py:87 | the leading token of a line: a prefix free of whitespace that ends at whitespace or at the end |
| TextFormat.Split | scripts/clustering.py:87 | `split()` yields only non-empty tokens free of whitespace, and no token at all exactly when the line is all whitespace |
| TextFormat.SplitKeepsText | scripts/clustering.py:87 | the tokens written one after another are exactly the line's non-whitespace characters, in order |
| TextFormat.SplitWord | scripts/clustering.py:87 | a run of non-whitespace that ends at whitespace or at the end of the line is one whole token |
| TextFormat.SplitSpace | scripts/clustering.py:87 | leading whitespace yields no token |
| TextFormat.ParseShowInt | scripts/clustering.py:88-94 | `int('%d' % i) == i` for every integer, negative ones included |
| TextFormat.ParseInt | scripts/clustering.py:88 | `int(token)` accepts only decimal digits with at most one leading sign and at least one digit; an unsigned token gives a non-negative value, a signed one with digits after the sign is always accepted, and only a leading `-` gives a negative value |
| TextFormat.SplitFormatLine | scripts/clustering.py:87-94 | splitting a written line gives back exactly its two numbers |
| Seqs.RemoveFirst | scripts/clustering.py:76 | `list.remove` drops one occurrence: the same list when the item is absent, otherwise one element fewer as a multiset |
| Seqs.RemoveFirstSplice | scripts/clustering.py:76 | `list.remove` of a present item drops exactly its first occurrence and keeps the elements before and after it in order |
| Seqs.RemoveFirstNoDup | scripts/clustering.py:76 | removing from a list without repeats leaves every other element and no repeats |
| Seqs.Gather | scripts/DataReduction.py:39-41 | the `setdefault(v, []).append(k)` loop: each tag's list is the keys with that tag, in key order, and no list is empty |
| Seqs.GroupedDomain | scripts/DataReduction.py:39-41 | the gathered dictionary has a list exactly for the tags some key carries |
| Photos.FirstMissing | scripts/DataReduction.py:31-33 | the position where the lookup loop first raises KeyError: a photo without a record, after only known photos |
| UserGrouping.ClusterUser | scripts/DataReduction.py:22-43 | `clusterUser`: a KeyError on the first photo without a record, otherwise exactly the owner groups `UserGroups` |
| UserGrouping.LabelPhotos | scripts/DataReduction.py:31-37 | the first loop of `clusterUser`: it stops at the first photo without a record; otherwise owners are numbered 0, 1, … in order of first appearance and every photo is labelled with its owner's number |
| UserGrouping.UserGroupMembers | scripts/DataReduction.py:31-41 | group `g` holds exactly the listed photos of the `g`-th owner in first-seen order |
| UserGrouping.SameGroupIffSameOwner | scripts/DataReduction.py:31-41 | two photos share a group iff they have the same owner |
| UserGrouping.ExactlyOneGroup | scripts/DataReduction.py:37-41 | every listed photo is in one group and in no other |
| UserGrouping.GroupsNonEmptyNoDup | scripts/DataReduction.py:39-41 | no group is empty and no group lists a photo twice |
| UserGrouping.GroupCount | scripts/DataReduction.py:34-36 | there are as many groups as distinct owners |
| UserGrouping.GroupsInFirstSeenOrder | scripts/DataReduction.py:34-36 | lower group ids belong to owners seen earlier in the photo list |
| UserGrouping.UserGroupsShape | scripts/DataReduction.py:34-41 | the group ids are exactly 0 up to the number of owners minus one |
| DateSplitting.Dates | scripts/DataReduction.py:53-56 | `date` holds exactly the listed photos, each with the time of its record, so a grouped photo that is not listed has no date |
| DateSplitting.Nearest | scripts/DataReduction.py:69-77 | the scan yields the first nucleus at minimal distance, or -1 with the 1e17 sentinel when none is closer than it |
| DateSplitting.ReadDates | scripts/DataReduction.py:53-56 | a KeyError on the first photo without a record, otherwise the dates of all photos |
| DateSplitting.NearestNucleus | scripts/DataReduction.py:69-77 | the `for k, d in noyau` loop computes exactly `Nearest` |
| DateSplitting.Place | scripts/DataReduction.py:67-85 | the body for one photo computes exactly `Step` |
| DateSplitting.SplitOne | scripts/DataReduction.py:62-85 | the pass over one group computes exactly `SplitGroup` |
| DateSplitting.FlushInto | scripts/DataReduction.py:86-87 | the flush loop computes exactly `Flush` |
| DateSplitting.ClusterDate | scripts/DataReduction.py:45-89 | `clusterDate` computes exactly `ClusterDateSpec`: missing record, empty group, unlisted photo, or the event dictionary |
| DateSplitting.StepMerges | scripts/DataReduction.py:72-81 | with a nucleus strictly within the threshold, the photo joins the first nearest one, that nucleus moves by half the distance, and nothing else changes |
| DateSplitting.StepOpens | scripts/DataReduction.py:78-85 | with every nucleus at or beyond the threshold, the photo opens nucleus `counter + 1` at its own time |
| DateSplitting.MergedRepresentative | scripts/DataReduction.py:79-80 | the update `old + min / 2` is the midpoint for a later photo but moves away from an earlier one |
| DateSplitting.StepChain | scripts/DataReduction.py:78-85 | one step keeps the nuclei numbered consecutively from the seed, with the counter at the last id and every label among them |
| DateSplitting.StepsChain | scripts/DataReduction.py:64-85 | the pass over further photos keeps the nuclei a chain, and the labelled photos become the first listings of all photos seen so far |
| DateSplitting.SplitGroupChain | scripts/DataReduction.py:61-85 | a split group labels exactly its photos; its first nucleus has the seed id and its last the counter |
| DateSplitting.FlushMembers | scripts/DataReduction.py:86-87 | flushing appends to each event's list that group's photos with this id, in order, and leaves the counter alone |
| DateSplitting.SeedReusesLastId | scripts/DataReduction.py:58-65 | the counter passes between groups unadvanced, so group `g`'s first nucleus reuses the last id of group `g - 1` |
| DateSplitting.OneGroupExample | scripts/DataReduction.py:62-85 | times 0, 500 and 5000 with threshold 3600 give nuclei 0 (moved to 250) and 1, and labels 0, 0, 1 |
| DateSplitting.InOrderExample | scripts/DataReduction.py:62-85 | times 0, 3000 and 5000 with threshold 3600, taken in that order, form one event whose representative moves 0 → 1500 → 3250 |
| DateSplitting.OrderSensitivityExample | scripts/DataReduction.py:62-85 | the same photos taken as 0, 5000, 3000 form two events: the 5000 photo opens event 1, and the 3000 photo, 2000 from it and 3000 from the first, joins it and moves its representative to 6000 |
| DateSplitting.SharedIdExample | scripts/DataReduction.py:58-87 | two single-photo groups of different owners, days apart, both land in event 0 |
| DateSplitting.SharedIdGroups | scripts/DataReduction.py:58-87 | the two groups of `SharedIdExample`, split and flushed in turn, give the one event 0 holding both photos |
| DateSplitting.StepsSucceed | scripts/DataReduction.py:66-85 | with a threshold of at most 1e17 seconds, the pass over dated photos never fails |
| DateSplitting.GroupsSucceed | scripts/DataReduction.py:61-87 | with a threshold of at most 1e17 seconds, non-empty groups of dated photos are all split without error |
| DateSplitting.SplitGroupKeys | scripts/DataReduction.py:62-85 | a split group's `cluster_prov` lists each photo of the group once, and only those, each with a label |
| DateSplitting.FlushListed | scripts/DataReduction.py:86-87 | flushing keeps the result dictionary's key order free of repeats and equal to its keys, and no event list empty |
| DateSplitting.FlushWithin | scripts/DataReduction.py:86-87 | flushing a group of new photos keeps every event list free of repeats and holding only photos seen so far |
| DateSplitting.FlushCovers | scripts/DataReduction.py:86-87 | after flushing, every photo seen so far, the group's included, is in some event list |
| DateSplitting.FlushExclusive | scripts/DataReduction.py:86-87 | flushing a group of new photos puts no photo under two event ids |
| DateSplitting.FlushPartition | scripts/DataReduction.py:86-87 | flushing a group of new photos extends a partition of the photos seen so far into events to one that also covers the group |
| DateSplitting.GroupsPartition | scripts/DataReduction.py:61-87 | over groups that share no photo, every photo of every group ends in exactly one event list, exactly once; the lists hold no other photo, no list is empty, and the key order lists each event once |
| ResultFile.ResultPairs | scripts/DataReduction.py:94-96 | every written pair is a photo listed under a listed event |
| ResultFile.ResultLines | scripts/DataReduction.py:91-98 | one line `'%d\t%d\n' % (photo, event)` per written pair |
| ResultFile.ResultPairsComplete | scripts/DataReduction.py:94-96 | every photo of every listed event is written together with that event |
| ResultFile.ResultPairsUnique | scripts/DataReduction.py:94-96 | when each event is listed once, no list repeats a photo, and no photo is under two events, no photo is written twice |
| ResultFile.ResultFileWithin | scripts/DataReduction.py:107-110 | loading the result file back gives a photo an event only when the photo is in that event's list |
| ResultFile.ResultFileCovers | scripts/DataReduction.py:107-110 | loading the result file back gives an event to every photo of every event's list |
| ResultFile.StoredUnique | scripts/clustering.py:86-88 | loading pairs whose photos are all different keeps every pair and adds none |
| ResultFile.ResultFileLoads | scripts/DataReduction.py:107-110 | reading the result file back with `Clustering.load` succeeds and, with no photo written twice, maps each photo to its event and nothing else |
| Events.OwnerGroupsSplitPhotos | scripts/DataReduction.py:31-43 | the groups `clusterDate` iterates over (`clusterU.values()`) share no photo, none is empty, and together they hold exactly the listed photos |
| Events.EventsPartition | scripts/DataReduction.py:104-105 | `clusterDate` over the `clusterUser` groups puts every listed photo in exactly one event, exactly once, no other photo in any event, and leaves no event empty |
| Events.EventsSucceed | scripts/DataReduction.py:104-105 | with a record for every photo and a threshold of at most 1e17 seconds, `clusterDate` over the `clusterUser` groups succeeds |
| Events.PartitionFileLoads | scripts/DataReduction.py:107-110 | the result file of a dictionary that partitions the photos writes no photo twice, and `Clustering.load` gives every one of those photos, and no other, the one event whose list holds it |
| Events.EventsFileLoads | scripts/DataReduction.py:104-110 | the driver's chain succeeds, and loading the result file back maps exactly the listed photos, each to the one event whose list holds it |
| Groundtruth.Ascending | scripts/groundtruth.py:59 | `sorted(...)` of the cluster ids: the same ids, strictly increasing |
| Groundtruth.SortedKeys | scripts/groundtruth.py:58-59 | computes exactly `Ascending` of the hypothesis cluster ids |
| Groundtruth.RefsOf | scripts/groundtruth.py:71 | the set of reference clusters of a member list; fails iff a member has no reference cluster, and then names one |
| Groundtruth.RefsOfFirstMissing | scripts/groundtruth.py:71 | the KeyError names the first member without a reference cluster: every member before it has one |
| Groundtruth.ClustersRef | scripts/groundtruth.py:69-75 | succeeds iff every member of every visited cluster has a reference cluster; then it holds exactly the visited clusters with their purity |
| Groundtruth.PurityOf | scripts/groundtruth.py:71-75 | the purity test for one cluster computes exactly `Purity` |
| Groundtruth.ReferenceClusters | scripts/groundtruth.py:69-75 | the `clustersRef` loop computes exactly `ClustersRef` |
| Groundtruth.PurityMeaning | scripts/groundtruth.py:67-75 | a cluster is pure iff it has members that all share one reference cluster, and that cluster is then the one recorded |
| Groundtruth.StrikeImpure | scripts/groundtruth.py:78-81 | an impure cluster's row and column become -1, and the cells settled so far stay as they were |
| Groundtruth.SettlePure | scripts/groundtruth.py:82-85 | a pure cluster's pairs with later pure clusters get 1 or 0, in both orders; fails iff a later pure id is out of range |
| Groundtruth.Fill | scripts/groundtruth.py:77-85 | fails iff some cluster id is outside the matrix; otherwise every cell holds -1, 0 or 1 as the comment at lines 61-64 describes |
| Groundtruth.DoCompute | scripts/groundtruth.py:57-85 | `do_compute`: a missing reference item gives its error; an id outside `0 … n-1` gives an index error; otherwise a fresh `n × n` ground-truth matrix |
| PairMatrices.UserRow | scripts/computeMatrix.py:11-20 | one row of pairs either meets an unknown photo, or fills the row's same-owner cells and their mirror images |
| PairMatrices.UserMatrix | scripts/computeMatrix.py:6-22 | `None` iff there are two or more photos and one is unknown; otherwise a matrix with 1 on the diagonal and, off it, 1 iff the owners agree, else 0 |
| PairMatrices.UserMatrixMatchesGroups | scripts/computeMatrix.py:11-17 | a user-matrix row holds 1 exactly at the photos of that row's `clusterUser` group |
| PairMatrices.DateRow | scripts/computeMatrix.py:29-39 | one row of pairs either meets an unknown photo, or fills the row's date-difference cells and their mirror images |
| PairMatrices.DateMatrix | scripts/computeMatrix.py:24-41 | `None` iff there are two or more photos and one is unknown; otherwise a symmetric, non-negative matrix of absolute date differences with 0 on the diagonal |

## Left out

- Reading input is not modelled: the photo list files, the JSON metadata (`readjson`) and the date strings (`strptime`). The metadata enters as a map from photo id to owner and time taken, with times as whole seconds. The photo list enters as a sequence of ids.
- Writing output is not modelled: files, `np.save` and the `print` messages. `Clustering.save` and `print_result_file` are modelled as the lines they write, and `Clustering.load` as a function of the lines it reads.
- `total_seconds()` is a float in the source. The model uses whole seconds for dates and reals only for the representatives that `min / 2` moves off whole seconds. `computeDateTakenMatrix`'s float matrix becomes an integer matrix.
- `DateSplitting.Step`: the source moves a representative by `timedelta(seconds=min / 2)` (scripts/DataReduction.py:79-80), which rounds to whole microseconds. The model keeps the exact real `rep + min / 2`. After repeated halvings, a distance or a tie within about a microsecond of the threshold, or of another nucleus, can therefore compare differently in the source.
- Python 2 dictionary iteration order is not modelled. Every dictionary is iterated in insertion order, while CPython 2 iterates in hash-table slot order, where a small integer key sits at its value modulo the table size:
  - `clusterUser`'s result `new_cluster` (scripts/DataReduction.py:39-41) has exactly the keys 0, 1, …, K-1, each in its own slot, so CPython's order is ascending, the same as the model's.
  - `clusterUser`'s `cluster` (scripts/DataReduction.py:37, iterated at :40) and `clusterDate`'s `cluster_prov` (scripts/DataReduction.py:65, 81, 85, iterated at :86) are keyed by photo id. CPython lists them in slot order of the photo ids, so the photo order within each owner group, which decides the events (`DateSplitting.OrderSensitivityExample`), and the order of photos within each event list can differ from the listing order the model uses (`UserGrouping.UserGroups` follows `imgs`).
  - `clusterDate`'s `noyau` (scripts/DataReduction.py:72) is keyed by nucleus ids, which run upward from the group's seed and can wrap past the table size into lower slots. The scan's tie-breaking toward the first equally near nucleus can then pick another nucleus than the model's creation order.
  - `clusterDate`'s result `cluster`, iterated by `print_result_file` (scripts/DataReduction.py:94), is keyed by event ids. The model writes events in the order they were first flushed, which can differ from CPython's order of the lines; the file loads back to the same dictionary either way, since every photo is written once.
- `Clusterings.Clustering.Save` writes items in insertion order. The source writes them in CPython's hash order.
- `DateSplitting.ClusterDate` receives the `clusterUser` groups as a list in dictionary order.
- When no nucleus is nearer than the 1e17-second sentinel, `clusterDate` would still merge using `indice` (assigned at scripts/DataReduction.py:77). That is a NameError only if no earlier photo of the call has bound `indice`; otherwise the stale index left by an earlier photo, possibly of an earlier group, is reused silently. The model reports this as the error `UnboundNearest`. It can only happen with a threshold above 1e17 seconds.
- `DateSplitting.ClusterDate` keeps two behaviours of the code as written, without correcting them:
  - the shared counter is not advanced between owner groups, so each group's first event reuses the previous group's last id (`SeedReusesLastId`, `SharedIdExample`);
  - a merge moves the representative by `min / 2` whatever the direction (`MergedRepresentative`).
- `Groundtruth.DoCompute` reports every negative hypothesis cluster id as `IndexOutOfRange`. numpy does so only for ids below `-n`; it wraps an id from `-n` to `-1` around to index from the end of the matrix. Ids of `n` or more are an IndexError in both.
- `Groundtruth.DoCompute` takes the hypothesis as its cluster-to-members index and the reference as its item-to-cluster dictionary. These are the two parts of the loaded `Clustering` objects that it reads.
- In `Groundtruth.DoCompute`, the cells of a matrix made with `np.empty` that the loop never writes do not occur: every id is in range and there are exactly `n` distinct ids, so every row and column is visited.
- `ResultFile.ResultFileLoads` requires that no photo is written twice. `ResultFile.ResultPairsUnique` and `Events.EventsFileLoads` show that this holds for the dictionary `clusterDate` builds from the `clusterUser` groups. For other dictionaries, with a repeated photo the later line wins, which `Clusterings.ReplayForward` states in general.
- The matrix functions `computeUserMatrix` and `computeDateTakenMatrix` take the photo list already read. Their `print` messages are not modelled.
- `computeDistanceMatrix` and `distance_on_unit_sphere` (geographic distances in floating point) are not part of this model.
- `color_histogram.py`, `cluster_distance.py`, `distance2probability.py`, the homogeneity and completeness metrics, and the command-line drivers are not part of this model.
