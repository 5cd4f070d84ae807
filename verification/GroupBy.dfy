/** The grouping machinery of apriltag_quad_thresh.c: hash chains, the sorted cluster lists they become, the
  merge of two lists and the tournament over all of them. */
module GroupBy {
  import opened Clusters

  // u64hash_2
  function Hash(id: nat): nat {
    (2654435761 * id % 0x1_0000_0000_0000_0000) / 0x1_0000_0000
  }

  function Bucket(id: nat, n: nat): nat
    requires n > 0
  {
    Hash(id) % n
  }

  // A plain group-by: the points emitted under an id, in order.
  function Select(es: seq<Emit>, id: nat): seq<Pt> {
    if es == [] then []
    else Select(es[..|es| - 1], id) + (if es[|es| - 1].id == id then [es[|es| - 1].p] else [])
  }

  lemma SelectAppend(es: seq<Emit>, e: Emit, id: nat)
    ensures Select(es + [e], id) == Select(es, id) + (if e.id == id then [e.p] else [])
  {
    assert (es + [e])[..|es|] == es;
  }

  lemma {:induction false} SelectConcat(a: seq<Emit>, b: seq<Emit>, id: nat)
    ensures Select(a + b, id) == Select(a, id) + Select(b, id)
  {
    if b == [] {
      assert a + b == a;
    } else {
      var last := |b| - 1;
      assert a + b == (a + b[..last]) + [b[last]];
      SelectAppend(a + b[..last], b[last], id);
      SelectConcat(a, b[..last], id);
    }
  }

  ghost predicate Emitted(es: seq<Emit>, id: nat) {
    exists k :: 0 <= k < |es| && es[k].id == id
  }

  lemma {:induction false} SelectEmptyIff(es: seq<Emit>, id: nat)
    ensures Select(es, id) == [] <==> !Emitted(es, id)
  {
    if es != [] {
      var last := |es| - 1;
      SelectEmptyIff(es[..last], id);
      if Emitted(es[..last], id) {
        var k :| 0 <= k < last && es[..last][k].id == id;
        assert es[k].id == id;
      }
    }
  }

  // ---- Cluster lists ----

  datatype Cluster = Cluster(hash: nat, id: nat, data: seq<Pt>)

  // The order of the lists: by hash, then by id.
  predicate Below(a: Cluster, b: Cluster) {
    a.hash < b.hash || (a.hash == b.hash && a.id < b.id)
  }

  ghost predicate ClusterOk(c: Cluster, es: seq<Emit>, n: nat) {
    n > 0 && c.hash == Bucket(c.id, n) && c.data == Select(es, c.id) && c.data != []
  }

  ghost predicate HasCluster(list: seq<Cluster>, id: nat) {
    exists i :: 0 <= i < |list| && list[i].id == id
  }

  ghost predicate Sorted(list: seq<Cluster>) {
    forall i, j :: 0 <= i < j < |list| ==> Below(list[i], list[j])
  }

  // The list is the group-by of es: every emitted id once, strictly sorted, with exactly its points in order.
  ghost predicate Groups(list: seq<Cluster>, es: seq<Emit>, n: nat) {
    && (forall i :: 0 <= i < |list| ==> ClusterOk(list[i], es, n))
    && Sorted(list)
    && forall k :: 0 <= k < |es| ==> HasCluster(list, es[k].id)
  }

  // There is only one such list.
  lemma {:induction false} GroupsUnique(a: seq<Cluster>, b: seq<Cluster>, es: seq<Emit>, n: nat)
    requires Groups(a, es, n) && Groups(b, es, n)
    ensures a == b
  {
    SameMembers(a, b, es, n);
    SameMembers(b, a, es, n);
    SortedUnique(a, b);
  }

  lemma SameMembers(a: seq<Cluster>, b: seq<Cluster>, es: seq<Emit>, n: nat)
    requires Groups(a, es, n) && Groups(b, es, n)
    ensures forall c :: c in a ==> c in b
  {
    forall c | c in a ensures c in b {
      assert ClusterOk(c, es, n);
      SelectEmptyIff(es, c.id);
      var k :| 0 <= k < |es| && es[k].id == c.id;
      assert HasCluster(b, es[k].id);
      var i :| 0 <= i < |b| && b[i].id == c.id;
      assert ClusterOk(b[i], es, n);
      assert b[i] == c;
    }
  }

  lemma NonEmptyHasMember(b: seq<Cluster>)
    ensures b != [] ==> exists c :: c in b
  {
    if b != [] {
      assert b[0] in b;
    }
  }

  lemma {:induction false} SortedUnique(a: seq<Cluster>, b: seq<Cluster>)
    requires Sorted(a) && Sorted(b)
    requires (forall c :: c in a ==> c in b) && (forall c :: c in b ==> c in a)
    ensures a == b
  {
    if a == [] {
      NonEmptyHasMember(b);
    } else {
      assert a[0] in b && b[0] in a;
      assert a[0] == b[0];
      forall c | c in a[1..] ensures c in b[1..] {
        var i :| 1 <= i < |a| && a[i] == c;
        assert Below(a[0], a[i]) && c in b;
      }
      forall c | c in b[1..] ensures c in a[1..] {
        var i :| 1 <= i < |b| && b[i] == c;
        assert Below(b[0], b[i]) && c in a;
      }
      SortedUnique(a[1..], b[1..]);
    }
  }

  // ---- merge_clusters ----

  // out holds the merge of the first i1 and i2 elements.
  ghost predicate Merging(c1: seq<Cluster>, c2: seq<Cluster>, out: seq<Cluster>, i1: nat, i2: nat,
                          e1: seq<Emit>, e2: seq<Emit>, n: nat)
    requires i1 <= |c1| && i2 <= |c2|
  {
    && (forall i :: 0 <= i < |out| ==> ClusterOk(out[i], e1 + e2, n)) && Sorted(out)
    && (forall i :: 0 <= i < i1 ==> HasCluster(out, c1[i].id))
    && (forall i :: 0 <= i < i2 ==> HasCluster(out, c2[i].id))
    && (i1 < |c1| ==> forall i :: 0 <= i < |out| ==> Below(out[i], c1[i1]))
    && (i2 < |c2| ==> forall i :: 0 <= i < |out| ==> Below(out[i], c2[i2]))
  }

  // An id missing from the list has no points.
  lemma MissingIsEmpty(list: seq<Cluster>, es: seq<Emit>, n: nat, id: nat)
    requires Groups(list, es, n) && !HasCluster(list, id)
    ensures Select(es, id) == []
  {
    SelectEmptyIff(es, id);
    forall k | 0 <= k < |es| ensures es[k].id != id {
      assert HasCluster(list, es[k].id);
    }
  }

  // Before the merge reaches it, nothing at or after position i of a sorted list can hold the id of a smaller cluster.
  lemma SmallerIsMissing(c: Cluster, list: seq<Cluster>, i: nat, out: seq<Cluster>, es: seq<Emit>, es': seq<Emit>, n: nat)
    requires Groups(list, es, n) && i <= |list|
    requires n > 0 && c.hash == Bucket(c.id, n) && (i < |list| ==> Below(c, list[i]))
    requires forall j :: 0 <= j < i ==> HasCluster(out, list[j].id)
    requires forall j :: 0 <= j < |out| ==> ClusterOk(out[j], es', n) && Below(out[j], c)
    ensures !HasCluster(list, c.id)
  {
    forall j | 0 <= j < |list| ensures list[j].id != c.id {
      if j < i {
        assert HasCluster(out, list[j].id);
        var k :| 0 <= k < |out| && out[k].id == list[j].id;
        assert ClusterOk(out[k], es', n);
      } else {
        assert ClusterOk(list[j], es, n);
        assert j == i || Below(list[i], list[j]);
      }
    }
  }

  lemma HasClusterGrows(out: seq<Cluster>, c: Cluster)
    ensures forall id :: HasCluster(out, id) ==> HasCluster(out + [c], id)
    ensures HasCluster(out + [c], c.id)
  {
    forall id | HasCluster(out, id) ensures HasCluster(out + [c], id) {
      var i :| 0 <= i < |out| && out[i].id == id;
      assert (out + [c])[i].id == id;
    }
    assert (out + [c])[|out|].id == c.id;
  }

  // Position j of a sorted list after its elements before position i: nothing taken, or the element c.
  ghost predicate Advances(list: seq<Cluster>, i: nat, j: nat, c: Cluster) {
    i <= j <= |list| &&
    if i == j then i < |list| ==> Below(c, list[i])
    else j == i + 1 && list[i].hash == c.hash && list[i].id == c.id
  }

  lemma TakenHeld(list: seq<Cluster>, out: seq<Cluster>, i: nat, j: nat, c: Cluster)
    requires Sorted(list) && Advances(list, i, j, c)
    requires forall k :: 0 <= k < i ==> HasCluster(out, list[k].id)
    requires i < |list| ==> forall k :: 0 <= k < |out| ==> Below(out[k], list[i])
    ensures forall k :: 0 <= k < j ==> HasCluster(out + [c], list[k].id)
    ensures j < |list| ==> forall k :: 0 <= k < |out + [c]| ==> Below((out + [c])[k], list[j])
  {
    HasClusterGrows(out, c);
    if i < j < |list| {
      assert Below(list[i], list[j]);
    }
  }

  // One element is appended to the output.
  lemma Append(c1: seq<Cluster>, c2: seq<Cluster>, out: seq<Cluster>, i1: nat, i2: nat, j1: nat, j2: nat,
               e1: seq<Emit>, e2: seq<Emit>, n: nat, c: Cluster)
    requires Sorted(c1) && Sorted(c2) && i1 <= |c1| && i2 <= |c2|
    requires Merging(c1, c2, out, i1, i2, e1, e2, n)
    requires ClusterOk(c, e1 + e2, n) && forall k :: 0 <= k < |out| ==> Below(out[k], c)
    requires Advances(c1, i1, j1, c) && Advances(c2, i2, j2, c)
    ensures Merging(c1, c2, out + [c], j1, j2, e1, e2, n)
  {
    TakenHeld(c1, out, i1, j1, c);
    TakenHeld(c2, out, i2, j2, c);
  }

  // The element both lists share is taken from both.
  lemma TakeBoth(c1: seq<Cluster>, c2: seq<Cluster>, out: seq<Cluster>, i1: nat, i2: nat,
                 e1: seq<Emit>, e2: seq<Emit>, n: nat, c: Cluster)
    requires Groups(c1, e1, n) && Groups(c2, e2, n) && i1 < |c1| && i2 < |c2|
    requires Merging(c1, c2, out, i1, i2, e1, e2, n)
    requires c1[i1].hash == c2[i2].hash && c1[i1].id == c2[i2].id
    requires c == c1[i1].(data := c1[i1].data + c2[i2].data)
    ensures Merging(c1, c2, out + [c], i1 + 1, i2 + 1, e1, e2, n)
  {
    assert ClusterOk(c1[i1], e1, n) && ClusterOk(c2[i2], e2, n);
    SelectConcat(e1, e2, c.id);
    Append(c1, c2, out, i1, i2, i1 + 1, i2 + 1, e1, e2, n, c);
  }

  // The smaller of the two next elements has points in its own list only.
  lemma SmallerOk(c: Cluster, list: seq<Cluster>, i: nat, out: seq<Cluster>, e1: seq<Emit>, e2: seq<Emit>, n: nat,
                  own: seq<Emit>, other: seq<Emit>)
    requires (own == e1 && other == e2) || (own == e2 && other == e1)
    requires ClusterOk(c, own, n) && Groups(list, other, n) && i <= |list| && (i < |list| ==> Below(c, list[i]))
    requires forall j :: 0 <= j < i ==> HasCluster(out, list[j].id)
    requires forall j :: 0 <= j < |out| ==> ClusterOk(out[j], e1 + e2, n) && Below(out[j], c)
    ensures ClusterOk(c, e1 + e2, n)
  {
    SmallerIsMissing(c, list, i, out, other, e1 + e2, n);
    MissingIsEmpty(list, other, n, c.id);
    SelectConcat(e1, e2, c.id);
  }

  lemma TakeFirst(c1: seq<Cluster>, c2: seq<Cluster>, out: seq<Cluster>, i1: nat, i2: nat,
                  e1: seq<Emit>, e2: seq<Emit>, n: nat)
    requires Groups(c1, e1, n) && Groups(c2, e2, n) && i1 < |c1| && i2 <= |c2|
    requires Merging(c1, c2, out, i1, i2, e1, e2, n)
    requires i2 < |c2| ==> Below(c1[i1], c2[i2])
    ensures Merging(c1, c2, out + [c1[i1]], i1 + 1, i2, e1, e2, n)
  {
    SmallerOk(c1[i1], c2, i2, out, e1, e2, n, e1, e2);
    Append(c1, c2, out, i1, i2, i1 + 1, i2, e1, e2, n, c1[i1]);
  }

  lemma TakeSecond(c1: seq<Cluster>, c2: seq<Cluster>, out: seq<Cluster>, i1: nat, i2: nat,
                   e1: seq<Emit>, e2: seq<Emit>, n: nat)
    requires Groups(c1, e1, n) && Groups(c2, e2, n) && i1 <= |c1| && i2 < |c2|
    requires Merging(c1, c2, out, i1, i2, e1, e2, n)
    requires i1 < |c1| ==> Below(c2[i2], c1[i1])
    ensures Merging(c1, c2, out + [c2[i2]], i1, i2 + 1, e1, e2, n)
  {
    SmallerOk(c2[i2], c1, i1, out, e1, e2, n, e2, e1);
    Append(c1, c2, out, i1, i2, i1, i2 + 1, e1, e2, n, c2[i2]);
  }

  lemma MergeDone(c1: seq<Cluster>, c2: seq<Cluster>, out: seq<Cluster>, e1: seq<Emit>, e2: seq<Emit>, n: nat)
    requires Groups(c1, e1, n) && Groups(c2, e2, n) && Merging(c1, c2, out, |c1|, |c2|, e1, e2, n)
    ensures Groups(out, e1 + e2, n)
  {
    forall k | 0 <= k < |e1 + e2| ensures HasCluster(out, (e1 + e2)[k].id) {
      if k < |e1| {
        assert HasCluster(c1, e1[k].id);
        var i :| 0 <= i < |c1| && c1[i].id == e1[k].id;
        assert HasCluster(out, c1[i].id);
      } else {
        assert HasCluster(c2, e2[k - |e1|].id);
        var i :| 0 <= i < |c2| && c2[i].id == e2[k - |e1|].id;
        assert HasCluster(out, c2[i].id);
      }
    }
  }

  // The body of the merge loop.
  method MergeStep(c1: seq<Cluster>, c2: seq<Cluster>, out: seq<Cluster>, i1: nat, i2: nat,
                   ghost e1: seq<Emit>, ghost e2: seq<Emit>, ghost n: nat)
    returns (ret: seq<Cluster>, j1: nat, j2: nat)
    requires Groups(c1, e1, n) && Groups(c2, e2, n) && i1 < |c1| && i2 < |c2|
    requires Merging(c1, c2, out, i1, i2, e1, e2, n)
    ensures i1 <= j1 <= |c1| && i2 <= j2 <= |c2| && i1 + i2 < j1 + j2
    ensures Merging(c1, c2, ret, j1, j2, e1, e2, n)
  {
    var h1, h2 := c1[i1], c2[i2];
    if h1.hash == h2.hash && h1.id == h2.id {
      TakeBoth(c1, c2, out, i1, i2, e1, e2, n, h1.(data := h1.data + h2.data));
      return out + [h1.(data := h1.data + h2.data)], i1 + 1, i2 + 1;
    } else if h2.hash < h1.hash || (h2.hash == h1.hash && h2.id < h1.id) {
      TakeSecond(c1, c2, out, i1, i2, e1, e2, n);
      return out + [h2], i1, i2 + 1;
    } else {
      TakeFirst(c1, c2, out, i1, i2, e1, e2, n);
      return out + [h1], i1 + 1, i2;
    }
  }

  // zarray_add_range of what is left of either list.
  method MergeRest(c1: seq<Cluster>, c2: seq<Cluster>, out: seq<Cluster>, i1: nat, i2: nat,
                   ghost e1: seq<Emit>, ghost e2: seq<Emit>, ghost n: nat)
    returns (ret: seq<Cluster>)
    requires Groups(c1, e1, n) && Groups(c2, e2, n) && i1 <= |c1| && i2 <= |c2| && (i1 == |c1| || i2 == |c2|)
    requires Merging(c1, c2, out, i1, i2, e1, e2, n)
    ensures Groups(ret, e1 + e2, n)
  {
    ret := out;
    var j1, j2 := i1, i2;
    while j1 < |c1|
      invariant j1 <= |c1| && Merging(c1, c2, ret, j1, i2, e1, e2, n)
    {
      TakeFirst(c1, c2, ret, j1, i2, e1, e2, n);
      ret := ret + [c1[j1]];
      j1 := j1 + 1;
    }
    while j2 < |c2|
      invariant j2 <= |c2| && Merging(c1, c2, ret, |c1|, j2, e1, e2, n)
    {
      TakeSecond(c1, c2, ret, |c1|, j2, e1, e2, n);
      ret := ret + [c2[j2]];
      j2 := j2 + 1;
    }
    MergeDone(c1, c2, ret, e1, e2, n);
  }

  // merge_clusters: the merge of two group-bys is the group-by of the concatenated points.
  method MergeClusters(c1: seq<Cluster>, c2: seq<Cluster>, ghost e1: seq<Emit>, ghost e2: seq<Emit>, ghost n: nat)
    returns (ret: seq<Cluster>)
    requires Groups(c1, e1, n) && Groups(c2, e2, n)
    ensures Groups(ret, e1 + e2, n)
  {
    ret := [];
    var i1, i2 := 0, 0;
    while i1 < |c1| && i2 < |c2|
      invariant i1 <= |c1| && i2 <= |c2| && Merging(c1, c2, ret, i1, i2, e1, e2, n)
      decreases |c1| - i1 + |c2| - i2
    {
      ret, i1, i2 := MergeStep(c1, c2, ret, i1, i2, e1, e2, n);
    }
    ret := MergeRest(c1, c2, ret, i1, i2, e1, e2, n);
  }

  // ---- The tournament ----

  // Everything emitted for lists[0..k-1], in order.
  ghost function Flatten(parts: seq<seq<Emit>>): seq<Emit> {
    if parts == [] then [] else Flatten(parts[..|parts| - 1]) + parts[|parts| - 1]
  }

  lemma {:induction false} FlattenConcat(a: seq<seq<Emit>>, b: seq<seq<Emit>>)
    ensures Flatten(a + b) == Flatten(a) + Flatten(b)
  {
    if b == [] {
      assert a + b == a;
    } else {
      var last := |b| - 1;
      assert (a + b)[..|a + b| - 1] == a + b[..last];
      FlattenConcat(a, b[..last]);
    }
  }

  lemma FlattenPair(a: seq<Emit>, b: seq<Emit>)
    ensures Flatten([a, b]) == a + b
  {
    assert [a, b][..1] == [a];
    assert [a][..0] == [];
    assert Flatten([a]) == a;
  }

  ghost predicate GroupsAt(lists: seq<seq<Cluster>>, parts: seq<seq<Emit>>, n: nat, k: nat) {
    k < |lists| && k < |parts| && Groups(lists[k], parts[k], n)
  }

  // lists[k] groups parts[k] for every k.
  ghost predicate AllGroup(lists: seq<seq<Cluster>>, parts: seq<seq<Emit>>, n: nat) {
    |lists| >= |parts| && forall k: nat :: k < |parts| ==> GroupsAt(lists, parts, n, k)
  }

  // During a round: the first `write` slots hold merged pairs, the slots from i on are still to be read.
  ghost predicate InRound(lists: seq<seq<Cluster>>, parts: seq<seq<Emit>>, merged: seq<seq<Emit>>, i: nat, n: nat)
    requires i <= |parts| <= |lists| && |merged| <= |lists|
  {
    && (forall k: nat :: k < |merged| ==> GroupsAt(lists, merged, n, k))
    && (forall k: nat :: i <= k < |parts| ==> GroupsAt(lists, parts, n, k))
    && Flatten(merged) == Flatten(parts[..i])
  }

  lemma PairFlattened(parts: seq<seq<Emit>>, merged: seq<seq<Emit>>, i: nat)
    requires i + 2 <= |parts| && Flatten(merged) == Flatten(parts[..i])
    ensures Flatten(merged + [parts[i] + parts[i + 1]]) == Flatten(parts[..i + 2])
  {
    assert parts[..i + 2] == parts[..i] + [parts[i], parts[i + 1]];
    FlattenConcat(parts[..i], [parts[i], parts[i + 1]]);
    FlattenPair(parts[i], parts[i + 1]);
    assert (merged + [parts[i] + parts[i + 1]])[..|merged|] == merged;
  }

  lemma LastFlattened(parts: seq<seq<Emit>>, merged: seq<seq<Emit>>, i: nat)
    requires i < |parts| && Flatten(merged) == Flatten(parts[..i])
    ensures Flatten(merged + [parts[i]]) == Flatten(parts[..i + 1])
  {
    assert parts[..i + 1][..i] == parts[..i];
    assert (merged + [parts[i]])[..|merged|] == merged;
  }

  lemma RoundStep(lists: seq<seq<Cluster>>, parts: seq<seq<Emit>>, merged: seq<seq<Emit>>, i: nat, j: nat, n: nat,
                  list: seq<Cluster>, part: seq<Emit>)
    requires i < j <= |parts| <= |lists| && |merged| <= i && InRound(lists, parts, merged, i, n)
    requires Groups(list, part, n) && Flatten(merged + [part]) == Flatten(parts[..j])
    ensures InRound(lists[|merged| := list], parts, merged + [part], j, n)
  {
    var lists', merged' := lists[|merged| := list], merged + [part];
    forall k: nat | k < |merged'| ensures GroupsAt(lists', merged', n, k) {
      assert k < |merged| ==> GroupsAt(lists, merged, n, k);
    }
    forall k: nat | j <= k < |parts| ensures GroupsAt(lists', parts, n, k) {
      assert GroupsAt(lists, parts, n, k);
    }
  }

  // Merges lists i and i + 1 into the next free slot.
  method MergeNeighbours(lists: array<seq<Cluster>>, write: nat, i: nat, ghost parts: seq<seq<Emit>>,
                         ghost merged: seq<seq<Emit>>, ghost n: nat)
    returns (ghost merged': seq<seq<Emit>>)
    requires i + 2 <= |parts| <= lists.Length && |merged| == write <= i && InRound(lists[..], parts, merged, i, n)
    modifies lists
    ensures |merged'| == write + 1 && InRound(lists[..], parts, merged', i + 2, n)
  {
    assert GroupsAt(lists[..], parts, n, i) && GroupsAt(lists[..], parts, n, i + 1);
    var pair := MergeClusters(lists[i], lists[i + 1], parts[i], parts[i + 1], n);
    PairFlattened(parts, merged, i);
    merged' := merged + [parts[i] + parts[i + 1]];
    ghost var before := lists[..];
    RoundStep(before, parts, merged, i, i + 2, n, pair, parts[i] + parts[i + 1]);
    lists[write] := pair;
    assert lists[..] == before[write := pair];
  }

  // Moves a list without a neighbour into the next free slot.
  method CarryOver(lists: array<seq<Cluster>>, write: nat, i: nat, ghost parts: seq<seq<Emit>>,
                   ghost merged: seq<seq<Emit>>, ghost n: nat)
    returns (ghost merged': seq<seq<Emit>>)
    requires i + 1 == |parts| <= lists.Length && |merged| == write <= i && InRound(lists[..], parts, merged, i, n)
    modifies lists
    ensures |merged'| == write + 1 && InRound(lists[..], parts, merged', i + 1, n)
  {
    LastFlattened(parts, merged, i);
    assert GroupsAt(lists[..], parts, n, i);
    merged' := merged + [parts[i]];
    ghost var before := lists[..];
    RoundStep(before, parts, merged, i, i + 1, n, before[i], parts[i]);
    lists[write] := lists[i];
    assert lists[..] == before[write := before[i]];
  }

  // One round: neighbours are merged pairwise and moved to the front, an odd last list is carried over.
  method TournamentRound(lists: array<seq<Cluster>>, length: nat, ghost parts: seq<seq<Emit>>, ghost n: nat)
    returns (ghost merged: seq<seq<Emit>>)
    requires 1 < length == |parts| <= lists.Length && AllGroup(lists[..], parts, n)
    modifies lists
    ensures AllGroup(lists[..], merged, n) && |merged| == length / 2 + length % 2
    ensures Flatten(merged) == Flatten(parts)
  {
    var write := 0;
    var i := 0;
    merged := [];
    while i < length - 1
      invariant i == 2 * write <= length && |merged| == write
      invariant InRound(lists[..], parts, merged, i, n)
    {
      merged := MergeNeighbours(lists, write, i, parts, merged, n);
      write := write + 1;
      i := i + 2;
    }
    if length % 2 != 0 {
      merged := CarryOver(lists, write, length - 1, parts, merged, n);
    }
    assert parts[..length] == parts;
  }

  // The tournament consumes every list once and keeps the order of the bands.
  method Tournament(lists: array<seq<Cluster>>, ghost parts: seq<seq<Emit>>, ghost n: nat)
    requires 0 < lists.Length == |parts| && AllGroup(lists[..], parts, n)
    modifies lists
    ensures Groups(lists[0], Flatten(parts), n)
  {
    var length := lists.Length;
    ghost var current := parts;
    while length > 1
      invariant 1 <= length == |current| <= lists.Length
      invariant AllGroup(lists[..], current, n) && Flatten(current) == Flatten(parts)
    {
      current := TournamentRound(lists, length, current, n);
      length := length / 2 + length % 2;
    }
    assert current == [current[0]] && current[..0] == [];
    assert GroupsAt(lists[..], current, n, 0);
    assert Flatten(current) == current[0];
  }
}
