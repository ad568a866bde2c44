// The data join of a selection: which nodes of a group stay with a datum, which
// data need a new node, and which nodes are left over.
module DataJoin {
  import opened Basics

  // An element of the document with the datum bound to it.
  class Node<D> {
    var data: D

    constructor (data: D)
      ensures this.data == data
    {
      this.data := data;
    }
  }

  // ---- The join of keys ----

  ghost predicate IsFirst<K>(keys: seq<K>, i: nat)
    requires i < |keys|
  {
    forall h | 0 <= h < i :: keys[h] != keys[i]
  }

  lemma {:induction false} FirstExists<K>(keys: seq<K>, i: nat)
    requires i < |keys|
    ensures exists first :: 0 <= first <= i && keys[first] == keys[i] && IsFirst(keys, first)
  {
    if h :| 0 <= h < i && keys[h] == keys[i] {
      FirstExists(keys, h);
    } else {
      assert IsFirst(keys, i);
    }
  }

  ghost function FirstAt<K>(keys: seq<K>, k: K): (i: nat)
    requires k in keys
    ensures i < |keys| && keys[i] == k && IsFirst(keys, i)
  {
    var h :| 0 <= h < |keys| && keys[h] == k;
    FirstExists(keys, h);
    var i :| 0 <= i < |keys| && keys[i] == k && IsFirst(keys, i);
    i
  }

  lemma FirstIsUnique<K>(keys: seq<K>, i: nat, j: nat)
    requires i < |keys| && j < |keys| && IsFirst(keys, i) && IsFirst(keys, j) && keys[i] == keys[j]
    ensures i == j
  {
  }

  // The node that takes the datum at j, if one does.
  ghost function UpdateAt<K>(nodeKeys: seq<K>, dataKeys: seq<K>, j: nat): Option<nat>
    requires j < |dataKeys|
  {
    if IsFirst(dataKeys, j) && dataKeys[j] in nodeKeys then Some(FirstAt(nodeKeys, dataKeys[j])) else None
  }

  ghost predicate EntersAt<K>(nodeKeys: seq<K>, dataKeys: seq<K>, j: nat)
    requires j < |dataKeys|
  {
    IsFirst(dataKeys, j) && dataKeys[j] !in nodeKeys
  }

  ghost predicate ExitsAt<K>(nodeKeys: seq<K>, dataKeys: seq<K>, i: nat)
    requires i < |nodeKeys|
  {
    !IsFirst(nodeKeys, i) || nodeKeys[i] !in dataKeys
  }

  // Every node either leaves or takes exactly one datum, and that datum has its key.
  lemma NodesPartition<K>(nodeKeys: seq<K>, dataKeys: seq<K>, i: nat)
    requires i < |nodeKeys|
    ensures ExitsAt(nodeKeys, dataKeys, i) <==> forall j | 0 <= j < |dataKeys| ::
              UpdateAt(nodeKeys, dataKeys, j) != Some(i)
    ensures forall j | 0 <= j < |dataKeys| && UpdateAt(nodeKeys, dataKeys, j) == Some(i) :: dataKeys[j] == nodeKeys[i]
    ensures forall j, k | 0 <= j < |dataKeys| && 0 <= k < |dataKeys|
              && UpdateAt(nodeKeys, dataKeys, j) == Some(i) && UpdateAt(nodeKeys, dataKeys, k) == Some(i) :: j == k
  {
    if !ExitsAt(nodeKeys, dataKeys, i) {
      FirstIsUnique(nodeKeys, i, FirstAt(nodeKeys, nodeKeys[i]));
      assert UpdateAt(nodeKeys, dataKeys, FirstAt(dataKeys, nodeKeys[i])) == Some(i);
    }
    forall j, k | 0 <= j < |dataKeys| && 0 <= k < |dataKeys|
      && UpdateAt(nodeKeys, dataKeys, j) == Some(i) && UpdateAt(nodeKeys, dataKeys, k) == Some(i)
      ensures j == k
    {
      FirstIsUnique(dataKeys, j, k);
    }
  }

  // Every key among the data is served once, at its first occurrence, by an old
  // node or by a new one and never by both.
  lemma DataPartition<K>(nodeKeys: seq<K>, dataKeys: seq<K>, j: nat)
    requires j < |dataKeys|
    ensures IsFirst(dataKeys, j) <==> UpdateAt(nodeKeys, dataKeys, j).Some? || EntersAt(nodeKeys, dataKeys, j)
    ensures !(UpdateAt(nodeKeys, dataKeys, j).Some? && EntersAt(nodeKeys, dataKeys, j))
    ensures exists first :: 0 <= first <= j && dataKeys[first] == dataKeys[j] && IsFirst(dataKeys, first)
    ensures forall k | 0 <= k < |dataKeys| && dataKeys[k] == dataKeys[j] && IsFirst(dataKeys, j)
      && IsFirst(dataKeys, k) :: k == j
  {
    FirstExists(dataKeys, j);
    forall k | 0 <= k < |dataKeys| && dataKeys[k] == dataKeys[j] && IsFirst(dataKeys, j) && IsFirst(dataKeys, k)
      ensures k == j
    {
      FirstIsUnique(dataKeys, j, k);
    }
  }

  // In terms of the keys: a datum goes to the first node of its key when no datum before
  // it has that key, it enters when no node has it, and a node leaves when one before it
  // has its key or no datum has it.
  lemma JoinIs<K>(nodeKeys: seq<K>, dataKeys: seq<K>)
    ensures forall i, j | 0 <= i < |nodeKeys| && 0 <= j < |dataKeys| ::
              UpdateAt(nodeKeys, dataKeys, j) == Some(i)
              <==> nodeKeys[i] == dataKeys[j] && nodeKeys[i] !in nodeKeys[..i] && dataKeys[j] !in dataKeys[..j]
    ensures forall j | 0 <= j < |dataKeys| ::
              EntersAt(nodeKeys, dataKeys, j) <==> dataKeys[j] !in dataKeys[..j] && dataKeys[j] !in nodeKeys
    ensures forall i | 0 <= i < |nodeKeys| ::
              ExitsAt(nodeKeys, dataKeys, i) <==> nodeKeys[i] in nodeKeys[..i] || nodeKeys[i] !in dataKeys
  {
    forall i | 0 <= i < |nodeKeys| ensures IsFirst(nodeKeys, i) <==> nodeKeys[i] !in nodeKeys[..i] {}
    forall j | 0 <= j < |dataKeys| ensures IsFirst(dataKeys, j) <==> dataKeys[j] !in dataKeys[..j] {}
    forall i, j | 0 <= i < |nodeKeys| && 0 <= j < |dataKeys|
      ensures UpdateAt(nodeKeys, dataKeys, j) == Some(i)
              <==> nodeKeys[i] == dataKeys[j] && nodeKeys[i] !in nodeKeys[..i] && dataKeys[j] !in dataKeys[..j]
    {
      if dataKeys[j] in nodeKeys && IsFirst(nodeKeys, i) && nodeKeys[i] == dataKeys[j] {
        FirstIsUnique(nodeKeys, i, FirstAt(nodeKeys, dataKeys[j]));
      }
    }
  }

  // ---- bind ----

  ghost predicate Distinct<D>(group: seq<Node<D>>) {
    forall i, j | 0 <= i < j < |group| :: group[i] != group[j]
  }

  ghost predicate Bound<D>(node: Node?<D>, data: D)
    reads node
  {
    node != null ==> node.data == data
  }

  // The keys of the nodes as they are bound now.
  ghost function NodeKeys<D, K>(group: seq<Node<D>>, nodeKey: (Node<D>, D, nat) -> K): (keys: seq<K>)
    reads group
    ensures |keys| == |group| && forall i | 0 <= i < |keys| :: keys[i] == nodeKey(group[i], group[i].data, i)
  {
    seq(|group|, i requires 0 <= i < |group| reads group => nodeKey(group[i], group[i].data, i))
  }

  ghost function DataKeys<D, K>(groupData: seq<D>, key: (D, nat) -> K): (keys: seq<K>)
    ensures |keys| == |groupData| && forall j | 0 <= j < |keys| :: keys[j] == key(groupData[j], j)
  {
    seq(|groupData|, j requires 0 <= j < |groupData| => key(groupData[j], j))
  }

  // The three arrays hold the nodes and data of the join, and nothing elsewhere.
  lemma ArraysHold<D, K>(group: seq<Node<D>>, groupData: seq<D>, nodeKeys: seq<K>, dataKeys: seq<K>)
    requires |nodeKeys| == |group| && |dataKeys| == |groupData|
    ensures forall i, j | 0 <= i < |group| && 0 <= j < |groupData| && nodeKeys[i] == dataKeys[j]
                          && nodeKeys[i] !in nodeKeys[..i] && dataKeys[j] !in dataKeys[..j] ::
              Updated(group, nodeKeys, dataKeys, j) == group[i]
    ensures forall j | 0 <= j < |groupData| && (dataKeys[j] in dataKeys[..j] || dataKeys[j] !in nodeKeys) ::
              Updated(group, nodeKeys, dataKeys, j) == null
    ensures forall j | 0 <= j < |groupData| ::
              Entered(groupData, nodeKeys, dataKeys, j) ==
                if dataKeys[j] !in dataKeys[..j] && dataKeys[j] !in nodeKeys then Some(groupData[j]) else None
    ensures forall i | 0 <= i < |group| ::
              Exited(group, nodeKeys, dataKeys, i) ==
                if nodeKeys[i] in nodeKeys[..i] || nodeKeys[i] !in dataKeys then group[i] else null
  {
    JoinIs(nodeKeys, dataKeys);
    forall j | 0 <= j < |groupData| && (dataKeys[j] in dataKeys[..j] || dataKeys[j] !in nodeKeys)
      ensures Updated(group, nodeKeys, dataKeys, j) == null
    {
      if dataKeys[j] in nodeKeys {
        var h :| 0 <= h < j && dataKeys[h] == dataKeys[j];
        assert !IsFirst(dataKeys, j);
      }
    }
  }

  ghost function Updated<D, K>(group: seq<Node<D>>, nodeKeys: seq<K>, dataKeys: seq<K>, j: nat): (node: Node?<D>)
    requires |nodeKeys| == |group| && j < |dataKeys|
  {
    match UpdateAt(nodeKeys, dataKeys, j)
    case Some(i) => group[i]
    case None => null
  }

  ghost function Entered<D, K>(groupData: seq<D>, nodeKeys: seq<K>, dataKeys: seq<K>, j: nat): Option<D>
    requires |dataKeys| == |groupData| && j < |dataKeys|
  {
    if EntersAt(nodeKeys, dataKeys, j) then Some(groupData[j]) else None
  }

  ghost function Exited<D, K>(group: seq<Node<D>>, nodeKeys: seq<K>, dataKeys: seq<K>, i: nat): Node?<D>
    requires |nodeKeys| == |group| && i < |group|
  {
    if ExitsAt(nodeKeys, dataKeys, i) then group[i] else null
  }

  // The table of nodes by key: the first node of each key.
  ghost function Index<D, K>(group: seq<Node<D>>, keys: seq<K>): map<K, Node<D>>
    requires |keys| == |group|
  {
    if keys == [] then map[] else
    var last := |keys| - 1;
    var rest := Index(group[..last], keys[..last]);
    if keys[last] in rest then rest else rest[keys[last] := group[last]]
  }

  ghost function Served<K>(dataKeys: seq<K>, n: nat): set<K>
    requires n <= |dataKeys|
  {
    set j | 0 <= j < n :: dataKeys[j]
  }

  lemma {:induction false} IndexHoldsFirst<D, K>(group: seq<Node<D>>, keys: seq<K>)
    requires |keys| == |group|
    ensures forall k :: k in Index(group, keys) <==> k in keys
    ensures forall k | k in keys :: Index(group, keys)[k] == group[FirstAt(keys, k)]
  {
    if keys != [] {
      var last := |keys| - 1;
      var rest := keys[..last];
      IndexHoldsFirst(group[..last], rest);
      assert keys == rest + [keys[last]];
      forall k | k in rest ensures FirstAt(rest, k) == FirstAt(keys, k) {
        FirstIsUnique(keys, FirstAt(rest, k), FirstAt(keys, k));
      }
      if keys[last] !in rest { FirstIsUnique(keys, FirstAt(keys, keys[last]), last); }
    }
  }

  // The join with a key function. It is called on a node with the node's datum and
  // position, and on the data with a datum and its position.
  method BindByKey<D, K(==)>(
    group: seq<Node<D>>, groupData: seq<D>, nodeKey: (Node<D>, D, nat) -> K, key: (D, nat) -> K)
    returns (update: array<Node?<D>>, enter: array<Option<D>>, exit: array<Node?<D>>)
    modifies group
    ensures fresh(update) && fresh(enter) && fresh(exit)
    ensures update.Length == |groupData| && enter.Length == |groupData| && exit.Length == |group|
    ensures forall j | 0 <= j < |groupData| ::
              update[j] == Updated(group, old(NodeKeys(group, nodeKey)), DataKeys(groupData, key), j)
    ensures forall j | 0 <= j < |groupData| ::
              enter[j] == Entered(groupData, old(NodeKeys(group, nodeKey)), DataKeys(groupData, key), j)
    ensures forall i | 0 <= i < |group| ::
              exit[i] == Exited(group, old(NodeKeys(group, nodeKey)), DataKeys(groupData, key), i)
    ensures Distinct(group) ==> forall j | 0 <= j < |groupData| :: Bound(update[j], groupData[j])
    ensures Distinct(group) ==> forall i | 0 <= i < |group| && exit[i] != null :: exit[i].data == old(group[i].data)
  {
    ghost var nodeKeys, dataKeys := NodeKeys(group, nodeKey), DataKeys(groupData, key);
    update, enter := new Node?<D>[|groupData|](_ => null), new Option<D>[|groupData|](_ => None);
    exit := new Node?<D>[|group|](_ => null);
    var nodeByKey, keyValues := IndexNodes(group, nodeKey, nodeKeys, exit);
    nodeByKey := BindData(group, groupData, key, nodeByKey, nodeKeys, dataKeys, update, enter);
    Leave(group, keyValues, dataKeys, nodeByKey, exit);
  }

  // The first loop: the first node of each key is entered in the table, the others
  // leave.
  method IndexNodes<D, K(==)>(
    group: seq<Node<D>>, nodeKey: (Node<D>, D, nat) -> K, ghost nodeKeys: seq<K>, exit: array<Node?<D>>)
    returns (nodeByKey: map<K, Node<D>>, keyValues: seq<K>)
    requires |nodeKeys| == |group|
    requires forall i | 0 <= i < |group| :: nodeKeys[i] == nodeKey(group[i], group[i].data, i)
    requires exit.Length == |group| && forall i | 0 <= i < |group| :: exit[i] == null
    modifies exit
    ensures keyValues == nodeKeys && nodeByKey == Index(group, nodeKeys)
    ensures forall i | 0 <= i < |group| :: exit[i] == if IsFirst(nodeKeys, i) then null else group[i]
  {
    nodeByKey, keyValues := map[], [];
    for i := 0 to |group|
      invariant keyValues == nodeKeys[..i] && nodeByKey == Index(group[..i], nodeKeys[..i])
      invariant forall h | 0 <= h < i :: exit[h] == if IsFirst(nodeKeys, h) then null else group[h]
      invariant forall h | i <= h < |group| :: exit[h] == null
    {
      var keyValue := nodeKey(group[i], group[i].data, i);
      IndexNext(group, nodeKeys, i);
      if keyValue in nodeByKey {
        exit[i] := group[i];
      } else {
        nodeByKey := nodeByKey[keyValue := group[i]];
      }
      keyValues := keyValues + [keyValue];
    }
    assert group[..|group|] == group && nodeKeys[..|group|] == nodeKeys;
  }

  lemma IndexNext<D, K>(group: seq<Node<D>>, keys: seq<K>, i: nat)
    requires i < |keys| == |group|
    ensures IsFirst(keys, i) <==> keys[i] !in Index(group[..i], keys[..i])
    ensures var rest := Index(group[..i], keys[..i]);
            Index(group[..i + 1], keys[..i + 1]) == if keys[i] in rest then rest else rest[keys[i] := group[i]]
  {
    IndexHoldsFirst(group[..i], keys[..i]);
    assert group[..i + 1][..i] == group[..i] && keys[..i + 1][..i] == keys[..i];
  }

  // The second loop: a datum goes to the node of its key, or else to a new node
  // unless an earlier datum had the key.
  method BindData<D, K(==)>(
    group: seq<Node<D>>, groupData: seq<D>, key: (D, nat) -> K, nodes: map<K, Node<D>>,
    ghost nodeKeys: seq<K>, ghost dataKeys: seq<K>, update: array<Node?<D>>, enter: array<Option<D>>)
    returns (nodeByKey: map<K, Node<D>>)
    requires |nodeKeys| == |group| && nodes == Index(group, nodeKeys)
    requires |dataKeys| == |groupData| && forall j | 0 <= j < |dataKeys| :: dataKeys[j] == key(groupData[j], j)
    requires update.Length == |groupData| == enter.Length
    requires forall j | 0 <= j < |groupData| :: update[j] == null && enter[j] == None
    modifies group, update, enter
    ensures nodeByKey == nodes - Served(dataKeys, |dataKeys|)
    ensures forall j | 0 <= j < |groupData| :: update[j] == Updated(group, nodeKeys, dataKeys, j)
    ensures forall j | 0 <= j < |groupData| :: enter[j] == Entered(groupData, nodeKeys, dataKeys, j)
    ensures Distinct(group) ==> forall j | 0 <= j < |groupData| :: Bound(update[j], groupData[j])
    ensures Distinct(group) ==> forall i | 0 <= i < |group| && ExitsAt(nodeKeys, dataKeys, i) ::
                                  group[i].data == old(group[i].data)
  {
    nodeByKey := nodes;
    var dataByKey: map<K, D> := map[];
    for j := 0 to |groupData|
      invariant nodeByKey == nodes - Served(dataKeys, j) && dataByKey.Keys == Served(dataKeys, j)
      invariant forall h | 0 <= h < j :: update[h] == Updated(group, nodeKeys, dataKeys, h)
      invariant forall h | 0 <= h < j :: enter[h] == Entered(groupData, nodeKeys, dataKeys, h)
      invariant forall h | j <= h < |groupData| :: update[h] == null && enter[h] == None
      invariant Distinct(group) ==> forall h | 0 <= h < j :: Bound(update[h], groupData[h])
      invariant Distinct(group) ==>
                  forall i | 0 <= i < |group| && ExitsAt(nodeKeys, dataKeys, i) :: group[i].data == old(group[i].data)
    {
      var nodeData := groupData[j];
      var keyValue := key(nodeData, j);
      ServeKey(group, nodeKeys, dataKeys, j);
      if keyValue in nodeByKey {
        var node := nodeByKey[keyValue];
        if Distinct(group) { NotServedBefore(group, nodeKeys, dataKeys, j); }
        update[j] := node;
        node.data := nodeData;
      } else if keyValue !in dataByKey {
        enter[j] := Some(nodeData);
      }
      dataByKey := dataByKey[keyValue := nodeData];
      nodeByKey := nodeByKey - {keyValue};
    }
  }

  lemma ServeKey<D, K>(group: seq<Node<D>>, nodeKeys: seq<K>, dataKeys: seq<K>, j: nat)
    requires |nodeKeys| == |group| && j < |dataKeys|
    ensures Served(dataKeys, j + 1) == Served(dataKeys, j) + {dataKeys[j]}
    ensures var left := Index(group, nodeKeys) - Served(dataKeys, j);
            && Updated(group, nodeKeys, dataKeys, j) == (if dataKeys[j] in left then left[dataKeys[j]] else null)
            && (dataKeys[j] in left ==> IsFirst(dataKeys, j) && dataKeys[j] in nodeKeys
                                        && left[dataKeys[j]] == group[FirstAt(nodeKeys, dataKeys[j])])
            && (EntersAt(nodeKeys, dataKeys, j) <==> dataKeys[j] !in left && dataKeys[j] !in Served(dataKeys, j))
  {
    IndexHoldsFirst(group, nodeKeys);
    assert IsFirst(dataKeys, j) <==> dataKeys[j] !in Served(dataKeys, j);
  }

  // The third loop: nodes whose key is still in the table leave.
  method Leave<D, K(==)>(
    group: seq<Node<D>>, keyValues: seq<K>, ghost dataKeys: seq<K>, nodeByKey: map<K, Node<D>>, exit: array<Node?<D>>)
    requires |keyValues| == |group| == exit.Length
    requires nodeByKey == Index(group, keyValues) - Served(dataKeys, |dataKeys|)
    requires forall i | 0 <= i < |group| :: exit[i] == if IsFirst(keyValues, i) then null else group[i]
    modifies exit
    ensures forall i | 0 <= i < |group| :: exit[i] == Exited(group, keyValues, dataKeys, i)
  {
    IndexHoldsFirst(group, keyValues);
    for i := 0 to |group|
      invariant forall h | 0 <= h < i :: exit[h] == Exited(group, keyValues, dataKeys, h)
      invariant forall h | i <= h < |group| :: exit[h] == if IsFirst(keyValues, h) then null else group[h]
    {
      if keyValues[i] in nodeByKey {
        exit[i] := group[i];
      }
    }
  }

  lemma NotServedBefore<D, K>(group: seq<Node<D>>, nodeKeys: seq<K>, dataKeys: seq<K>, j: nat)
    requires Distinct(group) && |nodeKeys| == |group| && j < |dataKeys|
    requires IsFirst(dataKeys, j) && dataKeys[j] in nodeKeys
    ensures forall h | 0 <= h < j :: Updated(group, nodeKeys, dataKeys, h) != group[FirstAt(nodeKeys, dataKeys[j])]
    ensures forall i | 0 <= i < |group| && ExitsAt(nodeKeys, dataKeys, i) ::
              group[i] != group[FirstAt(nodeKeys, dataKeys[j])]
  {
    var i := FirstAt(nodeKeys, dataKeys[j]);
    forall h | 0 <= h < j ensures Updated(group, nodeKeys, dataKeys, h) != group[i] {
      assert dataKeys[h] != dataKeys[j];
    }
  }

  ghost predicate DistinctNodes<D>(group: seq<Node?<D>>) {
    forall i, j | 0 <= i < j < |group| && group[i] != null :: group[i] != group[j]
  }

  // The join by position: nodes missing from the group are replaced, surplus data
  // enter, surplus nodes leave.
  method BindByIndex<D>(group: seq<Node?<D>>, groupData: seq<D>)
    returns (update: array<Node?<D>>, enter: array<Option<D>>, exit: array<Node?<D>>)
    modifies set i | 0 <= i < |group| && group[i] != null :: group[i]
    ensures fresh(update) && fresh(enter) && fresh(exit)
    ensures update.Length == |groupData| && enter.Length == |groupData| && exit.Length == |group|
    ensures forall j | 0 <= j < |groupData| :: update[j] == if j < |group| then group[j] else null
    ensures forall j | 0 <= j < |groupData| :: enter[j] == if update[j] == null then Some(groupData[j]) else None
    ensures forall i | 0 <= i < |group| :: exit[i] == if i < |groupData| then null else group[i]
    ensures DistinctNodes(group) ==> forall j | 0 <= j < |groupData| :: Bound(update[j], groupData[j])
    ensures DistinctNodes(group) ==>
              forall i | |groupData| <= i < |group| && group[i] != null :: group[i].data == old(group[i].data)
  {
    update, enter := new Node?<D>[|groupData|](_ => null), new Option<D>[|groupData|](_ => None);
    exit := new Node?<D>[|group|](_ => null);
    var n0 := if |group| < |groupData| then |group| else |groupData|;
    BindPairs(group, groupData, n0, update, enter);
    var i := n0;
    while i < |groupData|
      modifies enter
      invariant n0 <= i && (i == n0 || i <= |groupData|)
      invariant forall j | 0 <= j < i && j < |groupData| ::
                  enter[j] == if update[j] == null then Some(groupData[j]) else None
    {
      enter[i] := Some(groupData[i]);
      i := i + 1;
    }
    while i < |group|
      modifies exit
      invariant |groupData| <= i
      invariant forall h | 0 <= h < |group| :: exit[h] == if |groupData| <= h < i then group[h] else null
    {
      exit[i] := group[i];
      i := i + 1;
    }
  }

  // The loop over the positions that have both a place in the group and a datum.
  method BindPairs<D>(group: seq<Node?<D>>, groupData: seq<D>, n0: nat, update: array<Node?<D>>,
                      enter: array<Option<D>>)
    requires n0 <= |group| && n0 <= |groupData| && update.Length == |groupData| == enter.Length
    requires forall j | 0 <= j < |groupData| :: update[j] == null && enter[j] == None
    modifies update, enter, set i | 0 <= i < |group| && group[i] != null :: group[i]
    ensures forall j | 0 <= j < |groupData| :: update[j] == if j < n0 then group[j] else null
    ensures forall j | 0 <= j < |groupData| ::
              enter[j] == if j < n0 && group[j] == null then Some(groupData[j]) else None
    ensures DistinctNodes(group) ==> forall j | 0 <= j < n0 :: Bound(group[j], groupData[j])
    ensures DistinctNodes(group) ==> forall i | n0 <= i < |group| && group[i] != null ::
              group[i].data == old(group[i].data)
  {
    for i := 0 to n0
      invariant forall j | 0 <= j < |groupData| :: update[j] == if j < i then group[j] else null
      invariant forall j | 0 <= j < |groupData| ::
                  enter[j] == if j < i && group[j] == null then Some(groupData[j]) else None
      invariant DistinctNodes(group) ==> forall j | 0 <= j < i :: Bound(group[j], groupData[j])
      invariant DistinctNodes(group) ==> forall h | i <= h < |group| && group[h] != null ::
                  group[h].data == old(group[h].data)
    {
      var node := group[i];
      if node != null {
        node.data := groupData[i];
        update[i] := node;
      } else {
        enter[i] := Some(groupData[i]);
      }
    }
  }
}
