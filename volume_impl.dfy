/** `VolumeImpl`: one durable tree of nodes, each holding a value and its
    children by name, and the count of mounts that use the volume. Nodes are
    shared pointers in the program; here every node lives in the volume's
    arena `nodes` under an identity, and a pointer is that identity. */
module Volume {
  import opened Common
  import opened PathView
  import opened Tracing
  import BaseImpl

  /** The identity of a node: what a `shared_ptr<Node>` points to. */
  type NodeId = nat

  /** A durable node (VolumeImpl.cpp:13-20): its value, always present, and its
      children by name. */
  datatype Node = Node(value: Value, children: map<string, NodeId>)

  /** `std::make_shared<Node>()`: the default value and no children. */
  const FreshNode := Node(Monostate, map[])

  /** The child of `n` under `name`, as `Node::GetChild` finds it. */
  function ChildIn(nodes: map<NodeId, Node>, n: NodeId, name: string): Option<NodeId>
  {
    if n in nodes && name in nodes[n].children then Some(nodes[n].children[name]) else None
  }

  /** The arena seen as the `child` function of the tree engine. */
  function ChildOf(nodes: map<NodeId, Node>): (child: (NodeId, string) -> Option<NodeId>)
    ensures forall n, name :: child(n, name) == ChildIn(nodes, n, name)
  {
    (n: NodeId, name: string) => ChildIn(nodes, n, name)
  }

  /** The node `keys` leads to from `from`. */
  function Find(nodes: map<NodeId, Node>, from: NodeId, keys: seq<string>): Option<NodeId>
  {
    BaseImpl.Resolve(ChildOf(nodes), from, keys)
  }

  /** What `Get` reads at `keys` below `from`: the value of the node the path
      leads to, or nothing when some key is missing. */
  function ValueAt(nodes: map<NodeId, Node>, from: NodeId, keys: seq<string>): Option<Value>
  {
    match Find(nodes, from, keys)
    case None => None
    case Some(n) => if n in nodes then Some(nodes[n].value) else None
  }

  /** The arena after `DeleteChild(name)` on `n`: only that entry of `n`'s
      children is gone. */
  function WithoutChild(nodes: map<NodeId, Node>, n: NodeId, name: string): map<NodeId, Node>
    requires n in nodes
  {
    nodes[n := nodes[n].(children := nodes[n].children - {name})]
  }

  // ---------------------------------------------------------------------------
  // The tree shape

  /** Every node hangs from at most one other node, under one key, and the
      root from none: `parent` records that edge. Every child is allocated. */
  ghost predicate TreeShaped(nodes: map<NodeId, Node>, parent: map<NodeId, (NodeId, string)>, root: NodeId)
  {
    && root in nodes && root !in parent
    && (forall n, name :: n in nodes && name in nodes[n].children ==>
          && nodes[n].children[name] in nodes
          && nodes[n].children[name] in parent
          && parent[nodes[n].children[name]] == (n, name))
    && (forall c :: c in parent ==>
          && parent[c].0 in nodes
          && parent[c].1 in nodes[parent[c].0].children
          && nodes[parent[c].0].children[parent[c].1] == c)
  }

  /** Following keys from an allocated node only reaches allocated nodes. */
  lemma {:induction false} FindStaysInArena(
      nodes: map<NodeId, Node>, parent: map<NodeId, (NodeId, string)>, root: NodeId, from: NodeId, keys: seq<string>)
    requires TreeShaped(nodes, parent, root) && from in nodes
    ensures Find(nodes, from, keys).Some? ==> Find(nodes, from, keys).value in nodes
    decreases |keys|
  {
    if keys != [] {
      var c := ChildIn(nodes, from, keys[0]);
      if c.Some? {
        FindStaysInArena(nodes, parent, root, c.value, keys[1..]);
      }
    }
  }

  /** `Get` finds a value exactly where the path exists: a node always holds
      one. */
  lemma ValueAtIffFound(nodes: map<NodeId, Node>, parent: map<NodeId, (NodeId, string)>, root: NodeId, keys: seq<string>)
    requires TreeShaped(nodes, parent, root)
    ensures ValueAt(nodes, root, keys).Some? <==> Find(nodes, root, keys).Some?
  {
    FindStaysInArena(nodes, parent, root, root, keys);
  }

  /** The node a non-empty path leads to hangs, under the path's last key,
      from the node the rest of the path leads to. */
  lemma LastEdge(nodes: map<NodeId, Node>, parent: map<NodeId, (NodeId, string)>, root: NodeId, p: seq<string>)
    requires TreeShaped(nodes, parent, root)
    requires p != [] && Find(nodes, root, p).Some?
    ensures Find(nodes, root, p[..|p| - 1]).Some?
    ensures Find(nodes, root, p).value in parent
    ensures parent[Find(nodes, root, p).value] == (Find(nodes, root, p[..|p| - 1]).value, p[|p| - 1])
  {
    assert p == p[..|p| - 1] + [p[|p| - 1]];
    BaseImpl.ResolveSnoc(ChildOf(nodes), root, p[..|p| - 1], p[|p| - 1]);
  }

  /** Two paths that lead to the same node are the same path. */
  lemma {:induction false} UniquePaths(
      nodes: map<NodeId, Node>, parent: map<NodeId, (NodeId, string)>, root: NodeId, p: seq<string>, q: seq<string>)
    requires TreeShaped(nodes, parent, root)
    requires Find(nodes, root, p).Some? && Find(nodes, root, p) == Find(nodes, root, q)
    ensures p == q
    decreases |p| + |q|
  {
    if p != [] && q != [] {
      LastEdge(nodes, parent, root, p);
      LastEdge(nodes, parent, root, q);
      UniquePaths(nodes, parent, root, p[..|p| - 1], q[..|q| - 1]);
      assert p == p[..|p| - 1] + [p[|p| - 1]];
      assert q == q[..|q| - 1] + [q[|q| - 1]];
    } else {
      if p != [] {
        LastEdge(nodes, parent, root, p);
      }
      if q != [] {
        LastEdge(nodes, parent, root, q);
      }
    }
  }

  // ---------------------------------------------------------------------------
  // Deleting one child

  /** Unlinking the child `name` of the node `prefix` leads to changes nothing
      for a path that does not go through that child. */
  lemma {:induction false} UnlinkKeepsOtherPaths(
      nodes: map<NodeId, Node>, parent: map<NodeId, (NodeId, string)>, root: NodeId,
      prefix: seq<string>, p: NodeId, name: string, q: seq<string>)
    requires TreeShaped(nodes, parent, root)
    requires Find(nodes, root, prefix) == Some(p) && p in nodes
    requires !(prefix + [name] <= q)
    ensures Find(WithoutChild(nodes, p, name), root, q) == Find(nodes, root, q)
    decreases |q|
  {
    if q != [] {
      var front, k := q[..|q| - 1], q[|q| - 1];
      assert q == front + [k];
      assert front <= q;
      UnlinkKeepsOtherPaths(nodes, parent, root, prefix, p, name, front);
      var after := WithoutChild(nodes, p, name);
      BaseImpl.ResolveSnoc(ChildOf(nodes), root, front, k);
      BaseImpl.ResolveSnoc(ChildOf(after), root, front, k);
      var y := Find(nodes, root, front);
      if y == Some(p) {
        UniquePaths(nodes, parent, root, front, prefix);
      }
    }
  }

  /** After the unlink, no path through the removed child leads anywhere. */
  lemma UnlinkCutsSubtree(
      nodes: map<NodeId, Node>, parent: map<NodeId, (NodeId, string)>, root: NodeId,
      prefix: seq<string>, p: NodeId, name: string, q: seq<string>)
    requires TreeShaped(nodes, parent, root)
    requires Find(nodes, root, prefix) == Some(p) && p in nodes
    requires prefix + [name] <= q
    ensures Find(WithoutChild(nodes, p, name), root, q) == None
  {
    var after := WithoutChild(nodes, p, name);
    UnlinkKeepsOtherPaths(nodes, parent, root, prefix, p, name, prefix);
    BaseImpl.ResolveSnoc(ChildOf(after), root, prefix, name);
    assert ChildIn(after, p, name) == None;
    assert Find(after, root, prefix + [name]) == None;
    var n := |prefix| + 1;
    assert q[..n] == prefix + [name];
    assert q == (prefix + [name]) + q[n..];
    BaseImpl.ResolveAppend(ChildOf(after), root, prefix + [name], q[n..]);
  }

  // ---------------------------------------------------------------------------
  // Growing a branch

  /** The nodes a grown branch adds below its head: ids `head`, `head + 1`, …,
      each the only child of the one before under the next key, all holding the
      default value except the last, which holds `value` and has no child. */
  ghost predicate IsChain(nodes: map<NodeId, Node>, head: NodeId, keys: seq<string>, value: Value)
  {
    && (forall id :: head <= id < head + |keys| ==>
          id in nodes && nodes[id] == Node(Monostate, map[keys[id - head] := id + 1]))
    && head + |keys| in nodes && nodes[head + |keys|] == Node(value, map[])
  }

  /** Along a chain, the first `j` keys lead from the head to the `j`-th node. */
  lemma {:induction false} ChainFinds(nodes: map<NodeId, Node>, head: NodeId, keys: seq<string>, value: Value, j: nat)
    requires IsChain(nodes, head, keys, value) && j <= |keys|
    ensures Find(nodes, head, keys[..j]) == Some(head + j)
  {
    if j > 0 {
      ChainFinds(nodes, head, keys, value, j - 1);
      assert keys[..j] == keys[..j - 1] + [keys[j - 1]];
      BaseImpl.ResolveSnoc(ChildOf(nodes), head, keys[..j - 1], keys[j - 1]);
    }
  }

  /** When no existing edge changes, every path that led somewhere leads to
      the same node. */
  lemma {:induction false} KeptEdgesKeepPaths(
      before: map<NodeId, Node>, after: map<NodeId, Node>, from: NodeId, q: seq<string>)
    requires forall n, name :: ChildIn(before, n, name).Some? ==> ChildIn(after, n, name) == ChildIn(before, n, name)
    ensures Find(before, from, q).Some? ==> Find(after, from, q) == Find(before, from, q)
    decreases |q|
  {
    if q != [] {
      var c := ChildIn(before, from, q[0]);
      if c.Some? {
        KeptEdgesKeepPaths(before, after, c.value, q[1..]);
      }
    }
  }

  /** The arena and parent map after linking `c` as the child `name` of `n`. */
  function Linked(nodes: map<NodeId, Node>, n: NodeId, name: string, c: NodeId): map<NodeId, Node>
    requires n in nodes
  {
    nodes[n := nodes[n].(children := nodes[n].children[name := c])]
  }

  ghost function LinkedParent(nodes: map<NodeId, Node>, parent: map<NodeId, (NodeId, string)>, n: NodeId, name: string, c: NodeId)
      : map<NodeId, (NodeId, string)>
    requires n in nodes
  {
    (if name in nodes[n].children then parent - {nodes[n].children[name]} else parent)[c := (n, name)]
  }

  /** Linking a node that hangs from nothing keeps the tree a tree. */
  lemma LinkKeepsTree(nodes: map<NodeId, Node>, parent: map<NodeId, (NodeId, string)>, root: NodeId, n: NodeId, name: string, c: NodeId)
    requires TreeShaped(nodes, parent, root) && n in nodes && c in nodes && c != root && c !in parent
    ensures TreeShaped(Linked(nodes, n, name, c), LinkedParent(nodes, parent, n, name, c), root)
  {
    var nodes', parent' := Linked(nodes, n, name, c), LinkedParent(nodes, parent, n, name, c);
    forall m, k | m in nodes' && k in nodes'[m].children
      ensures nodes'[m].children[k] in nodes' && nodes'[m].children[k] in parent'
      ensures parent'[nodes'[m].children[k]] == (m, k)
    {
      if m != n || k != name {
        assert nodes'[m].children[k] == nodes[m].children[k];
      }
    }
    forall x | x in parent'
      ensures parent'[x].0 in nodes' && parent'[x].1 in nodes'[parent'[x].0].children
      ensures nodes'[parent'[x].0].children[parent'[x].1] == x
    {
      if x != c {
        assert x in parent && parent'[x] == parent[x];
      }
    }
  }

  /** Erasing a child entry keeps the tree a tree once its node hangs from
      nothing. */
  lemma UnlinkKeepsTree(nodes: map<NodeId, Node>, parent: map<NodeId, (NodeId, string)>, root: NodeId, n: NodeId, name: string)
    requires TreeShaped(nodes, parent, root) && n in nodes
    ensures TreeShaped(WithoutChild(nodes, n, name),
                       if name in nodes[n].children then parent - {nodes[n].children[name]} else parent, root)
  {
    var nodes' := WithoutChild(nodes, n, name);
    var parent' := if name in nodes[n].children then parent - {nodes[n].children[name]} else parent;
    forall m, k | m in nodes' && k in nodes'[m].children
      ensures nodes'[m].children[k] in nodes' && nodes'[m].children[k] in parent'
      ensures parent'[nodes'[m].children[k]] == (m, k)
    {
      assert nodes'[m].children[k] == nodes[m].children[k];
    }
    forall x | x in parent'
      ensures parent'[x].0 in nodes' && parent'[x].1 in nodes'[parent'[x].0].children
      ensures nodes'[parent'[x].0].children[parent'[x].1] == x
    {
      assert x in parent && parent'[x] == parent[x];
      var m, k := parent[x].0, parent[x].1;
      assert nodes[m].children[k] == x;
    }
  }

  /** Changing a node's value keeps the tree a tree. */
  lemma RevalueKeepsTree(nodes: map<NodeId, Node>, parent: map<NodeId, (NodeId, string)>, root: NodeId, n: NodeId, v: Value)
    requires TreeShaped(nodes, parent, root) && n in nodes
    ensures TreeShaped(nodes[n := nodes[n].(value := v)], parent, root)
  {
    var nodes' := nodes[n := nodes[n].(value := v)];
    forall m | m in nodes
      ensures m in nodes' && nodes'[m].children == nodes[m].children
    {
    }
  }

  /** The first `n` nodes of the branch for `keys` built so far, from
      `head` on: each but the last holds the default value and links to the
      next under the next key; the last is still a fresh node. */
  ghost predicate PartialChain(arena: map<NodeId, Node>, head: NodeId, keys: seq<string>, n: nat)
    requires 1 <= n <= |keys|
  {
    && (forall id :: head <= id < head + n - 1 ==>
          id in arena && arena[id] == Node(Monostate, map[keys[id - head + 1] := id + 1]))
    && head + n - 1 in arena && arena[head + n - 1] == FreshNode
  }

  /** The state of the loop after `n` keys: `base` with the nodes `head` to
      `head + n - 1` added, which form a partial chain. */
  ghost predicate Building(arena: map<NodeId, Node>, base: map<NodeId, Node>, head: NodeId, keys: seq<string>, n: nat)
    requires 1 <= n <= |keys|
  {
    && (forall m :: m in arena <==> m in base || head <= m < head + n)
    && (forall m :: m in base ==> arena[m] == base[m])
    && PartialChain(arena, head, keys, n)
  }

  /** One more step of the loop: a fresh node linked under the last one by
      the next key. Nodes older than `head` stay as they are. */
  lemma BuildingGrows(arena: map<NodeId, Node>, base: map<NodeId, Node>, head: NodeId, keys: seq<string>, n: nat,
                      tail: NodeId, name: string)
    requires 1 <= n < |keys| && Building(arena, base, head, keys, n)
    requires tail == head + n - 1 && name == keys[n]
    requires forall m :: m in base ==> m < head
    ensures Building(Linked(arena[tail + 1 := FreshNode], tail, name, tail + 1), base, head, keys, n + 1)
  {
    PartialChainGrows(arena, head, keys, n, tail, name);
    FrameGrows(arena, base, head, tail, name);
  }

  lemma PartialChainGrows(arena: map<NodeId, Node>, head: NodeId, keys: seq<string>, n: nat, tail: NodeId, name: string)
    requires 1 <= n < |keys| && PartialChain(arena, head, keys, n)
    requires tail == head + n - 1 && name == keys[n]
    ensures PartialChain(Linked(arena[tail + 1 := FreshNode], tail, name, tail + 1), head, keys, n + 1)
  {
    var after := Linked(arena[tail + 1 := FreshNode], tail, name, tail + 1);
    forall id | head <= id < head + n
      ensures id in after && after[id] == Node(Monostate, map[keys[id - head + 1] := id + 1])
    {
      if id < tail {
        assert after[id] == arena[id];
      } else {
        assert arena[tail].children == map[];
      }
    }
  }

  lemma FrameGrows(arena: map<NodeId, Node>, base: map<NodeId, Node>, head: NodeId, tail: NodeId, name: string)
    requires head <= tail && tail in arena
    requires forall m :: m in base ==> m < head
    requires forall m :: m in arena <==> m in base || head <= m < tail + 1
    requires forall m :: m in base ==> arena[m] == base[m]
    ensures var after := Linked(arena[tail + 1 := FreshNode], tail, name, tail + 1);
            && (forall m :: m in after <==> m in base || head <= m < tail + 2)
            && (forall m :: m in base ==> after[m] == base[m])
  {
  }

  /** Once every key has its node, setting the last node's value gives the
      chain of the branch below its head. */
  lemma BuildingComplete(arena: map<NodeId, Node>, base: map<NodeId, Node>, head: NodeId, keys: seq<string>,
                         value: Value, tail: NodeId)
    requires 1 <= |keys| && Building(arena, base, head, keys, |keys|) && tail == head + |keys| - 1
    requires forall m :: m in base ==> m < head
    ensures var after := arena[tail := arena[tail].(value := value)];
            && (forall m :: m in after <==> m in base || head <= m < head + |keys|)
            && (forall m :: m in base ==> after[m] == base[m])
            && IsChain(after, head, keys[1..], value)
  {
    var after := arena[tail := arena[tail].(value := value)];
    forall id | head <= id < head + |keys| - 1
      ensures id in after && after[id] == Node(Monostate, map[keys[1..][id - head] := id + 1])
    {
      assert after[id] == arena[id];
    }
  }

  /** The arena once the chain's head is linked as the child `name` of `n`,
      an older node. */
  lemma LinkHead(base: map<NodeId, Node>, arena: map<NodeId, Node>, n: NodeId, head: NodeId, ks: seq<string>,
                 name: string, value: Value)
    requires n in base && IsChain(arena, head, ks, value)
    requires forall m :: m in base ==> m < head
    requires forall m :: m in arena <==> m in base || head <= m < head + |ks| + 1
    requires forall m :: m in base ==> arena[m] == base[m]
    ensures var after := Linked(arena, n, name, head);
            && (forall m :: m in after <==> m in base || head <= m < head + |ks| + 1)
            && (forall m :: m in base && m != n ==> after[m] == base[m])
            && after[n] == base[n].(children := base[n].children[name := head])
            && IsChain(after, head, ks, value)
  {
    ChainSurvivesLink(arena, head, ks, value, n, name);
  }

  /** Where each node of a chain hangs: from the node before, under the key
      before. */
  function ChainParents(head: NodeId, ks: seq<string>): map<NodeId, (NodeId, string)>
  {
    map id: NodeId | head < id <= head + |ks| :: ChainLink(head, ks, id)
  }

  function ChainLink(head: NodeId, ks: seq<string>, id: NodeId): (NodeId, string)
    requires head < id <= head + |ks|
  {
    (id - 1, ks[id - 1 - head])
  }

  /** Adding a chain of new nodes, not yet linked, keeps the tree a tree. */
  lemma ChainKeepsTree(nodes: map<NodeId, Node>, parent: map<NodeId, (NodeId, string)>, root: NodeId,
                       head: NodeId, ks: seq<string>, value: Value, arena: map<NodeId, Node>)
    requires TreeShaped(nodes, parent, root) && IsChain(arena, head, ks, value)
    requires forall m :: m in nodes ==> m < head
    requires forall m :: m in arena <==> m in nodes || head <= m < head + |ks| + 1
    requires forall m :: m in nodes ==> arena[m] == nodes[m]
    ensures TreeShaped(arena, parent + ChainParents(head, ks), root)
    ensures head !in parent + ChainParents(head, ks)
  {
    ChainEdgesHaveParents(nodes, parent, root, head, ks, value, arena);
    ChainParentsAreEdges(nodes, parent, root, head, ks, value, arena);
  }

  lemma ChainEdgesHaveParents(nodes: map<NodeId, Node>, parent: map<NodeId, (NodeId, string)>, root: NodeId,
                              head: NodeId, ks: seq<string>, value: Value, arena: map<NodeId, Node>)
    requires TreeShaped(nodes, parent, root) && IsChain(arena, head, ks, value)
    requires forall m :: m in nodes ==> m < head
    requires forall m :: m in arena <==> m in nodes || head <= m < head + |ks| + 1
    requires forall m :: m in nodes ==> arena[m] == nodes[m]
    ensures forall m, k :: m in arena && k in arena[m].children ==>
              && arena[m].children[k] in arena
              && arena[m].children[k] in parent + ChainParents(head, ks)
              && (parent + ChainParents(head, ks))[arena[m].children[k]] == (m, k)
  {
    var chain := ChainParents(head, ks);
    forall m, k | m in arena && k in arena[m].children
      ensures arena[m].children[k] in arena && arena[m].children[k] in parent + chain
      ensures (parent + chain)[arena[m].children[k]] == (m, k)
    {
      if m in nodes {
        assert arena[m] == nodes[m];
        assert nodes[m].children[k] in nodes;
        assert nodes[m].children[k] !in chain;
      } else {
        assert m - head < |ks|;
        assert arena[m].children == map[ks[m - head] := m + 1];
        assert chain[m + 1] == ChainLink(head, ks, m + 1);
      }
    }
  }

  lemma ChainParentsAreEdges(nodes: map<NodeId, Node>, parent: map<NodeId, (NodeId, string)>, root: NodeId,
                             head: NodeId, ks: seq<string>, value: Value, arena: map<NodeId, Node>)
    requires TreeShaped(nodes, parent, root) && IsChain(arena, head, ks, value)
    requires forall m :: m in nodes ==> m < head
    requires forall m :: m in arena <==> m in nodes || head <= m < head + |ks| + 1
    requires forall m :: m in nodes ==> arena[m] == nodes[m]
    ensures forall c :: c in parent + ChainParents(head, ks) ==>
              && (parent + ChainParents(head, ks))[c].0 in arena
              && (parent + ChainParents(head, ks))[c].1 in arena[(parent + ChainParents(head, ks))[c].0].children
              && arena[(parent + ChainParents(head, ks))[c].0].children[(parent + ChainParents(head, ks))[c].1] == c
    ensures head !in parent + ChainParents(head, ks)
  {
    var chain := ChainParents(head, ks);
    var parent' := parent + chain;
    forall c | c in parent'
      ensures parent'[c].0 in arena && parent'[c].1 in arena[parent'[c].0].children
      ensures arena[parent'[c].0].children[parent'[c].1] == c
    {
      if c in chain {
        assert parent'[c] == ChainLink(head, ks, c);
        assert arena[c - 1] == Node(Monostate, map[ks[c - 1 - head] := c]);
      } else {
        assert c in parent && parent'[c] == parent[c];
        assert arena[parent[c].0] == nodes[parent[c].0];
      }
    }
  }

  /** Linking under a node outside the chain leaves the chain as it is. */
  lemma ChainSurvivesLink(nodes: map<NodeId, Node>, head: NodeId, ks: seq<string>, v: Value, n: NodeId, name: string)
    requires IsChain(nodes, head, ks, v) && n in nodes && n < head
    ensures IsChain(Linked(nodes, n, name, head), head, ks, v)
  {
  }

  // ---------------------------------------------------------------------------
  // What `Delete` and `SetOrInsert` promise

  /** After deleting the node `keys` leads to: no path through it leads
      anywhere, every other path leads where it did, and no node's value
      changed. */
  ghost predicate Deleted(before: map<NodeId, Node>, after: map<NodeId, Node>, root: NodeId, keys: seq<string>)
  {
    && (forall q :: keys <= q ==> Find(after, root, q) == None)
    && (forall q :: !(keys <= q) ==> Find(after, root, q) == Find(before, root, q))
    && (forall q :: !(keys <= q) ==> ValueAt(after, root, q) == ValueAt(before, root, q))
  }

  /** Unlinking the last edge of an existing path is such a deletion. */
  lemma UnlinkDeletes(
      nodes: map<NodeId, Node>, parent: map<NodeId, (NodeId, string)>, root: NodeId, keys: seq<string>, p: NodeId)
    requires TreeShaped(nodes, parent, root)
    requires keys != [] && Find(nodes, root, keys[..|keys| - 1]) == Some(p) && p in nodes
    ensures Deleted(nodes, WithoutChild(nodes, p, keys[|keys| - 1]), root, keys)
  {
    var prefix, name := keys[..|keys| - 1], keys[|keys| - 1];
    var after := WithoutChild(nodes, p, name);
    assert keys == prefix + [name];
    forall q | keys <= q
      ensures Find(after, root, q) == None
    {
      UnlinkCutsSubtree(nodes, parent, root, prefix, p, name, q);
    }
    forall q | !(keys <= q)
      ensures Find(after, root, q) == Find(nodes, root, q)
      ensures ValueAt(after, root, q) == ValueAt(nodes, root, q)
    {
      UnlinkKeepsOtherPaths(nodes, parent, root, prefix, p, name, q);
      FindStaysInArena(nodes, parent, root, root, q);
    }
  }

  /** After `SetOrInsert(keys, value)`: the path holds `value`; the nodes it
      had to create on the way hold the default value; every path that led
      somewhere still leads to the same node, and every other path's value is
      unchanged; a path that leads somewhere only now is a prefix of `keys`. */
  ghost predicate Stored(before: map<NodeId, Node>, after: map<NodeId, Node>, root: NodeId, keys: seq<string>, value: Value)
  {
    && ValueAt(after, root, keys) == Some(value)
    && (forall j :: BaseImpl.ExistingDepth(ChildOf(before), root, keys) < j < |keys| ==>
          ValueAt(after, root, keys[..j]) == Some(Monostate))
    && (forall q :: Find(before, root, q).Some? ==> Find(after, root, q) == Find(before, root, q))
    && (forall q :: q != keys && Find(before, root, q).Some? ==> ValueAt(after, root, q) == ValueAt(before, root, q))
    && (forall q :: Find(after, root, q).Some? ==> Find(before, root, q).Some? || q <= keys)
  }

  /** Storing into a path that exists only changes the value of its node. */
  lemma OverwriteStores(
      before: map<NodeId, Node>, parent: map<NodeId, (NodeId, string)>, root: NodeId, keys: seq<string>, x: NodeId, value: Value)
    requires TreeShaped(before, parent, root)
    requires Find(before, root, keys) == Some(x) && x in before
    ensures Stored(before, before[x := before[x].(value := value)], root, keys, value)
  {
    var after := before[x := before[x].(value := value)];
    forall q
      ensures Find(before, root, q).Some? ==> Find(after, root, q) == Find(before, root, q)
      ensures Find(after, root, q).Some? ==> Find(before, root, q) == Find(after, root, q)
    {
      KeptEdgesKeepPaths(before, after, root, q);
      KeptEdgesKeepPaths(after, before, root, q);
    }
    forall q | q != keys && Find(before, root, q).Some?
      ensures ValueAt(after, root, q) == ValueAt(before, root, q)
    {
      if Find(before, root, q) == Some(x) {
        UniquePaths(before, parent, root, q, keys);
      }
    }
  }

  /** In a grown branch, the first `j` keys of the path, past the existing
      depth `d`, lead to the chain's node `j - d - 1`. */
  lemma GrownPathFinds(
      before: map<NodeId, Node>, after: map<NodeId, Node>, root: NodeId, keys: seq<string>,
      d: nat, deepest: NodeId, head: NodeId, value: Value, j: nat)
    requires d < j <= |keys|
    requires Find(after, root, keys[..d]) == Some(deepest)
    requires deepest in after && keys[d] in after[deepest].children && after[deepest].children[keys[d]] == head
    requires IsChain(after, head, keys[d + 1..], value)
    ensures Find(after, root, keys[..j]) == Some(head + j - d - 1)
  {
    assert keys[..j] == keys[..d] + keys[d..j];
    BaseImpl.ResolveAppend(ChildOf(after), root, keys[..d], keys[d..j]);
    assert keys[d..j][0] == keys[d] && keys[d..j][1..] == keys[d + 1..j];
    ChainFinds(after, head, keys[d + 1..], value, j - d - 1);
    assert keys[d + 1..][..j - d - 1] == keys[d + 1..j];
  }

  /** A grown arena: every node of `before` is kept, and only `deepest`
      changes, gaining `head` as its child `name`, a name it did not have. */
  ghost predicate GrownFrom(before: map<NodeId, Node>, after: map<NodeId, Node>, deepest: NodeId, name: string, head: NodeId)
  {
    && deepest in before && name !in before[deepest].children
    && (forall m :: m in before ==> m in after)
    && (forall m :: m in before && m != deepest ==> after[m] == before[m])
    && after[deepest] == before[deepest].(children := before[deepest].children[name := head])
  }

  /** Growing keeps every path that led somewhere, and every value of an
      older node. */
  lemma GrowthKeepsPaths(
      before: map<NodeId, Node>, parent: map<NodeId, (NodeId, string)>, after: map<NodeId, Node>, root: NodeId,
      deepest: NodeId, name: string, head: NodeId)
    requires TreeShaped(before, parent, root) && GrownFrom(before, after, deepest, name, head)
    ensures forall q :: Find(before, root, q).Some? ==> Find(after, root, q) == Find(before, root, q)
    ensures forall q :: Find(before, root, q).Some? ==> ValueAt(after, root, q) == ValueAt(before, root, q)
  {
    forall n, k | ChildIn(before, n, k).Some?
      ensures ChildIn(after, n, k) == ChildIn(before, n, k)
    {
    }
    forall q | Find(before, root, q).Some?
      ensures Find(after, root, q) == Find(before, root, q)
      ensures ValueAt(after, root, q) == ValueAt(before, root, q)
    {
      KeptEdgesKeepPaths(before, after, root, q);
      FindStaysInArena(before, parent, root, root, q);
    }
  }

  /** In a grown arena, one step from a node an old path leads to takes the
      old edge, except the new edge from `deepest` under `keys[d]`. */
  lemma GrownStepFromOld(
      before: map<NodeId, Node>, parent: map<NodeId, (NodeId, string)>, after: map<NodeId, Node>, root: NodeId,
      keys: seq<string>, d: nat, deepest: NodeId, head: NodeId, p: seq<string>, k: string)
    requires TreeShaped(before, parent, root) && d < |keys|
    requires Find(before, root, keys[..d]) == Some(deepest)
    requires GrownFrom(before, after, deepest, keys[d], head)
    requires Find(before, root, p).Some?
    ensures Find(after, root, p) == Find(before, root, p)
    ensures || ChildIn(after, Find(before, root, p).value, k) == ChildIn(before, Find(before, root, p).value, k)
            || (p + [k] == keys[..d + 1] && ChildIn(after, Find(before, root, p).value, k) == Some(head))
  {
    forall n, name | ChildIn(before, n, name).Some?
      ensures ChildIn(after, n, name) == ChildIn(before, n, name)
    {
    }
    KeptEdgesKeepPaths(before, after, root, p);
    var x := Find(before, root, p).value;
    FindStaysInArena(before, parent, root, root, p);
    if x == deepest && k == keys[d] {
      UniquePaths(before, parent, root, p, keys[..d]);
      assert keys[..d + 1] == keys[..d] + [keys[d]];
    }
  }

  /** Along the chain, the node the first `|p|` keys lead to has one child,
      under the next key, and the last node none. */
  lemma GrownStepInChain(after: map<NodeId, Node>, keys: seq<string>, d: nat, head: NodeId, value: Value, p: seq<string>, k: string)
    requires d < |p| <= |keys| && p == keys[..|p|]
    requires IsChain(after, head, keys[d + 1..], value)
    ensures ChildIn(after, head + |p| - d - 1, k).Some? ==>
              && p + [k] == keys[..|p| + 1]
              && ChildIn(after, head + |p| - d - 1, k) == Some(head + |p| - d)
  {
    var t := head + |p| - d - 1;
    if |p| < |keys| {
      assert after[t] == Node(Monostate, map[keys[d + 1..][t - head] := t + 1]);
      assert keys[..|p| + 1] == keys[..|p|] + [keys[|p|]];
    } else {
      assert after[t] == Node(value, map[]);
    }
  }

  /** In a grown arena, a path leads somewhere only if it did before or it is
      a prefix of `keys` longer than `d`, which leads into the chain. */
  lemma {:induction false} GrownPaths(
      before: map<NodeId, Node>, parent: map<NodeId, (NodeId, string)>, after: map<NodeId, Node>, root: NodeId,
      keys: seq<string>, d: nat, deepest: NodeId, head: NodeId, value: Value, q: seq<string>)
    requires TreeShaped(before, parent, root) && d < |keys|
    requires Find(before, root, keys[..d]) == Some(deepest)
    requires GrownFrom(before, after, deepest, keys[d], head)
    requires IsChain(after, head, keys[d + 1..], value)
    ensures Find(after, root, q).Some? ==>
              || Find(before, root, q).Some?
              || (d < |q| <= |keys| && q == keys[..|q|] && Find(after, root, q) == Some(head + |q| - d - 1))
    decreases |q|
  {
    if q != [] {
      var p, k := q[..|q| - 1], q[|q| - 1];
      assert q == p + [k];
      BaseImpl.ResolveSnoc(ChildOf(after), root, p, k);
      GrownPaths(before, parent, after, root, keys, d, deepest, head, value, p);
      if Find(before, root, p).Some? {
        BaseImpl.ResolveSnoc(ChildOf(before), root, p, k);
        GrownStepFromOld(before, parent, after, root, keys, d, deepest, head, p, k);
      } else if Find(after, root, p).Some? {
        GrownStepInChain(after, keys, d, head, value, p, k);
      }
    }
  }

  /** Storing into a path that exists only down to depth `d < |keys|`: the
      deepest node gains the chain's head under `keys[d]`. */
  lemma GrowthStores(
      before: map<NodeId, Node>, parent: map<NodeId, (NodeId, string)>, after: map<NodeId, Node>, root: NodeId,
      keys: seq<string>, d: nat, deepest: NodeId, head: NodeId, value: Value)
    requires TreeShaped(before, parent, root)
    requires d == BaseImpl.ExistingDepth(ChildOf(before), root, keys) && d < |keys|
    requires Find(before, root, keys[..d]) == Some(deepest)
    requires GrownFrom(before, after, deepest, keys[d], head)
    requires IsChain(after, head, keys[d + 1..], value)
    ensures Stored(before, after, root, keys, value)
  {
    GrowthKeepsPaths(before, parent, after, root, deepest, keys[d], head);
    forall j | d < j <= |keys|
      ensures ValueAt(after, root, keys[..j]) == Some(if j < |keys| then Monostate else value)
    {
      GrownPathFinds(before, after, root, keys, d, deepest, head, value, j);
    }
    forall q | Find(after, root, q).Some?
      ensures Find(before, root, q).Some? || q <= keys
    {
      GrownPaths(before, parent, after, root, keys, d, deepest, head, value, q);
    }
    assert keys[..|keys|] == keys;
  }

  // ---------------------------------------------------------------------------
  // The volume

  /** `_refcounter` is a `std::atomic<unsigned>`: adding and subtracting one
      wrap around modulo 2^32. */
  function Incremented(c: uint32): (r: uint32)
    ensures c < 0xFFFF_FFFF ==> r == c + 1
    ensures c == 0xFFFF_FFFF ==> r == 0
  {
    (c + 1) % 0x1_0000_0000
  }

  function Decremented(c: uint32): (r: uint32)
    ensures c > 0 ==> r == c - 1
    ensures c == 0 ==> r == 0xFFFF_FFFF
  {
    (c - 1) % 0x1_0000_0000
  }

  /** An `AddRef` undone by a `Release`, and the other way round, leaves the
      count as it was, wrap-around included. */
  lemma RefCountsCancel(c: uint32)
    ensures Decremented(Incremented(c)) == c
    ensures Incremented(Decremented(c)) == c
  {
  }

  /** The loop of `GrowBranchAndSetValue` (VolumeImpl.cpp:30-39): a new head
      node, then one new default node per further key, each linked under the
      one before, and `value` in the last one. The new nodes take the free
      identities from `head` on; the result is the arena with them added, in
      which no node of `base` has changed. */
  method BuildBranch(base: map<NodeId, Node>, head: NodeId, path: PathView, value: Value)
    returns (headName: string, arena: map<NodeId, Node>)
    requires path.Valid() && path.GetDepth() > 0
    requires forall m :: m in base ==> m < head
    ensures headName == path.Keys()[0]
    ensures forall m :: m in arena <==> m in base || head <= m < head + path.GetDepth()
    ensures forall m :: m in base ==> arena[m] == base[m]
    ensures IsChain(arena, head, path.Keys()[1..], value)
  {
    ghost var keys := path.Keys();
    ghost var depth := path.GetDepth();
    IteratorAt(path, 0);
    var key := path.begin;
    var end := path.End();
    arena := base[head := FreshNode];
    headName := Current(path.text, key);
    key := Next(path.text, key);
    var tail := head;
    ghost var i := 1;
    while key != end
      invariant 1 <= i <= depth
      invariant key == Advance(path.text, path.begin, i)
      invariant tail == head + i - 1
      invariant Building(arena, base, head, keys, i)
      decreases depth - i
    {
      IteratorAt(path, i);
      var name := Current(path.text, key);
      BuildingGrows(arena, base, head, keys, i, tail, name);
      arena := Linked(arena[tail + 1 := FreshNode], tail, name, tail + 1);
      tail := tail + 1;
      key := Next(path.text, key);
      i := i + 1;
    }
    IteratorAt(path, i);
    BuildingComplete(arena, base, head, keys, value, tail);
    arena := arena[tail := arena[tail].(value := value)];
  }

  class VolumeImpl {
    /** Every node of the volume, by identity. */
    var nodes: map<NodeId, Node>
    /** The identity the next `make_shared<Node>()` takes. */
    var nextId: NodeId
    /** `BaseImpl::_root`. */
    const root: NodeId
    /** `_refcounter`: how many mounts use the volume. */
    var refcounter: uint32
    /** For each node hanging from another, that node and the key. */
    ghost var parent: map<NodeId, (NodeId, string)>

    ghost predicate Valid()
      reads this
    {
      && TreeShaped(nodes, parent, root)
      && (forall n :: n in nodes ==> n < nextId)
    }

    /** `VolumeImpl()` (VolumeImpl.cpp:80-82): a tree of one default node,
        used by nobody. */
    constructor()
      ensures Valid()
      ensures nodes == map[root := FreshNode] && refcounter == 0
    {
      root := 0;
      nodes := map[0 := FreshNode];
      nextId := 1;
      refcounter := 0;
      parent := map[];
    }

    /** `AddRef`: one more mount uses the volume. */
    method AddRef()
      modifies this
      ensures refcounter == Incremented(old(refcounter))
      ensures nodes == old(nodes) && nextId == old(nextId) && parent == old(parent)
    {
      refcounter := (refcounter + 1) % 0x1_0000_0000;
    }

    /** `Release`: one mount fewer. */
    method Release()
      modifies this
      ensures refcounter == Decremented(old(refcounter))
      ensures nodes == old(nodes) && nextId == old(nextId) && parent == old(parent)
    {
      refcounter := (refcounter - 1) % 0x1_0000_0000;
    }

    /** `Load`: the guarded block runs, under the root's exclusive lock, only
        while no mount uses the volume; what it would read is not written yet
        in the program, so the tree stays as it is. The result says whether
        the guarded block ran. */
    method Load() returns (guarded: bool)
      ensures guarded <==> refcounter == 0
    {
      guarded := refcounter == 0;
    }

    /** `Save`: the same guard as `Load`; nothing is written. */
    method Save() returns (guarded: bool)
      ensures guarded <==> refcounter == 0
    {
      guarded := refcounter == 0;
    }

    /** `Node::GetValue`: a node always has a value. */
    function GetValue(n: NodeId): (v: Option<Value>)
      reads this
      requires n in nodes
      ensures v.Some? && v.value == nodes[n].value
    {
      Some(nodes[n].value)
    }

    /** `Node::GetChild`: the child under `name`, which hangs from `n` under
        that name and from nothing else; nothing when `n` has no such child. */
    function GetChild(n: NodeId, name: string): (c: Option<NodeId>)
      reads this
      requires Valid() && n in nodes
      ensures c.Some? <==> name in nodes[n].children
      ensures c.Some? ==> c.value in nodes && c.value in parent && parent[c.value] == (n, name)
    {
      ChildIn(nodes, n, name)
    }

    /** `Node::DeleteChild`: erase the entry `name`; true when there was one.
        The child's subtree is no longer reachable from `n`. */
    method DeleteChild(n: NodeId, name: string) returns (removed: bool)
      requires Valid() && n in nodes
      modifies this
      ensures Valid() && nextId == old(nextId) && refcounter == old(refcounter)
      ensures removed <==> name in old(nodes)[n].children
      ensures nodes == WithoutChild(old(nodes), n, name)
    {
      removed := name in nodes[n].children;
      UnlinkKeepsTree(nodes, parent, root, n, name);
      if removed {
        parent := parent - {nodes[n].children[name]};
      }
      nodes := WithoutChild(nodes, n, name);
    }

    /** `Node::SetChild`: link `c`, a node that hangs from nothing, as the
        child `name` of `n`, replacing any child of that name. */
    method SetChild(n: NodeId, name: string, c: NodeId) returns (linked: NodeId)
      requires Valid() && n in nodes && c in nodes && c != root && c !in parent
      modifies this
      ensures Valid() && nextId == old(nextId) && refcounter == old(refcounter)
      ensures linked == c
      ensures nodes == Linked(old(nodes), n, name, c)
      ensures parent == LinkedParent(old(nodes), old(parent), n, name, c)
    {
      LinkKeepsTree(nodes, parent, root, n, name, c);
      parent := LinkedParent(nodes, parent, n, name, c);
      nodes := Linked(nodes, n, name, c);
      linked := c;
    }

    /** `Node::GrowBranchAndSetValue` (VolumeImpl.cpp:26-47): for an empty
        path, set the node's own value; otherwise build the branch as a chain
        of new nodes holding `value` in its last one, and only then link the
        chain's head under `n`, replacing any child of that name. The result
        is always true. */
    method GrowBranchAndSetValue(n: NodeId, path: PathView, value: Value) returns (ok: bool)
      requires Valid() && n in nodes && path.Valid()
      modifies this
      ensures Valid() && refcounter == old(refcounter)
      ensures ok
      ensures path.GetDepth() == 0 ==> nodes == old(nodes)[n := old(nodes)[n].(value := value)]
      ensures path.GetDepth() > 0 ==>
                && (forall m :: m in nodes <==> m in old(nodes) || old(nextId) <= m < old(nextId) + path.GetDepth())
                && (forall m :: m in old(nodes) && m != n ==> nodes[m] == old(nodes)[m])
                && nodes[n] == old(nodes)[n].(children := old(nodes)[n].children[path.Keys()[0] := old(nextId)])
                && IsChain(nodes, old(nextId), path.Keys()[1..], value)
    {
      if path.IsEmpty() {
        RevalueKeepsTree(nodes, parent, root, n, value);
        nodes := nodes[n := nodes[n].(value := value)];
        return true;
      }
      var head := nextId;
      var headName, arena := BuildBranch(nodes, head, path, value);
      ghost var ks := path.Keys()[1..];
      ChainKeepsTree(nodes, parent, root, head, ks, value, arena);
      LinkHead(nodes, arena, n, head, ks, headName, value);
      nodes := arena;
      parent := parent + ChainParents(head, ks);
      nextId := head + path.GetDepth();
      var linked := SetChild(n, headName, head);
      ok := true;
    }

    // -------------------------------------------------------------------------
    // The tree operations of `BaseImpl` on this volume's nodes

    /** `Get` (BaseImpl.cpp:6-10): the value at the path, present exactly
        when every key of the path exists. */
    method Get(text: string) returns (r: Outcome<Option<Value>>)
      requires Valid() && |text| > 0
      ensures text[0] != Separator ==> r == Thrown(InvalidArgument)
      ensures text[0] == Separator ==> r == Done(ValueAt(nodes, root, Split(text)))
      ensures text[0] == Separator ==> (r.value.Some? <==> Find(nodes, root, Split(text)).Some?)
    {
      var snapshot := nodes;
      r := BaseImpl.Get(root, text, ChildOf(snapshot),
                        (n: NodeId) => if n in snapshot then Some(snapshot[n].value) else None);
      ValueAtIffFound(nodes, parent, root, Split(text));
    }

    /** `Delete` (BaseImpl.cpp:12-39): the root cannot be deleted; a path that
        exists is cut from its parent, and so is everything below it. */
    method Delete(text: string) returns (r: Outcome<bool>)
      requires Valid() && |text| > 0
      modifies this
      ensures Valid() && refcounter == old(refcounter)
      ensures text[0] != Separator ==> r == Thrown(InvalidArgument)
      ensures text[0] == Separator ==>
                r.Done? && (r.value <==> Split(text) != [] && Find(old(nodes), root, Split(text)).Some?)
      ensures r != Done(true) ==> nodes == old(nodes)
      ensures r == Done(true) ==> Deleted(old(nodes), nodes, root, Split(text))
    {
      var snapshot := nodes;
      var found, locker := BaseImpl.FindParent(root, text, ChildOf(snapshot));
      if found.Thrown? {
        return Thrown(found.error);
      }
      if found.value.None? {
        return Done(false);
      }
      var p, name := found.value.value.0, found.value.value.1;
      ghost var keys := Split(text);
      FindStaysInArena(nodes, parent, root, root, keys[..|keys| - 1]);
      LastEdge(nodes, parent, root, keys);
      UnlinkDeletes(nodes, parent, root, keys, p);
      var removed := DeleteChild(p, name);
      locker.Destroy();
      r := Done(removed);
    }

    /** `SetOrInsert` (BaseImpl.cpp:41-48): descend the existing part of the
        path with the grow engine, then let the deepest existing node grow the
        rest and store the value. Always true for a well-formed path. */
    method SetOrInsert(text: string, value: Value) returns (r: Outcome<bool>)
      requires Valid() && |text| > 0
      modifies this
      ensures Valid() && refcounter == old(refcounter)
      ensures text[0] != Separator ==> r == Thrown(InvalidArgument) && nodes == old(nodes)
      ensures text[0] == Separator ==> r == Done(true) && Stored(old(nodes), nodes, root, Split(text), value)
    {
      var snapshot := nodes;
      var found, locker := BaseImpl.GrowthPoint(root, text, ChildOf(snapshot));
      if found.Thrown? {
        return Thrown(found.error);
      }
      var node, rest := found.value.0, found.value.1;
      ghost var keys := Split(text);
      ghost var d := BaseImpl.ExistingDepth(ChildOf(snapshot), root, keys);
      ghost var head := nextId;
      ghost var parentBefore := parent;
      FindStaysInArena(nodes, parent, root, root, keys[..d]);
      var ok := GrowBranchAndSetValue(node, rest, value);
      locker.Destroy();
      if d == |keys| {
        assert keys[..d] == keys;
        OverwriteStores(snapshot, parentBefore, root, keys, node, value);
      } else {
        assert rest.Keys()[0] == keys[d] && rest.Keys()[1..] == keys[d + 1..];
        GrowthStores(snapshot, parentBefore, nodes, root, keys, d, node, head, value);
      }
      r := Done(ok);
    }

    /** `LockPath` (BaseImpl.cpp:50-69) on this volume, as `Storage::Impl::Mount`
        calls it: the node the whole path leads to, an allocated one, held
        with the locker; nothing when some key is missing. */
    method LockPath(text: string) returns (r: Outcome<Option<NodeId>>, locker: TraceLocker?<NodeId>)
      requires Valid() && |text| > 0
      ensures text[0] != Separator ==> r == Thrown(InvalidArgument)
      ensures text[0] == Separator ==>
                && r == Done(Find(nodes, root, Split(text)))
                && locker != null && fresh(locker) && locker.Valid()
      ensures r.Done? && r.value.Some? ==> r.value.value in nodes
    {
      var snapshot := nodes;
      r, locker := BaseImpl.LockPath(root, text, ChildOf(snapshot));
      if r.Done? {
        FindStaysInArena(nodes, parent, root, root, Split(text));
      }
    }
  }
}
