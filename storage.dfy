/** The storage: a tree of virtual nodes onto which subtrees of volumes are
    mounted. A virtual node keeps an ordered list of mount bindings, the newest
    last and of highest priority, each showing one durable node of a volume,
    and its own virtual children by name. Virtual nodes and mount holders are
    shared pointers in the program; here they live in arenas of the storage
    under identities. Volumes are `VolumeImpl` objects shared with their users. */
module Storage {
  import opened Common
  import opened PathView
  import opened Tracing
  import BaseImpl
  import opened Volume

  /** The identity of a `VirtualNode`. */
  type VNodeId = nat

  /** The identity of a `MountHolder`. */
  type HolderId = nat

  /** `MountHolder` (Storage.cpp:15-33): the durable node a mount shows and
      the volume it belongs to, which the holder keeps counted as used. */
  datatype MountHolder = MountHolder(node: NodeId, volume: VolumeImpl)

  /** A `VirtualNode`'s fields: the holders mounted on it, oldest first, and
      its virtual children by name. */
  datatype VirtualNode = VirtualNode(mounted: seq<HolderId>, virtualChildren: map<string, VNodeId>)

  /** `std::make_shared<VirtualNode>()`: nothing mounted, no children. */
  const EmptyVirtualNode := VirtualNode([], map[])

  /** What `VirtualNode::GetChild` returns: a durable node of a mounted volume,
      or one of the virtual children. */
  datatype NodeRef = Durable(volume: VolumeImpl, id: NodeId) | Virtual(vid: VNodeId)

  /** The two ways a node is locked. */
  datatype LockMode = Exclusive | Shared

  /** A mutex: the own lock of a virtual node, or the lock of a durable node. */
  datatype Lockable = OwnLock(vid: VNodeId) | NodeLock(volume: VolumeImpl, id: NodeId)

  /** One step on a mutex, in the order the storage takes them. */
  datatype LockEvent = Acquire(mode: LockMode, target: Lockable) | Release(mode: LockMode, target: Lockable)

  /** `MountTokenImpl` (Storage.cpp:187-209): the virtual node the mount was
      made on and the holder it made, both held weakly. */
  datatype MountToken = MountToken(owner: VNodeId, holder: HolderId)

  // ---------------------------------------------------------------------------
  // Virtual children as the tree engine sees them

  /** `GetVirtualChild` (Storage.cpp:145-149) on the arena. */
  function VirtualChildIn(vnodes: map<VNodeId, VirtualNode>, v: VNodeId, name: string): Option<VNodeId>
  {
    if v in vnodes && name in vnodes[v].virtualChildren then Some(vnodes[v].virtualChildren[name]) else None
  }

  /** The arena seen as the `child` function of the tree engine. */
  function VirtualChildOf(vnodes: map<VNodeId, VirtualNode>): (child: (VNodeId, string) -> Option<VNodeId>)
    ensures forall v, name :: child(v, name) == VirtualChildIn(vnodes, v, name)
  {
    (v: VNodeId, name: string) => VirtualChildIn(vnodes, v, name)
  }

  /** The virtual node `keys` leads to from `from` through virtual children. */
  function VirtualFind(vnodes: map<VNodeId, VirtualNode>, from: VNodeId, keys: seq<string>): Option<VNodeId>
  {
    BaseImpl.Resolve(VirtualChildOf(vnodes), from, keys)
  }

  /** Every virtual child is allocated. */
  ghost predicate Closed(vnodes: map<VNodeId, VirtualNode>)
  {
    forall v, name :: v in vnodes && name in vnodes[v].virtualChildren ==> vnodes[v].virtualChildren[name] in vnodes
  }

  /** Following virtual children from an allocated node only reaches
      allocated nodes. */
  lemma {:induction false} VirtualFindStaysInArena(vnodes: map<VNodeId, VirtualNode>, from: VNodeId, keys: seq<string>)
    requires Closed(vnodes) && from in vnodes
    ensures VirtualFind(vnodes, from, keys).Some? ==> VirtualFind(vnodes, from, keys).value in vnodes
    decreases |keys|
  {
    if keys != [] {
      var c := VirtualChildIn(vnodes, from, keys[0]);
      if c.Some? {
        VirtualFindStaysInArena(vnodes, c.value, keys[1..]);
      }
    }
  }

  /** When no existing virtual edge changes, every path that led somewhere
      leads to the same node. */
  lemma {:induction false} KeptVirtualEdgesKeepPaths(
      before: map<VNodeId, VirtualNode>, after: map<VNodeId, VirtualNode>, from: VNodeId, q: seq<string>)
    requires forall v, name :: VirtualChildIn(before, v, name).Some? ==>
               VirtualChildIn(after, v, name) == VirtualChildIn(before, v, name)
    ensures VirtualFind(before, from, q).Some? ==> VirtualFind(after, from, q) == VirtualFind(before, from, q)
    decreases |q|
  {
    if q != [] {
      var c := VirtualChildIn(before, from, q[0]);
      if c.Some? {
        KeptVirtualEdgesKeepPaths(before, after, c.value, q[1..]);
      }
    }
  }

  // ---------------------------------------------------------------------------
  // The virtual tree shape

  /** Every virtual node hangs from at most one other, under one name, and
      the root from none: `vparent` records that edge. Every virtual child is
      allocated. */
  ghost predicate VirtualTreeShaped(vnodes: map<VNodeId, VirtualNode>, vparent: map<VNodeId, (VNodeId, string)>,
                                    root: VNodeId)
  {
    && root in vnodes && root !in vparent
    && (forall v, name :: v in vnodes && name in vnodes[v].virtualChildren ==>
          && vnodes[v].virtualChildren[name] in vnodes
          && vnodes[v].virtualChildren[name] in vparent
          && vparent[vnodes[v].virtualChildren[name]] == (v, name))
    && (forall c :: c in vparent ==>
          && vparent[c].0 in vnodes
          && vparent[c].1 in vnodes[vparent[c].0].virtualChildren
          && vnodes[vparent[c].0].virtualChildren[vparent[c].1] == c)
  }

  /** The node a non-empty path leads to hangs, under the path's last key,
      from the node the rest of the path leads to. */
  lemma VirtualLastEdge(vnodes: map<VNodeId, VirtualNode>, vparent: map<VNodeId, (VNodeId, string)>, root: VNodeId,
                        p: seq<string>)
    requires VirtualTreeShaped(vnodes, vparent, root)
    requires p != [] && VirtualFind(vnodes, root, p).Some?
    ensures VirtualFind(vnodes, root, p[..|p| - 1]).Some?
    ensures VirtualFind(vnodes, root, p).value in vparent
    ensures vparent[VirtualFind(vnodes, root, p).value] == (VirtualFind(vnodes, root, p[..|p| - 1]).value, p[|p| - 1])
  {
    assert p == p[..|p| - 1] + [p[|p| - 1]];
    BaseImpl.ResolveSnoc(VirtualChildOf(vnodes), root, p[..|p| - 1], p[|p| - 1]);
  }

  /** Two paths that lead to the same virtual node are the same path. */
  lemma {:induction false} VirtualUniquePaths(vnodes: map<VNodeId, VirtualNode>, vparent: map<VNodeId, (VNodeId, string)>,
                                              root: VNodeId, p: seq<string>, q: seq<string>)
    requires VirtualTreeShaped(vnodes, vparent, root)
    requires VirtualFind(vnodes, root, p).Some? && VirtualFind(vnodes, root, p) == VirtualFind(vnodes, root, q)
    ensures p == q
    decreases |p| + |q|
  {
    if p != [] && q != [] {
      VirtualLastEdge(vnodes, vparent, root, p);
      VirtualLastEdge(vnodes, vparent, root, q);
      VirtualUniquePaths(vnodes, vparent, root, p[..|p| - 1], q[..|q| - 1]);
      assert p == p[..|p| - 1] + [p[|p| - 1]];
      assert q == q[..|q| - 1] + [q[|q| - 1]];
    } else {
      if p != [] {
        VirtualLastEdge(vnodes, vparent, root, p);
      }
      if q != [] {
        VirtualLastEdge(vnodes, vparent, root, q);
      }
    }
  }

  /** Changing bindings only, not children, keeps the virtual tree a tree. */
  lemma SameEdgesKeepVirtualTree(before: map<VNodeId, VirtualNode>, after: map<VNodeId, VirtualNode>,
                                 vparent: map<VNodeId, (VNodeId, string)>, root: VNodeId)
    requires VirtualTreeShaped(before, vparent, root)
    requires forall m :: m in after <==> m in before
    requires forall m :: m in before ==> after[m].virtualChildren == before[m].virtualChildren
    ensures VirtualTreeShaped(after, vparent, root)
  {
  }

  /** The parent map after `SetVirtualChild(name, c)` on `v`: a child it
      replaces hangs from nothing any more, and `c` hangs from `v`. */
  ghost function VirtualLinkedParent(vnodes: map<VNodeId, VirtualNode>, vparent: map<VNodeId, (VNodeId, string)>,
                                     v: VNodeId, name: string, c: VNodeId): map<VNodeId, (VNodeId, string)>
    requires v in vnodes
  {
    (if name in vnodes[v].virtualChildren then vparent - {vnodes[v].virtualChildren[name]} else vparent)[c := (v, name)]
  }

  /** Linking a virtual node that hangs from nothing keeps the tree a tree. */
  lemma VirtualLinkKeepsTree(vnodes: map<VNodeId, VirtualNode>, vparent: map<VNodeId, (VNodeId, string)>, root: VNodeId,
                             v: VNodeId, name: string, c: VNodeId)
    requires VirtualTreeShaped(vnodes, vparent, root) && v in vnodes && c in vnodes && c != root && c !in vparent
    ensures VirtualTreeShaped(WithVirtualChild(vnodes, v, name, c), VirtualLinkedParent(vnodes, vparent, v, name, c), root)
  {
    var vnodes', vparent' := WithVirtualChild(vnodes, v, name, c), VirtualLinkedParent(vnodes, vparent, v, name, c);
    forall m, k | m in vnodes' && k in vnodes'[m].virtualChildren
      ensures vnodes'[m].virtualChildren[k] in vnodes' && vnodes'[m].virtualChildren[k] in vparent'
      ensures vparent'[vnodes'[m].virtualChildren[k]] == (m, k)
    {
      if m != v || k != name {
        assert vnodes'[m].virtualChildren[k] == vnodes[m].virtualChildren[k];
      }
    }
    forall x | x in vparent'
      ensures vparent'[x].0 in vnodes' && vparent'[x].1 in vnodes'[vparent'[x].0].virtualChildren
      ensures vnodes'[vparent'[x].0].virtualChildren[vparent'[x].1] == x
    {
      if x != c {
        assert x in vparent && vparent'[x] == vparent[x];
      }
    }
  }

  /** The arena after erasing the virtual child `name` of `v`. */
  function WithoutVirtualChild(vnodes: map<VNodeId, VirtualNode>, v: VNodeId, name: string): map<VNodeId, VirtualNode>
    requires v in vnodes
  {
    vnodes[v := vnodes[v].(virtualChildren := vnodes[v].virtualChildren - {name})]
  }

  /** Erasing a virtual child keeps the tree a tree once that child hangs
      from nothing. */
  lemma VirtualUnlinkKeepsTree(vnodes: map<VNodeId, VirtualNode>, vparent: map<VNodeId, (VNodeId, string)>, root: VNodeId,
                               v: VNodeId, name: string)
    requires VirtualTreeShaped(vnodes, vparent, root) && v in vnodes
    ensures VirtualTreeShaped(WithoutVirtualChild(vnodes, v, name),
                              if name in vnodes[v].virtualChildren then vparent - {vnodes[v].virtualChildren[name]} else vparent,
                              root)
  {
    var vnodes' := WithoutVirtualChild(vnodes, v, name);
    var vparent' := if name in vnodes[v].virtualChildren then vparent - {vnodes[v].virtualChildren[name]} else vparent;
    forall m, k | m in vnodes' && k in vnodes'[m].virtualChildren
      ensures vnodes'[m].virtualChildren[k] in vnodes' && vnodes'[m].virtualChildren[k] in vparent'
      ensures vparent'[vnodes'[m].virtualChildren[k]] == (m, k)
    {
      assert vnodes'[m].virtualChildren[k] == vnodes[m].virtualChildren[k];
    }
    forall x | x in vparent'
      ensures vparent'[x].0 in vnodes' && vparent'[x].1 in vnodes'[vparent'[x].0].virtualChildren
      ensures vnodes'[vparent'[x].0].virtualChildren[vparent'[x].1] == x
    {
      assert x in vparent && vparent'[x] == vparent[x];
      var m, k := vparent[x].0, vparent[x].1;
      assert vnodes[m].virtualChildren[k] == x;
    }
  }

  /** Where each node of a virtual chain hangs: from the node before, under
      the key before. */
  function VirtualChainParents(head: VNodeId, ks: seq<string>): map<VNodeId, (VNodeId, string)>
  {
    map id: VNodeId | head < id <= head + |ks| :: VirtualChainLink(head, ks, id)
  }

  function VirtualChainLink(head: VNodeId, ks: seq<string>, id: VNodeId): (VNodeId, string)
    requires head < id <= head + |ks|
  {
    (id - 1, ks[id - 1 - head])
  }

  /** Adding a chain of new virtual nodes, not yet linked, keeps the tree a
      tree, and leaves the chain's head hanging from nothing. */
  lemma VirtualChainKeepsTree(vnodes: map<VNodeId, VirtualNode>, vparent: map<VNodeId, (VNodeId, string)>, root: VNodeId,
                              head: VNodeId, ks: seq<string>, h: HolderId, arena: map<VNodeId, VirtualNode>)
    requires VirtualTreeShaped(vnodes, vparent, root) && IsVirtualChain(arena, head, ks, h)
    requires forall m :: m in vnodes ==> m < head
    requires forall m :: m in arena <==> m in vnodes || head <= m < head + |ks| + 1
    requires forall m :: m in vnodes ==> arena[m] == vnodes[m]
    ensures VirtualTreeShaped(arena, vparent + VirtualChainParents(head, ks), root)
    ensures head !in vparent + VirtualChainParents(head, ks)
  {
    VirtualChainEdgesHaveParents(vnodes, vparent, root, head, ks, h, arena);
    VirtualChainParentsAreEdges(vnodes, vparent, root, head, ks, h, arena);
  }

  lemma VirtualChainEdgesHaveParents(vnodes: map<VNodeId, VirtualNode>, vparent: map<VNodeId, (VNodeId, string)>,
                                     root: VNodeId, head: VNodeId, ks: seq<string>, h: HolderId,
                                     arena: map<VNodeId, VirtualNode>)
    requires VirtualTreeShaped(vnodes, vparent, root) && IsVirtualChain(arena, head, ks, h)
    requires forall m :: m in vnodes ==> m < head
    requires forall m :: m in arena <==> m in vnodes || head <= m < head + |ks| + 1
    requires forall m :: m in vnodes ==> arena[m] == vnodes[m]
    ensures forall m, k :: m in arena && k in arena[m].virtualChildren ==>
              && arena[m].virtualChildren[k] in arena
              && arena[m].virtualChildren[k] in vparent + VirtualChainParents(head, ks)
              && (vparent + VirtualChainParents(head, ks))[arena[m].virtualChildren[k]] == (m, k)
  {
    var chain := VirtualChainParents(head, ks);
    forall m, k | m in arena && k in arena[m].virtualChildren
      ensures arena[m].virtualChildren[k] in arena && arena[m].virtualChildren[k] in vparent + chain
      ensures (vparent + chain)[arena[m].virtualChildren[k]] == (m, k)
    {
      if m in vnodes {
        assert arena[m] == vnodes[m];
        assert vnodes[m].virtualChildren[k] in vnodes;
        assert vnodes[m].virtualChildren[k] !in chain;
      } else {
        assert m - head < |ks|;
        assert arena[m].virtualChildren == map[ks[m - head] := m + 1];
        assert chain[m + 1] == VirtualChainLink(head, ks, m + 1);
      }
    }
  }

  lemma VirtualChainParentsAreEdges(vnodes: map<VNodeId, VirtualNode>, vparent: map<VNodeId, (VNodeId, string)>,
                                    root: VNodeId, head: VNodeId, ks: seq<string>, h: HolderId,
                                    arena: map<VNodeId, VirtualNode>)
    requires VirtualTreeShaped(vnodes, vparent, root) && IsVirtualChain(arena, head, ks, h)
    requires forall m :: m in vnodes ==> m < head
    requires forall m :: m in arena <==> m in vnodes || head <= m < head + |ks| + 1
    requires forall m :: m in vnodes ==> arena[m] == vnodes[m]
    ensures forall c :: c in vparent + VirtualChainParents(head, ks) ==>
              && (vparent + VirtualChainParents(head, ks))[c].0 in arena
              && (vparent + VirtualChainParents(head, ks))[c].1
                 in arena[(vparent + VirtualChainParents(head, ks))[c].0].virtualChildren
              && arena[(vparent + VirtualChainParents(head, ks))[c].0].virtualChildren[
                   (vparent + VirtualChainParents(head, ks))[c].1] == c
    ensures head !in vparent + VirtualChainParents(head, ks)
  {
    var chain := VirtualChainParents(head, ks);
    var vparent' := vparent + chain;
    forall c | c in vparent'
      ensures vparent'[c].0 in arena && vparent'[c].1 in arena[vparent'[c].0].virtualChildren
      ensures arena[vparent'[c].0].virtualChildren[vparent'[c].1] == c
    {
      if c in chain {
        assert vparent'[c] == VirtualChainLink(head, ks, c);
        assert arena[c - 1] == VirtualNode([], map[ks[c - 1 - head] := c]);
      } else {
        assert c in vparent && vparent'[c] == vparent[c];
        assert arena[vparent[c].0] == vnodes[vparent[c].0];
      }
    }
  }

  // ---------------------------------------------------------------------------
  // The branch `GrowBranchAndMount` builds

  /** The branch below a new head: nodes `head` to `head + |keys| - 1` each
      link the next under the next key and have nothing mounted; the last
      one, `head + |keys|`, has only `holder` mounted and no children. */
  ghost predicate IsVirtualChain(vnodes: map<VNodeId, VirtualNode>, head: VNodeId, keys: seq<string>, holder: HolderId)
  {
    && (forall id :: head <= id < head + |keys| ==>
          id in vnodes && vnodes[id] == VirtualNode([], map[keys[id - head] := id + 1]))
    && head + |keys| in vnodes && vnodes[head + |keys|] == VirtualNode([holder], map[])
  }

  /** A chain leads from its head, key by key, to its last node. */
  lemma {:induction false} VirtualChainFinds(vnodes: map<VNodeId, VirtualNode>, head: VNodeId, keys: seq<string>,
                                             holder: HolderId, j: nat)
    requires IsVirtualChain(vnodes, head, keys, holder) && j <= |keys|
    ensures VirtualFind(vnodes, head, keys[..j]) == Some(head + j)
  {
    if j > 0 {
      VirtualChainFinds(vnodes, head, keys, holder, j - 1);
      assert keys[..j] == keys[..j - 1] + [keys[j - 1]];
      BaseImpl.ResolveSnoc(VirtualChildOf(vnodes), head, keys[..j - 1], keys[j - 1]);
    }
  }

  /** The loop's chain after `n` keys: the nodes from `head` on link the next
      under the next key, and the last one, `head + n - 1`, is still empty. */
  ghost predicate PartialVirtualChain(arena: map<VNodeId, VirtualNode>, head: VNodeId, keys: seq<string>, n: nat)
    requires 1 <= n <= |keys|
  {
    && (forall id :: head <= id < head + n - 1 ==>
          id in arena && arena[id] == VirtualNode([], map[keys[id - head + 1] := id + 1]))
    && head + n - 1 in arena && arena[head + n - 1] == EmptyVirtualNode
  }

  /** The state of the loop after `n` keys: `base` with the nodes `head` to
      `head + n - 1` added, which form a partial chain. */
  ghost predicate VirtualBuilding(arena: map<VNodeId, VirtualNode>, base: map<VNodeId, VirtualNode>, head: VNodeId,
                                  keys: seq<string>, n: nat)
    requires 1 <= n <= |keys|
  {
    && (forall m :: m in arena <==> m in base || head <= m < head + n)
    && (forall m :: m in base ==> arena[m] == base[m])
    && PartialVirtualChain(arena, head, keys, n)
  }

  /** `SetVirtualChild` (Storage.cpp:159-163) on the arena: insert or replace
      the entry `name` of `v`. */
  function WithVirtualChild(vnodes: map<VNodeId, VirtualNode>, v: VNodeId, name: string, c: VNodeId)
      : map<VNodeId, VirtualNode>
    requires v in vnodes
  {
    vnodes[v := vnodes[v].(virtualChildren := vnodes[v].virtualChildren[name := c])]
  }

  /** `Mount` (Storage.cpp:165-166) on the arena: bind `holder` last. */
  function WithMounted(vnodes: map<VNodeId, VirtualNode>, v: VNodeId, holder: HolderId): map<VNodeId, VirtualNode>
    requires v in vnodes
  {
    vnodes[v := vnodes[v].(mounted := vnodes[v].mounted + [holder])]
  }

  lemma PartialVirtualChainGrows(arena: map<VNodeId, VirtualNode>, head: VNodeId, keys: seq<string>, n: nat,
                                 tail: VNodeId, name: string)
    requires 1 <= n < |keys| && PartialVirtualChain(arena, head, keys, n)
    requires tail == head + n - 1 && name == keys[n]
    ensures PartialVirtualChain(WithVirtualChild(arena[tail + 1 := EmptyVirtualNode], tail, name, tail + 1),
                                head, keys, n + 1)
  {
    var after := WithVirtualChild(arena[tail + 1 := EmptyVirtualNode], tail, name, tail + 1);
    forall id | head <= id < head + n
      ensures id in after && after[id] == VirtualNode([], map[keys[id - head + 1] := id + 1])
    {
      if id < tail {
        assert after[id] == arena[id];
      } else {
        assert arena[tail].virtualChildren == map[];
      }
    }
  }

  lemma VirtualFrameGrows(arena: map<VNodeId, VirtualNode>, base: map<VNodeId, VirtualNode>, head: VNodeId,
                          tail: VNodeId, name: string)
    requires head <= tail && tail in arena
    requires forall m :: m in base ==> m < head
    requires forall m :: m in arena <==> m in base || head <= m < tail + 1
    requires forall m :: m in base ==> arena[m] == base[m]
    ensures var after := WithVirtualChild(arena[tail + 1 := EmptyVirtualNode], tail, name, tail + 1);
            && (forall m :: m in after <==> m in base || head <= m < tail + 2)
            && (forall m :: m in base ==> after[m] == base[m])
  {
  }

  /** One more step of the loop: a new node linked under the last one by the
      next key. Nodes older than `head` stay as they are. */
  lemma VirtualBuildingGrows(arena: map<VNodeId, VirtualNode>, base: map<VNodeId, VirtualNode>, head: VNodeId,
                             keys: seq<string>, n: nat, tail: VNodeId, name: string)
    requires 1 <= n < |keys| && VirtualBuilding(arena, base, head, keys, n)
    requires tail == head + n - 1 && name == keys[n]
    requires forall m :: m in base ==> m < head
    ensures VirtualBuilding(WithVirtualChild(arena[tail + 1 := EmptyVirtualNode], tail, name, tail + 1),
                            base, head, keys, n + 1)
  {
    PartialVirtualChainGrows(arena, head, keys, n, tail, name);
    VirtualFrameGrows(arena, base, head, tail, name);
  }

  /** Once every key has its node, mounting the holder on the last one gives
      the chain of the branch below its head. */
  lemma VirtualBuildingComplete(arena: map<VNodeId, VirtualNode>, base: map<VNodeId, VirtualNode>, head: VNodeId,
                                keys: seq<string>, holder: HolderId, tail: VNodeId)
    requires 1 <= |keys| && VirtualBuilding(arena, base, head, keys, |keys|) && tail == head + |keys| - 1
    requires forall m :: m in base ==> m < head
    ensures var after := WithMounted(arena, tail, holder);
            && (forall m :: m in after <==> m in base || head <= m < head + |keys|)
            && (forall m :: m in base ==> after[m] == base[m])
            && IsVirtualChain(after, head, keys[1..], holder)
  {
    var after := WithMounted(arena, tail, holder);
    forall id | head <= id < head + |keys| - 1
      ensures id in after && after[id] == VirtualNode([], map[keys[1..][id - head] := id + 1])
    {
      assert after[id] == arena[id];
    }
  }

  /** Linking the head of a chain under a node older than the chain leaves the
      chain as it is. */
  lemma VirtualChainSurvivesLink(vnodes: map<VNodeId, VirtualNode>, head: VNodeId, keys: seq<string>,
                                 holder: HolderId, v: VNodeId, name: string)
    requires IsVirtualChain(vnodes, head, keys, holder) && v in vnodes && v < head
    ensures IsVirtualChain(WithVirtualChild(vnodes, v, name, head), head, keys, holder)
  {
  }

  /** A branch linked as child `keys[0]` of `v`, whose chain follows the
      remaining keys, leads from `v` along all of `keys` to its last node. */
  lemma GrownVirtualBranchFinds(vnodes: map<VNodeId, VirtualNode>, v: VNodeId, keys: seq<string>, head: VNodeId,
                                holder: HolderId)
    requires |keys| > 0 && v in vnodes && keys[0] in vnodes[v].virtualChildren
    requires vnodes[v].virtualChildren[keys[0]] == head
    requires IsVirtualChain(vnodes, head, keys[1..], holder)
    ensures VirtualFind(vnodes, v, keys) == Some(head + |keys| - 1)
  {
    assert keys == [keys[0]] + keys[1..];
    assert keys[1..][..|keys| - 1] == keys[1..];
    VirtualChainFinds(vnodes, head, keys[1..], holder, |keys| - 1);
    BaseImpl.ResolveAppend(VirtualChildOf(vnodes), v, [keys[0]], keys[1..]);
  }

  /** A durable branch hung as child `keys[0]` of `n`, whose chain follows the
      remaining keys, leads from `n` to `value`. */
  lemma GrownBranchHolds(nodes: map<NodeId, Node>, n: NodeId, keys: seq<string>, head: NodeId, value: Value)
    requires |keys| > 0 && n in nodes && keys[0] in nodes[n].children && nodes[n].children[keys[0]] == head
    requires IsChain(nodes, head, keys[1..], value)
    ensures ValueAt(nodes, n, keys) == Some(value)
  {
    assert keys == [keys[0]] + keys[1..];
    assert keys[1..][..|keys| - 1] == keys[1..];
    ChainFinds(nodes, head, keys[1..], value, |keys| - 1);
    BaseImpl.ResolveAppend(ChildOf(nodes), n, [keys[0]], keys[1..]);
  }

  // ---------------------------------------------------------------------------
  // Unmounting: `std::find` and `erase`

  /** `std::find`: the first position holding `x`, or `|s|` when there is
      none. */
  function IndexOf<T(==)>(s: seq<T>, x: T): (k: nat)
    ensures k <= |s|
    ensures k < |s| ==> s[k] == x
    ensures forall j :: 0 <= j < k ==> s[j] != x
  {
    if s == [] then 0 else if s[0] == x then 0 else 1 + IndexOf(s[1..], x)
  }

  /** `erase(find(x))` when found: `s` without its first `x`, otherwise `s`. */
  function RemoveFirst<T(==)>(s: seq<T>, x: T): seq<T>
  {
    var k := IndexOf(s, x);
    if k < |s| then s[..k] + s[k + 1..] else s
  }

  /** Unmounting removes one binding of the holder, keeps every other binding
      and the order of what is left, and does nothing to a list that does not
      bind it. */
  lemma RemoveFirstCounts<T>(s: seq<T>, x: T)
    ensures x in s ==> multiset(RemoveFirst(s, x)) == multiset(s) - multiset{x}
    ensures x !in s ==> RemoveFirst(s, x) == s
    ensures x in RemoveFirst(s, x) <==> multiset(s)[x] > 1
  {
    var k := IndexOf(s, x);
    if k < |s| {
      assert s == s[..k] + [s[k]] + s[k + 1..];
      assert multiset(s) == multiset(s[..k]) + multiset{x} + multiset(s[k + 1..]);
    } else {
      assert forall j :: 0 <= j < |s| ==> s[j] != x;
    }
  }

  /** The bindings left after unmounting keep their relative order: the
      positions before the removed one stay, those after it move down by
      one. */
  lemma RemoveFirstKeepsOrder<T>(s: seq<T>, x: T)
    requires x in s
    ensures var k := IndexOf(s, x); var r := RemoveFirst(s, x);
            && |r| == |s| - 1
            && (forall i :: 0 <= i < k ==> r[i] == s[i])
            && (forall i :: k <= i < |r| ==> r[i] == s[i + 1])
  {
    assert IndexOf(s, x) < |s|;
  }

  // ---------------------------------------------------------------------------
  // Locking a virtual node

  /** The durable nodes the holders of `m` show, as mutexes, in order. */
  function BoundLocks(holders: map<HolderId, MountHolder>, m: seq<HolderId>): (ts: seq<Lockable>)
    requires forall i :: 0 <= i < |m| ==> m[i] in holders
    ensures |ts| == |m|
    ensures forall i :: 0 <= i < |m| ==> ts[i] == NodeLock(holders[m[i]].volume, holders[m[i]].node)
  {
    if m == [] then [] else BoundLocks(holders, m[..|m| - 1]) + [NodeLock(holders[m[|m| - 1]].volume, holders[m[|m| - 1]].node)]
  }

  /** Taking each mutex of `ts` in order. */
  function AcquireAll(mode: LockMode, ts: seq<Lockable>): (es: seq<LockEvent>)
    ensures |es| == |ts|
    ensures forall i :: 0 <= i < |ts| ==> es[i] == Acquire(mode, ts[i])
  {
    if ts == [] then [] else AcquireAll(mode, ts[..|ts| - 1]) + [Acquire(mode, ts[|ts| - 1])]
  }

  /** Giving up each mutex of `ts`, the last one first. */
  function ReleaseAll(mode: LockMode, ts: seq<Lockable>): (es: seq<LockEvent>)
    ensures |es| == |ts|
    ensures forall i :: 0 <= i < |ts| ==> es[i] == Release(mode, ts[|ts| - 1 - i])
  {
    if ts == [] then [] else ReleaseAll(mode, ts[1..]) + [Release(mode, ts[0])]
  }

  /** The mutexes held after the steps `es`, starting from `held`, the newest
      last: a step that takes a mutex pushes it, a step that gives one up must
      give up the newest one held and pops it. Nothing when some step gives up
      a mutex other than the newest one held. */
  function Replay(held: seq<Lockable>, es: seq<LockEvent>): Option<seq<Lockable>>
    decreases |es|
  {
    if es == [] then Some(held)
    else match es[0]
      case Acquire(_, t) => Replay(held + [t], es[1..])
      case Release(_, t) =>
        if held != [] && held[|held| - 1] == t then Replay(held[..|held| - 1], es[1..]) else None
  }

  /** Taking the mutexes of `ts` in order pushes them, in order. */
  lemma {:induction false} ReplayAcquires(held: seq<Lockable>, mode: LockMode, ts: seq<Lockable>, rest: seq<LockEvent>)
    ensures Replay(held, AcquireAll(mode, ts) + rest) == Replay(held + ts, rest)
    decreases |ts|
  {
    if ts == [] {
      assert AcquireAll(mode, ts) + rest == rest;
      assert held + ts == held;
    } else {
      var es := AcquireAll(mode, ts) + rest;
      assert es[0] == Acquire(mode, ts[0]);
      assert es[1..] == AcquireAll(mode, ts[1..]) + rest;
      ReplayAcquires(held + [ts[0]], mode, ts[1..], rest);
      assert held + [ts[0]] + ts[1..] == held + ts;
    }
  }

  /** Giving the mutexes of `ts` up, the last one first, pops them all. */
  lemma {:induction false} ReplayReleases(held: seq<Lockable>, mode: LockMode, ts: seq<Lockable>, rest: seq<LockEvent>)
    ensures Replay(held + ts, ReleaseAll(mode, ts) + rest) == Replay(held, rest)
    decreases |ts|
  {
    if ts == [] {
      assert ReleaseAll(mode, ts) + rest == rest;
      assert held + ts == held;
    } else {
      var inner := held + [ts[0]];
      assert held + ts == inner + ts[1..];
      assert ReleaseAll(mode, ts) + rest == ReleaseAll(mode, ts[1..]) + ([Release(mode, ts[0])] + rest);
      ReplayReleases(inner, mode, ts[1..], [Release(mode, ts[0])] + rest);
      assert inner[..|inner| - 1] == held;
    }
  }

  /** Replaying one step, then the rest. */
  lemma ReplayStep(held: seq<Lockable>, e: LockEvent, rest: seq<LockEvent>)
    ensures e.Acquire? ==> Replay(held, [e] + rest) == Replay(held + [e.target], rest)
    ensures e.Release? && held != [] && held[|held| - 1] == e.target ==>
              Replay(held, [e] + rest) == Replay(held[..|held| - 1], rest)
  {
    assert ([e] + rest)[1..] == rest;
  }

  /** `lock()` followed by `unlock()` on a virtual node: the own mutex first,
      then the mounted nodes' oldest first, then each given up newest first.
      Every step gives up the newest mutex held, and at the end nothing is
      held. */
  lemma UnlockUndoesLock(mode: LockMode, own: Lockable, ts: seq<Lockable>)
    ensures Replay([], [Acquire(mode, own)] + AcquireAll(mode, ts)) == Some([own] + ts)
    ensures Replay([], [Acquire(mode, own)] + AcquireAll(mode, ts) + ReleaseAll(mode, ts) + [Release(mode, own)])
            == Some([])
  {
    var acquire, release := AcquireAll(mode, ts), ReleaseAll(mode, ts);
    assert [] + [own] == [own];
    ReplayStep([], Acquire(mode, own), acquire + []);
    ReplayAcquires([own], mode, ts, []);
    assert acquire + [] == acquire;
    ReplayStep([], Acquire(mode, own), acquire + (release + [Release(mode, own)]));
    ReplayAcquires([own], mode, ts, release + [Release(mode, own)]);
    ReplayReleases([own], mode, ts, [Release(mode, own)]);
    ReplayStep([own], Release(mode, own), []);
    assert [own][..0] == [];
    assert [Acquire(mode, own)] + acquire + release + [Release(mode, own)]
        == [Acquire(mode, own)] + (acquire + (release + [Release(mode, own)]));
  }

  /** The `std::for_each` of `lock()`: take the node of each binding of `m`,
      oldest first, appending the steps to `log`. */
  method AcquireEach(log: seq<LockEvent>, mode: LockMode, holders: map<HolderId, MountHolder>, m: seq<HolderId>)
      returns (out: seq<LockEvent>)
    requires forall i :: 0 <= i < |m| ==> m[i] in holders
    ensures out == log + AcquireAll(mode, BoundLocks(holders, m))
  {
    ghost var ts := BoundLocks(holders, m);
    out := log;
    var i := 0;
    while i < |m|
      invariant 0 <= i <= |m|
      invariant out == log + AcquireAll(mode, ts[..i])
    {
      var h := holders[m[i]];
      assert ts[..i + 1][..i] == ts[..i];
      out := out + [Acquire(mode, NodeLock(h.volume, h.node))];
      i := i + 1;
    }
    assert ts[..|m|] == ts;
  }

  /** The `std::for_each` of `unlock()`: give up the node of each binding of
      `m`, newest first, appending the steps to `log`. */
  method ReleaseEach(log: seq<LockEvent>, mode: LockMode, holders: map<HolderId, MountHolder>, m: seq<HolderId>)
      returns (out: seq<LockEvent>)
    requires forall i :: 0 <= i < |m| ==> m[i] in holders
    ensures out == log + ReleaseAll(mode, BoundLocks(holders, m))
  {
    ghost var ts := BoundLocks(holders, m);
    out := log;
    var i := |m|;
    assert ts[i..] == [];
    while i > 0
      invariant 0 <= i <= |m|
      invariant out == log + ReleaseAll(mode, ts[i..])
    {
      i := i - 1;
      var h := holders[m[i]];
      assert ts[i..][1..] == ts[i + 1..];
      out := out + [Release(mode, NodeLock(h.volume, h.node))];
    }
    assert ts[0..] == ts;
  }

  /** The arenas of a storage: the root exists, every virtual child and every
      binding refers to an allocated node or holder, and identities are below
      the next free one. */
  ghost predicate ArenaValid(vnodes: map<VNodeId, VirtualNode>, nextVid: VNodeId, root: VNodeId,
                             holders: map<HolderId, MountHolder>, nextHolder: HolderId)
  {
    && root in vnodes && Closed(vnodes)
    && (forall v :: v in vnodes ==> v < nextVid)
    && (forall v, i :: v in vnodes && 0 <= i < |vnodes[v].mounted| ==> vnodes[v].mounted[i] in holders)
    && (forall h :: h in holders ==> h < nextHolder)
  }

  /** The loop of `GrowBranchAndMount` (Storage.cpp:124-133) for a non-empty
      path on the arena: a new head node, then one new virtual node per
      further key, each set as the child of the one before, and the holder
      mounted on the last one. The new nodes take the free identities from
      `head` on; the result is the arena with them added, in which no node of
      `base` has changed, and the head's name, the first key. */
  method BuildVirtualBranch(base: map<VNodeId, VirtualNode>, head: VNodeId, path: PathView, holder: HolderId)
    returns (headName: string, arena: map<VNodeId, VirtualNode>)
    requires path.Valid() && path.GetDepth() > 0
    requires forall m :: m in base ==> m < head
    ensures |path.Keys()| == path.GetDepth() && headName == path.Keys()[0]
    ensures forall m :: m in arena <==> m in base || head <= m < head + path.GetDepth()
    ensures forall m :: m in base ==> arena[m] == base[m]
    ensures IsVirtualChain(arena, head, path.Keys()[1..], holder)
  {
    ghost var keys := path.Keys();
    ghost var depth := path.GetDepth();
    IteratorAt(path, 0);
    var key := path.begin;
    var end := path.End();
    arena := base[head := EmptyVirtualNode];
    headName := Current(path.text, key);
    key := Next(path.text, key);
    var tail := head;
    ghost var i := 1;
    while key != end
      invariant 1 <= i <= depth
      invariant key == Advance(path.text, path.begin, i)
      invariant tail == head + i - 1
      invariant VirtualBuilding(arena, base, head, keys, i)
      decreases depth - i
    {
      IteratorAt(path, i);
      var name := Current(path.text, key);
      VirtualBuildingGrows(arena, base, head, keys, i, tail, name);
      arena := WithVirtualChild(arena[tail + 1 := EmptyVirtualNode], tail, name, tail + 1);
      tail := tail + 1;
      key := Next(path.text, key);
      i := i + 1;
    }
    IteratorAt(path, i);
    VirtualBuildingComplete(arena, base, head, keys, holder, tail);
    arena := WithMounted(arena, tail, holder);
  }

  /** A chain whose binding is a known holder, added at the next free
      identities, keeps the arenas valid. */
  lemma BranchKeepsArenaValid(vnodes: map<VNodeId, VirtualNode>, nextVid: VNodeId, root: VNodeId,
                              holders: map<HolderId, MountHolder>, nextHolder: HolderId,
                              arena: map<VNodeId, VirtualNode>, ks: seq<string>, h: HolderId)
    requires ArenaValid(vnodes, nextVid, root, holders, nextHolder) && h in holders
    requires IsVirtualChain(arena, nextVid, ks, h)
    requires forall m :: m in arena <==> m in vnodes || nextVid <= m < nextVid + |ks| + 1
    requires forall m :: m in vnodes ==> arena[m] == vnodes[m]
    ensures ArenaValid(arena, nextVid + |ks| + 1, root, holders, nextHolder)
  {
  }

  /** `after` is `before` with a new branch below `v`: the nodes from `head`
      on are new and form a chain along `keys[1..]` whose last node binds only
      `h`, and only `v` has changed, by gaining the entry `keys[0]`. */
  ghost predicate GrewBranch(before: map<VNodeId, VirtualNode>, after: map<VNodeId, VirtualNode>, v: VNodeId,
                             head: VNodeId, keys: seq<string>, h: HolderId)
  {
    && |keys| > 0 && v in before
    && (forall m :: m in after <==> m in before || head <= m < head + |keys|)
    && (forall m :: m in before && m != v ==> after[m] == before[m])
    && after[v] == before[v].(virtualChildren := before[v].virtualChildren[keys[0] := head])
    && after[head + |keys| - 1] == VirtualNode([h], map[])
    && IsVirtualChain(after, head, keys[1..], h)
  }

  /** Linking a new branch below `v` by its first key grows the arena by
      that branch. */
  lemma LinkedBranch(base: map<VNodeId, VirtualNode>, arena: map<VNodeId, VirtualNode>, after: map<VNodeId, VirtualNode>,
                     v: VNodeId, head: VNodeId, keys: seq<string>, h: HolderId)
    requires |keys| > 0 && v in base && forall m :: m in base ==> m < head
    requires forall m :: m in arena <==> m in base || head <= m < head + |keys|
    requires forall m :: m in base ==> arena[m] == base[m]
    requires IsVirtualChain(arena, head, keys[1..], h)
    requires after == WithVirtualChild(arena, v, keys[0], head)
    ensures GrewBranch(base, after, v, head, keys, h)
  {
    VirtualChainSurvivesLink(arena, head, keys[1..], h, v, keys[0]);
  }

  /** The grow engine (BaseImpl.h:28-62) on the virtual tree, as
      `Storage::Impl::Mount` runs it: the deepest virtual node that exists
      along `where`, which has no child under the next key, and the rest of
      the path from there. */
  method VirtualGrowthPoint(vnodes: map<VNodeId, VirtualNode>, root: VNodeId, where: string)
    returns (r: Outcome<(VNodeId, PathView)>, locker: TraceLocker?<VNodeId>)
    requires Closed(vnodes) && root in vnodes && |where| > 0
    ensures where[0] != Separator ==> r == Thrown(InvalidArgument)
    ensures where[0] == Separator ==>
              && r.Done? && locker != null && fresh(locker) && locker.Valid()
              && var keys := Split(where);
              && var d := BaseImpl.ExistingDepth(VirtualChildOf(vnodes), root, keys);
              && VirtualFind(vnodes, root, keys[..d]) == Some(r.value.0) && r.value.0 in vnodes
              && (d < |keys| ==> VirtualChildIn(vnodes, r.value.0, keys[d]).None?)
              && r.value.1.Valid() && r.value.1.Keys() == keys[d..] && r.value.1.GetDepth() == |keys| - d
  {
    r, locker := BaseImpl.GrowthPoint(root, where, VirtualChildOf(vnodes));
    if r.Done? {
      ghost var keys := Split(where);
      ghost var d := BaseImpl.ExistingDepth(VirtualChildOf(vnodes), root, keys);
      VirtualFindStaysInArena(vnodes, root, keys[..d]);
    }
  }

  /** After a mount of `h` along `keys` from `root`: the keys lead to
      `owner`, whose newest binding is `h`; every path that led somewhere
      still leads to the same node, and a path that leads somewhere only now
      is a prefix of `keys`; no other binding was added or removed anywhere,
      and every new node other than `owner` has nothing bound. */
  ghost predicate MountedAt(before: map<VNodeId, VirtualNode>, after: map<VNodeId, VirtualNode>, root: VNodeId,
                            keys: seq<string>, owner: VNodeId, h: HolderId)
  {
    && VirtualFind(after, root, keys) == Some(owner)
    && owner in after
    && (owner in before ==> after[owner].mounted == before[owner].mounted + [h])
    && (owner !in before ==> after[owner].mounted == [h])
    && (forall w :: w in before && w != owner ==> w in after && after[w].mounted == before[w].mounted)
    && (forall q :: VirtualFind(before, root, q).Some? ==> VirtualFind(after, root, q) == VirtualFind(before, root, q))
    && (forall q :: VirtualFind(after, root, q).Some? ==> VirtualFind(before, root, q).Some? || q <= keys)
    && (forall w :: w in after && w !in before && w != owner ==> after[w].mounted == [])
  }

  /** Binding `h` on the node the whole path leads to mounts it there. */
  lemma PushMountMounts(before: map<VNodeId, VirtualNode>, root: VNodeId, keys: seq<string>, current: VNodeId,
                        h: HolderId)
    requires VirtualFind(before, root, keys) == Some(current) && current in before
    ensures MountedAt(before, WithMounted(before, current, h), root, keys, current, h)
  {
    var after := WithMounted(before, current, h);
    forall q
      ensures VirtualFind(before, root, q).Some? ==> VirtualFind(after, root, q) == VirtualFind(before, root, q)
      ensures VirtualFind(after, root, q).Some? ==> VirtualFind(before, root, q) == VirtualFind(after, root, q)
    {
      KeptVirtualEdgesKeepPaths(before, after, root, q);
      KeptVirtualEdgesKeepPaths(after, before, root, q);
    }
  }

  /** Growing a branch for the missing keys below the deepest existing node
      mounts `h` on the branch's last node. */
  lemma GrownBranchMounts(before: map<VNodeId, VirtualNode>, vparent: map<VNodeId, (VNodeId, string)>,
                          after: map<VNodeId, VirtualNode>, root: VNodeId,
                          keys: seq<string>, d: nat, current: VNodeId, head: VNodeId, h: HolderId,
                          owner: VNodeId)
    requires VirtualTreeShaped(before, vparent, root)
    requires d < |keys| && VirtualFind(before, root, keys[..d]) == Some(current)
    requires VirtualChildIn(before, current, keys[d]).None?
    requires forall m :: m in before ==> m < head
    requires GrewBranch(before, after, current, head, keys[d..], h) && owner == head + |keys| - d - 1
    ensures MountedAt(before, after, root, keys, owner, h)
  {
    assert keys[d..][0] == keys[d] && keys[d..][1..] == keys[d + 1..];
    assert VirtualGrownFrom(before, after, current, keys[d], head);
    GrownKeepsVirtualPaths(before, after, root, current, keys[d], head);
    GrownBranchFindsOwner(before, after, root, keys, d, current, head, h);
    GrownVirtualPathsArePrefixes(before, vparent, after, root, keys, d, current, head, h);
    GrownBranchBindings(before, after, current, head, keys[d..], h);
  }

  /** The whole path leads, through the old nodes and then the new branch, to
      the branch's last node. */
  lemma GrownBranchFindsOwner(before: map<VNodeId, VirtualNode>, after: map<VNodeId, VirtualNode>, root: VNodeId,
                              keys: seq<string>, d: nat, current: VNodeId, head: VNodeId, h: HolderId)
    requires d < |keys| && VirtualFind(before, root, keys[..d]) == Some(current)
    requires VirtualGrownFrom(before, after, current, keys[d], head)
    requires IsVirtualChain(after, head, keys[d..][1..], h)
    ensures VirtualFind(after, root, keys) == Some(head + |keys| - d - 1)
  {
    GrownKeepsVirtualPaths(before, after, root, current, keys[d], head);
    GrownVirtualBranchFinds(after, current, keys[d..], head, h);
    assert keys == keys[..d] + keys[d..];
    BaseImpl.ResolveAppend(VirtualChildOf(after), root, keys[..d], keys[d..]);
  }

  /** A grown branch binds only `h`, on its last node, and changes no binding
      of an older node. */
  lemma GrownBranchBindings(before: map<VNodeId, VirtualNode>, after: map<VNodeId, VirtualNode>, v: VNodeId,
                            head: VNodeId, ks: seq<string>, h: HolderId)
    requires forall m :: m in before ==> m < head
    requires GrewBranch(before, after, v, head, ks, h)
    ensures head + |ks| - 1 !in before && after[head + |ks| - 1].mounted == [h]
    ensures forall w :: w in before ==> w in after && after[w].mounted == before[w].mounted
    ensures forall w :: w in after && w !in before && w != head + |ks| - 1 ==> after[w].mounted == []
  {
    forall w | w in after && w !in before && w != head + |ks| - 1
      ensures after[w].mounted == []
    {
      assert head <= w < head + |ks[1..]|;
    }
  }

  /** In a grown virtual arena, every path that leads somewhere only now is a
      prefix of `keys`. */
  lemma GrownVirtualPathsArePrefixes(before: map<VNodeId, VirtualNode>, vparent: map<VNodeId, (VNodeId, string)>,
                                     after: map<VNodeId, VirtualNode>, root: VNodeId, keys: seq<string>, d: nat,
                                     current: VNodeId, head: VNodeId, h: HolderId)
    requires VirtualTreeShaped(before, vparent, root) && d < |keys|
    requires VirtualFind(before, root, keys[..d]) == Some(current)
    requires VirtualGrownFrom(before, after, current, keys[d], head)
    requires IsVirtualChain(after, head, keys[d + 1..], h)
    ensures forall q :: VirtualFind(after, root, q).Some? ==> VirtualFind(before, root, q).Some? || q <= keys
  {
    forall q | VirtualFind(after, root, q).Some?
      ensures VirtualFind(before, root, q).Some? || q <= keys
    {
      GrownVirtualPaths(before, vparent, after, root, keys, d, current, head, h, q);
    }
  }

  /** A grown virtual arena: every node of `before` is kept, and only
      `current` changes, gaining `head` as its virtual child `name`, a name it
      did not have. */
  ghost predicate VirtualGrownFrom(before: map<VNodeId, VirtualNode>, after: map<VNodeId, VirtualNode>,
                                   current: VNodeId, name: string, head: VNodeId)
  {
    && current in before && name !in before[current].virtualChildren
    && (forall m :: m in before ==> m in after)
    && (forall m :: m in before && m != current ==> after[m] == before[m])
    && after[current].virtualChildren == before[current].virtualChildren[name := head]
  }

  /** Growing keeps every virtual edge, so every path that led somewhere. */
  lemma GrownKeepsVirtualPaths(before: map<VNodeId, VirtualNode>, after: map<VNodeId, VirtualNode>, root: VNodeId,
                               current: VNodeId, name: string, head: VNodeId)
    requires VirtualGrownFrom(before, after, current, name, head)
    ensures forall v, k :: VirtualChildIn(before, v, k).Some? ==> VirtualChildIn(after, v, k) == VirtualChildIn(before, v, k)
    ensures forall q :: VirtualFind(before, root, q).Some? ==> VirtualFind(after, root, q) == VirtualFind(before, root, q)
  {
    forall v, k | VirtualChildIn(before, v, k).Some?
      ensures VirtualChildIn(after, v, k) == VirtualChildIn(before, v, k)
    {
    }
    forall q | VirtualFind(before, root, q).Some?
      ensures VirtualFind(after, root, q) == VirtualFind(before, root, q)
    {
      KeptVirtualEdgesKeepPaths(before, after, root, q);
    }
  }

  /** In a grown virtual arena, one step from a node an old path leads to
      takes the old edge, except the new edge from `current` under
      `keys[d]`. */
  lemma GrownVirtualStepFromOld(before: map<VNodeId, VirtualNode>, vparent: map<VNodeId, (VNodeId, string)>,
                                after: map<VNodeId, VirtualNode>, root: VNodeId, keys: seq<string>, d: nat,
                                current: VNodeId, head: VNodeId, h: HolderId, p: seq<string>, k: string)
    requires VirtualTreeShaped(before, vparent, root) && d < |keys|
    requires VirtualFind(before, root, keys[..d]) == Some(current)
    requires VirtualGrownFrom(before, after, current, keys[d], head)
    requires VirtualFind(before, root, p).Some?
    ensures VirtualFind(after, root, p) == VirtualFind(before, root, p)
    ensures || VirtualChildIn(after, VirtualFind(before, root, p).value, k)
               == VirtualChildIn(before, VirtualFind(before, root, p).value, k)
            || (p + [k] == keys[..d + 1] && VirtualChildIn(after, VirtualFind(before, root, p).value, k) == Some(head))
  {
    GrownKeepsVirtualPaths(before, after, root, current, keys[d], head);
    var x := VirtualFind(before, root, p).value;
    VirtualFindStaysInArena(before, root, p);
    if x == current && k == keys[d] {
      VirtualUniquePaths(before, vparent, root, p, keys[..d]);
      assert keys[..d + 1] == keys[..d] + [keys[d]];
    }
  }

  /** Along a virtual chain, the node the first `|p|` keys lead to has one
      child, under the next key, and the last node none. */
  lemma GrownVirtualStepInChain(after: map<VNodeId, VirtualNode>, keys: seq<string>, d: nat, head: VNodeId,
                                h: HolderId, p: seq<string>, k: string)
    requires d < |p| <= |keys| && p == keys[..|p|]
    requires IsVirtualChain(after, head, keys[d + 1..], h)
    ensures VirtualChildIn(after, head + |p| - d - 1, k).Some? ==>
              && p + [k] == keys[..|p| + 1]
              && VirtualChildIn(after, head + |p| - d - 1, k) == Some(head + |p| - d)
  {
    var t := head + |p| - d - 1;
    if |p| < |keys| {
      assert after[t] == VirtualNode([], map[keys[d + 1..][t - head] := t + 1]);
      assert keys[..|p| + 1] == keys[..|p|] + [keys[|p|]];
    } else {
      assert after[t] == VirtualNode([h], map[]);
    }
  }

  /** In a grown virtual arena, a path leads somewhere only if it did before
      or it is a prefix of `keys` longer than `d`, which leads into the new
      branch. */
  lemma {:induction false} GrownVirtualPaths(before: map<VNodeId, VirtualNode>, vparent: map<VNodeId, (VNodeId, string)>,
                                             after: map<VNodeId, VirtualNode>, root: VNodeId, keys: seq<string>, d: nat,
                                             current: VNodeId, head: VNodeId, h: HolderId, q: seq<string>)
    requires VirtualTreeShaped(before, vparent, root) && d < |keys|
    requires VirtualFind(before, root, keys[..d]) == Some(current)
    requires VirtualGrownFrom(before, after, current, keys[d], head)
    requires IsVirtualChain(after, head, keys[d + 1..], h)
    ensures VirtualFind(after, root, q).Some? ==>
              || VirtualFind(before, root, q).Some?
              || (d < |q| <= |keys| && q == keys[..|q|] && VirtualFind(after, root, q) == Some(head + |q| - d - 1))
    decreases |q|
  {
    if q != [] {
      var p, k := q[..|q| - 1], q[|q| - 1];
      assert q == p + [k];
      BaseImpl.ResolveSnoc(VirtualChildOf(after), root, p, k);
      GrownVirtualPaths(before, vparent, after, root, keys, d, current, head, h, p);
      if VirtualFind(before, root, p).Some? {
        BaseImpl.ResolveSnoc(VirtualChildOf(before), root, p, k);
        GrownVirtualStepFromOld(before, vparent, after, root, keys, d, current, head, h, p, k);
      } else if VirtualFind(after, root, p).Some? {
        GrownVirtualStepInChain(after, keys, d, head, h, p, k);
      }
    }
  }

  /** The arena after `Unmount(h)` on `v`: the first binding of `h` is
      gone. */
  function WithoutBinding(vnodes: map<VNodeId, VirtualNode>, v: VNodeId, h: HolderId): map<VNodeId, VirtualNode>
    requires v in vnodes
  {
    vnodes[v := vnodes[v].(mounted := RemoveFirst(vnodes[v].mounted, h))]
  }

  /** Removing a binding keeps the arenas valid. */
  lemma UnbindKeepsArenaValid(vnodes: map<VNodeId, VirtualNode>, nextVid: VNodeId, root: VNodeId,
                              holders: map<HolderId, MountHolder>, nextHolder: HolderId, v: VNodeId, h: HolderId)
    requires ArenaValid(vnodes, nextVid, root, holders, nextHolder) && v in vnodes
    ensures ArenaValid(WithoutBinding(vnodes, v, h), nextVid, root, holders, nextHolder)
  {
    var m := vnodes[v].mounted;
    var after := WithoutBinding(vnodes, v, h);
    if h in m {
      RemoveFirstKeepsOrder(m, h);
    }
    assert forall i :: 0 <= i < |after[v].mounted| ==> after[v].mounted[i] in holders;
    assert after[v].virtualChildren == vnodes[v].virtualChildren;
  }

  /** Unmounting a holder just mounted, and bound nowhere else on that node,
      gives the node back its bindings. */
  lemma UnmountUndoesMount(vnodes: map<VNodeId, VirtualNode>, v: VNodeId, h: HolderId)
    requires v in vnodes && h !in vnodes[v].mounted
    ensures WithoutBinding(WithMounted(vnodes, v, h), v, h) == vnodes
  {
    var m := vnodes[v].mounted;
    assert (m + [h])[|m|] == h;
    assert forall j :: 0 <= j < |m| ==> (m + [h])[j] == m[j] != h;
    assert (m + [h])[..|m|] == m;
    assert RemoveFirst(m + [h], h) == m;
    var after := WithMounted(vnodes, v, h);
    assert after[v].(mounted := m) == vnodes[v];
  }

  /** Every holder keeps a valid volume among `volumes` and shows a node of
      it. */
  ghost predicate HoldersValid(holders: map<HolderId, MountHolder>, volumes: set<VolumeImpl>)
    reads volumes
  {
    forall h :: h in holders ==>
      && holders[h].volume in volumes
      && holders[h].volume.Valid() && holders[h].node in holders[h].volume.nodes
  }

  /** The steps taken on the mutexes of virtual nodes and of the durable
      nodes mounted on them, oldest first. */
  class MutexLog {
    var events: seq<LockEvent>

    constructor()
      ensures events == []
    {
      events := [];
    }
  }

  // ---------------------------------------------------------------------------
  // The storage

  /** `Storage::Impl` (Storage.cpp:171-184) together with the virtual nodes and
      mount holders it reaches. `mutexes` records every step taken on the
      mutexes of virtual nodes and of the durable nodes mounted on them. */
  class StorageImpl {
    /** Every virtual node, by identity. */
    var vnodes: map<VNodeId, VirtualNode>
    /** The identity the next `make_shared<VirtualNode>()` takes. */
    var nextVid: VNodeId
    /** `_root`. */
    const root: VNodeId
    /** Every mount holder made, by identity. */
    var holders: map<HolderId, MountHolder>
    /** The identity the next `make_shared<MountHolder>()` takes. */
    var nextHolder: HolderId
    /** Where the mutex steps are recorded. */
    const mutexes: MutexLog
    /** The volumes the holders keep. */
    ghost var volumes: set<VolumeImpl>
    /** For each virtual node hanging from another, that node and the name. */
    ghost var vparent: map<VNodeId, (VNodeId, string)>

    ghost predicate Valid()
      reads this, volumes
    {
      && ArenaValid(vnodes, nextVid, root, holders, nextHolder)
      && VirtualTreeShaped(vnodes, vparent, root)
      && HoldersValid(holders, volumes)
    }

    /** `Impl()`: a root virtual node with nothing mounted. */
    constructor()
      ensures Valid()
      ensures vnodes == map[root := EmptyVirtualNode] && holders == map[] && fresh(mutexes) && mutexes.events == []
    {
      root := 0;
      vnodes := map[0 := EmptyVirtualNode];
      nextVid := 1;
      holders := map[];
      nextHolder := 0;
      mutexes := new MutexLog();
      volumes := {};
      vparent := map[];
    }

    /** The newest binding of `v`. */
    function Newest(v: VNodeId): HolderId
      reads this
      requires v in vnodes && vnodes[v].mounted != []
    {
      vnodes[v].mounted[|vnodes[v].mounted| - 1]
    }

    /** The volume of the newest binding of `v`, if any. */
    ghost function NewestVolume(v: VNodeId): set<VolumeImpl>
      reads this
    {
      if v in vnodes && vnodes[v].mounted != [] && Newest(v) in holders then {holders[Newest(v)].volume} else {}
    }

    /** The volume of holder `h`, if there is one. */
    ghost function HolderVolume(h: HolderId): set<VolumeImpl>
      reads this
    {
      if h in holders then {holders[h].volume} else {}
    }

    /** `GetVirtualChild` (Storage.cpp:145-149): the virtual child `name` of
        `v`, an allocated node, or nothing. */
    function GetVirtualChild(v: VNodeId, name: string): (c: Option<VNodeId>)
      reads this, volumes
      requires Valid() && v in vnodes
      ensures c.Some? <==> name in vnodes[v].virtualChildren
      ensures c.Some? ==> c.value == vnodes[v].virtualChildren[name] && c.value in vnodes
    {
      VirtualChildIn(vnodes, v, name)
    }

    /** `SetVirtualChild` (Storage.cpp:159-163): `insert_or_assign`, returning
        the child, a node that hangs from no other yet, as every node the
        storage links is a new one. */
    method SetVirtualChild(v: VNodeId, name: string, c: VNodeId) returns (linked: VNodeId)
      requires Valid() && v in vnodes && c in vnodes && c != root && c !in vparent
      modifies this
      ensures Valid() && linked == c
      ensures vnodes == WithVirtualChild(old(vnodes), v, name, c)
      ensures vparent == VirtualLinkedParent(old(vnodes), old(vparent), v, name, c)
      ensures nextVid == old(nextVid) && holders == old(holders) && nextHolder == old(nextHolder)
      ensures volumes == old(volumes)
    {
      VirtualLinkKeepsTree(vnodes, vparent, root, v, name, c);
      vparent := VirtualLinkedParent(vnodes, vparent, v, name, c);
      vnodes := WithVirtualChild(vnodes, v, name, c);
      linked := c;
    }

    /** `VirtualNode::Mount` (Storage.cpp:165-166): bind `h` last, so that `v`
        now shows the node of `h`. */
    method PushMount(v: VNodeId, h: HolderId)
      requires Valid() && v in vnodes && h in holders
      modifies this
      ensures Valid()
      ensures vnodes == WithMounted(old(vnodes), v, h)
      ensures nextVid == old(nextVid) && holders == old(holders) && nextHolder == old(nextHolder)
      ensures volumes == old(volumes)
      ensures GetValue(v) == holders[h].volume.GetValue(holders[h].node)
    {
      SameEdgesKeepVirtualTree(vnodes, WithMounted(vnodes, v, h), vparent, root);
      vnodes := WithMounted(vnodes, v, h);
    }

    /** `VirtualNode::GetValue` (Storage.cpp:62-68): the value of the node the
        newest binding shows; nothing when nothing is mounted. */
    function GetValue(v: VNodeId): (r: Option<Value>)
      reads this, volumes
      requires Valid() && v in vnodes
      ensures r.None? <==> vnodes[v].mounted == []
      ensures r.Some? ==> r.value == holders[Newest(v)].volume.nodes[holders[Newest(v)].node].value
    {
      if vnodes[v].mounted == [] then None
      else holders[Newest(v)].volume.GetValue(holders[Newest(v)].node)
    }

    /** `VirtualNode::GrowBranchAndSetValue` (Storage.cpp:70-76): hand the
        rest of the path to the node the newest binding shows, in its volume;
        false when nothing is mounted. Afterwards the path below that node
        holds `value`, and every other volume is as it was. */
    method GrowBranchAndSetValue(v: VNodeId, path: PathView, value: Value) returns (ok: bool)
      requires Valid() && v in vnodes && path.Valid()
      modifies NewestVolume(v)
      ensures Valid()
      ensures ok <==> vnodes[v].mounted != []
      ensures ok ==> ValueAt(holders[Newest(v)].volume.nodes, holders[Newest(v)].node, path.Keys()) == Some(value)
      ensures ok ==> holders[Newest(v)].volume.refcounter == old(holders[Newest(v)].volume.refcounter)
      ensures ok && path.GetDepth() == 0 ==>
                var g := holders[Newest(v)];
                g.volume.nodes == old(g.volume.nodes)[g.node := old(g.volume.nodes)[g.node].(value := value)]
      ensures ok && path.GetDepth() > 0 ==>
                var g := holders[Newest(v)];
                && (forall m :: m in g.volume.nodes <==> m in old(g.volume.nodes) || old(g.volume.nextId) <= m < old(g.volume.nextId) + path.GetDepth())
                && (forall m :: m in old(g.volume.nodes) && m != g.node ==> g.volume.nodes[m] == old(g.volume.nodes)[m])
                && g.volume.nodes[g.node] == old(g.volume.nodes)[g.node].(children := old(g.volume.nodes)[g.node].children[path.Keys()[0] := old(g.volume.nextId)])
                && IsChain(g.volume.nodes, old(g.volume.nextId), path.Keys()[1..], value)
    {
      if vnodes[v].mounted == [] {
        return false;
      }
      var h := holders[Newest(v)];
      ghost var head := h.volume.nextId;
      ok := h.volume.GrowBranchAndSetValue(h.node, path, value);
      if path.GetDepth() > 0 {
        GrownBranchHolds(h.volume.nodes, h.node, path.Keys(), head, value);
      }
      forall g | g in holders
        ensures holders[g].volume.Valid() && holders[g].node in holders[g].volume.nodes
      {
      }
    }

    /** Whether the node the binding `h` shows has a child `name`. */
    predicate HasChild(h: HolderId, name: string)
      reads this, volumes
      requires Valid() && h in holders
    {
      holders[h].volume.GetChild(holders[h].node, name).Some?
    }

    /** The position of the newest binding in `m` whose node has a child
        `name`, or -1 when none has. */
    function NewestWith(m: seq<HolderId>, name: string): (k: int)
      reads this, volumes
      requires Valid() && forall i :: 0 <= i < |m| ==> m[i] in holders
      ensures -1 <= k < |m|
      ensures k >= 0 ==> HasChild(m[k], name)
      ensures forall j :: k < j < |m| ==> !HasChild(m[j], name)
    {
      if m == [] then -1
      else if HasChild(m[|m| - 1], name) then |m| - 1
      else NewestWith(m[..|m| - 1], name)
    }

    /** What `GetChild` finds: the child `name` of the newest binding that has
        one, which hides the same name in older bindings and among the
        virtual children; otherwise the virtual child. */
    function VisibleChild(v: VNodeId, name: string): (r: Option<NodeRef>)
      reads this, volumes
      requires Valid() && v in vnodes
    {
      var m := vnodes[v].mounted;
      var k := NewestWith(m, name);
      if k >= 0 then Some(Durable(holders[m[k]].volume, holders[m[k]].volume.nodes[holders[m[k]].node].children[name]))
      else if name in vnodes[v].virtualChildren then Some(Virtual(vnodes[v].virtualChildren[name]))
      else None
    }

    /** `VirtualNode::GetChild` (Storage.cpp:78-85): ask the bindings newest
        first, then the virtual children. */
    method GetChild(v: VNodeId, name: string) returns (r: Option<NodeRef>)
      requires Valid() && v in vnodes
      ensures r == VisibleChild(v, name)
      ensures r.None? <==> NewestWith(vnodes[v].mounted, name) < 0 && name !in vnodes[v].virtualChildren
    {
      var m := vnodes[v].mounted;
      var i := |m|;
      while i > 0
        invariant 0 <= i <= |m|
        invariant forall j :: i <= j < |m| ==> !HasChild(m[j], name)
      {
        i := i - 1;
        var h := holders[m[i]];
        var c := h.volume.GetChild(h.node, name);
        if c.Some? {
          return Some(Durable(h.volume, c.value));
        }
      }
      var vc := GetVirtualChild(v, name);
      r := if vc.Some? then Some(Virtual(vc.value)) else None;
    }

    /** `holder->GetNode()->DeleteChild(name)`: the node the binding `h`
        shows loses its child `name`, when it has one. */
    method DeleteVia(h: HolderId, name: string) returns (erased: bool)
      requires Valid() && h in holders
      modifies holders[h].volume
      ensures Valid()
      ensures erased <==> name in old(holders[h].volume.nodes)[holders[h].node].children
      ensures holders[h].volume.nodes == WithoutChild(old(holders[h].volume.nodes), holders[h].node, name)
      ensures !erased ==> holders[h].volume.nodes == old(holders[h].volume.nodes)
      ensures holders[h].volume.refcounter == old(holders[h].volume.refcounter)
    {
      var g := holders[h];
      erased := g.volume.DeleteChild(g.node, name);
      if !erased {
        assert old(g.volume.nodes)[g.node].children - {name} == old(g.volume.nodes)[g.node].children;
      }
      forall x | x in holders
        ensures holders[x].volume.Valid() && holders[x].node in holders[x].volume.nodes
      {
      }
    }

    /** `VirtualNode::DeleteChild` (Storage.cpp:87-94): the newest binding
        whose node has a child `name` loses it; when none has one, the virtual
        child `name` is erased. True when something was erased. */
    method DeleteChild(v: VNodeId, name: string) returns (removed: bool)
      requires Valid() && v in vnodes
      modifies this, volumes
      ensures Valid()
      ensures holders == old(holders) && nextVid == old(nextVid) && nextHolder == old(nextHolder)
      ensures volumes == old(volumes)
      ensures forall w :: w in volumes ==> w.refcounter == old(w.refcounter)
      ensures var m := old(vnodes[v].mounted);
              var k := old(NewestWith(m, name));
              && (removed <==> k >= 0 || name in old(vnodes[v].virtualChildren))
              && (k >= 0 ==>
                    && vnodes == old(vnodes)
                    && holders[m[k]].volume.nodes
                       == WithoutChild(old(holders[m[k]].volume.nodes), holders[m[k]].node, name)
                    && (forall w :: w in volumes && w != holders[m[k]].volume ==> w.nodes == old(w.nodes)))
              && (k < 0 ==>
                    && vnodes == WithoutVirtualChild(old(vnodes), v, name)
                    && (forall w :: w in volumes ==> w.nodes == old(w.nodes)))
    {
      var m := vnodes[v].mounted;
      ghost var k := NewestWith(m, name);
      var i := |m|;
      while i > 0
        invariant 0 <= i <= |m| && k < i
        invariant Valid()
        invariant vnodes == old(vnodes) && holders == old(holders) && nextVid == old(nextVid)
        invariant nextHolder == old(nextHolder) && volumes == old(volumes)
        invariant forall w :: w in volumes ==> w.nodes == old(w.nodes) && w.refcounter == old(w.refcounter)
        invariant forall j :: i <= j < |m| ==> !old(HasChild(m[j], name))
        invariant k >= 0 ==> old(HasChild(m[k], name))
      {
        i := i - 1;
        var erased := DeleteVia(m[i], name);
        if erased {
          assert old(HasChild(m[i], name));
          assert k == i;
          return true;
        }
        assert !old(HasChild(m[i], name));
        assert k != i;
      }
      removed := EraseVirtualChild(v, name);
    }

    /** `_virtual_children.erase(name)` (Storage.cpp:93): the virtual child
        `name` of `v` is gone; true when there was one. */
    method EraseVirtualChild(v: VNodeId, name: string) returns (erased: bool)
      requires Valid() && v in vnodes
      modifies this
      ensures Valid()
      ensures erased <==> name in old(vnodes[v].virtualChildren)
      ensures vnodes == WithoutVirtualChild(old(vnodes), v, name)
      ensures holders == old(holders) && nextVid == old(nextVid) && nextHolder == old(nextHolder)
      ensures volumes == old(volumes)
    {
      erased := name in vnodes[v].virtualChildren;
      VirtualUnlinkKeepsTree(vnodes, vparent, root, v, name);
      vparent := if erased then vparent - {vnodes[v].virtualChildren[name]} else vparent;
      vnodes := WithoutVirtualChild(vnodes, v, name);
    }

    /** `VirtualNode::lock` and `lock_shared` (Storage.cpp:96-100, 108-112):
        the node's own mutex, then the node of every binding, oldest first. */
    method Lock(v: VNodeId, mode: LockMode)
      requires Valid() && v in vnodes
      modifies mutexes
      ensures mutexes.events == old(mutexes.events) + [Acquire(mode, OwnLock(v))]
                                + AcquireAll(mode, BoundLocks(holders, vnodes[v].mounted))
    {
      mutexes.events := mutexes.events + [Acquire(mode, OwnLock(v))];
      mutexes.events := AcquireEach(mutexes.events, mode, holders, vnodes[v].mounted);
    }

    /** `VirtualNode::unlock` and `unlock_shared` (Storage.cpp:102-106,
        114-118): the node of every binding, newest first, then the node's own
        mutex. */
    method Unlock(v: VNodeId, mode: LockMode)
      requires Valid() && v in vnodes
      modifies mutexes
      ensures mutexes.events == old(mutexes.events) + ReleaseAll(mode, BoundLocks(holders, vnodes[v].mounted))
                                + [Release(mode, OwnLock(v))]
    {
      mutexes.events := ReleaseEach(mutexes.events, mode, holders, vnodes[v].mounted);
      mutexes.events := mutexes.events + [Release(mode, OwnLock(v))];
    }

    /** `GrowBranchAndMount` (Storage.cpp:120-143): for an empty path, bind `h`
        on `v` itself and give nothing back; otherwise hang a new branch of
        virtual nodes along the path below `v`, bind `h` on its last node and
        give that node back. */
    method GrowBranchAndMount(v: VNodeId, path: PathView, h: HolderId) returns (tail: Option<VNodeId>)
      requires Valid() && v in vnodes && h in holders && path.Valid()
      modifies this
      ensures Valid()
      ensures holders == old(holders) && nextHolder == old(nextHolder) && volumes == old(volumes)
      ensures path.GetDepth() == 0 ==> tail.None? && vnodes == WithMounted(old(vnodes), v, h)
      ensures path.GetDepth() > 0 ==>
                && tail == Some(old(nextVid) + path.GetDepth() - 1)
                && GrewBranch(old(vnodes), vnodes, v, old(nextVid), path.Keys(), h)
    {
      if path.IsEmpty() {
        PushMount(v, h);
        return None;
      }
      var last := GrowBranch(v, path, h);
      tail := Some(last);
    }

    /** The non-empty case of `GrowBranchAndMount` (Storage.cpp:122-137):
        build the chain, then link its head below `v` by the first key. */
    method GrowBranch(v: VNodeId, path: PathView, h: HolderId) returns (last: VNodeId)
      requires Valid() && v in vnodes && h in holders && path.Valid() && path.GetDepth() > 0
      modifies this
      ensures Valid()
      ensures holders == old(holders) && nextHolder == old(nextHolder) && volumes == old(volumes)
      ensures last == old(nextVid) + path.GetDepth() - 1
      ensures GrewBranch(old(vnodes), vnodes, v, old(nextVid), path.Keys(), h)
    {
      ghost var before := vnodes;
      var head := nextVid;
      var headName, arena := BuildVirtualBranch(vnodes, head, path, h);
      AddChain(arena, path.Keys()[1..], h);
      var linked := SetVirtualChild(v, headName, head);
      LinkedBranch(before, arena, vnodes, v, head, path.Keys(), h);
      last := head + path.GetDepth() - 1;
    }

    /** The built chain, not linked yet, becomes part of the arena. */
    method AddChain(arena: map<VNodeId, VirtualNode>, ks: seq<string>, h: HolderId)
      requires Valid() && h in holders && IsVirtualChain(arena, nextVid, ks, h)
      requires forall m :: m in arena <==> m in vnodes || nextVid <= m < nextVid + |ks| + 1
      requires forall m :: m in vnodes ==> arena[m] == vnodes[m]
      modifies this
      ensures Valid() && vnodes == arena && nextVid == old(nextVid) + |ks| + 1
      ensures old(nextVid) != root && old(nextVid) !in vparent
      ensures holders == old(holders) && nextHolder == old(nextHolder) && volumes == old(volumes)
    {
      BranchKeepsArenaValid(vnodes, nextVid, root, holders, nextHolder, arena, ks, h);
      VirtualChainKeepsTree(vnodes, vparent, root, nextVid, ks, h, arena);
      vnodes := arena;
      vparent := vparent + VirtualChainParents(nextVid, ks);
      nextVid := nextVid + |ks| + 1;
    }

    /** `make_shared<MountHolder>(node, volume)` (Storage.cpp:22-24): a new
        holder, which counts one more use of the volume. */
    method NewHolder(node: NodeId, volume: VolumeImpl) returns (h: HolderId)
      requires Valid() && volume.Valid() && node in volume.nodes
      modifies this, volume
      ensures Valid()
      ensures h == old(nextHolder) && h !in old(holders)
      ensures holders == old(holders)[h := MountHolder(node, volume)] && nextHolder == h + 1
      ensures vnodes == old(vnodes) && nextVid == old(nextVid)
      ensures volume.refcounter == Incremented(old(volume.refcounter))
      ensures volume.nodes == old(volume.nodes) && volume.nextId == old(volume.nextId)
      ensures volume.parent == old(volume.parent) && volumes == old(volumes) + {volume}
    {
      volume.AddRef();
      h := nextHolder;
      holders := holders[h := MountHolder(node, volume)];
      nextHolder := nextHolder + 1;
      volumes := volumes + {volume};
    }

    /** `~MountHolder` (Storage.cpp:26-30): one use fewer of the volume, when
        the volume still exists. The holder's identity is not reused. */
    method DropHolder(h: HolderId, volumeAlive: bool)
      requires Valid() && h in holders
      modifies holders[h].volume
      ensures Valid()
      ensures volumeAlive ==> holders[h].volume.refcounter == Decremented(old(holders[h].volume.refcounter))
      ensures !volumeAlive ==> holders[h].volume.refcounter == old(holders[h].volume.refcounter)
      ensures holders[h].volume.nodes == old(holders[h].volume.nodes)
    {
      if volumeAlive {
        holders[h].volume.Release();
      }
    }

    /** `_mounted.erase(found)` (Storage.cpp:154-155): the first binding of
        `h` on `v` is gone. */
    method Unbind(v: VNodeId, h: HolderId)
      requires Valid() && v in vnodes
      modifies this
      ensures Valid()
      ensures vnodes == WithoutBinding(old(vnodes), v, h)
      ensures holders == old(holders) && nextVid == old(nextVid) && nextHolder == old(nextHolder)
      ensures volumes == old(volumes)
    {
      UnbindKeepsArenaValid(vnodes, nextVid, root, holders, nextHolder, v, h);
      SameEdgesKeepVirtualTree(vnodes, WithoutBinding(vnodes, v, h), vparent, root);
      vnodes := WithoutBinding(vnodes, v, h);
    }

    /** `VirtualNode::Unmount` (Storage.cpp:151-156), and the end of the
        holder when that was its last binding (Storage.cpp:26-30): the first
        binding of `h` on `v` is removed. A holder that no longer exists is
        bound nowhere, so the search finds nothing either way. */
    method Unmount(v: VNodeId, h: HolderId, volumeAlive: bool)
      requires Valid() && v in vnodes
      modifies this, HolderVolume(h)
      ensures Valid()
      ensures vnodes == WithoutBinding(old(vnodes), v, h)
      ensures nextVid == old(nextVid) && holders == old(holders) && nextHolder == old(nextHolder)
      ensures volumes == old(volumes)
      ensures h in holders ==> holders[h].volume.nodes == old(holders[h].volume.nodes)
      ensures h in holders && h in old(vnodes[v].mounted) && h !in vnodes[v].mounted && volumeAlive ==>
                holders[h].volume.refcounter == Decremented(old(holders[h].volume.refcounter))
      ensures h in holders && (h !in old(vnodes[v].mounted) || h in vnodes[v].mounted || !volumeAlive) ==>
                holders[h].volume.refcounter == old(holders[h].volume.refcounter)
    {
      var m := vnodes[v].mounted;
      var k := IndexOf(m, h);
      if k < |m| {
        Unbind(v, h);
        if h !in vnodes[v].mounted {
          DropHolder(h, volumeAlive);
        }
      }
    }

    /** `~MountTokenImpl` (Storage.cpp:198-208): when the virtual node the
        mount was made on still exists, unmount the holder under that node's
        own mutex, held exclusively. */
    method DestroyToken(token: MountToken, ownerAlive: bool, volumeAlive: bool)
      requires Valid() && token.owner in vnodes
      modifies this, mutexes, HolderVolume(token.holder)
      ensures Valid()
      ensures nextVid == old(nextVid) && holders == old(holders) && nextHolder == old(nextHolder)
      ensures volumes == old(volumes)
      ensures !ownerAlive ==> vnodes == old(vnodes) && mutexes.events == old(mutexes.events)
      ensures ownerAlive ==>
                && vnodes == WithoutBinding(old(vnodes), token.owner, token.holder)
                && mutexes.events == old(mutexes.events) + [Acquire(Exclusive, OwnLock(token.owner)),
                                                            Release(Exclusive, OwnLock(token.owner))]
      ensures token.holder in holders && ownerAlive && volumeAlive
              && token.holder in old(vnodes[token.owner].mounted) && token.holder !in vnodes[token.owner].mounted ==>
                holders[token.holder].volume.refcounter == Decremented(old(holders[token.holder].volume.refcounter))
      ensures token.holder in holders && (!ownerAlive || !volumeAlive
              || token.holder !in old(vnodes[token.owner].mounted) || token.holder in vnodes[token.owner].mounted) ==>
                holders[token.holder].volume.refcounter == old(holders[token.holder].volume.refcounter)
      ensures token.holder in holders ==> holders[token.holder].volume.nodes == old(holders[token.holder].volume.nodes)
    {
      if ownerAlive {
        mutexes.events := mutexes.events + [Acquire(Exclusive, OwnLock(token.owner))];
        Unmount(token.owner, token.holder, volumeAlive);
        mutexes.events := mutexes.events + [Release(Exclusive, OwnLock(token.owner))];
      }
    }

    /** The value setter of `Storage::Impl::Mount` (Storage.cpp:221-226), at
        `current`, the deepest virtual node that exists along `keys`, with
        the `rest` of the path: bind `h` there when the whole path exists,
        otherwise grow the branch; the owner is the node bound on. */
    method MountAtGrowthPoint(current: VNodeId, rest: PathView, h: HolderId, ghost keys: seq<string>, ghost d: nat)
      returns (owner: VNodeId)
      requires Valid() && current in vnodes && h in holders && rest.Valid()
      requires d <= |keys| && VirtualFind(vnodes, root, keys[..d]) == Some(current)
      requires d < |keys| ==> VirtualChildIn(vnodes, current, keys[d]).None?
      requires rest.Keys() == keys[d..] && rest.GetDepth() == |keys| - d
      modifies this
      ensures Valid()
      ensures holders == old(holders) && nextHolder == old(nextHolder) && volumes == old(volumes)
      ensures MountedAt(old(vnodes), vnodes, root, keys, owner, h)
    {
      ghost var before, vp := vnodes, vparent;
      ghost var head := nextVid;
      var tail := GrowBranchAndMount(current, rest, h);
      if tail.None? {
        assert keys[..d] == keys;
        PushMountMounts(before, root, keys, current, h);
        owner := current;
      } else {
        GrownBranchMounts(before, vp, vnodes, root, keys, d, current, head, h, tail.value);
        owner := tail.value;
      }
    }

    /** The engine call of `Storage::Impl::Mount` (Storage.cpp:217-227): walk
        the virtual tree along `where` to the deepest node that exists and
        hand the rest of the path to the value setter there. */
    method MountAlong(where: string, h: HolderId) returns (r: Outcome<VNodeId>)
      requires Valid() && h in holders && |where| > 0
      modifies this
      ensures Valid()
      ensures holders == old(holders) && nextHolder == old(nextHolder) && volumes == old(volumes)
      ensures where[0] != Separator ==> r == Thrown(InvalidArgument) && vnodes == old(vnodes)
      ensures where[0] == Separator ==> r.Done? && MountedAt(old(vnodes), vnodes, root, Split(where), r.value, h)
    {
      var grown, locker := VirtualGrowthPoint(vnodes, root, where);
      if grown.Thrown? {
        return Thrown(grown.error);
      }
      ghost var keys := Split(where);
      var owner := MountAtGrowthPoint(grown.value.0, grown.value.1, h, keys,
                                      BaseImpl.ExistingDepth(VirtualChildOf(vnodes), root, keys));
      locker.Destroy();
      r := Done(owner);
    }

    /** The found branch of `Storage::Impl::Mount` (Storage.cpp:215-229): a
        new holder for `node`, bound along `where`. When the engine throws,
        the holder is let go, and with it the use of the volume it counted. */
    method MountNode(where: string, node: NodeId, volume: VolumeImpl) returns (r: Outcome<MountToken>)
      requires Valid() && volume.Valid() && node in volume.nodes && |where| > 0
      modifies this, volume
      ensures Valid()
      ensures volume.nodes == old(volume.nodes)
      ensures where[0] != Separator ==>
                r == Thrown(InvalidArgument) && vnodes == old(vnodes) && volume.refcounter == old(volume.refcounter)
      ensures where[0] == Separator ==>
                && r.Done?
                && r.value.holder == old(nextHolder)
                && holders == old(holders)[r.value.holder := MountHolder(node, volume)]
                && volume.refcounter == Incremented(old(volume.refcounter))
                && MountedAt(old(vnodes), vnodes, root, Split(where), r.value.owner, r.value.holder)
                && GetValue(r.value.owner) == Some(volume.nodes[node].value)
    {
      var h := NewHolder(node, volume);
      var owner := MountAlong(where, h);
      if owner.Thrown? {
        DropHolder(h, true);
        RefCountsCancel(old(volume.refcounter));
        return Thrown(owner.error);
      }
      r := Done(MountToken(owner.value, h));
    }

    /** `Storage::Impl::Mount` (Storage.cpp:211-233): find the node `what`
        names in the volume and hold it with its path locked; make a holder
        for it, which counts one more use of the volume; then, with the
        virtual tree's engine, bind the holder on the virtual node `where`
        names, growing virtual nodes for the keys that do not exist yet. The
        token names the node bound on and the holder. A `what` that names no
        node gives no token, and a `where` the engine rejects throws after
        the holder has been let go again. */
    method Mount(where: string, volume: VolumeImpl, what: string) returns (r: Outcome<Option<MountToken>>)
      requires Valid() && volume.Valid() && |where| > 0 && |what| > 0
      modifies this, volume
      ensures Valid()
      ensures volume.nodes == old(volume.nodes)
      ensures what[0] != Separator ==> r == Thrown(InvalidArgument)
      ensures what[0] == Separator && Find(volume.nodes, volume.root, Split(what)).None? ==> r == Done(None)
      ensures what[0] == Separator && Find(volume.nodes, volume.root, Split(what)).Some? && where[0] != Separator ==>
                r == Thrown(InvalidArgument)
      ensures (r.Done? && r.value.Some?) <==>
                what[0] == Separator && where[0] == Separator && Find(volume.nodes, volume.root, Split(what)).Some?
      ensures !(r.Done? && r.value.Some?) ==> vnodes == old(vnodes) && volume.refcounter == old(volume.refcounter)
      ensures r.Done? && r.value.Some? ==>
                && var token := r.value.value;
                && token.holder == old(nextHolder)
                && holders == old(holders)[token.holder := MountHolder(Find(volume.nodes, volume.root, Split(what)).value, volume)]
                && volume.refcounter == Incremented(old(volume.refcounter))
                && MountedAt(old(vnodes), vnodes, root, Split(where), token.owner, token.holder)
                && GetValue(token.owner) == ValueAt(volume.nodes, volume.root, Split(what))
    {
      var found, volumeLocker := volume.LockPath(what);
      if found.Thrown? {
        return Thrown(found.error);
      }
      if found.value.None? {
        volumeLocker.Destroy();
        return Done(None);
      }
      var token := MountNode(where, found.value.value, volume);
      volumeLocker.Destroy();
      r := if token.Thrown? then Thrown(token.error) else Done(Some(token.value));
    }
  }
}
