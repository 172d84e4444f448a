/** `BaseImpl`: the tree operations shared by a volume and by the storage,
    written once over any kind of node `N`. The tree is seen through `child`,
    the node's `GetChild`: the single-threaded model reads a snapshot of the
    tree, so `child` is a pure function. Each operation walks the path under a
    trace of shared locks (a `TraceLocker`); what it then does to the node it
    found (read its value, grow a branch under it, delete one of its children)
    belongs to the node, and is done by the caller with the node returned. */
module BaseImpl {
  import opened Common
  import opened PathView
  import opened Tracing

  // ---------------------------------------------------------------------------
  // The tree as seen through `child`

  /** The node reached from `from` by following every key in turn; nothing if
      some key names no child. */
  function Resolve<N>(child: (N, string) -> Option<N>, from: N, keys: seq<string>): Option<N>
    decreases |keys|
  {
    if keys == [] then Some(from)
    else
      match child(from, keys[0])
      case None => None
      case Some(c) => Resolve(child, c, keys[1..])
  }

  /** How many leading keys exist as a chain of children from `from`. */
  function ExistingDepth<N>(child: (N, string) -> Option<N>, from: N, keys: seq<string>): (d: nat)
    ensures d <= |keys|
    ensures d == |keys| <==> Resolve(child, from, keys).Some?
    decreases |keys|
  {
    if keys == [] then 0
    else
      match child(from, keys[0])
      case None => 0
      case Some(c) => 1 + ExistingDepth(child, c, keys[1..])
  }

  /** The existing nodes along the path, `from` first: one more than the
      existing depth. */
  function Trail<N>(child: (N, string) -> Option<N>, from: N, keys: seq<string>): (t: seq<N>)
    ensures |t| == ExistingDepth(child, from, keys) + 1 && t[0] == from
    decreases |keys|
  {
    if keys == [] then [from]
    else
      match child(from, keys[0])
      case None => [from]
      case Some(c) => [from] + Trail(child, c, keys[1..])
  }

  /** A prefix of the path resolves exactly when it is no longer than the
      existing depth, and then it resolves to the trail's node at that depth. */
  lemma {:induction false} ResolvePrefix<N>(child: (N, string) -> Option<N>, from: N, keys: seq<string>, j: nat)
    requires j <= |keys|
    ensures Resolve(child, from, keys[..j]).Some? <==> j <= ExistingDepth(child, from, keys)
    ensures j <= ExistingDepth(child, from, keys) ==>
              Resolve(child, from, keys[..j]) == Some(Trail(child, from, keys)[j])
    decreases j
  {
    if j > 0 {
      assert keys[..j][0] == keys[0];
      assert keys[..j][1..] == keys[1..][..j - 1];
      match child(from, keys[0])
      case None =>
      case Some(c) =>
        ResolvePrefix(child, c, keys[1..], j - 1);
    }
  }

  /** The whole path resolves exactly when every key exists. */
  lemma ResolveIffFullDepth<N>(child: (N, string) -> Option<N>, from: N, keys: seq<string>)
    ensures Resolve(child, from, keys).Some? <==> ExistingDepth(child, from, keys) == |keys|
    ensures Resolve(child, from, keys).Some? ==>
              Resolve(child, from, keys) == Some(Trail(child, from, keys)[|keys|])
  {
    ResolvePrefix(child, from, keys, |keys|);
    assert keys[..|keys|] == keys;
  }

  /** Past the existing depth the next key names no child of the deepest node. */
  lemma {:induction false} DeepestHasNoNextChild<N>(child: (N, string) -> Option<N>, from: N, keys: seq<string>)
    requires ExistingDepth(child, from, keys) < |keys|
    ensures var d := ExistingDepth(child, from, keys);
            child(Trail(child, from, keys)[d], keys[d]).None?
    decreases |keys|
  {
    match child(from, keys[0])
    case None =>
    case Some(c) =>
      DeepestHasNoNextChild(child, c, keys[1..]);
  }

  /** A descent that stops where the path runs out or where the next key names
      no child has reached the existing depth. */
  lemma {:induction false} DescentStopsAtExistingDepth<N>(
      child: (N, string) -> Option<N>, from: N, keys: seq<string>, i: nat, current: N)
    requires i <= |keys| && Resolve(child, from, keys[..i]) == Some(current)
    requires i == |keys| || child(current, keys[i]).None?
    ensures i == ExistingDepth(child, from, keys)
    decreases i
  {
    if i > 0 {
      assert keys[..i][0] == keys[0];
      assert keys[..i][1..] == keys[1..][..i - 1];
      var c := child(from, keys[0]).value;
      DescentStopsAtExistingDepth(child, c, keys[1..], i - 1, current);
    }
  }

  /** One step of a descent that has reached `current` after `i` keys: the
      node is the trail's `i`-th, and the next key either extends the descent
      or marks the existing depth. */
  lemma DescentStep<N>(child: (N, string) -> Option<N>, from: N, keys: seq<string>, i: nat, current: N)
    requires i < |keys| && Resolve(child, from, keys[..i]) == Some(current)
    ensures i <= ExistingDepth(child, from, keys)
    ensures Trail(child, from, keys)[..i + 1] == Trail(child, from, keys)[..i] + [current]
    ensures Resolve(child, from, keys[..i + 1]) == child(current, keys[i])
    ensures child(current, keys[i]).Some? ==> i + 1 <= ExistingDepth(child, from, keys)
    ensures child(current, keys[i]).None? ==> i == ExistingDepth(child, from, keys)
  {
    DescentTrail(child, from, keys, i, current);
    DescentNext(child, from, keys, i, current);
  }

  /** The node reached after `i` keys is the trail's `i`-th. */
  lemma DescentTrail<N>(child: (N, string) -> Option<N>, from: N, keys: seq<string>, i: nat, current: N)
    requires i < |keys| && Resolve(child, from, keys[..i]) == Some(current)
    ensures i <= ExistingDepth(child, from, keys)
    ensures Trail(child, from, keys)[..i + 1] == Trail(child, from, keys)[..i] + [current]
  {
    var trail := Trail(child, from, keys);
    ResolvePrefix(child, from, keys, i);
    assert trail[i] == current;
    assert trail[..i + 1] == trail[..i] + [trail[i]];
  }

  /** The next key either extends the descent or marks the existing depth. */
  lemma DescentNext<N>(child: (N, string) -> Option<N>, from: N, keys: seq<string>, i: nat, current: N)
    requires i < |keys| && Resolve(child, from, keys[..i]) == Some(current)
    ensures Resolve(child, from, keys[..i + 1]) == child(current, keys[i])
    ensures child(current, keys[i]).Some? ==> i + 1 <= ExistingDepth(child, from, keys)
    ensures child(current, keys[i]).None? ==> i == ExistingDepth(child, from, keys)
  {
    assert keys[..i + 1] == keys[..i] + [keys[i]];
    ResolveSnoc(child, from, keys[..i], keys[i]);
    ResolvePrefix(child, from, keys, i + 1);
    if child(current, keys[i]).None? {
      DescentStopsAtExistingDepth(child, from, keys, i, current);
    }
  }

  /** Resolving one more key is one more `child` step. */
  lemma {:induction false} ResolveSnoc<N>(child: (N, string) -> Option<N>, from: N, keys: seq<string>, k: string)
    ensures Resolve(child, from, keys + [k]) ==
              match Resolve(child, from, keys)
              case None => None
              case Some(n) => child(n, k)
    decreases |keys|
  {
    if keys != [] {
      assert (keys + [k])[1..] == keys[1..] + [k];
      match child(from, keys[0])
      case None =>
      case Some(c) =>
        ResolveSnoc(child, c, keys[1..], k);
    }
  }

  /** Resolving a concatenation resolves the first part, then the second from
      where the first ended. */
  lemma {:induction false} ResolveAppend<N>(child: (N, string) -> Option<N>, from: N, p: seq<string>, q: seq<string>)
    ensures Resolve(child, from, p + q) ==
              match Resolve(child, from, p)
              case None => None
              case Some(n) => Resolve(child, n, q)
    decreases |p|
  {
    if p != [] {
      assert (p + q)[0] == p[0];
      assert (p + q)[1..] == p[1..] + q;
      match child(from, p[0])
      case None =>
      case Some(c) =>
        ResolveAppend(child, c, p[1..], q);
    } else {
      assert p + q == q;
    }
  }

  /** How many trace entries the grow engine still holds when it reaches the
      deepest existing node at depth `d` of a path of depth `depth`, after its
      one `Pop`: every node above the deepest one, except that when the whole
      path exists the last key's parent has been popped as well. */
  function HeldAfterPop(d: nat, depth: nat): nat
    requires d <= depth
  {
    if d < depth then d else if d == 0 then 0 else d - 1
  }

  // ---------------------------------------------------------------------------
  // GrowBranchAndSetValue: descend existing children, then hand the deepest
  // existing node and the missing rest of the path to the setter.

  /** Lines 36-51: the descent under shared locks. Every key pushes the current
      node before its child is looked up, so a path of depth `n` never needs
      more than `n` entries. */
  method DescendAndLock<N>(root: N, path: PathView, child: (N, string) -> Option<N>)
      returns (current: N, key: ConstIterator, locker: TraceLocker<N>)
    requires path.Valid()
    ensures fresh(locker) && locker.Valid()
    ensures locker.depth == path.GetDepth() && locker.released == []
    ensures var d := ExistingDepth(child, root, path.Keys());
            && key == Advance(path.text, path.begin, d)
            && Resolve(child, root, path.Keys()[..d]) == Some(current)
            && locker.trace == Trail(child, root, path.Keys())[..if d < path.GetDepth() then d + 1 else d]
  {
    ghost var keys := path.Keys();
    ghost var depth := path.GetDepth();
    ghost var trail := Trail(child, root, keys);
    locker := new TraceLocker(path.GetDepth());
    current := root;
    key := path.begin;
    ghost var i := 0;
    var end := path.End();
    while key != end
      invariant 0 <= i <= depth && i <= ExistingDepth(child, root, keys)
      invariant key == Advance(path.text, path.begin, i)
      invariant Resolve(child, root, keys[..i]) == Some(current)
      invariant fresh(locker) && locker.Valid()
      invariant locker.depth == depth && locker.released == []
      invariant locker.trace == trail[..i]
      decreases depth - i
    {
      IteratorAt(path, i);
      DescentStep(child, root, keys, i, current);
      var pushed := locker.Push(current);
      assert pushed.Done?;
      var next := child(current, Current(path.text, key));
      if next.None? {
        return;
      }
      current := next.value;
      key := Next(path.text, key);
      i := i + 1;
    }
    IteratorAt(path, i);
    assert keys[..i] == keys;
    DescentStopsAtExistingDepth(child, root, keys, i, current);
  }

  /** The engine as written (lines 35-60). It pops the trace unconditionally
      after the descent, so a path of depth 0, whose descent pushed nothing,
      throws `out_of_range` from `Pop` instead of reaching the setter. */
  method GrowthPointAsWritten<N>(root: N, text: string, child: (N, string) -> Option<N>)
      returns (r: Outcome<(N, PathView)>, locker: TraceLocker?<N>)
    requires |text| > 0
    ensures text[0] != Separator ==> r == Thrown(InvalidArgument)
    ensures text[0] == Separator && Split(text) == [] ==> r == Thrown(OutOfRange)
    ensures text[0] == Separator && Split(text) != [] ==>
              && r.Done?
              && var d := ExistingDepth(child, root, Split(text));
              && Resolve(child, root, Split(text)[..d]) == Some(r.value.0)
              && r.value.1.Valid() && r.value.1.Keys() == Split(text)[d..]
    ensures r.Done? <==> locker != null
  {
    var parsed := Parse(text);
    if parsed.Thrown? {
      return Thrown(parsed.error), null;
    }
    var path := parsed.value;
    var current, key;
    current, key, locker := DescendAndLock(root, path, child);
    var popped := locker.Pop();
    if popped.Thrown? {
      locker.Destroy();
      return Thrown(popped.error), null;
    }
    r := Recheck(root, path, child, current, key);
  }

  /** The engine as evidently intended: a path of depth 0 names the root
      itself, the descent pushed nothing, and there is nothing to pop. */
  method GrowthPoint<N>(root: N, text: string, child: (N, string) -> Option<N>)
      returns (r: Outcome<(N, PathView)>, locker: TraceLocker?<N>)
    requires |text| > 0
    ensures text[0] != Separator ==> r == Thrown(InvalidArgument) && locker == null
    ensures text[0] == Separator ==>
              && r.Done? && locker != null && fresh(locker) && locker.Valid()
              && var keys := Split(text);
              && var d := ExistingDepth(child, root, keys);
              && Resolve(child, root, keys[..d]) == Some(r.value.0)
              && (d < |keys| ==> child(r.value.0, keys[d]).None?)
              && r.value.1.Valid() && r.value.1.Keys() == keys[d..]
              && locker.depth == |keys|
              && locker.trace == Trail(child, root, keys)[..HeldAfterPop(d, |keys|)]
  {
    var parsed := Parse(text);
    if parsed.Thrown? {
      return Thrown(parsed.error), null;
    }
    var path := parsed.value;
    var current, key;
    current, key, locker := DescendAndLock(root, path, child);
    if locker.trace != [] {
      var popped := locker.Pop();
    }
    r := Recheck(root, path, child, current, key);
    ghost var keys := path.Keys();
    ghost var d := ExistingDepth(child, root, keys);
    if d < |keys| {
      ResolvePrefix(child, root, keys, d);
      DeepestHasNoNextChild(child, root, keys);
    }
  }

  /** Lines 55-60: with the current node locked exclusively, look the next
      key up once more. Another thread may have added that child since the
      shared descent, and the descent then resumes at the same key; in the
      single-threaded model the snapshot has not changed and the check always
      fails, so the setter gets the node and the rest of the path from the
      current key on. */
  method Recheck<N>(root: N, path: PathView, child: (N, string) -> Option<N>, current: N, key: ConstIterator)
      returns (r: Outcome<(N, PathView)>)
    requires path.Valid()
    requires var d := ExistingDepth(child, root, path.Keys());
             key == Advance(path.text, path.begin, d) && Resolve(child, root, path.Keys()[..d]) == Some(current)
    ensures r.Done? && r.value.0 == current
    ensures var d := ExistingDepth(child, root, path.Keys());
            r.value.1.Valid() && r.value.1.Keys() == path.Keys()[d..]
  {
    ghost var keys := path.Keys();
    ghost var d := ExistingDepth(child, root, keys);
    AdvanceSkipsSegments(path.text, path.begin, d);
    RestConcatenates(path, d);
    if key != path.End() {
      ResolvePrefix(child, root, keys, d);
      DeepestHasNoNextChild(child, root, keys);
    }
    var retry := key != path.End() && child(current, Current(path.text, key)).Some?;
    assert !retry;
    return Done((current, path.GetRest(key)));
  }

  // ---------------------------------------------------------------------------
  // LockPath and Get

  /** The loop of `LockPath` (lines 55-60): push each node, then step to its
      child, until the path ends or a child is missing. */
  method WalkPath<N>(root: N, path: PathView, child: (N, string) -> Option<N>, locker: TraceLocker<N>)
      returns (current: Option<N>)
    requires path.Valid() && locker.Valid()
    requires locker.trace == [] && locker.depth >= path.GetDepth()
    modifies locker
    ensures locker.Valid() && locker.depth == old(locker.depth) && locker.released == old(locker.released)
    ensures current == Resolve(child, root, path.Keys())
    ensures var d := ExistingDepth(child, root, path.Keys());
            locker.trace == Trail(child, root, path.Keys())[..if d < path.GetDepth() then d + 1 else d]
  {
    ghost var keys := path.Keys();
    ghost var depth := path.GetDepth();
    ghost var trail := Trail(child, root, keys);
    ghost var d := ExistingDepth(child, root, keys);
    current := Some(root);
    var key := path.begin;
    ghost var i := 0;
    var end := path.End();
    while key != end && current.Some?
      invariant 0 <= i <= depth
      invariant key == Advance(path.text, path.begin, i)
      invariant current == Resolve(child, root, keys[..i])
      invariant current.Some? ==> i <= d
      invariant current.None? ==> 0 < i == d + 1
      invariant locker.Valid() && locker.depth == old(locker.depth) && locker.released == old(locker.released)
      invariant locker.trace == trail[..i]
      decreases depth - i
    {
      IteratorAt(path, i);
      DescentStep(child, root, keys, i, current.value);
      var pushed := locker.Push(current.value);
      assert pushed.Done?;
      current := child(current.value, Current(path.text, key));
      key := Next(path.text, key);
      i := i + 1;
    }
    IteratorAt(path, i);
    WalkEnds(child, root, keys, i, current);
  }

  /** Where a walk that stops at the end of the path or at the first missing
      child ends: at the resolved node, after one push per existing node. */
  lemma WalkEnds<N>(child: (N, string) -> Option<N>, from: N, keys: seq<string>, i: nat, current: Option<N>)
    requires i <= |keys| && current == Resolve(child, from, keys[..i])
    requires i == |keys| || current.None?
    requires current.Some? ==> i <= ExistingDepth(child, from, keys)
    requires current.None? ==> 0 < i == ExistingDepth(child, from, keys) + 1
    ensures current == Resolve(child, from, keys)
    ensures i == if ExistingDepth(child, from, keys) < |keys| then ExistingDepth(child, from, keys) + 1
                 else ExistingDepth(child, from, keys)
  {
    if current.Some? {
      assert keys[..i] == keys;
    } else {
      ResolveAppend(child, from, keys[..i], keys[i..]);
      assert keys[..i] + keys[i..] == keys;
    }
  }

  /** `LockPath` as written (lines 50-69). The trace is sized to the path
      depth, but the walk of a path that exists fills it and the node found is
      then pushed once more: `Push` throws `out_of_range` for every path that
      exists, `"/"` included. A path that does not exist gives no node and an
      empty trace of capacity 0. */
  method LockPathAsWritten<N>(root: N, text: string, child: (N, string) -> Option<N>)
      returns (r: Outcome<Option<N>>, locker: TraceLocker?<N>)
    requires |text| > 0
    ensures text[0] != Separator ==> r == Thrown(InvalidArgument)
    ensures text[0] == Separator && Resolve(child, root, Split(text)).Some? ==> r == Thrown(OutOfRange)
    ensures text[0] == Separator && Resolve(child, root, Split(text)).None? ==>
              r == Done(None) && locker != null && locker.trace == [] && locker.depth == 0
  {
    var parsed := Parse(text);
    if parsed.Thrown? {
      return Thrown(parsed.error), null;
    }
    var path := parsed.value;
    locker := new TraceLocker(path.GetDepth());
    var current := WalkPath(root, path, child, locker);
    if current.Some? {
      ResolveIffFullDepth(child, root, path.Keys());
      var pushed := locker.Push(current.value);
      if pushed.Thrown? {
        locker.Destroy();
        return Thrown(pushed.error), null;
      }
      return Done(current), locker;
    }
    locker.Destroy();
    locker := new TraceLocker(0);
    return Done(None), locker;
  }

  /** `LockPath` as evidently intended: room for one entry per key plus the
      node found, so a path that exists gives its node with every node from
      the root down to it held in the trace. */
  method LockPath<N>(root: N, text: string, child: (N, string) -> Option<N>)
      returns (r: Outcome<Option<N>>, locker: TraceLocker?<N>)
    requires |text| > 0
    ensures text[0] != Separator ==> r == Thrown(InvalidArgument) && locker == null
    ensures text[0] == Separator ==>
              && r == Done(Resolve(child, root, Split(text)))
              && locker != null && fresh(locker) && locker.Valid() && locker.released == []
              && (r.value.Some? ==>
                    locker.trace == Trail(child, root, Split(text)) && locker.depth == |Split(text)| + 1)
              && (r.value.None? ==> locker.trace == [] && locker.depth == 0)
  {
    var parsed := Parse(text);
    if parsed.Thrown? {
      return Thrown(parsed.error), null;
    }
    var path := parsed.value;
    locker := new TraceLocker(path.GetDepth() + 1);
    var current := WalkPath(root, path, child, locker);
    if current.Some? {
      ResolveIffFullDepth(child, root, path.Keys());
      var pushed := locker.Push(current.value);
      assert Trail(child, root, path.Keys())[..path.GetDepth()] + [current.value]
          == Trail(child, root, path.Keys());
      return Done(current), locker;
    }
    locker.Destroy();
    locker := new TraceLocker(0);
    return Done(None), locker;
  }

  /** `Get` (lines 6-10): the value of the node the whole path leads to, or
      nothing when some key is missing. `value` is the node's `GetValue`. */
  method Get<N>(root: N, text: string, child: (N, string) -> Option<N>, value: N -> Option<Value>)
      returns (r: Outcome<Option<Value>>)
    requires |text| > 0
    ensures text[0] != Separator ==> r == Thrown(InvalidArgument)
    ensures text[0] == Separator ==>
              r == Done(match Resolve(child, root, Split(text))
                        case None => None
                        case Some(n) => value(n))
  {
    var node, locker := LockPath(root, text, child);
    if node.Thrown? {
      return Thrown(node.error);
    }
    r := Done(if node.value.Some? then value(node.value.value) else None);
    locker.Destroy();
  }

  // ---------------------------------------------------------------------------
  // Delete

  /** The walk of `Delete` (lines 14-34): a path of depth 0 deletes nothing;
      otherwise follow every key, remembering the last parent and key name; a
      missing key deletes nothing; else pop the trace once (releasing the
      parent's shared lock) and give the parent and the last key to the node's
      `DeleteChild`, which the caller runs while the rest of the trace is
      held. */
  method FindParent<N>(root: N, text: string, child: (N, string) -> Option<N>)
      returns (r: Outcome<Option<(N, string)>>, locker: TraceLocker?<N>)
    requires |text| > 0
    ensures text[0] != Separator ==> r == Thrown(InvalidArgument)
    ensures text[0] == Separator ==> r.Done?
    ensures r.Done? && r.value.Some? ==> locker != null && fresh(locker) && locker.Valid()
    ensures text[0] == Separator ==>
              var keys := Split(text);
              (r.value.Some? <==> keys != [] && Resolve(child, root, keys).Some?)
              && (r.value.Some? ==>
                    && Resolve(child, root, keys[..|keys| - 1]) == Some(r.value.value.0)
                    && r.value.value.1 == keys[|keys| - 1]
                    && locker.trace == Trail(child, root, keys)[..|keys| - 1])
  {
    var parsed := Parse(text);
    if parsed.Thrown? {
      return Thrown(parsed.error), null;
    }
    var path := parsed.value;
    if path.GetDepth() == 0 {
      return Done(None), null;
    }
    var parent, keyName, current;
    parent, keyName, current, locker := WalkToParent(root, path, child);
    if current.None? {
      locker.Destroy();
      return Done(None), null;
    }
    ResolveIffFullDepth(child, root, path.Keys());
    var popped := locker.Pop();
    assert popped.Done?;
    return Done(Some((parent, keyName))), locker;
  }

  /** The loop of `Delete` (lines 24-29). */
  method WalkToParent<N>(root: N, path: PathView, child: (N, string) -> Option<N>)
      returns (parent: N, keyName: string, current: Option<N>, locker: TraceLocker<N>)
    requires path.Valid() && path.GetDepth() > 0
    ensures fresh(locker) && locker.Valid() && locker.depth == path.GetDepth() && locker.released == []
    ensures current == Resolve(child, root, path.Keys())
    ensures current.Some? ==>
              && Resolve(child, root, path.Keys()[..path.GetDepth() - 1]) == Some(parent)
              && keyName == path.Keys()[path.GetDepth() - 1]
              && locker.trace == Trail(child, root, path.Keys())[..path.GetDepth()]
  {
    ghost var keys := path.Keys();
    ghost var depth := path.GetDepth();
    ghost var trail := Trail(child, root, keys);
    ghost var d := ExistingDepth(child, root, keys);
    locker := new TraceLocker(path.GetDepth());
    var parentPtr: Option<N> := None;
    current := Some(root);
    keyName := "";
    var key := path.begin;
    ghost var i := 0;
    var end := path.End();
    while key != end && current.Some?
      invariant 0 <= i <= depth
      invariant key == Advance(path.text, path.begin, i)
      invariant current == Resolve(child, root, keys[..i])
      invariant current.Some? ==> i <= d
      invariant current.None? ==> 0 < i == d + 1
      invariant i > 0 ==> parentPtr.Some? && parentPtr == Resolve(child, root, keys[..i - 1]) && keyName == keys[i - 1]
      invariant fresh(locker) && locker.Valid() && locker.depth == depth && locker.released == []
      invariant locker.trace == trail[..i]
      decreases depth - i
    {
      IteratorAt(path, i);
      DescentStep(child, root, keys, i, current.value);
      var pushed := locker.Push(current.value);
      assert pushed.Done?;
      parentPtr := current;
      keyName := Current(path.text, key);
      current := child(current.value, keyName);
      key := Next(path.text, key);
      i := i + 1;
    }
    IteratorAt(path, i);
    WalkEnds(child, root, keys, i, current);
    parent := if parentPtr.Some? then parentPtr.value else root;
  }
}
