# jb_storage core, modelled in Dafny

jb_storage is a hierarchical key-value store. A **volume** is a durable tree
of nodes. Each node holds one `Value` and its children by name. The
**storage** is a tree of virtual nodes. Volume nodes are **mounted** on
those virtual nodes, several at once on one virtual node. The newest mount
decides what a virtual node reads as; its children are the union of the
mounted children (newest first) and its own virtual children. Every
operation takes an absolute path such as `/a/b/c`.

The project models the following:

- `common.dfy` (module `Common`): the stored `Value` variant, the fixed-width
  integers, `Option`, and the two exceptions the code throws
  (`invalid_argument`, `out_of_range`) as an `Outcome`.
- `path_view.dfy` (module `PathView`): the tokenizer. A path is split at `/`
  into non-empty keys. The iterator is a position in the text. Depth, emptiness
  and `GetRest` are modelled, and a relative path throws. `Split` is an
  independent left-to-right definition of the keys, and the iterator's keys
  are proved equal to it.
- `serialization.dfy` (module `Serialization`): the byte codec.
  - Multi-byte integers are big-endian.
  - The 1-byte read of an exhausted stream gives 0xFF.
  - A float or double is written as an integer mantissa and an `int32` exponent.
  - A string or blob is written as an 8-byte length, then the data.
  - A `Value` is written as a tag byte, then its payload.
  - Each is proved to round-trip, and so is a whole sequence of values written back to back.
- `trace_locker.dfy` (module `Tracing`): `TraceLocker`, a class with the
  capacity `depth`, the stack `trace` of held shared locks and the sequence
  `released` of locks given back. Push and Pop throw at the capacity and when
  empty. The destructor releases the trace newest first.
- `base_impl.dfy` (module `BaseImpl`): the generic engine over any node type,
  given as a `child` function:
  - the shared-lock descent, the single `Pop`, the recheck under the
    exclusive lock, and the hand-off to the setter;
  - `LockPath`, `Get`, and the walk of `Delete`.
  `Resolve`, `ExistingDepth` and `Trail` are the reference definitions: the
  node a path leads to, how deep the existing part goes, and the nodes on
  the way.
- `volume_impl.dfy` (module `Volume`): the durable `Node` and `VolumeImpl`.
  - The nodes live in an arena `map<NodeId, Node>`, and a ghost `parent` map
    proves that the arena is a tree.
  - On that arena the model covers `Get`, `Delete`, `SetOrInsert`, `LockPath`,
    the wrapping 32-bit reference count, and the guard of `Load` and `Save`.
- `storage.dfy` (module `Storage`):
  - `VirtualNode`: its mounts, its virtual children, its locking order, and
    the growth of new virtual branches;
  - `MountHolder`, which counts one use of its volume;
  - `Storage::Impl::Mount` and the `MountTokenImpl` destructor that unmounts.
  Mutex steps are recorded as `Acquire`/`Release` events in a `MutexLog`. A
  replay of those events proves that an unlock undoes the matching lock.

Pointers become identities into arenas (`NodeId`, `VNodeId`, `HolderId`). A
`shared_ptr` that the program makes is an arena entry with the next unused
identity, and arenas never drop entries. A `weak_ptr` that may have expired
is a boolean parameter saying whether its target is still alive.

The program's own declarations and definitions disagree in places; the model
follows the definitions:

- `VolumeImpl.h:30-31` declares `Load`/`Save` as returning `bool`, but
  `VolumeImpl.cpp:90-106` defines them as `void`. The model's `Load`/`Save`
  return whether the guarded block ran.
- `VolumeImpl.h:19` declares a second `_root` that hides `BaseImpl::_root` and
  is never set. `Load`/`Save` lock through that pointer. The model locks
  nothing there, because the guarded block is empty.
- `Storage.cpp:218` passes two template arguments to the one-parameter engine
  template `BaseImpl.h:28-29`. The model calls the engine with the virtual
  child function.
- Two defects in the engine are listed under Findings. The rest of the model
  uses the corrected members: `LockPath` as written throws for every path that
  exists, so `Mount` as written throws whenever `what` names a node; and the
  engine as written throws for the path `/`.

## Model

| member | source | states |
|---|---|---|
| PathView.SkipSeparators | storage/source/PathView.h:53-54 | the iterator's start skips exactly a run of separators and stops at a key character or the end |
| PathView.SegmentEnd | storage/source/PathView.h:55 | the current key runs up to the next separator or the end and holds no separator |
| PathView.IteratorFrom | storage/source/PathView.h:53-56 | an iterator built at a position is well formed and does not move backwards |
| PathView.Current | storage/source/PathView.h:45 | the current key is empty exactly at the end iterator and never contains a separator |
| PathView.Next | storage/source/PathView.h:47 | `++` moves past the current key and the separators after it, to a well-formed iterator |
| PathView.Segments | storage/source/PathView.cpp:9 | the keys from an iterator to the end are as many as `std::distance` counts |
| PathView.Advance | storage/source/PathView.h:47-48 | advancing n times gives a well-formed iterator |
| PathView.PathView.GetRest | storage/source/PathView.cpp:15-17 | the rest view keeps the text and the end, and its depth is the number of keys from the iterator |
| PathView.Parse | storage/source/PathView.cpp:8-13 | throws `invalid_argument` exactly when the first character is not `/`; otherwise a valid view whose keys are `Split(text)` and whose depth is their number |
| PathView.SegmentsMatchSplit | storage/source/PathView.h:47-56 | the keys the iterator yields equal the independent left-to-right split |
| PathView.SegmentsAreWellFormed | storage/source/PathView.h:53-56 | every key is non-empty and holds no separator |
| PathView.AdvanceSkipsSegments | storage/source/PathView.h:47 | after n steps, n keys are consumed, the current key is the n-th, and the end is reached exactly after all of them |
| PathView.AdvanceNext | storage/source/PathView.h:47 | one more step from the n-th iterator is `++` of it |
| PathView.IteratorAt | storage/source/PathView.h:49 | the i-th iterator equals the end exactly when i is the depth |
| PathView.EndAfterDepthIncrements | storage/source/PathView.cpp:9 | depth steps from the beginning reach the end |
| PathView.RestConcatenates | storage/source/PathView.cpp:15-17 | the first n keys followed by the rest's keys are the whole path, and the rest has depth minus n |
| PathView.PathView.GetDepth | storage/source/PathView.cpp:9 | the depth stored in a view is the number of keys from its beginning to its end |
| PathView.PathView.IsEmpty | storage/source/PathView.h:70 | a view is empty exactly when it has no keys |
| PathView.RootIsEmpty | tests/PathViewTest.cpp:44-48 | `/` parses to an empty view |
| PathView.RelativeIsRejected | tests/PathViewTest.cpp:19-20 | `foo` throws `invalid_argument` |
| PathView.ExampleSegments | tests/PathViewTest.cpp:22-42 | repeated and trailing separators yield the four keys `foo`, `bar`, `baz`, `etc` |
| PathView.ExampleInternational | tests/PathViewTest.cpp:74-83 | non-ASCII keys with punctuation and a trailing separator split into `фу.`, `бар#`, `баз?`, `итд*` |
| Serialization.BigEndian | storage/source/Serialization.h:24-34 | the encoding of a width-byte integer has exactly width bytes |
| Serialization.FromBigEndian | storage/source/Serialization.h:36-47 | the value read from n bytes is below 256^n |
| Serialization.FromBigEndianOfBigEndian | storage/source/Serialization.h:24-47 | reading back a written integer gives the integer |
| Serialization.BigEndianOfFromBigEndian | storage/source/Serialization.h:24-47 | writing back any read integer gives the same bytes |
| Serialization.FromBigEndianSnoc | storage/source/Serialization.h:43-44 | one more byte shifts the value left by 8 and ors the byte in |
| Serialization.SerializeInteger | storage/source/Serialization.h:24-34 | the shifting loop appends the big-endian bytes of the value to the stream |
| Serialization.DeserializeInteger | storage/source/Serialization.h:36-47 | the accumulating loop reads the big-endian value of the next width bytes and consumes exactly them |
| Serialization.IntegerRoundTrip | storage/source/Serialization.h:24-47 | an integer written and read back is the same, and the rest of the stream is untouched |
| Serialization.ExampleIntegers | storage/source/Serialization.h:24-34 | 0xFF0000FF is written as FF 00 00 FF |
| Serialization.DeserializeByte | storage/source/Serialization.h:20-22 | reads the next byte; an exhausted stream gives 0xFF (end of file) |
| Serialization.SerializeByte | storage/source/Serialization.h:16-18 | a byte written is read back by the 1-byte read, whatever follows it |
| Serialization.Signed | storage/source/Serialization.h:57-58 | a signed mantissa or exponent is written in exactly width bytes |
| Serialization.TwosComplement | storage/source/Serialization.h:57-58 | the two's-complement image of a signed value fits in width bytes |
| Serialization.FromSigned | storage/source/Serialization.h:66-67 | a signed value read from width bytes fits the signed width |
| Serialization.SignedRoundTrip | storage/source/Serialization.h:49-70 | a signed integer written and read back is the same |
| Serialization.SerializeBytes | storage/source/Serialization.h:72-77 | appends the 8-byte length, then the data |
| Serialization.DeserializeBytes | storage/source/Serialization.h:79-86 | reads the length, then exactly that many bytes |
| Serialization.BytesRoundTrip | storage/source/Serialization.h:72-86 | a string or blob written and read back is the same, and the rest of the stream is untouched |
| Serialization.Payload | storage/source/Serialization.cpp:38-40 | the payload has the size of the alternative: 0, 4, 8, 8, 12, or 8 plus the length |
| Serialization.TypeTag | storage/source/Serialization.cpp:27-36 | every alternative has a tag at most the monostate tag, which only monostate has |
| Serialization.SerializeValue | storage/source/Serialization.cpp:22-42 | the first byte is the alternative's tag, then its payload |
| Serialization.DecodeSigned | storage/source/Serialization.h:66-67 | a signed value read fits its width |
| Serialization.SignedDecodes | storage/source/Serialization.h:66-67 | reading a written signed value returns it and the rest |
| Serialization.PayloadRoundTrip | storage/source/Serialization.cpp:44-57 | the payload read under a value's tag is that value |
| Serialization.PairRoundTrip | storage/source/Serialization.h:49-70 | a mantissa followed by an exponent reads back as both |
| Serialization.TagThenPayload | storage/source/Serialization.cpp:44-57 | reading a value reads a tag, then the payload it names |
| Serialization.DecodePayload | storage/source/Serialization.cpp:49-56 | what is left is a suffix of the input; a tag past the blob tag gives monostate and reads nothing; a known tag reads at least one byte |
| Serialization.DeserializeValue | storage/source/Serialization.cpp:44-57 | what is left is a suffix of the input and shorter than a non-empty input; an exhausted stream reads as monostate |
| Serialization.ValueRoundTrip | storage/source/Serialization.cpp:22-57 | every value written and read back is the same, and the rest of the stream is untouched |
| Serialization.UnknownTagIsMonostate | storage/source/Serialization.cpp:47-56 | a tag naming no alternative with a payload, and an exhausted stream, read as monostate and consume only the tag |
| Serialization.MonostateIsOneByte | storage/source/Serialization.cpp:35-40 | monostate is written as its tag alone |
| Serialization.ManyRoundTrip | tests/SerializationTest.cpp:9-38 | values written back to back read back in order |
| Tracing.Reversed | storage/source/TraceLocker.h:29-30 | the release order is the trace reversed |
| Tracing.TraceLocker.constructor | storage/source/TraceLocker.h:19-21 | a new locker has the given capacity and holds nothing |
| Tracing.TraceLocker.Move | storage/source/TraceLocker.h:26-27 | the moved-to locker takes the trace; the moved-from one is left empty |
| Tracing.TraceLocker.Push | storage/source/TraceLocker.h:32-38 | throws `out_of_range` exactly at capacity, otherwise appends the lock |
| Tracing.TraceLocker.Pop | storage/source/TraceLocker.h:40-46 | throws `out_of_range` exactly when empty, otherwise releases the newest lock |
| Tracing.TraceLocker.Destroy | storage/source/TraceLocker.h:29-30 | releases every held lock, newest first |
| BaseImpl.ExistingDepth | storage/source/BaseImpl.h:44-51 | the existing depth is at most the path length and equals it exactly when the whole path resolves |
| BaseImpl.Trail | storage/source/BaseImpl.h:44-51 | the nodes visited are one per existing key plus the start |
| BaseImpl.ResolvePrefix | storage/source/BaseImpl.h:44-51 | a prefix resolves exactly when it is no longer than the existing depth, to the trail's node there |
| BaseImpl.ResolveIffFullDepth | storage/source/BaseImpl.cpp:56-62 | a path resolves exactly when every key exists, to the last trail node |
| BaseImpl.DeepestHasNoNextChild | storage/source/BaseImpl.h:47-50 | past the existing depth, the next key names no child of the deepest node |
| BaseImpl.DescentStopsAtExistingDepth | storage/source/BaseImpl.h:44-51 | a descent that stops at the end or at a missing child has reached the existing depth |
| BaseImpl.ResolveAppend | storage/source/BaseImpl.h:44-51 | resolving p followed by q resolves q from where p leads |
| BaseImpl.DescendAndLock | storage/source/BaseImpl.h:36-51 | the loop stops at the existing depth with the deepest existing node; the trace holds the trail down to that node when a key is missing, and all but the last node when the whole path exists |
| BaseImpl.Recheck | storage/source/BaseImpl.h:55-60 | the setter gets the deepest existing node and the keys from the existing depth on |
| BaseImpl.GrowthPoint | storage/source/BaseImpl.h:28-62 | relative paths throw; otherwise the setter gets the deepest existing node, where the next key is missing, and the missing keys; the trace keeps the trail minus one popped node |
| BaseImpl.GrowthPointAsWritten | storage/source/BaseImpl.h:35-60 | as written, the path `/` throws `out_of_range` from `Pop`; deeper paths reach the setter |
| BaseImpl.WalkPath | storage/source/BaseImpl.cpp:55-60 | the loop finds the node the path leads to, pushing the trail |
| BaseImpl.LockPathAsWritten | storage/source/BaseImpl.cpp:50-69 | as written, every path that resolves throws `out_of_range`; others give nothing |
| BaseImpl.LockPath | storage/source/BaseImpl.cpp:50-69 | relative paths throw; otherwise the node the path leads to with the whole trail held, or nothing with an empty trace |
| BaseImpl.Get | storage/source/BaseImpl.cpp:6-10 | the value of the node the path leads to, or nothing |
| BaseImpl.FindParent | storage/source/BaseImpl.cpp:12-34 | a parent and last key are given exactly when the path is non-root and resolves; the trace holds the ancestors above the parent |
| BaseImpl.WalkToParent | storage/source/BaseImpl.cpp:24-29 | the loop resolves the path and remembers the last parent and key name |
| Volume.ChildOf | storage/source/VolumeImpl.cpp:49-53 | the engine's child function is the arena's child lookup |
| Volume.FindStaysInArena | storage/source/VolumeImpl.cpp:49-53 | following keys from a node reaches only existing nodes |
| Volume.ValueAtIffFound | storage/source/VolumeImpl.cpp:23-24 | a value is read exactly where a node is found |
| Volume.LastEdge | storage/source/VolumeImpl.cpp:71-75 | a found node hangs from the node of its path's prefix under the last key |
| Volume.UniquePaths | storage/source/VolumeImpl.cpp:71-75 | two paths leading to the same node are equal |
| Volume.UnlinkKeepsOtherPaths | storage/source/VolumeImpl.cpp:55-56 | erasing a child leaves every path not through it unchanged |
| Volume.UnlinkCutsSubtree | storage/source/VolumeImpl.cpp:55-56 | erasing a child makes every path through it resolve to nothing |
| Volume.KeptEdgesKeepPaths | storage/source/VolumeImpl.cpp:49-53 | paths survive any change that keeps every child edge |
| Volume.LinkKeepsTree | storage/source/VolumeImpl.cpp:71-75 | linking a detached node under a new name keeps the arena a tree |
| Volume.UnlinkKeepsTree | storage/source/VolumeImpl.cpp:55-56 | erasing a child keeps the arena a tree |
| Volume.RevalueKeepsTree | storage/source/VolumeImpl.cpp:43-44 | storing a value keeps the arena a tree |
| Volume.ChainFinds | storage/source/VolumeImpl.cpp:35-39 | the j-th key prefix of a grown chain leads to its j-th node |
| Volume.ChainKeepsTree | storage/source/VolumeImpl.cpp:30-41 | adding a fresh chain of nodes keeps the arena a tree |
| Volume.ChainSurvivesLink | storage/source/VolumeImpl.cpp:41 | linking the chain's head leaves the chain intact |
| Volume.UnlinkDeletes | storage/source/BaseImpl.cpp:34-38 | erasing the last key from its parent deletes the path and everything below, and changes nothing else |
| Volume.OverwriteStores | storage/source/VolumeImpl.cpp:43-44 | overwriting an existing node stores the value and keeps every other value and path |
| Volume.GrownPathFinds | storage/source/VolumeImpl.cpp:26-41 | every prefix of the grown path leads to its new node |
| Volume.GrowthKeepsPaths | storage/source/VolumeImpl.cpp:41 | hanging a new branch keeps every existing path and value |
| Volume.GrowthStores | storage/source/VolumeImpl.cpp:26-47 | growing the missing keys stores the value at the path, monostate on the new nodes above it, and keeps every old path and value |
| Volume.GrownPaths | storage/source/VolumeImpl.cpp:30-41 | after growing, a path leads somewhere only if it did before or it is a prefix of the grown path reaching into the new chain, to its node there |
| Volume.Incremented | storage/source/VolumeImpl.cpp:84-85 | the 32-bit counter wraps from 0xFFFFFFFF to 0 |
| Volume.Decremented | storage/source/VolumeImpl.cpp:87-88 | the 32-bit counter wraps from 0 to 0xFFFFFFFF |
| Volume.RefCountsCancel | storage/source/VolumeImpl.cpp:84-88 | `AddRef` and `Release` undo each other, wrap-around included |
| Volume.BuildBranch | storage/source/VolumeImpl.cpp:30-39 | the loop builds fresh nodes, one per key after the first, with the value on the last |
| Volume.VolumeImpl.constructor | storage/source/VolumeImpl.cpp:80-82 | a new volume is one default node, used by nobody |
| Volume.VolumeImpl.AddRef | storage/source/VolumeImpl.cpp:84-85 | adds one to the counter, with wrap-around, and changes nothing else |
| Volume.VolumeImpl.Release | storage/source/VolumeImpl.cpp:87-88 | subtracts one from the counter, with wrap-around, and changes nothing else |
| Volume.VolumeImpl.Load | storage/source/VolumeImpl.cpp:90-97 | the guarded block runs exactly when the counter is 0 |
| Volume.VolumeImpl.Save | storage/source/VolumeImpl.cpp:99-106 | the guarded block runs exactly when the counter is 0 |
| Volume.VolumeImpl.GetValue | storage/source/VolumeImpl.cpp:23-24 | a durable node always has its value |
| Volume.VolumeImpl.GetChild | storage/source/VolumeImpl.cpp:49-53 | a child is found exactly when the name is present, and it hangs from this node only under that name |
| Volume.VolumeImpl.DeleteChild | storage/source/VolumeImpl.cpp:55-56 | true exactly when the name was present; only that entry goes, and the arena stays a tree |
| Volume.VolumeImpl.SetChild | storage/source/VolumeImpl.cpp:71-75 | links the child under the name and returns it |
| Volume.VolumeImpl.GrowBranchAndSetValue | storage/source/VolumeImpl.cpp:26-47 | an empty rest stores the value on the node; otherwise a fresh chain of nodes is hung under the first key with the value at its end; always true |
| Volume.VolumeImpl.Get | storage/source/BaseImpl.cpp:6-10 | relative paths throw; otherwise the value at the path, which exists exactly when the node does |
| Volume.VolumeImpl.Delete | storage/source/BaseImpl.cpp:12-39 | relative paths throw; true exactly for a non-root path that exists, which is then deleted with its subtree and nothing else changes; false changes nothing |
| Volume.VolumeImpl.SetOrInsert | storage/source/BaseImpl.cpp:41-48 | relative paths throw and change nothing; otherwise true, the value is stored at the path, monostate on the new nodes above it, every old path and other value is kept, and every path that leads somewhere only now is a prefix of the stored path |
| Volume.VolumeImpl.LockPath | storage/source/BaseImpl.cpp:50-69 | relative paths throw; otherwise the node the path leads to, in the arena, with a valid fresh locker |
| Storage.VirtualChildOf | storage/source/Storage.cpp:145-149 | the engine's child function is the virtual children lookup |
| Storage.VirtualFindStaysInArena | storage/source/Storage.cpp:145-149 | following virtual keys reaches only existing virtual nodes |
| Storage.KeptVirtualEdgesKeepPaths | storage/source/Storage.cpp:145-149 | virtual paths survive any change that keeps every virtual edge |
| Storage.VirtualLastEdge | storage/source/Storage.cpp:159-163 | the node a path leads to hangs, under the last key, from the node the rest of the path leads to |
| Storage.VirtualUniquePaths | storage/source/Storage.cpp:145-149 | two virtual paths leading to the same virtual node are equal |
| Storage.SameEdgesKeepVirtualTree | storage/source/Storage.cpp:165-166 | changing bindings only keeps the virtual nodes a tree |
| Storage.VirtualLinkKeepsTree | storage/source/Storage.cpp:159-163 | linking a virtual node that hangs from nothing keeps the virtual nodes a tree, with the replaced child detached |
| Storage.VirtualUnlinkKeepsTree | storage/source/Storage.cpp:93 | erasing a virtual child keeps the virtual nodes a tree, with that child detached |
| Storage.VirtualChainKeepsTree | storage/source/Storage.cpp:126-131 | adding a fresh unlinked chain keeps the virtual nodes a tree, and the chain's head hangs from nothing |
| Storage.VirtualChainFinds | storage/source/Storage.cpp:129-131 | each key prefix of a grown virtual branch leads to its node |
| Storage.GrownVirtualBranchFinds | storage/source/Storage.cpp:120-137 | the whole new path leads to the branch's tail |
| Storage.GrownBranchHolds | storage/source/Storage.cpp:70-73 | a chain grown below a mounted node holds the value at its end |
| Storage.IndexOf | storage/source/Storage.cpp:154 | `std::find` gives the first position of the holder, or the end |
| Storage.RemoveFirstCounts | storage/source/Storage.cpp:154-155 | erasing removes one occurrence; the holder stays bound exactly when it was bound twice |
| Storage.RemoveFirstKeepsOrder | storage/source/Storage.cpp:154-155 | erasing the found position keeps the other mounts in order |
| Storage.BoundLocks | storage/source/Storage.cpp:99 | the mutexes of the mounted nodes, oldest first |
| Storage.AcquireAll | storage/source/Storage.cpp:99 | one acquire per mounted node, oldest first |
| Storage.ReleaseAll | storage/source/Storage.cpp:104 | one release per mounted node, newest first |
| Storage.ReplayAcquires | storage/source/Storage.cpp:96-100 | acquiring a sequence pushes every lock onto the held stack |
| Storage.ReplayReleases | storage/source/Storage.cpp:102-106 | releasing in reverse pops exactly those locks |
| Storage.UnlockUndoesLock | storage/source/Storage.cpp:96-118 | lock then unlock (shared or exclusive) leaves nothing held, and every release matches the newest held lock |
| Storage.AcquireEach | storage/source/Storage.cpp:99 | the `for_each` loop records one acquire per mounted node |
| Storage.ReleaseEach | storage/source/Storage.cpp:104 | the reverse `for_each` loop records one release per mounted node |
| Storage.BuildVirtualBranch | storage/source/Storage.cpp:124-133 | the loop builds a fresh head and one fresh virtual node per further key, each the child of the one before, binds the holder on the last, leaves every old node unchanged, and returns the first key as the head's name |
| Storage.BranchKeepsArenaValid | storage/source/Storage.cpp:124-133 | a built chain bound to a known holder, at the next free identities, keeps the virtual arena well formed |
| Storage.LinkedBranch | storage/source/Storage.cpp:135 | linking the built chain yields exactly the grown branch |
| Storage.VirtualGrowthPoint | storage/source/Storage.cpp:218-221 | relative paths throw; otherwise the deepest existing virtual node along `where`, where the next key is missing, and the missing keys |
| Storage.PushMountMounts | storage/source/Storage.cpp:139-140 | binding on an existing node mounts the holder there, newest, and changes no other mount and no path |
| Storage.GrownBranchMounts | storage/source/Storage.cpp:122-137 | growing the missing keys mounts the holder on the new tail at `where`, keeps every old mount and path, binds nothing on the other new nodes, and every new path is a prefix of `where` |
| Storage.GrownVirtualPaths | storage/source/Storage.cpp:126-135 | after growing, a virtual path leads somewhere only if it did before or it is a prefix of `where` reaching into the new branch, to its node there |
| Storage.UnbindKeepsArenaValid | storage/source/Storage.cpp:151-156 | removing a binding keeps the virtual arena well formed |
| Storage.UnmountUndoesMount | storage/source/Storage.cpp:151-166 | unmounting a holder just mounted restores the virtual nodes exactly |
| Storage.MutexLog.constructor | storage/source/Storage.cpp:38-49 | no mutex step has happened yet |
| Storage.StorageImpl.constructor | storage/source/Storage.cpp:179 | a root virtual node with nothing mounted and no virtual children |
| Storage.StorageImpl.GetVirtualChild | storage/source/Storage.cpp:145-149 | the virtual child is found exactly when the name is present |
| Storage.StorageImpl.SetVirtualChild | storage/source/Storage.cpp:159-163 | inserts or replaces the virtual child with a node that hangs from nothing and returns it; the virtual nodes stay a tree |
| Storage.StorageImpl.PushMount | storage/source/Storage.cpp:165-166 | appends the binding; the node then reads as the holder's node |
| Storage.StorageImpl.GetValue | storage/source/Storage.cpp:62-68 | nothing exactly when nothing is mounted; otherwise the value of the newest mounted node |
| Storage.StorageImpl.GrowBranchAndSetValue | storage/source/Storage.cpp:70-76 | false exactly when nothing is mounted; otherwise the value is stored at the path below the newest mounted node, by revaluing that node or by hanging a fresh chain under it, and its volume's count and other nodes are unchanged |
| Storage.StorageImpl.NewestWith | storage/source/Storage.cpp:80-82 | the newest mount that has the child, and no newer mount has it |
| Storage.StorageImpl.GetChild | storage/source/Storage.cpp:78-85 | the child of the newest mount that has one, else the virtual child; nothing exactly when neither exists |
| Storage.StorageImpl.DeleteVia | storage/source/Storage.cpp:90 | the mounted node's `DeleteChild`: true exactly when the name was present there |
| Storage.StorageImpl.DeleteChild | storage/source/Storage.cpp:87-94 | erases from the newest mount that has the child, otherwise the virtual child; true exactly when one existed; every other volume's nodes, every count and the virtual nodes are otherwise unchanged |
| Storage.StorageImpl.EraseVirtualChild | storage/source/Storage.cpp:93 | the virtual child goes, true exactly when it existed; the virtual nodes stay a tree |
| Storage.StorageImpl.Lock | storage/source/Storage.cpp:96-100 | the node's own mutex, then every mounted node, oldest first |
| Storage.StorageImpl.Unlock | storage/source/Storage.cpp:102-106 | every mounted node, newest first, then the node's own mutex |
| Storage.StorageImpl.GrowBranchAndMount | storage/source/Storage.cpp:120-143 | an empty rest binds on the node itself and gives nothing; otherwise a new branch with the holder on its tail, and the tail |
| Storage.StorageImpl.GrowBranch | storage/source/Storage.cpp:122-137 | the chain of fresh virtual nodes hangs under the first key, with the holder bound on its last node, which is returned |
| Storage.StorageImpl.NewHolder | storage/source/Storage.cpp:22-24 | a fresh holder that adds one use of its volume |
| Storage.StorageImpl.DropHolder | storage/source/Storage.cpp:26-30 | the end of a holder releases one use of its volume exactly when the volume is alive |
| Storage.StorageImpl.Unbind | storage/source/Storage.cpp:154-155 | the first binding of the holder on the node goes, and nothing else changes |
| Storage.StorageImpl.Unmount | storage/source/Storage.cpp:151-156 | removes the first binding of the holder; when that was its last, the holder ends and releases its volume |
| Storage.StorageImpl.DestroyToken | storage/source/Storage.cpp:198-208 | a live owner is unmounted under its own exclusive mutex, and the volume's count drops exactly when that was the holder's last binding and the volume is alive; an expired owner changes nothing; the volume's nodes never change |
| Storage.StorageImpl.MountAtGrowthPoint | storage/source/Storage.cpp:222-226 | the setter mounts the holder at `where` and reports the node bound on as owner; old paths and bindings are kept, new paths are prefixes of `where`, and no other new node has a binding |
| Storage.StorageImpl.MountAlong | storage/source/Storage.cpp:218-227 | relative `where` throws and changes nothing; otherwise the holder is mounted at `where`, new paths are prefixes of `where`, and no other binding changes |
| Storage.StorageImpl.MountNode | storage/source/Storage.cpp:215-229 | a relative `where` throws and leaves the count unchanged; otherwise a new holder counts one use, is mounted at `where`, and the owner reads as the mounted node |
| Storage.StorageImpl.Mount | storage/source/Storage.cpp:211-233 | relative paths throw; a `what` naming no node gives no token; a token is given exactly when both paths are absolute and `what` exists, and then the volume is used once more, the holder is mounted at `where` and the owner reads as the value at `what`; otherwise nothing changes |

## Left out

- Concurrency: threads and real mutexes are not modelled. Locks are recorded as events (virtual nodes) or as `TraceLocker` traces. The recheck under the exclusive lock (`BaseImpl.h:55-58`) can never find a new child, because nothing else runs; the retry loop is therefore not modelled.
- Memory order of the atomic counter (`memory_order_relaxed`/`acquire`) is not modelled; the counter is a plain `uint32` with wrap-around.
- Floating point: `frexp`, `ldexp` and the scaling of the mantissa (`Serialization.h:52-57`, `69`). A float or double value is held as the mantissa and exponent the codec writes.
- Serialization.DecodeInteger: a stream that ends inside an integer gives nothing, where the program shifts in whatever the uninitialised buffer (`Serialization.h:41`) holds and sets the stream's error bits.
- Serialization.DeserializeBytes: a stream that ends inside a string or blob gives nothing, where the program keeps the zero-filled tail of the buffer it sized first (`Serialization.h:83-84`); a length too large to allocate, which makes that constructor throw `length_error` or `bad_alloc`, is not distinguished from a short stream.
- Streams are byte sequences; the `ostream`/`istream` error states are not modelled.
- `Path.h` and `Path.cpp` (the validating path type that `Delete` and the setters take) are not part of this model; every path is parsed with `PathView`.
- Volume.VolumeImpl.Load: the guarded block is empty (`TODO`) in the program, and the root lock it takes goes through an unset pointer; the model states only the guard.
- Volume.VolumeImpl.Save: the same as `Load`; only the guard is stated.
- The public `Storage`, `Volume` and `MountToken` forwarders (`Storage.cpp:235-258`, `Volume.cpp`) and the handles around them are thin wrappers and are not modelled.
- Reclamation: arenas never drop nodes, virtual nodes or holders, so detached subtrees and ended holders stay as unreachable entries. The virtual tree shape (every virtual node hangs from at most one other) is a ghost invariant over the reachable part; `SetVirtualChild` requires a node that hangs from nothing, as every node the storage links is new.
- Storage.StorageImpl.DeleteChild: erasing a virtual child (`Storage.cpp:93`) ends, in the program, every holder bound only in the erased subtree, and each ending releases one use of its volume (`Storage.cpp:26-30`); the model keeps those holders and every volume's count unchanged.
- Volume.VolumeImpl.constructor: the counter `_refcounter` (`VolumeImpl.h:20`) is not initialised by the constructor (`VolumeImpl.cpp:80-82`); it starts at 0 only where `std::atomic` is value-initialised (C++20), which the model assumes.
- Weak pointers: whether the owner of a token and the volume of a holder are still alive is a parameter (`ownerAlive`, `volumeAlive`), not derived from reference counts.
- Storage.StorageImpl.Unmount: the holder ends when its last binding on that virtual node goes. In the program only that node's mount list owns the holder, and the model makes the same assumption.
- `std::cerr` output in the token destructor (`Storage.cpp:206-207`) is not modelled.
- An empty path text is excluded by every entry point (`requires |text| > 0`): `path.front()` on an empty view is undefined behaviour in the program.
- `TraceLocker`'s deleted copy operations (`TraceLocker.h:23-24`) need no model; Dafny references are not copied implicitly.

## Findings

| source | as written | input that shows it | evidently intended | confidence | as-written member | corrected member |
|---|---|---|---|---|---|---|
| storage/source/BaseImpl.cpp:53-64 | the trace has capacity `GetDepth()`, but a walk that resolves pushes every node on the way and then the found node once more, so `Push` throws `out_of_range` | `LockPath("/")` on any volume (capacity 0, one push); likewise `Get("/a")` when `/a` exists | capacity `GetDepth() + 1`, so the found node and all its ancestors are held and returned | high, not executed | BaseImpl.LockPathAsWritten | BaseImpl.LockPath |
| storage/source/BaseImpl.h:53 | `locker.Pop()` runs unconditionally after the descent; for a path of depth 0 nothing was pushed, so `Pop` throws `out_of_range` | `SetOrInsert("/", v)` on any volume | for the path `/`, hand the root and the empty rest to the setter | high, not executed | BaseImpl.GrowthPointAsWritten | BaseImpl.GrowthPoint |
