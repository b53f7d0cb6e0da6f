# Verification of the in-memory virtual file system

A Dafny model of the file system daemon in `daemon-old` and of the tree conversions of its client, with proofs about
whole runs. `dafny verify dfyconfig.toml` checks everything.

The model has four layers.

1. *Content hashing* (`LittleEndian`, `Ordering`, `ContentHash`, `Preimages`, `Trees`, `Streams`). The byte streams that
   content hashing feeds to the hash function, a decoder for them, the order in which unordered containers are hashed, the
   second key scheme of the service (hashes of encoded messages), and the conversions a tree goes through between
   client and daemon.
2. *The store* (`Stores`, `Insertability`). Files, symlinks and trees by content address, the writers of the daemon and
   of the service on the same object, what all of them keep, and which stored trees can be turned into inodes.
3. *The mount* (`Forests`, `Mounts`, `Materialise`, `MountStores`). Inode attributes and directory descriptors, the graph of
   ordinary entries, walks along paths, and the recursive construction of inodes from a stored tree.
4. *Requests* (`Words`, `Requests`, `Invariants`, `Contents`, `Steps`, `Views`, `Reads`, `Runs`, `Histories`, `Effects`,
   `Outcomes`, `Links`, `HardLinks`, `Failures`, `FileSystems`). Each request is a step on mount, store and handle
   counter. `CultivateFS` performs the requests in the order of the source, on copies that are fetched, changed and
   written back, and each method is proved to have the effect of its step. `Outcomes` says of each step when it is
   answered how, and what it leaves behind. A run (`Trace`, `IsRun`) is any sequence of such steps, re-rootings and
   service writes, and results about runs hold at every point of them. `Failures` has, for properties that fail, runs that
   reach the failures.

## Conventions

- The hash function is an uninterpreted value of type `Hash`. Results that need it say so: no two byte strings hashed in
  the run collide (`CollisionFree`). The state remembers the byte strings hashed and the order of first writes of trees
  only to state such results.
- `Allowed` collects what callers provide: the kernel's checks (a parent exists as a directory or not at all, names are not
  "." or "..", a directory is not moved below itself, contents and offsets stay below 2^63) and the guards in front of code
  that panics: a rename that would replace a directory (`RenamePanics`), `mknod` of a directory (`MknodPanics`), and rooting
  a mount at a tree that cannot be inserted (not `Insertable`). Each guard is proved to be exact.
- A tree may be written whatever it refers to and whatever its names, as in the source. The source also roots a mount at
  trees with entries named "." or "..". A run does so exactly where the mount stays good (`Rootable`, proved to be exact by
  `Invariants.SetRootKeeps`); `Failures` has trees for which it does not.
- A step does not rely on the invariant: it is defined in every state. That a state is good is proved of runs, never
  assumed of them.
- Every request is one atomic step, as in the sequential request loop.
- Strings are byte strings. Inode numbers, open counts and the handle counter are unbounded; the handle counter's bound is
  a stated guard. Handles are numbers whose bits are set and tested as in 64-bit words (`Words`).
- `write_all` is taken by its documented contract: nothing is written, and nothing padded, for empty data.

Where code and comments disagree, the model follows the code: enums are hashed with the tags the code writes (one byte),
not with a 32-bit ordinal, and ids have 32 bytes, not 64.

## Model

| member | source | states |
|---|---|---|
| `Views.RenameMovesSubtree` | daemon-old/src/fs.rs:301-345 | after a successful rename, every path below the new path resolves to the attributes its counterpart below the old path resolved to, no path below the old path resolves, and every other path is unchanged (attributes include hash, size and link count) |
| `Views.RenameOntoItself` | daemon-old/src/fs.rs:194-337 | renaming a file or symlink onto itself leaves the whole mount as it was, link counts included; a directory is refused with more than two entries, and panics otherwise |
| `Views.RenameOutcome` | daemon-old/src/fs.rs:194-310 | a rename is answered not-found exactly when the old entry or the new directory is missing; otherwise it is done when the target is free or not a directory, not-empty when it is a directory with more than two entries, and a panic, with the target entry gone, when it is a directory with at most two |
| `Outcomes.RenameEffect` | daemon-old/src/fs.rs:301-345 | what a rename leaves behind, entry by entry and node by node: the moved entry in its new place, ".." of a moved directory set whether or not it had one, one link less on a replaced node, and nothing else |
| `Views.RenameOntoDirectory` | daemon-old/src/fs.rs:270-309 | a rename onto a directory is refused exactly when the directory has an ordinary entry, or two where it was made from a stored tree, and panics otherwise |
| `Failures.RenameOntoEmptyDirectory` | daemon-old/src/fs.rs:301-309 | a run after which renaming a directory onto an empty directory, which is not below it, panics with the target entry gone |
| `Failures.RenameOntoOneEntryDirectory` | daemon-old/src/fs.rs:270-309 | a run, through stored trees, after which renaming a directory onto a directory with one entry is not refused but panics with the target entry gone |
| `Views.EmptinessCheck` | daemon-old/src/fs.rs:270-282 | the count behind the not-empty reply sees a non-empty directory exactly when the directory has a ".." or at least two ordinary entries |
| `Forests.MoveMovesSubtree` | daemon-old/src/fs.rs:301-328 | moving one link of a forest moves exactly the subtree below it, as seen along every path from the root |
| `Forests.MoveWalks` | daemon-old/src/fs.rs:301-328 | the same for walks from any inode, reachable from the root or not: through the new slot, through the vacated slot, and elsewhere |
| `Forests.MoveKeepsForest` | daemon-old/src/fs.rs:301-328 | a move keeps names unshared, the root unnamed and the links well-founded, given that an inode is not moved below itself |
| `Forests.PathsAreUnique` | daemon-old/src/fs.rs:59-68 | from the root, an inode is reached along at most one path |
| `Invariants.RenameKeeps` | daemon-old/src/fs.rs:184-348 | a rename keeps every part of the mount invariant, ".." of the moved directory and link counts included |
| `FileSystems.CultivateFS.Rename` | daemon-old/src/fs.rs:184-348 | the request, performed on fetched and written-back copies, has exactly the net effect and reply of the rename model, panics included |
| `FileSystems.CultivateFS.MoveEntry` | daemon-old/src/fs.rs:301-345 | past the checks, a directory in the way panics; otherwise the copies written back after the entry moved lose nothing |
| `FileSystems.CultivateFS.DropTarget` | daemon-old/src/fs.rs:301-317 | an entry in the way leaves its directory; a file or symlink loses a link, a directory makes the request panic |
| `Runs.ReachableMountIsForest` | daemon-old/src/fs.rs:184-348 | at every point of any run every inode is named at most once, the root never, no walk returns to its start, directories are exactly the inodes with descriptors, entries name existing inodes of their kind, "." is self and ".." of a named directory is its naming parent |
| `Steps.StepKeepsMount` | daemon-old/src/fs.rs:184-892 | every request of the model keeps the mount invariant |
| `Invariants.MkdirKeeps` | daemon-old/src/fs.rs:744-818 | creating a directory keeps the mount invariant |
| `Invariants.MknodKeeps` | daemon-old/src/fs.rs:820-892 | creating a node keeps the mount invariant exactly when it does not panic, and it panics exactly when a directory is asked for under a free name of an existing parent |
| `Invariants.SymlinkKeeps` | daemon-old/src/fs.rs:668-724 | a symlink request keeps the mount invariant, also when the link is refused after the node was allocated |
| `Invariants.SetRootKeeps` | daemon-old/src/mount_store.rs:77-135 | rooting a good mount at an insertable tree gives a good mount exactly when the tree is rootable: no tree reachable from it has an entry ".", an entry ".." is a directory, and neither the tree itself nor one that an ordinary name leads to has one |
| `Invariants.SetRootKeepsRest` | daemon-old/src/mount_store.rs:77-135 | whatever the names, re-rooting keeps the forest, the kinds and the entries, with the old contents left behind as orphans |
| `Invariants.RootedDots` | daemon-old/src/mount_store.rs:103-135 | for every path to a tree, the directory made there has itself as "." exactly when the tree has no such entry, and has a ".." exactly when the tree has one |
| `Insertability.HiddenDotDotIsHarmless` | daemon-old/src/mount_store.rs:109-135 | an entry ".." is harmless, for example, in a tree that only occurs where another entry of the same name hides it |
| `Forests.RegrownIsForest` | daemon-old/src/mount_store.rs:103-135 | replacing everything under the root by links on fresh inodes keeps a forest |
| `Views.CreationAddsPath` | daemon-old/src/fs.rs:789-815 | creating an entry adds one path, which resolves to the new node, and changes no other path |
| `Views.CreationIsLinking` | daemon-old/src/fs.rs:744-892 | every successful mkdir, mknod and symlink is such a creation, of the kind asked for, under a name that was free |
| `Outcomes.MkdirOutcome` | daemon-old/src/fs.rs:744-818 | when a mkdir is answered exists, not-found or created, and every attribute and entry it makes |
| `Outcomes.MknodOutcome` | daemon-old/src/fs.rs:820-892 | when a mknod is answered unsupported, exists, not-found or created, and when it panics, and every attribute and entry it makes |
| `Outcomes.SymlinkOutcome` | daemon-old/src/fs.rs:668-724 | when a symlink is answered not-found, exists or created, every attribute and entry it makes, and the target it stores under its content hash |
| `Outcomes.CreationOutcome` | daemon-old/src/fs.rs:668-892 | a created node has the owner and group of the caller, the next inode, no open handles, one link or two for a directory, and the size and hash of the link target if there is one |
| `Views.CreatedEntryIsFound` | daemon-old/src/fs.rs:128-142 | of the entries that creating requests make, lookup requests find exactly those with names of at most 140 bytes |
| `FileSystems.CultivateFS.Lookup` | daemon-old/src/fs.rs:126-142 | the request finds what a lookup of the name finds, but refuses names longer than 140 bytes |
| `Outcomes.LookupOutcome` | daemon-old/src/fs.rs:126-142 | a lookup is answered name-too-long for more than 140 bytes, not-found without an entry, and otherwise with the node of the entry |
| `Views.LookUpPathResolves` | daemon-old/src/fs.rs:126-142 | looking a path up name by name gives what the path resolves to when all names have at most 140 bytes, and nothing otherwise |
| `Views.RootedMountIsFound` | daemon-old/src/fs.rs:126-142 | after rooting a mount at a stored tree, a client finds a path exactly when it resolves in the stored trees and all its names have at most 140 bytes |
| `Failures.LongNameIsNotFound` | daemon-old/src/fs.rs:126-132 | a run after which an entry from a stored tree with a name of 141 bytes is listed and resolves, and no lookup finds it |
| `FileSystems.CultivateFS.Mkdir` | daemon-old/src/fs.rs:744-818 | the request has exactly the net effect and reply of the mkdir step |
| `FileSystems.CultivateFS.Mknod` | daemon-old/src/fs.rs:820-892 | the request has exactly the net effect and reply of the mknod model, whatever set-id bits the mode carries, panics included |
| `FileSystems.CultivateFS.MakeSymlink` | daemon-old/src/fs.rs:668-724 | the request has exactly the net effect and reply of the symlink step |
| `FileSystems.CultivateFS.InsertLink` | daemon-old/src/fs.rs:91-124 | a link is refused for an existing name, a missing parent or missing permission without any change, and otherwise only the parent gains the entry |
| `FileSystems.CultivateFS.LookupName` | daemon-old/src/fs.rs:59-68 | a lookup gives the attributes behind the entry, or not-found |
| `Runs.LinksCoverEntries` | daemon-old/src/fs.rs:301-317 | in every reachable state a file or symlink has at least as many links as naming entries, so the decrement of a replaced node starts from at least one |
| `HardLinks.ReachableLinkCounts` | daemon-old/src/mount_store.rs:196-198 | in every reachable state a directory has two links, and a file or symlink none if some rename put another node in its place, and one otherwise |
| `Views.RefusedIsInvisible` | daemon-old/src/fs.rs:91-124 | a request that is answered with an error leaves the attributes every path resolves to, and the store, unchanged |
| `Effects.EffectIsSeen` | daemon-old/src/fs.rs:387-651 | after a write, open, release or store write every path resolves as before, to the same attributes unless it arrives at the inode of the request, and there with exactly the open count, size and content that the request says |
| `Steps.AccessRefusals` | daemon-old/src/fs.rs:927-960 | permission is refused exactly for a write with a handle not opened for writing or a read-only open that truncates; inode modes refuse nothing |
| `Mounts.DefaultModeGrants` | daemon-old/src/fs.rs:927-960 | the access check grants every access on the mode all inodes are created with |
| `Mounts.ClassDecides` | daemon-old/src/fs.rs:927-960 | for a caller other than root the bits of the one class it belongs to decide |
| `Mounts.NothingLeft` | daemon-old/src/fs.rs:948-957 | and they do so exactly when all bits asked for are among them |
| `Mounts.RootAccessMeans` | daemon-old/src/fs.rs:941-947 | root is granted everything but execution without any execute bit |
| `Materialise.RootedMountAgreesWithStore` | daemon-old/src/mount_store.rs:77-135 | after rooting a mount at an insertable tree, whatever its names, a path without "." resolves exactly when it resolves in the stored trees, with the same kind, and for files and symlinks the same hash and byte size |
| `Materialise.InsertionCompletes` | daemon-old/src/mount_store.rs:103-131 | an insertion completes at some depth of its recursion exactly for the insertable trees, those in a ranked set of stored trees without dangling references and conflicts, and then it computes the specified mount |
| `Insertability.InsertableEnds` | daemon-old/src/mount_store.rs:103-131 | a tree is in such a ranked set exactly when the recursion over it ends without a failure |
| `Insertability.InsertableGrows` | daemon-old/src/mount_store.rs:103-131 | an insertable tree stays insertable whatever else is stored |
| `Insertability.BadEntryIsNotInsertable` | daemon-old/src/mount_store.rs:83-130 | a tree with a dangling reference, a conflict or itself as an entry is not insertable |
| `Failures.TreeWithDanglingFile` | daemon-old/src/mount_store.rs:83-86 | a run that stores a tree no insertion of which completes |
| `Failures.TreeNamingDot` | daemon-old/src/mount_store.rs:109-135 | a run that stores an insertable, not rootable tree with an entry "."; in a mount rooted at it the root is not its own "." (`Invariants.RootedDots` says when in general) |
| `Failures.TreeNamingDotDot` | daemon-old/src/mount_store.rs:109-135 | the same for an entry "..", which then is a directory in the root (`Invariants.RootedDots` says when in general) |
| `Materialise.InsertFrame` | daemon-old/src/mount_store.rs:103-135 | inserting a tree advances the inode counter by the number of entries of the unfolded tree, defines exactly the given inode and the counted ones, and leaves every other node and directory alone |
| `Invariants.TreeTwiceIsDisjoint` | daemon-old/src/mount_store.rs:103-135 | in a mount rooted at a stored tree, two paths to the same tree lead to directories without a common inode below them |
| `Materialise.InsertMirrors` | daemon-old/src/mount_store.rs:103-135 | every inode made by an insertion has the attributes, and for directories the entries, that its stored entry asks for |
| `MountStores.MountStore.InsertTree` | daemon-old/src/mount_store.rs:103-135 | the recursive loop over the mutable tables terminates and computes the specified insertion for every insertable tree, whatever else the store holds |
| `MountStores.MountStore.SetRootTree` | daemon-old/src/mount_store.rs:77-81 | re-rooting burns one inode and inserts the tree at the root |
| `Outcomes.RerootOutcome` | daemon-old/src/mount_store.rs:77-135 | re-rooting takes one inode and one for each entry of the unfolded tree, gives each the attributes of a fresh node of root, and leaves all others alone |
| `MountStores.MountStore.InsertFile` | daemon-old/src/mount_store.rs:83-91 | a file node gets the hash and the length of the stored content |
| `MountStores.MountStore.InsertSymlink` | daemon-old/src/mount_store.rs:93-101 | a symlink node gets the hash and the length of the stored target |
| `MountStores.MountStore.CreateNewNode` | daemon-old/src/mount_store.rs:137-142 | a new node takes the next inode and is entered with fresh attributes |
| `FileSystems.CultivateFS.Init` | daemon-old/src/fs.rs:144-154 | a mount without a root is rooted at the empty tree, any other is left alone |
| `Runs.ReachableStoreIsClosed` | daemon-old/src/store.rs:213-219 | while every tree was written after what it refers to, each stored tree refers to stored things only, and to trees first written before it, and can be inserted |
| `Runs.RunStaysClosed` | daemon-old/src/store.rs:213-219 | the stores of a run are closed up to some point exactly when no tree was written before with an improper name or a reference to something not stored |
| `Stores.WriteCloses` | daemon-old/src/store.rs:213-219 | a tree written to a closed store, new or not, leaves it closed exactly when the tree has proper names and refers to stored things only |
| `Insertability.ClosedIsInsertable` | daemon-old/src/mount_store.rs:103-131 | in a closed store every tree is insertable and properly named, by the order of first writes |
| `Stores.PutTreeKeeps` | daemon-old/src/store.rs:213-219 | writing a tree, whatever it refers to, rebinds no key; re-writing a stored tree changes nothing but the hash history |
| `Preimages.SchemesNeverClash` | daemon-old/src/service/backend.rs:112-145 | for contents shorter than 2^63 bytes, the content-hash stream of one content is never the protobuf encoding of another |
| `Preimages.ProtoPreimageInjective` | daemon-old/src/service/backend.rs:112-121 | different contents have different protobuf encodings |
| `Preimages.ContentPreimageInjective` | daemon-old/src/store.rs:116-127 | different contents have different content-hash streams |
| `Preimages.ContentPreimageIsStream` | daemon-old/src/store.rs:96-127 | the stream of a file or symlink is its 8-byte length and its bytes |
| `Stores.KeyDetermines` | daemon-old/src/service/backend.rs:112-145 | a key made by either scheme can only ever stand for one content |
| `Steps.StepKeepsStore` | daemon-old/src/service/backend.rs:112-164 | no request of any kind rebinds a key of files, symlinks or trees, or changes when a tree was first written |
| `Runs.WrittenStaysReadable` | daemon-old/src/service/backend.rs:112-154 | what was written under a replied key is found under it at every later point of a run that mixes both key schemes |
| `Stores.Store.WriteTree` | daemon-old/src/store.rs:213-219 | the writer binds the tree under the hash of its stream |
| `Stores.Store.WriteFile` | daemon-old/src/store.rs:226-232 | the writer binds the content under the hash of its stream |
| `Stores.Store.WriteSymlink` | daemon-old/src/store.rs:239-245 | the writer binds the target under the hash of its stream |
| `Stores.BackendService.WriteFile` | daemon-old/src/service/backend.rs:112-121 | the service binds the content under the hash of its encoded message |
| `Stores.BackendService.WriteSymlink` | daemon-old/src/service/backend.rs:133-145 | the service binds the target under the hash of its encoded message |
| `Stores.BackendService.WriteTree` | daemon-old/src/service/backend.rs:157-164 | the service stores the converted tree under its content hash |
| `Outcomes.StoreOutcome` | daemon-old/src/service/backend.rs:112-164 | each write is answered with the hash of the bytes of its scheme, binds the value under it, and changes nothing else |
| `Streams.TreePreimageIsStream` | daemon-old/src/store.rs:20-67 | the bytes hashed for a tree: the count in eight bytes, then for each entry the length and bytes of the name, a tag byte 0x30, 0x31 or 0x32, the length and bytes of the id, and for a file the executable byte |
| `Streams.ProtoPreimageIsMessage` | daemon-old/src/service/backend.rs:112-145 | the bytes hashed by the service: nothing for an empty content, otherwise 0x0A, the shortest varint of the length, and the content |
| `Stores.BackendService.ReadFile` | daemon-old/src/service/backend.rs:124-130 | a read finds exactly the stored content of a known 32-byte id |
| `Stores.BackendService.ReadSymlink` | daemon-old/src/service/backend.rs:148-154 | the same for the target of a symlink |
| `ContentHash.RoundTrip` | daemon-old/src/content_hash.rs:27-96 | at every type, a decoder recovers the value from its stream and leaves any following bytes |
| `ContentHash.UniquelyDecodable` | daemon-old/src/content_hash.rs:27-165 | at every type, equal streams with arbitrary continuations come from equal values and equal continuations |
| `Streams.ScalarStreams` | daemon-old/src/content_hash.rs:27-41 | the bytes of units, booleans and bytes, and of structs and enums from those of their fields |
| `Streams.I32Stream` | daemon-old/src/content_hash.rs:43-47 | a 32-bit integer is the four base-256 digits of its two's complement, lowest first |
| `Streams.I64Stream` | daemon-old/src/content_hash.rs:49-53 | a 64-bit integer is its eight digits |
| `Streams.SliceStreams` | daemon-old/src/content_hash.rs:56-82 | a slice is its length in eight digits and the streams of its elements in order |
| `Streams.KeyOrder` | daemon-old/src/content_hash.rs:98-124 | byte strings are ordered by their first difference, numbers as numbers, false before true |
| `Streams.CompoundOrder` | daemon-old/src/content_hash.rs:98-124 | structs, enums and slices are ordered by their first difference |
| `ContentHash.OptionsAreDecodable` | daemon-old/src/content_hash.rs:84-96 | the same for optional values of every type, with the tag bytes the code writes |
| `ContentHash.HashMapIsCanonical` | daemon-old/src/content_hash.rs:98-138 | every sorted rearrangement of every iteration order of a hash map gives the stream of the ordered map with the same contents |
| `ContentHash.HashSetIsCanonical` | daemon-old/src/content_hash.rs:114-124 | every sorted rearrangement of every iteration order of a hash set gives one stream |
| `ContentHash.MapStreamsAreInjective` | daemon-old/src/content_hash.rs:98-138 | maps with equal streams, even with continuations, are equal |
| `ContentHash.LeIsTotalOrder` | daemon-old/src/content_hash.rs:98-124 | the derived order of keys is total, so sorting distinct keys has one result |
| `ContentHash.Hasher.Update` | daemon-old/src/content_hash.rs:27-96 | the hasher is fed exactly the stream of the value |
| `ContentHash.Hasher.UpdateElements` | daemon-old/src/content_hash.rs:56-63 | the length prefix and the element loop feed the stream of the slice |
| `ContentHash.Hasher.UpdateHashMap` | daemon-old/src/content_hash.rs:98-112 | for any iteration order and any result of the unstable sort the hasher is fed the canonical stream |
| `ContentHash.Hasher.UpdateHashSet` | daemon-old/src/content_hash.rs:114-124 | the same for hash sets |
| `ContentHash.Hasher.UpdateBTreeMap` | daemon-old/src/content_hash.rs:126-138 | the ordered map feeds the canonical stream |
| `Trees.TreePreimageInjective` | daemon-old/src/store.rs:20-67 | different trees have different streams |
| `Trees.TreeIdsAreCanonical` | cli/src/backend.rs:308-360 | of all client trees of file, tree and symlink entries with 32-byte ids, exactly the equal ones reach the hash function as equal streams after client and daemon conversion |
| `Trees.TreeIdsIdentifyTrees` | daemon-old/src/store.rs:63-66 | without collisions among what was hashed, tree ids are equal exactly for equal client trees |
| `Trees.ClientSends` | cli/src/backend.rs:308-360 | a client sends one entry for each name, in byte order of the names, each as what it is |
| `Trees.DaemonTakes` | daemon-old/src/store.rs:80-161 | the daemon takes every entry of a message for what the message says |
| `Trees.DaemonStores` | daemon-old/src/store.rs:80-161 | the daemon stores for a client tree one entry for each name, of the client's kind and id, in byte order |
| `Ordering.LexByFirstDifference` | cli/src/backend.rs:308-317 | byte order is decided by the first difference, and a prefix comes first |
| `Trees.ClientRoundTrip` | cli/src/backend.rs:308-395 | a client tree without submodules survives conversion to its message and back, conflict entries included |
| `Trees.TreeFromProtoDomain` | daemon-old/src/store.rs:80-161 | the daemon accepts exactly messages whose values are present with 32-byte ids, and keeps names, ids, kinds and order |
| `Trees.ReadBack` | daemon-old/src/store.rs:41-78 | a stored tree can be read back exactly when it holds files only, and then the client gets its own tree |
| `Failures.SymlinkTreeIsNotReadBack` | daemon-old/src/store.rs:41-78 | a run in which a client writes a symlink and a tree of it, which is stored and cannot be read back |
| `Trees.ClientTreeToProto` | cli/src/backend.rs:308-317 | the loop builds the message of the tree in name order |
| `Trees.ClientTreeFromProto` | cli/src/backend.rs:368-375 | the loop sets the entries of the message one after the other |
| `Trees.DaemonTreeFromProto` | daemon-old/src/store.rs:151-161 | the loop builds the tree of the message in message order |
| `Histories.RunRefinesFlatFiles` | daemon-old/src/fs.rs:622-647 | between any two points of a run, the bytes behind a file become the overlay, in order, of the writes made to it in between |
| `Histories.StepRefinesFlatFiles` | daemon-old/src/fs.rs:622-647 | a write overlays its own file and no request changes the bytes of any other file, even of one that shared a hash |
| `Histories.NewFilesAreEmpty` | daemon-old/src/fs.rs:865-876 | a created file starts on a new inode without bytes |
| `Contents.WriteAtIsOverlay` | daemon-old/src/fs.rs:636-639 | a non-empty write is the zero-filled overlay at its offset; an empty write changes nothing |
| `Contents.SizeAfterWrite` | daemon-old/src/fs.rs:632-639 | new size and new content length agree exactly when the write is not an empty one past the end |
| `Failures.EmptyWritePastEnd` | daemon-old/src/fs.rs:601-651 | a run, ending in an empty write at offset 1 of a new file, after which the size is 1 and the content empty |
| `Histories.RunExtents` | daemon-old/src/fs.rs:632-639 | between any two points of a run, the size of a file becomes the end of its furthest write, and the length of its content the end of its furthest non-empty write |
| `Histories.ExtentIsLargest` | daemon-old/src/fs.rs:632-639 | these ends are largest: no write counted reaches further, and one reaches as far unless none reaches past the start |
| `FileSystems.CultivateFS.Write` | daemon-old/src/fs.rs:601-651 | the request has exactly the net effect and reply of the write step |
| `Outcomes.WriteOutcome` | daemon-old/src/fs.rs:601-651 | when a write is refused for its handle or its inode, and otherwise the bytes it stores under their content hash, the new size and hash, and nothing else |
| `Steps.StepKeepsBacked` | daemon-old/src/fs.rs:623-646 | hashes stay present in the right map; from exact file sizes, sizes are exact again exactly when the request is not an empty write past the end |
| `Runs.ReachableAttributesAgree` | daemon-old/src/fs.rs:623-646 | at every point of a run before any such write, hashes are present and sizes are the lengths of what they refer to, and nodes without a hash have size zero |
| `Contents.SetRootBacked` | daemon-old/src/mount_store.rs:83-101 | materialised nodes agree with the store in hash and size |
| `Reads.ReadFromStart` | daemon-old/src/fs.rs:551-563 | a read at offset 0 returns the prefix asked for exactly when the file is shorter than 2^32 bytes or the truncated length covers the size asked for |
| `Failures.ReadOfHugeFile` | daemon-old/src/fs.rs:559-563 | a run, ending in a write of one byte at offset 2^32 - 1, after which one byte asked of the start of the file gives none |
| `Reads.ReadPanics` | daemon-old/src/fs.rs:551-562 | a read of a file panics exactly when the node has no hash or the offset exceeds the truncated number of bytes left after it |
| `Histories.HashlessFiles` | daemon-old/src/fs.rs:551-646 | in every reachable state a file has no hash exactly when mknod made it and no write to it was carried out since |
| `Failures.ReadPanicsInRun` | daemon-old/src/fs.rs:551-562 | so a read of a file panics exactly when mknod made it and it was not written since, or the offset exceeds those bytes |
| `Failures.ReadOfNewFile` | daemon-old/src/fs.rs:551-552 | a run that makes and opens a file, after which reading it panics |
| `Reads.ReadYourWrite` | daemon-old/src/fs.rs:551-646 | what was written at the start of a file is read back |
| `Reads.SymlinkReadsBack` | daemon-old/src/fs.rs:653-724 | a new link reads back as its target and has its length as size |
| `Links.HashlessLinks` | daemon-old/src/fs.rs:680-724 | in every reachable state a symlink has no hash exactly when mknod made it or a refused symlink request left it behind |
| `Links.OrphansStayUnnamed` | daemon-old/src/fs.rs:680-713 | a link left behind by a refused request is named by no entry at any later point of the run |
| `Links.NamedLinksRead` | daemon-old/src/fs.rs:653-666 | reading a named link panics exactly when mknod made it, and otherwise gives a target of the length that is its size |
| `FileSystems.CultivateFS.Read` | daemon-old/src/fs.rs:530-567 | the reply, filled into a zeroed buffer, is the one of the read model, panics included |
| `Outcomes.ReadOutcome` | daemon-old/src/fs.rs:545-566 | a read is refused exactly when the handle lacks the read bit, or else the inode is missing |
| `Outcomes.ReadFills` | daemon-old/src/fs.rs:551-563 | at any offset, a read gives as many bytes as the file has after the offset, counted in 32 bits, and at most the size: zeros up to the offset, then the first bytes of the file; or it panics when the offset is beyond that number |
| `FileSystems.CultivateFS.ReadExact` | daemon-old/src/fs.rs:561-562 | the rest of the buffer is filled from the start of the file |
| `FileSystems.CultivateFS.Readlink` | daemon-old/src/fs.rs:653-666 | the reply is the stored target, an error, or a panic for a link without one |
| `Outcomes.ReadlinkOutcome` | daemon-old/src/fs.rs:653-666 | reading a link is refused exactly for a missing inode, and gives the stored target exactly when there is one |
| `Reads.ReadWholeDirectory` | daemon-old/src/fs.rs:350-385 | paging with the last returned cookie and any non-empty room per reply yields the listing in order and ends after at most one call more than there are entries |
| `Reads.ListingIsComplete` | daemon-old/src/fs.rs:350-385 | the listing has every entry exactly as stored, once, numbered by cookies |
| `Reads.ListingIsInOrder` | daemon-old/src/fs.rs:368-382 | the listing is in strictly ascending byte order of names |
| `Reads.FillReply` | daemon-old/src/fs.rs:368-382 | the loop with its early exit gives exactly as many entries as fit and are left after the offset, each as the directory has it, with the cookie of the position after it |
| `Reads.PageHolds` | daemon-old/src/fs.rs:368-382 | a page has exactly as many entries as fit and are left, taken from the listing one after the other |
| `FileSystems.CultivateFS.ListDirectory` | daemon-old/src/fs.rs:350-385 | a listing request replies with exactly the entries at its offset that fit, in name order, or not-found |
| `Runs.HandlesAreUnique` | daemon-old/src/fs.rs:70-81 | all handles of a run differ, even with the two permission bits masked |
| `Runs.HandlesCarryPermissions` | daemon-old/src/fs.rs:70-89 | a handle is a 64-bit word, and its two top bits pass the read and write checks exactly as the access mode says |
| `Outcomes.HandlesAreChecked` | daemon-old/src/fs.rs:83-89 | the handle of an open in a run is refused by a read exactly when the open was write-only, and by a write exactly when it was read-only |
| `Outcomes.OpenOutcome` | daemon-old/src/fs.rs:387-483 | when an open is answered permission-denied, invalid or not-found, and otherwise the handle, as a number, and the counts after it; the exec flag changes nothing |
| `Requests.HandleBits` | daemon-old/src/fs.rs:70-89 | from a handle made of a counter below 2^62 by setting top bits, the bits and the counter can be read back |
| `Words.TopBits` | daemon-old/src/fs.rs:70-89 | setting the two top bits of a 64-bit word below 2^62 adds their values and can be undone |
| `Runs.HandleCounter` | daemon-old/src/fs.rs:71-73 | the counter counts the opens, so it stays in range exactly in runs of fewer than 2^62 - 1 opens |
| `FileSystems.CultivateFS.Open` | daemon-old/src/fs.rs:433-483 | the request has exactly the net effect and reply of the open step |
| `FileSystems.CultivateFS.OpenDir` | daemon-old/src/fs.rs:387-431 | the request has exactly the net effect and reply of the opendir step |
| `FileSystems.CultivateFS.AllocateNextFileHandle` | daemon-old/src/fs.rs:70-81 | the handle is the counter with its permission bits set |
| `Histories.OpenCountsAreConserved` | daemon-old/src/fs.rs:406-427 | when each release matches an earlier open (and the root is not re-rooted), the open count is opens minus releases at every point and no release finds it at zero |
| `Histories.RunCounts` | daemon-old/src/fs.rs:569-599 | at every point of every run, re-rooting included, the open count of every inode is what the requests so far add up to |
| `Histories.StepCounts` | daemon-old/src/mount_store.rs:187-211 | no write-back of attributes fetched earlier loses an open or a release |
| `FileSystems.CultivateFS.Release` | daemon-old/src/fs.rs:584-599 | the request has exactly the net effect of the release step, with the guard at zero |
| `FileSystems.CultivateFS.ReleaseDir` | daemon-old/src/fs.rs:569-582 | the same for directories |
| `Outcomes.ReleaseOutcome` | daemon-old/src/fs.rs:569-599 | a release is always answered, takes one from a positive open count, and changes nothing else |
| `Runs.RunGrows` | daemon-old/src/service/backend.rs:112-164 | nothing stored at any point of a run is lost or rebound at a later one, whatever the interleaving of file system and service writes |
| `Runs.RunKeeps` | daemon-old/src/fs.rs:184-892 | as long as no two hashed byte strings collide, every state of a run from a good state is good: forest, store and attributes together |
| `Runs.RunGoesOn` | daemon-old/src/fs.rs:184-892 | no run is stuck: every allowed request goes on with it, unless it makes the hash function collide |
| `FileSystems.CultivateFS.Serve` | daemon-old/src/fs.rs:184-892 | in a good state every allowed request of the file system, and every write of the service on the same store, is served as its step |

## Left out

- Mount sessions, service transport, logging and the command line: input and output.
- Commits: written and read back as opaque messages.
- The hash function and the compression of file data: uninterpreted; stored data is bytes.
- Timestamps, extended attributes and block counts: no request decides anything on them.
- Rename flags: the exchange flag is not implemented, and the code ignores the others.
- `link`, `rmdir`, `setxattr`, `mknod` of a directory: not implemented in the source; `setattr` and `access` change nothing.
- What follows a panic: a run ends before a request that would panic.
- Snapshots, tree state and checkout state: field access only; file system edits never reach the tree id.
- Several mounts over one store: another mount's writes appear as `StoreFile` and `StoreSymlink` steps.
- Interleavings of threads inside one request.
- Materialise.InsertEntries: an earlier entry hidden by a later one of the same name leaves its inode unnamed; trees of
  clients have no such entries.
- ContentHash.HasType: hash maps and hash sets as keys of other maps, which have no order in the source either.
- UTF-8 validity of names and link targets: the code panics on targets that are not valid UTF-8.
- Wrap-around of the 64-bit inode counter.
