# Data structures and codecs of the bundled swagger-ui

The two swagger-ui bundles that this repository serves carry their own collections,
codecs and stream code. This project models that code in Dafny and proves what it is
for. Both bundles are minified onto their second line, so every source cell below names
that line; functions are found there by their names.

## What is modelled

**Collections.** `Map` is a hash trie of five node classes; `HashMaps` proves it a finite
map for every run, with colliding hashes. `OwnedMaps` models the same nodes as objects
that an owner edits in place, and proves that `withMutations` never changes anything the
original map shows when no two keys have the same hash. `CollisionNodes` is the collision node with its lazy index and
its entries as objects, `SharedEntries` what becomes of them in runs of edits. `List` is
a 32-way trie behind a window and a tail; `Lists`, `ListOps` and `ListRuns` prove it a
sequence of defined and undefined elements, and `ListIteration` that iteration shows it.
`OrderedMaps` joins the two.

**js-yaml.** `YamlQuoted` and `YamlScanner` hold the double-quoted printer and reader,
`YamlLoading` what a scalar means, item by item;
`Anchors` the undo log of speculative parsing.

**Bytes.** `Utf8`, `Base64`, `Base64Tables`, `StringDecoders`, `Utf8Chunks`, `StringDecoderObjects` and
`SignedInts` are the codecs of `Buffer`, base64-js and `StringDecoder`.

**Hashing.** `HashBlocks` is the block buffer of `Hash`; `Sha512Words`, `Sha512Constants`
and `Sha512` the block function of SHA-512 on 32-bit halves, against FIPS 180-4;
`Sha512Digests` puts them together.

**Streams.** `NextTicks` is the `process.nextTick` queue as a machine of events;
`BufferLists` and `Readables` the buffered data of a `Readable`.

Code that works in place (`setListBounds`, node updates under an owner, `StringDecoder`,
`Hash`, SHA-512, the queue, the linked list, the scanner, the buffer loops) is modelled by
classes, arrays and loops, and tied by its postconditions to functions about which the
laws are proved.

## Where the code falls short

Six promises fail in rare states; each has a concrete input and a theorem that says
exactly when the promise holds.

- `removeAfter` returns early when the new end equals `1 << level`, and an empty tail is
  not promoted. Elements cut off or set to `undefined` can come back on a later push:
  `ListRuns.StaleSteps`, `ListRuns.StalePush`. A push is right if and only if there is no
  such stale leaf: `ListOps.PushContents`.
- The same makes removed entries of an `OrderedMap` show up in its iteration:
  `OrderedMapStale.RemovedReappears`; agreement holds exactly as in `OrderedMapLaws.StepLaw`.
- `listNodeFor` computes `1 << level + 5` in 32 bits, so the front of a list that
  `unshift` raised to level 30 reads as `undefined`: `ListRuns.LongListLosesUnshift`, and
  exactly when in `ListOps.UnshiftExactly`. The guard that lowers the root,
  `v !== h >>> c & u`, stops at the first level with a common digit other than zero, so a
  window that moved far to the right can meet this sooner: `Lists.LowerStops`.
- New nodes may hold entries of old ones, and an owned `ValueNode` writes its entry in
  place, so a mutable copy can change a value in the original map when keys have the same
  hash: `SharedEntries.OriginalChanges`, `SharedEntries.LoneChanges`. For every run of
  edits at a hash, exactly when: `SharedEntries.SeenThroughout`. Without equal hashes it
  cannot happen: `OwnedMaps.WithMutations`.
- `StringDecoder` in UTF-16 can end a result in a lead surrogate:
  `StringDecoders.WriteEndsInLead`, and exactly when in `StringDecoders.WriteEnds`.
- `utf8ToBytes` forgets the last of two lead surrogates at the end of a string:
  `Utf8.TwoLeads`, and only there: `Utf8.AllWritten`.

## Conventions

Levels of the tries count base-32 digits: the code's `level` or `shift` divided by five.
`undefined` and `NOT_SET` are `None`. A key is its class under `is` together with its hash,
so equal keys have equal hashes; `hash` and `hashCollisionKey` are otherwise arbitrary.
Bytes and 16-bit units are natural numbers with a bound, 32- and 64-bit words of SHA-512
are bit vectors. Exceptions are error results. Timers, callbacks and arriving chunks are
events given from outside.

## Model

| member | source | states |
|---|---|---|
| `VNodes.UpdateAt` | src/main/resources/assets/swagger-ui/swagger-ui-dist/swagger-ui-standalone-preset.js:2 | `updateVNode` writes one index of the 32-way trie and leaves every other index under the same root as it was |
| `VNodes.RemoveBeforeAt` | src/main/resources/assets/swagger-ui/swagger-ui-dist/swagger-ui-standalone-preset.js:2 | `VNode.removeBefore`, with its early returns, keeps everything from the new start on |
| `VNodes.RemoveAfterAt` | src/main/resources/assets/swagger-ui/swagger-ui-dist/swagger-ui-standalone-preset.js:2 | `VNode.removeAfter`, with its early return at `1 << level`, keeps everything before the new end |
| `VNodes.PutLeafAt` | src/main/resources/assets/swagger-ui/swagger-ui-dist/swagger-ui-standalone-preset.js:2 | promoting the old tail into the root shows the tail in its block of 32 and changes no other index |
| `Lists.BoundsKeeps` | src/main/resources/assets/swagger-ui/swagger-ui-dist/swagger-ui-standalone-preset.js:2 | `setListBounds` with a start that does not move left keeps a valid list of the right size, and keeps every element of the new window if and only if no empty tail hides a stale leaf |
| `Lists.BoundsKeepsLeft` | src/main/resources/assets/swagger-ui/swagger-ui-dist/swagger-ui-standalone-preset.js:2 | `setListBounds` that moves the start left ends in a valid list that keeps every element exactly when the shift fits under level 25 |
| `Lists.BoundsDiffer` | src/main/resources/assets/swagger-ui/swagger-ui-dist/swagger-ui-standalone-preset.js:2 | where `setListBounds` changes an element at all, that element was `undefined` before |
| `ListOps.SetContents` | src/main/resources/assets/swagger-ui/swagger-ui-dist/swagger-ui-standalone-preset.js:2 | `set` at an existing index, also a negative one, replaces that element only |
| `ListOps.PushContents` | src/main/resources/assets/swagger-ui/swagger-ui-dist/swagger-ui-standalone-preset.js:2 | `push` appends its arguments to the contents if and only if no stale leaf lies behind an empty tail |
| `ListOps.PushOk` | src/main/resources/assets/swagger-ui/swagger-ui-dist/swagger-ui-standalone-preset.js:2 | `push` raises the range error exactly when the list would end past 2^30 |
| `ListOps.PopContents` | src/main/resources/assets/swagger-ui/swagger-ui-dist/swagger-ui-standalone-preset.js:2 | `pop` drops the last element, and nothing from an empty list |
| `ListOps.ShiftContents` | src/main/resources/assets/swagger-ui/swagger-ui-dist/swagger-ui-standalone-preset.js:2 | `shift` drops the first element, and nothing from an empty list |
| `ListOps.SliceContents` | src/main/resources/assets/swagger-ui/swagger-ui-dist/swagger-ui-standalone-preset.js:2 | `slice` between resolved ends shows exactly that part |
| `ListOps.UnshiftContents` | src/main/resources/assets/swagger-ui/swagger-ui-dist/swagger-ui-standalone-preset.js:2 | `unshift` of any number of arguments puts them in front of the contents, and leaves a list below level 30, if and only if they fit in the room on the left |
| `ListOps.UnshiftOk` | src/main/resources/assets/swagger-ui/swagger-ui-dist/swagger-ui-standalone-preset.js:2 | `unshift` raises it exactly when the list would start before -2^30 or hold more than 2^30 elements |
| `ListOps.UnshiftLost` | src/main/resources/assets/swagger-ui/swagger-ui-dist/swagger-ui-standalone-preset.js:2 | when they do not fit, the root is at level 30 and index 0 reads as `undefined` although the arguments are counted |
| `ListOps.UnshiftExactly` | src/main/resources/assets/swagger-ui/swagger-ui-dist/swagger-ui-standalone-preset.js:2 | the first of several defined arguments of `unshift` is read back at index 0 if and only if they all fit |
| `ListRuns.SetListBounds` | src/main/resources/assets/swagger-ui/swagger-ui-dist/swagger-ui-standalone-preset.js:2 | the loops of `setListBounds` (left growth, raising, promotion, trimming, lowering) compute the function that the list theorems are about, with the range error whose exact conditions are `ListOps.PushOk` and `ListOps.UnshiftOk` |
| `ListRuns.RaiseLeft` | src/main/resources/assets/swagger-ui/swagger-ui-dist/swagger-ui-standalone-preset.js:2 | the loop that raises the root leftwards |
| `ListRuns.RaiseRight` | src/main/resources/assets/swagger-ui/swagger-ui-dist/swagger-ui-standalone-preset.js:2 | the loop that raises the root rightwards |
| `ListRuns.LowerRoot` | src/main/resources/assets/swagger-ui/swagger-ui-dist/swagger-ui-standalone-preset.js:2 | the loop that lowers the root: `!==` binds tighter than `&`, so it compares one digit of the start with all remaining bits of the tail offset |
| `Lists.LowerStops` | src/main/resources/assets/swagger-ui/swagger-ui-dist/swagger-ui-standalone-preset.js:2 | and so it does not go on below a level at which the tail offset still has higher bits |
| `ListRuns.FindLeaf` | src/main/resources/assets/swagger-ui/swagger-ui-dist/swagger-ui-standalone-preset.js:2 | the descent of `listNodeFor` |
| `ListRuns.RunRefines` | src/main/resources/assets/swagger-ui/swagger-ui-dist/swagger-ui-standalone-preset.js:2 | every run of safe calls of `push` and `unshift` with any arguments, `pop`, `shift`, `slice`, and `set` at existing indices refines the same run on a sequence of defined and undefined elements |
| `ListRuns.StepLaw` | src/main/resources/assets/swagger-ui/swagger-ui-dist/swagger-ui-standalone-preset.js:2 | every call gives a list below level 30 with the contents of the same call on the sequence if and only if it is safe: within 2^30 places from -2^30 on, no stale leaf for `push`, room on the left for `unshift` |
| `ListRuns.DefinedRunIsSafe` | src/main/resources/assets/swagger-ui/swagger-ui-dist/swagger-ui-standalone-preset.js:2 | a run that writes defined values only is safe as soon as every call fits: no `push` meets a stale leaf |
| `ListRuns.RunGet` | src/main/resources/assets/swagger-ui/swagger-ui-dist/swagger-ui-standalone-preset.js:2 | after any such run from the empty list, `size` and `get` at every index, also negative and out of range, are those of the sequence |
| `ListRuns.StaleSteps` | src/main/resources/assets/swagger-ui/swagger-ui-dist/swagger-ui-standalone-preset.js:2 | four public calls that lead to a list with a stale leaf behind an empty tail |
| `ListRuns.StalePush` | src/main/resources/assets/swagger-ui/swagger-ui-dist/swagger-ui-standalone-preset.js:2 | after them a `push` brings the overwritten element back |
| `ListRuns.LongListLosesUnshift` | src/main/resources/assets/swagger-ui/swagger-ui-dist/swagger-ui-standalone-preset.js:2 | two public calls, `setSize` on the empty list and `unshift`, after which the new element cannot be read |
| `ListRuns.LongListIsMade` | src/main/resources/assets/swagger-ui/swagger-ui-dist/swagger-ui-standalone-preset.js:2 | the list of level 25 in it is what `setSize` makes of the empty list |
| `ListIteration.IterateList` | src/main/resources/assets/swagger-ui/swagger-ui-dist/swagger-ui-standalone-preset.js:2 | `iterateList`, in either direction, yields exactly the elements that `get` shows, in order, though it walks the nodes without `listNodeFor` |
| `ListIteration.IterateNode` | src/main/resources/assets/swagger-ui/swagger-ui-dist/swagger-ui-standalone-preset.js:2 | `iterateNode`: which children it visits between the two ends of the list, and what they yield |
| `ListIteration.IterateLeaf` | src/main/resources/assets/swagger-ui/swagger-ui-dist/swagger-ui-standalone-preset.js:2 | `iterateLeaf`, with the tail in place of the leaf at the tail offset |
| `ListIteration.Iterate` | src/main/resources/assets/swagger-ui/swagger-ui-dist/swagger-ui-standalone-preset.js:2 | `List.__iterate` calls its visitor with each element and its index, from either end |
| `Bitmaps.RankIsPopCount` | src/main/resources/assets/swagger-ui/swagger-ui-dist/swagger-ui-standalone-preset.js:2 | `popCount(bitmap & (1 << d) - 1)`, with its shifts, masks and sums of bit fields, is the number of occupied slots below `d` |
| `Bitmaps.PopCountIsBits` | src/main/resources/assets/swagger-ui/swagger-ui-dist/swagger-ui-standalone-preset.js:2 | `popCount` of a 32-bit word is its number of set bits |
| `TrieLaws.MergeLaw` | src/main/resources/assets/swagger-ui/swagger-ui-dist/swagger-ui-standalone-preset.js:2 | `mergeIntoNode` ends within seven levels for different hashes, and the node it returns finds the new entry and everything of the old leaf |
| `TrieNodes.SevenDigits` | src/main/resources/assets/swagger-ui/swagger-ui-dist/swagger-ui-standalone-preset.js:2 | two 32-bit hashes that still differ from level `k` on have `k` below seven |
| `TrieShapes.ReplaceShape` | src/main/resources/assets/swagger-ui/swagger-ui-dist/swagger-ui-standalone-preset.js:2 | every change of shape (expand to an array node at 17 children, pack below 8, collapse to a lone leaf, splice in and out) keeps the node well formed and gives each slot the child it must have |
| `TrieUpdate.UpdateLaw` | src/main/resources/assets/swagger-ui/swagger-ui-dist/swagger-ui-standalone-preset.js:2 | `update` at every node writes one key, keeps every other key, reports truthfully whether anything changed and whether a key came or went |
| `HashMaps.KeysLaw` | src/main/resources/assets/swagger-ui/swagger-ui-dist/swagger-ui-standalone-preset.js:2 | a key is stored somewhere below a node if and only if `get` finds it by its hash |
| `HashMaps.RootLaw` | src/main/resources/assets/swagger-ui/swagger-ui-dist/swagger-ui-standalone-preset.js:2 | the same law at the root, through `ArrayMapNode` and `createNodes` |
| `HashMaps.UpdateModel` | src/main/resources/assets/swagger-ui/swagger-ui-dist/swagger-ui-standalone-preset.js:2 | `updateMap` is the update of a finite map and keeps `size` exact, through all five node classes and for colliding hashes |
| `HashMaps.GetModel` | src/main/resources/assets/swagger-ui/swagger-ui-dist/swagger-ui-standalone-preset.js:2 | `get` is lookup in that finite map |
| `HashMaps.SizeModel` | src/main/resources/assets/swagger-ui/swagger-ui-dist/swagger-ui-standalone-preset.js:2 | `size` is the number of keys |
| `HashMaps.RunRefines` | src/main/resources/assets/swagger-ui/swagger-ui-dist/swagger-ui-standalone-preset.js:2 | every run of `set` and `remove` refines the same run on a finite map |
| `HashMaps.RunFromEmpty` | src/main/resources/assets/swagger-ui/swagger-ui-dist/swagger-ui-standalone-preset.js:2 | from the empty map, `get` gives the last value set and `size` the number of keys after every run |
| `OwnedShapes.ExpandNodes` | src/main/resources/assets/swagger-ui/swagger-ui-dist/swagger-ui-standalone-preset.js:2 | the loop of `expandNodes` spreads the children over 32 slots by the bits of the bitmap and counts them |
| `OwnedShapes.PackNodes` | src/main/resources/assets/swagger-ui/swagger-ui-dist/swagger-ui-standalone-preset.js:2 | the loop of `packNodes` gives the bitmap and the children of all slots but one |
| `OwnedTries.Merge` | src/main/resources/assets/swagger-ui/swagger-ui-dist/swagger-ui-standalone-preset.js:2 | `mergeIntoNode` on objects: new nodes around the old leaf, with the value of the pure merge |
| `OwnedTries.UpdateNode` | src/main/resources/assets/swagger-ui/swagger-ui-dist/swagger-ui-standalone-preset.js:2 | `update` on objects gives the value of the pure update and modifies only nodes whose `ownerID` is the given token |
| `OwnedTries.UpdateValue` | src/main/resources/assets/swagger-ui/swagger-ui-dist/swagger-ui-standalone-preset.js:2 | `ValueNode.update`, in place for its owner |
| `OwnedTries.UpdateBitmap` | src/main/resources/assets/swagger-ui/swagger-ui-dist/swagger-ui-standalone-preset.js:2 | `BitmapIndexedNode.update`: returning the node itself when the child came back the same is right, also when that child was edited in place |
| `OwnedTries.UpdateHashArray` | src/main/resources/assets/swagger-ui/swagger-ui-dist/swagger-ui-standalone-preset.js:2 | `HashArrayMapNode.update`, likewise |
| `OwnedTries.FinishBitmap` | src/main/resources/assets/swagger-ui/swagger-ui-dist/swagger-ui-standalone-preset.js:2 | the end of `BitmapIndexedNode.update`: which shape results, and whether in place |
| `OwnedTries.FinishHashArray` | src/main/resources/assets/swagger-ui/swagger-ui-dist/swagger-ui-standalone-preset.js:2 | the end of `HashArrayMapNode.update`, with its count and packing |
| `OwnedTries.GetNode` | src/main/resources/assets/swagger-ui/swagger-ui-dist/swagger-ui-standalone-preset.js:2 | `get` on objects |
| `OwnedMaps.UpdateArrayMap` | src/main/resources/assets/swagger-ui/swagger-ui-dist/swagger-ui-standalone-preset.js:2 | `ArrayMapNode.update` on objects: search, edit in place or on a copy, `createNodes` for the ninth key |
| `OwnedMaps.CreateNodesFor` | src/main/resources/assets/swagger-ui/swagger-ui-dist/swagger-ui-standalone-preset.js:2 | `createNodes`: repeated in-place updates of new nodes give the value of the pure function |
| `OwnedMaps.MapObject.UpdateMap` | src/main/resources/assets/swagger-ui/swagger-ui-dist/swagger-ui-standalone-preset.js:2 | `updateMap` on map objects: a map with an owner is edited and returned, any other is left as it was |
| `OwnedMaps.MapObject.Get` | src/main/resources/assets/swagger-ui/swagger-ui-dist/swagger-ui-standalone-preset.js:2 | `Map.get` on map objects |
| `OwnedMaps.AsMutable` | src/main/resources/assets/swagger-ui/swagger-ui-dist/swagger-ui-standalone-preset.js:2 | `asMutable`: the same root and contents for a new owner, with no node it may edit yet |
| `OwnedMaps.AsImmutable` | src/main/resources/assets/swagger-ui/swagger-ui-dist/swagger-ui-standalone-preset.js:2 | `__ensureOwner()`: the contents without an owner |
| `OwnedMaps.WithMutations` | src/main/resources/assets/swagger-ui/swagger-ui-dist/swagger-ui-standalone-preset.js:2 | `withMutations` on an immutable map whose keys have pairwise different hashes returns the run of the edits and modifies no object that existed before, so the contents seen through the original map stay |
| `OwnedMaps.ValidFor` | src/main/resources/assets/swagger-ui/swagger-ui-dist/swagger-ui-standalone-preset.js:2 | a tree without nodes of a token is a valid tree for that token |
| `CollisionNodes.CollisionNode.PositionOf` | src/main/resources/assets/swagger-ui/swagger-ui-dist/swagger-ui-standalone-preset.js:2 | `_positionOf` gives the position of the linear scan, with or without the index, building it or not |
| `CollisionNodes.CollisionNode.BuildIndex` | src/main/resources/assets/swagger-ui/swagger-ui-dist/swagger-ui-standalone-preset.js:2 | `_buildIndex` lists under each second hash exactly the positions of the entries that have it |
| `CollisionNodes.CollisionNode.Get` | src/main/resources/assets/swagger-ui/swagger-ui-dist/swagger-ui-standalone-preset.js:2 | `get` of a collision node is the linear lookup |
| `CollisionNodes.CollisionNode.Update` | src/main/resources/assets/swagger-ui/swagger-ui-dist/swagger-ui-standalone-preset.js:2 | `HashCollisionNode.update`, owned or not, with a value or a removal: the edited entries, which of them are new objects, the flags, an index that still agrees, and for a removal from two entries a `ValueNode` around the very entry that stays |
| `CollisionNodes.FiledIndexes` | src/main/resources/assets/swagger-ui/swagger-ui-dist/swagger-ui-standalone-preset.js:2 | filing one more entry under its second hash keeps the index exact |
| `CollisionNodes.FirstListed` | src/main/resources/assets/swagger-ui/swagger-ui-dist/swagger-ui-standalone-preset.js:2 | the first listed position with the key is the first position with the key |
| `CollisionNodes.ValueNode.Update` | src/main/resources/assets/swagger-ui/swagger-ui-dist/swagger-ui-standalone-preset.js:2 | `ValueNode.update`: its owner writes the value into the entry itself, and `mergeIntoNode` puts that entry into a collision node beside a key with the same hash |
| `SharedEntries.UpdateAt` | src/main/resources/assets/swagger-ui/swagger-ui-dist/swagger-ui-standalone-preset.js:2 | one update at a hash, with or without a node there: the new entries, which of them are still objects of the first node, and what the first node now shows |
| `SharedEntries.EditRun` | src/main/resources/assets/swagger-ui/swagger-ui-dist/swagger-ui-standalone-preset.js:2 | every run of edits for an owner at one hash, from a `ValueNode` or a collision node that is not its own (or from none), gives the right entries, and leaves the first node showing what `Seen` says |
| `SharedEntries.KeptIs` | src/main/resources/assets/swagger-ui/swagger-ui-dist/swagger-ui-standalone-preset.js:2 | up to the first write, the entries that are still objects of the first node are those that have been there all along, and the node is the owner's exactly if something has changed |
| `SharedEntries.SeenThroughout` | src/main/resources/assets/swagger-ui/swagger-ui-dist/swagger-ui-standalone-preset.js:2 | for every run, the first node shows what it did all the time if and only if no edit gives another value to the only entry left while that entry has been there all along and something else has changed before |
| `SharedEntries.SeenIs` | src/main/resources/assets/swagger-ui/swagger-ui-dist/swagger-ui-standalone-preset.js:2 | after every run the first node differs in one entry at most, which shows what was written last |
| `SharedEntries.SeenAtEnd` | src/main/resources/assets/swagger-ui/swagger-ui-dist/swagger-ui-standalone-preset.js:2 | so at the end it shows what it did if and only if nothing was written or the last value written is the old one |
| `SharedEntries.TwoEdits` | src/main/resources/assets/swagger-ui/swagger-ui-dist/swagger-ui-standalone-preset.js:2 | two edits that start from several entries write exactly when the first leaves one of two entries and the second gives it another value |
| `SharedEntries.OriginalChanges` | src/main/resources/assets/swagger-ui/swagger-ui-dist/swagger-ui-standalone-preset.js:2 | a collision node made by two immutable `set` calls: for an owner, a removal and a `set` change what it shows |
| `SharedEntries.LoneChanges` | src/main/resources/assets/swagger-ui/swagger-ui-dist/swagger-ui-standalone-preset.js:2 | a `ValueNode` made by one immutable `set`: for an owner, another key with its hash comes and goes, and a `set` then changes what it shows |
| `OrderedMapLaws.SetLive` | src/main/resources/assets/swagger-ui/swagger-ui-dist/swagger-ui-standalone-preset.js:2 | setting a live key keeps its place in the iteration and the index map |
| `OrderedMapLaws.SetNew` | src/main/resources/assets/swagger-ui/swagger-ui-dist/swagger-ui-standalone-preset.js:2 | setting a new key appends it; index map and list then agree if and only if the push shows no stale leaf |
| `OrderedMapLaws.SetOk` | src/main/resources/assets/swagger-ui/swagger-ui-dist/swagger-ui-standalone-preset.js:2 | `set` raises the range error only for a new key, when the list already ends at 2^30 |
| `OrderedMapLaws.RemoveInPlace` | src/main/resources/assets/swagger-ui/swagger-ui-dist/swagger-ui-standalone-preset.js:2 | removing without compaction deletes one entry from the iteration and keeps agreement |
| `OrderedMapLaws.RemoveCompact` | src/main/resources/assets/swagger-ui/swagger-ui-dist/swagger-ui-standalone-preset.js:2 | removing with compaction does the same and leaves no hole |
| `OrderedMapLaws.RemoveOk` | src/main/resources/assets/swagger-ui/swagger-ui-dist/swagger-ui-standalone-preset.js:2 | `remove` never raises it, not even when it compacts |
| `OrderedMapLaws.StepLaw` | src/main/resources/assets/swagger-ui/swagger-ui-dist/swagger-ui-standalone-preset.js:2 | every call within bounds keeps agreement exactly when it is safe, gives insertion order, and leaves at most max(31, size + 1) holes |
| `OrderedMapLaws.RunLaw` | src/main/resources/assets/swagger-ui/swagger-ui-dist/swagger-ui-standalone-preset.js:2 | every run of safe calls iterates in insertion order with both parts in agreement and few holes |
| `OrderedMapLaws.GetEntry` | src/main/resources/assets/swagger-ui/swagger-ui-dist/swagger-ui-standalone-preset.js:2 | `get` finds a value if and only if iteration shows the entry |
| `OrderedMapIteration.Iterate` | src/main/resources/assets/swagger-ui/swagger-ui-dist/swagger-ui-standalone-preset.js:2 | `OrderedMap.__iterate` shows the entries in insertion order, or backwards, without the holes |
| `OrderedMapStale.RemovedReappears` | src/main/resources/assets/swagger-ui/swagger-ui-dist/swagger-ui-standalone-preset.js:2 | a run of 65 sets and 33 removals after which setting one more key makes a removed entry show in the iteration while `get` does not find it |
| `ListStale.PopCleared` | src/main/resources/assets/swagger-ui/swagger-ui-dist/swagger-ui-standalone-preset.js:2 | the step of that run in which `pop` leaves a leaf both in the tail and in the root |
| `ListStale.PushShows` | src/main/resources/assets/swagger-ui/swagger-ui-dist/swagger-ui-standalone-preset.js:2 | the step in which a push shows the leaf again |
| `Utf8.WriteUtf8` | src/main/resources/assets/swagger-ui/swagger-ui-dist/swagger-ui-standalone-preset.js:2 | the loop of `utf8ToBytes` with its pending lead surrogate and its byte budget |
| `Utf8.ReadUtf8` | src/main/resources/assets/swagger-ui/swagger-ui-dist/swagger-ui-standalone-preset.js:2 | the loop of `utf8Slice` |
| `Utf8.BytesOfScalars` | src/main/resources/assets/swagger-ui/swagger-ui-dist/swagger-ui-standalone-preset.js:2 | for well-formed UTF-16 `utf8ToBytes` writes the encoding of each code point of section 3 of RFC 3629 |
| `Utf8.EncodeTable` | src/main/resources/assets/swagger-ui/swagger-ui-dist/swagger-ui-standalone-preset.js:2 | the bytes of each code point are those of the table in section 3 of RFC 3629: how many, their high bits, and the bits of the code point in the rest |
| `Utf8.AnyBytes` | src/main/resources/assets/swagger-ui/swagger-ui-dist/swagger-ui-standalone-preset.js:2 | for any string and any limit, ill-formed ones included: the longest prefix that fits of its code points, with U+FFFD for every surrogate without a partner, but without the last of two lead surrogates at the end |
| `Utf8.AllWritten` | src/main/resources/assets/swagger-ui/swagger-ui-dist/swagger-ui-standalone-preset.js:2 | so every unpaired surrogate is written as U+FFFD if and only if the string does not end in two lead surrogates |
| `Utf8.TwoLeads` | src/main/resources/assets/swagger-ui/swagger-ui-dist/swagger-ui-standalone-preset.js:2 | of two lead surrogates alone one is forgotten |
| `Utf8.LimitedBytes` | src/main/resources/assets/swagger-ui/swagger-ui-dist/swagger-ui-standalone-preset.js:2 | with a positive byte limit it writes the longest prefix of whole code points that fits |
| `Utf8.RoundTrip` | src/main/resources/assets/swagger-ui/swagger-ui-dist/swagger-ui-standalone-preset.js:2 | `utf8Slice(utf8ToBytes(s))` is `s` for every well-formed `s` |
| `Utf8.DecodeWellFormed` | src/main/resources/assets/swagger-ui/swagger-ui-dist/swagger-ui-standalone-preset.js:2 | `utf8Slice` of any bytes is well-formed UTF-16 |
| `Utf8.DecodeLaw` | src/main/resources/assets/swagger-ui/swagger-ui-dist/swagger-ui-standalone-preset.js:2 | for any bytes: a code point whose encoding stands at the front is read, and where none does exactly one byte becomes U+FFFD |
| `Utf8.DecodeAllEncoded` | src/main/resources/assets/swagger-ui/swagger-ui-dist/swagger-ui-standalone-preset.js:2 | encoded code points decode to themselves whatever follows |
| `Base64.FromByteArray` | src/main/resources/assets/swagger-ui/swagger-ui-dist/swagger-ui-standalone-preset.js:2 | `fromByteArray` with its chunks of 16383 bytes is the text of the whole (section 4 of RFC 4648) |
| `Base64.EncodeChunk` | src/main/resources/assets/swagger-ui/swagger-ui-dist/swagger-ui-standalone-preset.js:2 | `encodeChunk` over one chunk |
| `Base64.FromBytesConcat` | src/main/resources/assets/swagger-ui/swagger-ui-dist/swagger-ui-standalone-preset.js:2 | text of a whole number of groups comes apart from what follows |
| `Base64.ToBytesOf` | src/main/resources/assets/swagger-ui/swagger-ui-dist/swagger-ui-standalone-preset.js:2 | `toByteArray` reads padded text, in either spelling of its symbols, as the bytes it was made from |
| `Base64.RoundTrip` | src/main/resources/assets/swagger-ui/swagger-ui-dist/swagger-ui-standalone-preset.js:2 | `toByteArray(fromByteArray(b))` is `b` for all bytes |
| `Base64.UrlRoundTrip` | src/main/resources/assets/swagger-ui/swagger-ui-dist/swagger-ui-es-bundle-core.js:2 | `base64ToBytes` recovers `b` from the unpadded URL-safe text of `b64toB64UrlEncoded` (section 5 of RFC 4648) |
| `Base64Tables.TableText` | src/main/resources/assets/swagger-ui/swagger-ui-dist/swagger-ui-standalone-preset.js:2 | character `i` of the text of any bytes is entry `v` of table 1 of RFC 4648, where `v` is the i-th group of six bits, and then comes the padding |
| `Base64Tables.TableUrl` | src/main/resources/assets/swagger-ui/swagger-ui-dist/swagger-ui-es-bundle-core.js:2 | likewise for `b64toB64UrlEncoded` with table 2, without padding |
| `Base64Tables.UrlTextIsSafe` | src/main/resources/assets/swagger-ui/swagger-ui-dist/swagger-ui-es-bundle-core.js:2 | its characters are letters, digits, `-` and `_` |
| `Base64Tables.AllowedTable` | src/main/resources/assets/swagger-ui/swagger-ui-dist/swagger-ui-es-bundle-core.js:2 | `base64clean` keeps exactly the characters of the two tables |
| `Base64Tables.RevTable` | src/main/resources/assets/swagger-ui/swagger-ui-dist/swagger-ui-es-bundle-core.js:2 | entry `v` of either table is read back as `v` |
| `Base64Tables.Noise` | src/main/resources/assets/swagger-ui/swagger-ui-dist/swagger-ui-es-bundle-core.js:2 | any other character changes nothing in what `base64ToBytes` reads, and nothing counts after `=` |
| `Base64Tables.AnyText` | src/main/resources/assets/swagger-ui/swagger-ui-dist/swagger-ui-es-bundle-core.js:2 | `base64ToBytes` of any text at all gives the whole bytes of the bits of its symbols |
| `Base64Tables.LengthError` | src/main/resources/assets/swagger-ui/swagger-ui-dist/swagger-ui-standalone-preset.js:2 | `toByteArray` reports a length that is no multiple of four, and only that |
| `Base64Tables.FourPads` | src/main/resources/assets/swagger-ui/swagger-ui-dist/swagger-ui-standalone-preset.js:2 | what it makes of four pads after whole groups: a size error, or two zeros for the last group |
| `StringDecoders.ChunksDoNotMatter` | src/main/resources/assets/swagger-ui/swagger-ui-dist/swagger-ui-es-bundle-core.js:2 | UTF-16 and base64: for any bytes and any split, the results of `write` and `end` concatenate to the text of the whole |
| `Utf8Chunks.ChunksDoNotMatter` | src/main/resources/assets/swagger-ui/swagger-ui-dist/swagger-ui-es-bundle-core.js:2 | UTF-8: the same for all valid bytes, cut anywhere |
| `Utf8Chunks.TruncatedChunks` | src/main/resources/assets/swagger-ui/swagger-ui-dist/swagger-ui-es-bundle-core.js:2 | UTF-8 that stops inside a character gives the text before it and one U+FFFD, cut anywhere |
| `Utf8Chunks.CutOff` | src/main/resources/assets/swagger-ui/swagger-ui-dist/swagger-ui-es-bundle-core.js:2 | a character cut off by another one, after some of its bytes in one chunk and perhaps more in the next, gives one U+FFFD, and the text goes on |
| `Utf8Chunks.StrayByte` | src/main/resources/assets/swagger-ui/swagger-ui-dist/swagger-ui-es-bundle-core.js:2 | a byte that cannot start a character is not held back and gives one U+FFFD at once |
| `StringDecoders.WriteHolds` | src/main/resources/assets/swagger-ui/swagger-ui-dist/swagger-ui-es-bundle-core.js:2 | one `write` leaves exactly the bytes of an unfinished unit in `lastChar` |
| `StringDecoders.UnitAt` | src/main/resources/assets/swagger-ui/swagger-ui-dist/swagger-ui-es-bundle-core.js:2 | unit `i` of UTF-16 text is byte `2i` plus 256 times byte `2i + 1` |
| `StringDecoders.WriteGives` | src/main/resources/assets/swagger-ui/swagger-ui-dist/swagger-ui-es-bundle-core.js:2 | what one `write` of UTF-16 returns, for any state and any chunk |
| `StringDecoders.WriteEnds` | src/main/resources/assets/swagger-ui/swagger-ui-dist/swagger-ui-es-bundle-core.js:2 | where no two lead surrogates follow each other, a result of `write` ends in one if and only if the chunk stops inside the next unit or brings nothing beyond the unit that waited |
| `StringDecoders.WriteEndsInLead` | src/main/resources/assets/swagger-ui/swagger-ui-dist/swagger-ui-es-bundle-core.js:2 | a chunk of three bytes after which it does |
| `Utf8Chunks.WriteMid` | src/main/resources/assets/swagger-ui/swagger-ui-dist/swagger-ui-es-bundle-core.js:2 | one `write` on valid UTF-8 that starts and ends inside characters |
| `StringDecoderObjects.StringDecoder.Write` | src/main/resources/assets/swagger-ui/swagger-ui-dist/swagger-ui-es-bundle-core.js:2 | `write` on `lastNeed`, `lastTotal` and `lastChar` |
| `StringDecoderObjects.StringDecoder.End` | src/main/resources/assets/swagger-ui/swagger-ui-dist/swagger-ui-es-bundle-core.js:2 | `end` on the same fields |
| `StringDecoderObjects.StringDecoder.Fill` | src/main/resources/assets/swagger-ui/swagger-ui-dist/swagger-ui-es-bundle-core.js:2 | the `fillLast` methods |
| `StringDecoderObjects.DecodeChunks` | src/main/resources/assets/swagger-ui/swagger-ui-dist/swagger-ui-es-bundle-core.js:2 | a decoder object fed chunk by chunk yields the text of the whole, and in UTF-16 unit `i` is made of bytes `2i` and `2i + 1`, low byte first |
| `HashBlocks.Hash.Update` | src/main/resources/assets/swagger-ui/swagger-ui-dist/swagger-ui-es-bundle-core.js:2 | `Hash.update`: each block goes to `_update` when it is full, so the whole blocks of the message so far are compressed and the rest is buffered |
| `HashBlocks.Hash.Feed` | src/main/resources/assets/swagger-ui/swagger-ui-dist/swagger-ui-es-bundle-core.js:2 | one call of `_update`: the subclass has compressed all blocks it was handed, in order |
| `HashBlocks.Hash.Digest` | src/main/resources/assets/swagger-ui/swagger-ui-dist/swagger-ui-es-bundle-core.js:2 | `Hash.digest`: all blocks given to `_update`, and compressed by it, are those of the padded message of section 5.1.1 or 5.1.2 of FIPS 180-4, for messages under 2^53 bits |
| `HashBlocks.Hash.PadEnd` | src/main/resources/assets/swagger-ui/swagger-ui-dist/swagger-ui-es-bundle-core.js:2 | the bit 1, the zeros after it, and the extra block when the length does not fit |
| `HashBlocks.Hash.WriteLength` | src/main/resources/assets/swagger-ui/swagger-ui-dist/swagger-ui-es-bundle-core.js:2 | the length in bits, as one or two 32-bit words |
| `HashBlocks.Fill` | src/main/resources/assets/swagger-ui/swagger-ui-dist/swagger-ui-es-bundle-core.js:2 | bytes up to the end of a block keep the buffering invariant |
| `HashBlocks.PaddedBlocks` | src/main/resources/assets/swagger-ui/swagger-ui-dist/swagger-ui-es-bundle-core.js:2 | the last one or two blocks complete the padded message |
| `HashBlocks.PaddedParts` | src/main/resources/assets/swagger-ui/swagger-ui-dist/swagger-ui-es-bundle-core.js:2 | the padded message is the message, the byte 0x80, zeros and the number of bits in the last eighth of a block, and no shorter text of whole blocks holds them |
| `Sha512Words.Sigma0Halves` | src/main/resources/assets/swagger-ui/swagger-ui-dist/swagger-ui-es-bundle-core.js:2 | `sigma0` on the two halves is the function of section 4.1.3 of FIPS 180-4 |
| `Sha512Words.Sigma1Halves` | src/main/resources/assets/swagger-ui/swagger-ui-dist/swagger-ui-es-bundle-core.js:2 | `sigma1`, likewise |
| `Sha512Words.Gamma0Halves` | src/main/resources/assets/swagger-ui/swagger-ui-dist/swagger-ui-es-bundle-core.js:2 | `Gamma0` and `Gamma0l`, likewise |
| `Sha512Words.Gamma1Halves` | src/main/resources/assets/swagger-ui/swagger-ui-dist/swagger-ui-es-bundle-core.js:2 | `Gamma1` and `Gamma1l`, likewise |
| `Sha512Words.ChHalves` | src/main/resources/assets/swagger-ui/swagger-ui-dist/swagger-ui-es-bundle-core.js:2 | `Ch` on halves is the choice function of the standard |
| `Sha512Words.MajHalves` | src/main/resources/assets/swagger-ui/swagger-ui-dist/swagger-ui-es-bundle-core.js:2 | `maj` on halves is the majority function of the standard |
| `Sha512Words.Sum` | src/main/resources/assets/swagger-ui/swagger-ui-dist/swagger-ui-es-bundle-core.js:2 | adding halves with `getCarry` on the second summand is addition modulo 2^64 |
| `Sha512Words.SumFirst` | src/main/resources/assets/swagger-ui/swagger-ui-dist/swagger-ui-es-bundle-core.js:2 | the same with `getCarry` on the first summand |
| `Sha512Constants.InitialRoots` | src/main/resources/assets/swagger-ui/swagger-ui-dist/swagger-ui-es-bundle-core.js:2 | the initial halves are the first 64 bits of the fractions of square roots of the first eight primes |
| `Sha512Constants.RoundConstants` | src/main/resources/assets/swagger-ui/swagger-ui-dist/swagger-ui-es-bundle-core.js:2 | round constant `t` of the table of 160 halves is the first 64 bits of the fraction of the cube root of prime number `t` (section 4.2.3 of FIPS 180-4) |
| `Sha512.Sha512.Fill` | src/main/resources/assets/swagger-ui/swagger-ui-dist/swagger-ui-es-bundle-core.js:2 | the loops that fill the 160 halves compute the message schedule |
| `Sha512.FirstSum` | src/main/resources/assets/swagger-ui/swagger-ui-dist/swagger-ui-es-bundle-core.js:2 | the first sum of a round on halves |
| `Sha512.SecondSum` | src/main/resources/assets/swagger-ui/swagger-ui-dist/swagger-ui-es-bundle-core.js:2 | the second sum of a round on halves |
| `Sha512.Sha512.RunRounds` | src/main/resources/assets/swagger-ui/swagger-ui-dist/swagger-ui-es-bundle-core.js:2 | the 80 rounds on 16 halves are the 80 rounds on eight words |
| `Sha512.Sha512.Update` | src/main/resources/assets/swagger-ui/swagger-ui-dist/swagger-ui-es-bundle-core.js:2 | `_update` is the compression of section 6.4.2 of FIPS 180-4 modulo 2^64 |
| `Sha512.Sha512.Bytes` | src/main/resources/assets/swagger-ui/swagger-ui-dist/swagger-ui-es-bundle-core.js:2 | `_hash` writes the eight words most significant byte first |
| `Sha512Digests.DigestChunks` | src/main/resources/assets/swagger-ui/swagger-ui-dist/swagger-ui-es-bundle-core.js:2 | a `Hash` over a `Sha512`, fed any chunks and compressing each block as it fills, ends with the SHA-512 digest of the concatenated message |
| `YamlQuoted.EscapeString` | src/main/resources/assets/swagger-ui/swagger-ui-dist/swagger-ui-standalone-preset.js:2 | the loop of `escapeString` |
| `YamlQuoted.QuotedRoundTrip` | src/main/resources/assets/swagger-ui/swagger-ui-dist/swagger-ui-standalone-preset.js:2 | for every sequence of 16-bit units, lone surrogates included, the quoted output of `escapeString` is read back as that sequence, and the scalar ends just past the closing quote (sections 5.7 and 7.3.1 of YAML 1.2.2) |
| `YamlQuoted.NoControls` | src/main/resources/assets/swagger-ui/swagger-ui-dist/swagger-ui-standalone-preset.js:2 | `escapeString` writes no control character, so the null-byte check of the loader never fires on it |
| `YamlQuoted.SkipTakesAll` | src/main/resources/assets/swagger-ui/swagger-ui-dist/swagger-ui-standalone-preset.js:2 | `skipSeparationSpace` takes all blanks, line breaks and allowed comments, counts the line breaks (CR LF once) and finds the last line |
| `YamlQuoted.SkipLine` | src/main/resources/assets/swagger-ui/swagger-ui-dist/swagger-ui-standalone-preset.js:2 | and what it says of the last line: the spaces at its start and its first tab |
| `YamlQuoted.HexBack` | src/main/resources/assets/swagger-ui/swagger-ui-dist/swagger-ui-standalone-preset.js:2 | padded upper-case hexadecimal digits are read back as the number |
| `YamlScanner.Scanner.SkipSeparationSpace` | src/main/resources/assets/swagger-ui/swagger-ui-dist/swagger-ui-standalone-preset.js:2 | `skipSeparationSpace` on the state, with its comments, its line count and its warning about deficient indentation |
| `YamlScanner.Scanner.CaptureSegment` | src/main/resources/assets/swagger-ui/swagger-ui-dist/swagger-ui-standalone-preset.js:2 | `captureSegment` with its check for JSON characters |
| `YamlScanner.Scanner.ReadEscape` | src/main/resources/assets/swagger-ui/swagger-ui-dist/swagger-ui-standalone-preset.js:2 | the escapes after a backslash: line breaks, simple ones, hexadecimal ones with 32-bit shifts, and errors |
| `YamlScanner.Scanner.ReadDoubleQuotedScalar` | src/main/resources/assets/swagger-ui/swagger-ui-dist/swagger-ui-standalone-preset.js:2 | `readDoubleQuotedScalar` with segments and trimming gives the text of a scan unit by unit: folding, escapes, the document separator and every error |
| `YamlScanner.DumpAndLoad` | src/main/resources/assets/swagger-ui/swagger-ui-dist/swagger-ui-standalone-preset.js:2 | dumping and loading a text anywhere in a line gives the text and the position past the quote |
| `YamlLoading.LoadsItems` | src/main/resources/assets/swagger-ui/swagger-ui-dist/swagger-ui-standalone-preset.js:2 | any scalar made of units, blanks, escapes, codes, folded line breaks and escaped line breaks loads as what they mean: one line break is a space, of `n` all but one stay, an escaped one is nothing, a code above FFFF is its surrogate pair (sections 5.7, 6.5 and 7.3.1 of YAML 1.2.2) |
| `YamlLoading.LoadItems` | src/main/resources/assets/swagger-ui/swagger-ui-dist/swagger-ui-standalone-preset.js:2 | the same of `readDoubleQuotedScalar` on the scanner |
| `YamlLoading.Faults` | src/main/resources/assets/swagger-ui/swagger-ui-dist/swagger-ui-standalone-preset.js:2 | after any items, no closing quote, an unknown escape, a bad digit or a control character gives its own error |
| `YamlLoading.MarkerFault` | src/main/resources/assets/swagger-ui/swagger-ui-dist/swagger-ui-standalone-preset.js:2 | so does a document marker at the start of a line inside the scalar |
| `YamlLoading.WritesRaw` | src/main/resources/assets/swagger-ui/swagger-ui-dist/swagger-ui-standalone-preset.js:2 | `escapeString` writes a code point as it is exactly when it is printable (section 5.1), no byte order mark, and has no escape of one unit |
| `YamlLoading.WritesEscape` | src/main/resources/assets/swagger-ui/swagger-ui-dist/swagger-ui-standalone-preset.js:2 | otherwise it writes that escape, or else the number |
| `YamlLoading.WritesNumber` | src/main/resources/assets/swagger-ui/swagger-ui-dist/swagger-ui-standalone-preset.js:2 | the number in upper-case digits: two, four or eight, as few as will do |
| `Anchors.AnchorMap.Store` | src/main/resources/assets/swagger-ui/swagger-ui-dist/swagger-ui-standalone-preset.js:2 | `storeAnchor` keeps every open log able to undo |
| `Anchors.AnchorMap.Begin` | src/main/resources/assets/swagger-ui/swagger-ui-dist/swagger-ui-standalone-preset.js:2 | `beginAnchorTransaction` |
| `Anchors.AnchorMap.Commit` | src/main/resources/assets/swagger-ui/swagger-ui-dist/swagger-ui-standalone-preset.js:2 | `commitAnchorTransaction` keeps the anchors and the outer logs able to undo |
| `Anchors.AnchorMap.Rollback` | src/main/resources/assets/swagger-ui/swagger-ui-dist/swagger-ui-standalone-preset.js:2 | `rollbackAnchorTransaction` restores the anchor map of the matching begin, whatever was committed or rolled back inside |
| `Anchors.UndoMerged` | src/main/resources/assets/swagger-ui/swagger-ui-dist/swagger-ui-standalone-preset.js:2 | the merged log of a committed attempt undoes both levels |
| `Anchors.Run` | src/main/resources/assets/swagger-ui/swagger-ui-dist/swagger-ui-standalone-preset.js:2 | every nesting of stores and attempts has the meaning of copying the map and going back to the copy |
| `NextTicks.Ticker.NextTick` | src/main/resources/assets/swagger-ui/swagger-ui-dist/swagger-ui-es-bundle-core.js:2 | `nextTick` enqueues, and sets a timer when it must |
| `NextTicks.Ticker.FireDrainQueue` | src/main/resources/assets/swagger-ui/swagger-ui-dist/swagger-ui-es-bundle-core.js:2 | a `drainQueue` timer starts the next callback that waits |
| `NextTicks.Ticker.FireCleanUp` | src/main/resources/assets/swagger-ui/swagger-ui-dist/swagger-ui-es-bundle-core.js:2 | `cleanUpNextTick` after a throw goes on with the next callback that waits |
| `NextTicks.Ticker.Return` | src/main/resources/assets/swagger-ui/swagger-ui-dist/swagger-ui-es-bundle-core.js:2 | when a callback returns the next one starts, or the drain ends and clears its timer |
| `NextTicks.Ticker.Throw` | src/main/resources/assets/swagger-ui/swagger-ui-dist/swagger-ui-es-bundle-core.js:2 | a callback that throws leaves a state from which nothing is lost |
| `NextTicks.Ticker.Loop` | src/main/resources/assets/swagger-ui/swagger-ui-dist/swagger-ui-es-bundle-core.js:2 | the two loops of `drainQueue` |
| `NextTicks.SomethingPending` | src/main/resources/assets/swagger-ui/swagger-ui-dist/swagger-ui-es-bundle-core.js:2 | while a callback waits, a drain is running or a timer that will start it is pending |
| `NextTicks.Run` | src/main/resources/assets/swagger-ui/swagger-ui-dist/swagger-ui-es-bundle-core.js:2 | for every sequence of events, what has started and what waits is what was enqueued, in order and each once, and when nothing runs or is pending all has started |
| `SignedInts.WriteIntLE` | src/main/resources/assets/swagger-ui/swagger-ui-dist/swagger-ui-es-bundle-core.js:2 | `writeIntLE` with its truncating division and sticky borrow writes the two's complement bytes, or reports the range error and changes nothing |
| `SignedInts.WriteIntBE` | src/main/resources/assets/swagger-ui/swagger-ui-dist/swagger-ui-es-bundle-core.js:2 | `writeIntBE`, likewise in the other order |
| `SignedInts.ReadIntLE` | src/main/resources/assets/swagger-ui/swagger-ui-dist/swagger-ui-es-bundle-core.js:2 | `readIntLE` reads the number the bytes stand for, or reports the range error |
| `SignedInts.ReadIntBE` | src/main/resources/assets/swagger-ui/swagger-ui-dist/swagger-ui-es-bundle-core.js:2 | `readIntBE`, likewise |
| `SignedInts.StoredByte` | src/main/resources/assets/swagger-ui/swagger-ui-dist/swagger-ui-es-bundle-core.js:2 | truncated quotient minus borrow is the byte of the floored quotient, and `|0` changes nothing |
| `SignedInts.RoundTrip` | src/main/resources/assets/swagger-ui/swagger-ui-dist/swagger-ui-es-bundle-core.js:2 | every number in range is the number its bytes stand for |
| `SignedInts.InRangeExactly` | src/main/resources/assets/swagger-ui/swagger-ui-dist/swagger-ui-es-bundle-core.js:2 | and only those: a number is in range if and only if its bytes stand for it |
| `SignedInts.BytesIndex` | src/main/resources/assets/swagger-ui/swagger-ui-dist/swagger-ui-es-bundle-core.js:2 | byte `i` is the one of weight `256^i` |
| `SignedInts.BytesOfSigned` | src/main/resources/assets/swagger-ui/swagger-ui-dist/swagger-ui-es-bundle-core.js:2 | every byte string is the bytes of the number it stands for, which is in range |
| `SignedInts.WriteThenRead` | src/main/resources/assets/swagger-ui/swagger-ui-dist/swagger-ui-es-bundle-core.js:2 | what is written in range is read back, in either order and for one to six bytes |
| `BufferLists.BufferList.Push` | src/main/resources/assets/swagger-ui/swagger-ui-dist/swagger-ui-es-bundle-core.js:2 | `push` links one node at the end |
| `BufferLists.BufferList.Shift` | src/main/resources/assets/swagger-ui/swagger-ui-dist/swagger-ui-es-bundle-core.js:2 | `shift` unlinks the first node |
| `BufferLists.BufferList.Clear` | src/main/resources/assets/swagger-ui/swagger-ui-dist/swagger-ui-es-bundle-core.js:2 | `clear` |
| `BufferLists.BufferList.Join` | src/main/resources/assets/swagger-ui/swagger-ui-dist/swagger-ui-es-bundle-core.js:2 | `join` without separator is the whole text |
| `BufferLists.BufferList.ConcatAll` | src/main/resources/assets/swagger-ui/swagger-ui-dist/swagger-ui-es-bundle-core.js:2 | `concat` copies the whole into a new array |
| `BufferLists.BufferList.GetString` | src/main/resources/assets/swagger-ui/swagger-ui-dist/swagger-ui-es-bundle-core.js:2 | `_getString` takes exactly `n` items over several nodes and keeps head, tail and node count exact |
| `BufferLists.BufferList.CopyChunks` | src/main/resources/assets/swagger-ui/swagger-ui-dist/swagger-ui-es-bundle-core.js:2 | the copying loop of `_getBuffer` |
| `BufferLists.BufferList.GetBuffer` | src/main/resources/assets/swagger-ui/swagger-ui-dist/swagger-ui-es-bundle-core.js:2 | `_getBuffer` does the same as `_getString` into a new array |
| `BufferLists.BufferList.Consume` | src/main/resources/assets/swagger-ui/swagger-ui-dist/swagger-ui-es-bundle-core.js:2 | `consume` returns the first `n` items and leaves the rest |
| `BufferLists.DropConcat` | src/main/resources/assets/swagger-ui/swagger-ui-dist/swagger-ui-es-bundle-core.js:2 | what is left after taking `n` items is the rest of the text |
| `Readables.ReadableState.AddChunk` | src/main/resources/assets/swagger-ui/swagger-ui-dist/swagger-ui-es-bundle-core.js:2 | `addChunk` emits a chunk at once when flowing over an empty buffer outside `_read`, and buffers it otherwise |
| `Readables.ReadableState.Push` | src/main/resources/assets/swagger-ui/swagger-ui-dist/swagger-ui-es-bundle-core.js:2 | `push` of a chunk or of the end, also after the end: what is emitted and what is buffered |
| `Readables.ReadableState.HowMuchToRead` | src/main/resources/assets/swagger-ui/swagger-ui-dist/swagger-ui-es-bundle-core.js:2 | `howMuchToRead`: the exact number of items for every argument, flowing, paused or ended |
| `Readables.FilledIs` | src/main/resources/assets/swagger-ui/swagger-ui-dist/swagger-ui-es-bundle-core.js:2 | `computeNewHighWaterMark` is the least power of two that is not below the number |
| `Readables.ReadableState.FromList` | src/main/resources/assets/swagger-ui/swagger-ui-dist/swagger-ui-es-bundle-core.js:2 | `fromList`: what it returns followed by what stays is what was buffered |
| `Readables.ReadableState.Read` | src/main/resources/assets/swagger-ui/swagger-ui-dist/swagger-ui-es-bundle-core.js:2 | `read` for every argument: exactly when it calls `_read` (not after the end or during a call; then if more is needed or what stays is below the high-water mark), how many items it returns, that they come before what stays, and the flags it leaves |
| `Readables.Run` | src/main/resources/assets/swagger-ui/swagger-ui-dist/swagger-ui-es-bundle-core.js:2 | for every interleaving of pushes, reads with pushes inside `_read`, switches between flowing and paused, and the end: the data emitted or returned followed by the data buffered is the data pushed before the end, and a `read()` that gives nothing on a stream that goes on has called `_read` |

## Left out

- `OwnedMaps.WithMutations`: states persistence only for keys with pairwise different hashes, because with equal hashes it fails exactly as `SharedEntries.SeenThroughout` says, there for the node of one hash rather than for the trie above it.
- `CollisionNodes.CollisionNode.Update`: a key with another hash is answered by `Branch` alone; the node that `mergeIntoNode` builds is `TrieLaws.MergeLaw`.
- `HashMaps.RunRefines`: values are compared by equality, so the code's `===` on `NaN` is not modelled.
- `ListRuns.RunRefines`: `slice` takes its ends already resolved; a run stops at a call that is not safe, which `ListRuns.StepLaw` shows to be one that departs from the sequence.
- `ListOps.SetContents`: `set` beyond the ends and `setSize` are not modelled, since trimming may leave old slots that only they expose; nor are list nodes under an owner token.
- `OrderedMapLaws.RunLaw`: `withMutations` on ordered maps is not modelled.
- `ListIteration.Iterate`: a visitor that stops the iteration early is not modelled.
- `Utf8.RoundTrip`: ill-formed UTF-16 is outside the round trip, `Utf8.AnyBytes` says what is written of it; the code points are joined at once, not in slices of 4096.
- `Utf8Chunks.ChunksDoNotMatter`: invalid UTF-8 is left out apart from cut characters and stray bytes, because the number of replacement characters depends on the chunks there.
- `StringDecoderObjects.DecodeChunks`: the latin1, ascii and hex encodings keep no state between chunks and are not modelled.
- `HashBlocks.Hash.Digest`: messages of 2^53 bits or more lose precision in the code and are excluded.
- The block functions of SHA-1, SHA-224 and SHA-256: not modelled; for 64-byte blocks `HashBlocks` only keeps the list of blocks handed to them.
- `YamlScanner.Scanner.ReadDoubleQuotedScalar`: error results carry the kind of error without its position, and the line number, which only reaches messages, is not stated.
- `Anchors.Run`: the scanner state that an attempt also restores is not part of the script.
- `NextTicks.Run`: a callback runs for as long as its events last; arguments and the text of what it throws do not matter here. The branch of `cleanUpNextTick` for an empty current queue cannot be reached and is omitted.
- `SignedInts.WriteIntLE`: widths outside 1 to 6 bytes and the unchecked mode are not modelled.
- `Readables.Run`: object mode, `unshift`, `setEncoding` in mid-stream, calls of `read` from inside `_read`, and when the `readable` and `end` events fire are not modelled; slices of buffers are values, so sharing of memory is not captured.
- Plain, block and folded YAML scalars, flow collections, tags and schemas: not modelled.
- `ieee754`, `Math.random`, `Date` and regular expressions: not modelled.
- The React and Redux user interface, OAuth popups and the Java sources: user interface and plumbing over other classes.
