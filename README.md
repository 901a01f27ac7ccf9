# A verified model of a Hash Array Mapped Trie

This project models `hamt.c`, a Hash Array Mapped Trie (HAMT) keyed by C
strings, in Dafny and proves properties of the model.

The trie maps keys to values. A key is hashed to 32 bits by the
multiply-by-31 string hash. Five bits of the hash for each level (a
*fragment*) choose the way down. There are four kinds of node:

- a **leaf** holds one key and its value;
- a **branch** keeps a 32-bit bitmap of its used fragments and up to 16
  children, packed in fragment order; a child's index is the number of bitmap
  bits below its fragment;
- a **collision** holds the leaves of several keys with one and the same hash;
- an **array node** keeps 32 slots, one per fragment, and a count of the
  filled ones.

A branch that would get a seventeenth child expands into an array node
(`expand_branch_to_array_node`). An array node that would fall to eight
children compresses back into a branch (`compress_array_to_branch`).
Removal collapses nodes that are left with a single leaf. The handle
`hamt_t` holds the root, or NULL for the empty map. `hamt_set`,
`hamt_get` and `hamt_remove` work from it.

The files follow the layers of the C code:

- `bits.dfy` (module `Bits`): `popcount`, `get_mask`, `get_frag` and
  `get_position`, on `bv32`.
- `hash.dfy` (`Hash`): keys and `get_hash`.
- `nodes.dfy` (`Nodes`): the node datatype and its contents as a
  `map<Key, V>`. It also holds `WF`, the representation invariant:
  - a branch has `popcount(bitmap)` children, at most 16, each on its
    fragment;
  - an array node's count is its number of filled slots, more than 8;
  - a collision has two or more leaves, all of its hash and with distinct
    keys;
  - every hash agrees with the path to its node.
- `children.dfy` (`Children`): `insert_child`, `remove_child`,
  `replace_child` and `expand_branch_to_array_node`, as methods over arrays.
- `compress.dfy` (`Compression`): `compress_array_to_branch`, as a method
  over arrays.
- `insert.dfy` and `insert_proof.dfy` (`Insertion`, `InsertProofs`):
  `merge_leaves`, `insert` and the four `handle_*_insert` rules as functions
  on nodes, and their correctness.
- `remove.dfy` and `remove_proof.dfy` (`Removal`, `RemoveProofs`):
  `remove_node` and the four `handle_*_removal` rules, their correctness, and
  the collapse rules.
- `hamt.dfy` (`HamtMap`): the class `Hamt` with its mutable `root`
  (`create_hamt`, `hamt_set`, `hamt_remove`); `hamt_get` as a loop; and
  lemmas over sequences of operations.
- `collisions.dfy` (`Collisions`): a family of keys that all hash alike,
  and the collision buffer overflow described under Findings.
- `branch_buffer.dfy` (`BranchBuffers`): a sequence of operations after
  which a branch's children buffer overflows, also described under Findings.

Node operations are functions that return the replacement node, as the C
functions do. Each has a correctness lemma: the result is well formed, and
its contents are the old contents with the key set or removed. These loops
of the C code are methods:

- `get_hash`'s loop over the key's bytes (`Hash.GetHash`);
- the array loops of `insert_child`, `remove_child` and
  `expand_branch_to_array_node` (`Children.InsertChild`,
  `Children.RemoveChild`, `Children.Spread` and `Children.Expand`);
- `compress_array_to_branch`'s loop (`Compression.Compress`);
- `hamt_get`'s descent and its scan of a collision
  (`HamtMap.Hamt.Get` and `HamtMap.ScanMembers`).

Each is proved against a specification function whose properties are proved
separately. `replace_child`, a single store into the array, is the method
`Children.ReplaceChild`. The scans of a collision's members in
`handle_collision_insert` and `handle_collision_removal` sit inside rules
that are functions, so they are the recursive function `Nodes.Scan`, not
loops.

## Model

| member | source | states |
|---|---|---|
| Bits.ParallelCountIsPopcount | hamt.c:156-166 | the parallel bit count with masks 0x55555555, 0x33333333 and 0x0F0F0F0F equals the number of set bits of the word |
| Bits.Frag | hamt.c:187-189 | the fragment of a hash at any depth is below 32, a valid slot index |
| Bits.MaskSet | hamt.c:182-184 | the test `bitmap & get_mask(f)`, read as a truth value, holds exactly when bit `f` of the bitmap is set |
| Bits.PositionIsCount | hamt.c:195-197 | `get_position(b, f)` is the number of set bits of `b` strictly below bit `f` |
| Bits.PositionBelowPopcount | hamt.c:195-197 | when bit `f` is set, its position is below `popcount(b)`, so it indexes an existing child |
| Bits.PositionInjective | hamt.c:195-197 | two set bits with the same position are the same bit, so distinct fragments get distinct children |
| Bits.SetPositions | hamt.c:379-381 | setting a clear bit adds one to popcount and moves exactly the positions above it up by one |
| Bits.ClearPositions | hamt.c:600-611 | clearing a set bit removes one from popcount and moves exactly the positions above it down by one |
| Bits.PopcountZero | hamt.c:600-603 | popcount is 0 exactly for the empty bitmap |
| Bits.AgreeAll | hamt.c:305-311 | two hashes that agree on all seven fragments are equal |
| Bits.Parting | hamt.c:305-311 | two different hashes that agree on the fragments above depth `d` have `d <= 6`, so the equal-fragment recursion of merge_leaves stops |
| Hash.Widen | hamt.c:176 | a `char` added to the `unsigned int` hash keeps its low byte and is sign-extended when 128 or more |
| Hash.StepIsTimes31 | hamt.c:176 | the loop step `((hash << 5) - hash) + c` equals `hash * 31 + c` modulo 2^32 |
| Hash.HashOfSnoc | hamt.c:175-177 | appending one character to a key applies one more loop step to its hash |
| Hash.GetHash | hamt.c:171-180 | the loop over the characters up to the NUL returns the hash of the key |
| Hash.AaBBCollide | hamt.c:171-180 | the keys "Aa" and "BB" both hash to 2112 |
| Nodes.KeyFrag | hamt.c:187-189 | a key's fragment at any depth is a valid slot index |
| Nodes.Scan | hamt.c:409-414 | the scan of a collision's members returns the first index holding the key, and returns none exactly when no member holds it |
| Nodes.BranchRoute | hamt.c:489-500 | a key is under a well-formed branch exactly when its bit is set and it is under the child at its position |
| Nodes.ArrayRoute | hamt.c:518-524 | a key is under a well-formed array node exactly when it is under the slot of its fragment |
| Nodes.CollisionRoute | hamt.c:501-506 | a key is under a collision exactly when the member scan finds it, with that member's value |
| Children.InsertAt | hamt.c:216-231 | the spliced sequence is one longer, holds the new entry at its position, and keeps the entries before it and shifts up the entries after it |
| Children.RemoveAt | hamt.c:236-252 | the sequence without one entry is one shorter, keeps the entries before it and shifts down the entries after it |
| Children.RemoveInsert | hamt.c:216-252 | removing a spliced-in entry gives back the original sequence |
| Children.InsertRemove | hamt.c:216-252 | splicing a removed entry back in at its index gives back the original sequence |
| Children.InsertChild | hamt.c:216-231 | the first `size + 1` entries of the buffer become the old `size` children with the new child spliced in at `position`; the entries beyond are untouched |
| Children.InsertChildAsWritten | hamt.c:216-231 | writing `size + 1` entries back into a buffer of fixed length fits exactly when `size` is below that length, and then splices the child in and leaves the entries beyond untouched |
| Children.RemoveChildSlots | hamt.c:236-239 | the buffer remove_child allocates has `8 * (size - 1)` slots: room for the remaining children; with 8-byte pointers, room for 16 when three or more were there, but only 8 when two children become one |
| Children.RemoveChild | hamt.c:236-252 | the fresh buffer has `RemoveChildSlots(size)` slots and starts with the first `size` children without the one at `position`, in order |
| Children.ReplaceChild | hamt.c:257-260 | the buffer is the old one with only the entry at `position` replaced |
| Children.SpreadSlots | hamt.c:344-351 | the 32 slots hold, at each set bit's fragment, the child at that bit's position, and nothing at the clear bits |
| Children.ExpandSlots | hamt.c:339-355 | the expanded slots hold the new child at `idx` and the branch's slots everywhere else |
| Children.Spread | hamt.c:343-351 | the loop that shifts the bitmap right stores every child in the slot of its bit and counts `popcount(bitmap)` children |
| Children.Expand | hamt.c:339-355 | the array node's slots are the spread children plus the new child at `idx`, and its count is `popcount(bitmap) + 1` |
| Compression.Compress | hamt.c:643-662 | the loop over the 32 slots packs, in fragment order, every non-empty slot except `idx` into a fresh 16-entry buffer, and sets exactly their bits in the bitmap |
| Compression.GatherSpread | hamt.c:643-662 | compressing the slots of a spread branch, dropping a clear bit, gives back that branch's bitmap and children |
| Insertion.MergeOrder | hamt.c:305-320 | when the two fragments at `depth` differ, the result is a branch whose bitmap holds exactly those two bits and whose two children are `n1` at the position of `h1`'s fragment and `n2` at the position of `h2`'s (`Children.Paired`) |
| Children.PairOrder | hamt.c:312-318 | two entries on distinct bits, listed in ascending bit order, sit at the positions their bits have in the two-bit bitmap |
| Insertion.MergeLeavesCorrect | hamt.c:294-321 | merge_leaves gives a well-formed node holding exactly the entries of both nodes; its recursion on equal fragments stays within depth 6 |
| InsertProofs.LeafInsertCorrect | hamt.c:329-337 | a leaf takes the new value when the key is its own, and is merged with the new leaf otherwise; the result holds the old entries with the key set |
| InsertProofs.CollisionInsertCorrect | hamt.c:403-424 | a collision with the key's hash replaces the member holding the key or appends the new leaf; with another hash it is merged; the result holds the old entries with the key set |
| InsertProofs.BranchSpliceCorrect | hamt.c:371-384 | a branch with fewer than 16 children and the key's bit clear gets the bit and the new leaf spliced in at its position, and stays well formed with the key set |
| InsertProofs.ExpandAt | hamt.c:371-377 | a branch of 16 or more children with the key's bit clear becomes an array node of count `children + 1` and 32 slots: the new leaf in the slot of the key's fragment, each old child in the slot of its own bit, and NULL in every other slot |
| InsertProofs.SpliceOrder | hamt.c:378-383 | a branch of fewer than 16 children with the key's bit clear becomes a branch whose bitmap gains that bit, with one more child: the new leaf at the position of the key's fragment and every old child at the position of its own bit (`Children.SplicedUnder`) |
| Children.SpliceAt | hamt.c:216-231 | splicing an entry in at the position of a clear bit puts it at that bit's position under the bitmap that gains the bit, and moves every old entry to its own bit's position there |
| InsertProofs.BranchExpandCorrect | hamt.c:371-377 | that array node is well formed and holds the branch's entries with the key set |
| InsertProofs.BranchInsertCorrect | hamt.c:365-395 | every case of the branch rule gives a well-formed node holding the old entries with the key set |
| InsertProofs.ArrayNodeInsertCorrect | hamt.c:436-456 | an empty slot takes the new leaf with the count one higher, a filled slot takes the insertion into its child; the result holds the old entries with the key set |
| InsertProofs.InsertCorrect | hamt.c:266-285 | inserting into a well-formed node on the key's path gives a well-formed node holding the old entries with the key mapped to the new value |
| InsertProofs.InsertNoGrow | hamt.c:329-455 | setting a key that is present keeps the shape of every node: no node is added, split or expanded, and no collision's member count or array node's count changes |
| RemoveProofs.LeafRemoveCorrect | hamt.c:627-634 | the leaf of the key goes and any other leaf stays |
| RemoveProofs.CollisionRemoveCorrect | hamt.c:551-570 | removing from a collision leaves a well-formed node holding every other entry |
| RemoveProofs.BranchRemoveCorrect | hamt.c:576-620 | every case of the branch rule gives NULL when the key was all there was, and otherwise a well-formed node holding every other entry |
| RemoveProofs.ArrayNodeRemoveCorrect | hamt.c:671-707 | every case of the array node rule, compression included, gives a well-formed node holding every other entry |
| RemoveProofs.RemoveCorrect | hamt.c:530-545 | removing a key from a well-formed node gives NULL exactly when the key was its only entry, and otherwise a well-formed node at the same depth holding every other entry |
| RemoveProofs.RemoveAbsent | hamt.c:551-707 | removing a key that is not there gives back the very node it was given, at every node kind |
| RemoveProofs.RemoveSame | hamt.c:551-707 | removal gives back the node it was given exactly when the key is absent |
| RemoveProofs.RemoveEmpties | hamt.c:530-545 | removal gives NULL exactly when the key was the node's only entry |
| RemoveProofs.CollisionShrink | hamt.c:559-564 | a collision of more than two members loses one and keeps its hash; a collision of two becomes its other leaf |
| RemoveProofs.BranchShrink | hamt.c:600-616 | when a child empties, a one-child branch gives NULL; a two-child branch gives its sibling when that is a leaf or collision; otherwise the branch loses that bit and that child |
| RemoveProofs.ArrayCompress | hamt.c:697-699 | an array node left with 8 children compresses into a well-formed branch of those 8, holding every other entry |
| RemoveProofs.ArrayShrink | hamt.c:697-702 | an array node of 9 children that loses a slot's only key becomes a branch of 8; a larger one clears that slot and counts one child fewer |
| HamtMap.UnderRoot | hamt.c:465 | every node is on every hash's path at depth 0, so the root can be passed to `insert` |
| HamtMap.PlantedCorrect | hamt.c:461-471 | hamt_set leaves a well-formed root holding the old entries with the key mapped to the new value |
| HamtMap.UprootedCorrect | hamt.c:716-729 | hamt_remove leaves a well-formed root without the key and with every other entry, and the root is NULL exactly when nothing is left |
| HamtMap.RootEmpty | hamt.c:716-729 | a well-formed root is NULL exactly when the map is empty |
| HamtMap.SetThenGet | hamt.c:461-527 | after setting a key, looking it up finds its value |
| HamtMap.RemoveThenGet | hamt.c:476-729 | after removing a key, looking it up finds nothing |
| HamtMap.RemoveMissing | hamt.c:716-729 | removing an absent key gives back the very root it was given |
| HamtMap.SetAll | hamt.c:461-471 | repeated hamt_set calls keep the root well formed |
| HamtMap.SetAllSplit | hamt.c:461-471 | setting one list of keys and then another is setting their concatenation |
| HamtMap.RemoveAll | hamt.c:716-729 | repeated hamt_remove calls keep the root well formed |
| HamtMap.SetAllContents | hamt.c:461-471 | setting a list of keys adds exactly those keys, each mapped to the value, and keeps every other entry |
| HamtMap.RemoveAllContents | hamt.c:716-729 | removing a list of keys drops exactly those keys and keeps every other entry |
| HamtMap.SetThenRemoveAll | hamt.c:716-729 | setting a list of keys into the empty map and then removing them all leaves a NULL root |
| HamtMap.Hamt.constructor | hamt.c:117-126 | create_hamt gives the empty map with a NULL root |
| HamtMap.Hamt.Set | hamt.c:461-471 | the root becomes the leaf of the key for an empty map, or the insertion at depth 0; the map gets the key set to the value |
| HamtMap.Hamt.Remove | hamt.c:716-729 | the root becomes the removal at depth 0; the map loses the key and nothing else, and the root is NULL exactly when the map is empty |
| HamtMap.Hamt.Get | hamt.c:476-527 | the descent from the root yields the value stored for the key, or NULL when there is none |
| HamtMap.Visit | hamt.c:484-525 | one pass of the loop either answers with the key's value in the map, or moves one level down to a node whose contents agree with the map on the key |
| HamtMap.VisitBranch | hamt.c:489-500 | a branch answers NULL when the key's bit is clear, and otherwise moves on to the child at its position |
| HamtMap.VisitArrayNode | hamt.c:518-524 | an array node answers NULL when the key's slot is empty, and otherwise moves on to the child in it |
| HamtMap.BranchStep | hamt.c:489-500 | the key is absent when its bit is clear, and otherwise is found exactly where it is under the child at its position |
| HamtMap.ArrayStep | hamt.c:518-524 | the key is found exactly where it is under the slot of its fragment |
| HamtMap.ScanMembers | hamt.c:501-506 | the loop over a collision's members yields the value of the first member holding the key, or NULL |
| HamtMap.SetGetRemove | hamt.c:461-729 | on a fresh map, a set key is found with its value, and after its removal it is found no more |
| Collisions.Word | hamt.c:171-180 | a word of `n` blocks, each "Aa" or "BB", is a key of `2n` characters |
| Collisions.WordLevel | hamt.c:171-180 | hashing a word of blocks never depends on which block is chosen: after `n` blocks the hash is the `n`-th level of a fixed table |
| Collisions.WordInjective | hamt.c:171-180 | different block choices give different words |
| Collisions.StairsCollide | hamt.c:171-180 | nine distinct 16-character keys all hash to 2118287872 |
| Collisions.CollisionGrows | hamt.c:409-419 | setting a new key of a collision's hash appends its leaf to the members |
| Collisions.CollisionPiles | hamt.c:409-419 | setting several new keys of a collision's hash appends their leaves in order |
| Collisions.FirstCollision | hamt.c:298-302 | two distinct keys of one hash, set into an empty map, give the collision of their two leaves |
| Collisions.CollisionFills | hamt.c:298-302 | `n` distinct keys of one hash, set into an empty map, give one collision of `n` leaves |
| Collisions.Overflows | hamt.c:297-301 | when eight keys of one hash have been set, setting a ninth appends beyond the eight slots merge_leaves allocates |
| Collisions.NinthKeyOverflows | hamt.c:297-301 | for the nine colliding keys, the ninth hamt_set writes past the collision's buffer, while the corrected model holds all nine leaves |
| BranchBuffers.ForkBuilt | hamt.c:294-321 | setting "@", "A" and "a" into an empty map gives a branch on fragments 0 and 1 whose second child is the branch merge_leaves builds for "A" and "a" one level down |
| BranchBuffers.ForkCut | hamt.c:606-611 | removing "@" then empties a child of a two-child branch whose sibling is a branch, so the child is cut out with remove_child and the root becomes a branch of that one sibling, bitmap 2 |
| BranchBuffers.EmptiedContents | hamt.c:716-729 | after that removal the map holds exactly "A" and "a" |
| BranchBuffers.SpliceRun | hamt.c:371-384 | keys whose fragments are distinct and clear in a root branch with room for all are each spliced in, one more child per key |
| BranchBuffers.LetterFrag | hamt.c:171-189 | a one-character key from "@" to "_" hashes to its character, and its fragment at depth 0 is the character less 64 |
| BranchBuffers.LettersFresh | hamt.c:371-384 | the fragments of "B" to "I" are 2 to 9, distinct and clear in the bitmap of the cut root |
| BranchBuffers.NinthChildOverflows | hamt.c:236-252 | after setting "B" to "H" the cut root holds as many children as remove_child gave it slots, so insert_child of "I" at any position writes past the buffer, while the corrected model's branch takes "I" as a ninth child |
| BranchBuffers.NinthChildContents | hamt.c:461-729 | the map then holds exactly "A", "a" and the eight letters, each with the value set |

## Left out

- Persistence: the C overwrites children arrays shared between the old and
  new versions of a node (for example `replace_child` on the old node's
  array). The model returns fresh values, and it claims nothing about old
  versions of the trie.
- Buffer sizes: children are sequences, so a buffer's capacity is not
  modelled. The exceptions are the collision buffer and the buffer of a
  branch that lost a child, both under Findings. The `sizeof`-scaled
  temporary in `insert_child` is also not modelled.
- Children.RemoveChildSlots: assumes 8-byte pointers. With 4-byte pointers
  remove_child allocates `4 * (size - 1)` slots. The cut root of the second
  Finding would then get 4 slots, so setting "E", the fourth letter, would
  already overflow. A branch cut from 3 or 4 children would get 8 or 12
  slots, so the clause for three or more children holds only with 8-byte
  pointers.
- Allocation failure: the NULL returns of `malloc` and `calloc` are not
  modelled, nor is the freeing of memory.
- Pointer identity: "returns the same node" is modelled as value equality.
  Two keys are equal when their bytes are, as with `strcmp`.
- Hash.Widen: treats `char` as signed, as on the usual targets. An unsigned
  `char` would add bytes of 128 or more without sign extension.
- The unreachable `default:` arms of the `insert` and `remove_node` switches
  (hamt.c:282-283, 541-543) are left out. The node kind is a closed
  datatype.
- `print_hamt`, `print_node`, `visit_all` and `visit_all_nodes`
  (hamt.c:733-771) only print debug output, and are not part of this model.
- `hamt.h` declares prototypes only. The test programs `hamt-testing.c` and
  `testing/print_bits.c`, with their file reading and printing, are not part
  of this model. Their scenarios appear as `HamtMap.SetThenRemoveAll`,
  `HamtMap.SetGetRemove` and `Hash.AaBBCollide`.
- HamtMap.SetAll: sets every key of the list to the same value. That is
  enough for the scenarios it states.
- Values are of a type parameter `V` and never inspected, as `void *`
  values are.
- HamtMap.Hamt.Get: returns `Option<V>` where `hamt_get` returns a `void *`
  that is NULL for a missing key. In the C a key set to the value NULL
  therefore reads as missing, as the test program's count of found keys
  treats it. In the model `Get` yields `Some` of that value.

## Findings

| source | as written | input that shows it | evidently intended | confidence | as-written member | corrected member |
|---|---|---|---|---|---|---|
| hamt.c:297-301 | merge_leaves gives a new collision a buffer of MIN_COLLISION_NODE_SIZE (8) children, and handle_collision_insert (hamt.c:416-418) appends to that same buffer in place with no check of its size | nine distinct 16-character keys made of the blocks "Aa" and "BB" (`Collisions.Stair(0)` to `Collisions.Stair(8)`), which all hash to 2118287872, set one after another into an empty map: the ninth `hamt_set` writes a ninth child into the 8-slot buffer | a collision takes any number of members | not executed | Collisions.NinthKeyOverflows | InsertProofs.CollisionInsertCorrect |
| hamt.c:236-252 | remove_child allocates `sizeof(pointer) * (size - 1)` entries for the remaining children. When a two-child branch loses a child whose sibling is a branch (hamt.c:610-611), the branch keeps that buffer of 8 slots. handle_branch_insert (hamt.c:379-381) later splices new children into the same buffer in place, with no check of its size | set "@", "A" and "a" into an empty map, remove "@", then set "B" to "I". Setting "I" makes insert_child write a ninth entry into the 8-slot buffer | a branch buffer with room for MAX_BRANCH_SIZE (16) children, as merge_leaves and compress_array_to_branch allocate | not executed | BranchBuffers.NinthChildOverflows | InsertProofs.BranchSpliceCorrect |
