# The cache core of varnishd, modelled and proved

The cache process of Varnish keeps its objects in an index, invalidates them by a list of bans, and stores them in a
file or in a persistent silo. Each of these parts is a fast, mutable data structure that has to agree with a simple
mathematical one. This project models them in Dafny, in the imperative form the C code has, and proves that they do.

| files | what they model |
|---|---|
| `Digest.dfy`, `ObjHead.dfy`, `CritBitTree.dfy`, `CritBit.dfy` | the crit-bit index: a radix tree over 32-byte digests whose branch nodes live inside objheads, its cleaner included |
| `SimpleList.dfy`, `IndexSpec.dfy`, `Lockstep.dfy` | the sorted list that serves as its reference, what both promise, and the proof that runs of the two agree |
| `BanList.dfy` | the ban list: duplicates, reference counts, the check of an object, the lurker, reloading and compiling |
| `HashProtocol.dfy` | lookups around one objhead: busy objcores, waiting sessions, reference counts, deletion |
| `Extents.dfy`, `StorageFile.dfy` | the file storage allocator: extents as values, and the lists that hold them |
| `Silo.dfy`, `SiloMetrics.dfy`, `SiloRuns.dfy`, `BanLog.dfy` | the segments of a persistent silo, its dimensions, runs of one where it goes wrong, and its ban log |
| `ShmLog.dfy` | the shared memory log and the buffers of the workers |
| `Strtoul.dfy`, `Chunked.dfy` | the body fetchers, section 3.6.1 of RFC 2616 for chunked bodies |
| `VaryMatch.dfy` | the Vary matching string, section 14.44 of RFC 2616 |
| `Lists.dfy`, `Bytes.dfy`, `CType.dfy` | tail queues as sequences without repeats, bytes put in place, white space |

Objects that the C code updates in place are classes, tail queues are fields of type `seq`, buffers are arrays. A
`Valid()` predicate is what every section under a lock keeps. Sections are methods, one step each, and so is each round
of the walk that BAN_Insert makes without the lock; the `Run` methods take arbitrary sequences of such steps, and return
the run of a simpler machine that they follow step by step: a book of bans, a list of extents, a view of sessions, a list
of segments. Random choices, the network, clocks, allocators and worker pools are parameters, and the theorems hold for
all of them.

Where the code falls short of its promise the model follows the code, and an equivalence says exactly when the promise
holds:

- A size rounded by `smf_alloc` is cut to 32 bits by its mask (`StorageFile.RoundedEnough`); one that rounds to zero is
  handed out as an empty extent, and freeing that one is fatal (`StorageFile.SmfSc.SmfAlloc`, `StorageFile.SmfSc.Do`,
  `StorageFile.EmptyExtent`).
- A chunk of 2^32 bytes or more is taken for a shorter one, or for the last one (`Chunked.SizeRight`, `Chunked.CutShort`,
  `Chunked.FourGigabytes`), and a Content-Length of that size is fatal (`Chunked.Fetcher.FetchStraight`).
- A Content-Length with a leading zero is read as octal (`Strtoul.BaseZero`, `Strtoul.TenIsEight`).
- A header value of 0xffff bytes is stored as an absent header, so a request does not match its own Vary string, and one
  without the header fails an assertion on it (`VaryMatch.CreateThenMatch`, `VaryMatch.LongestValue`).
- A segment of a silo can close eight bytes past its planned end (`Silos.Silo.WriteIndex`, `SiloRuns.Overrun`).
- A new segment of a silo can be placed on top of an old one after the silo has wrapped (`Silos.Misplaced`,
  `SiloRuns.OnOldest`, `SiloRuns.OnNewest`).
- A segment can be dropped by its own closing, which then reads it, or while it awaits an object (`Silos.Silo.CloseSeg`,
  `SiloRuns.ReadAfterFree`, `SiloRuns.LostObject`).
- A reloaded ban with an empty text that is newer than ban_magic is live, which compiling it does not expect
  (`BanLists.BanList.EmptyTextsAreGone`, `BanLists.LiveEmptyText`).
- A parked session that the worker pools refuse leaks its reference on the objhead (`HashProtocol.ObjHead.Leaked`) and
  can strand the sessions behind it (`HashProtocol.ObjHead.Do`, `HashProtocol.Stranded`).

`dafny verify dfyconfig.toml` checks the whole project with Dafny 4.11.

## Model

| member | source | states |
|---|---|---|
| `Digests.BytesDifferAt` | varnish-cache/bin/varnishd/hash_critbit.c:62-84 | the table of common leading bits, indexed by the exclusive or of two bytes, gives the first bit in which they differ, and 8 exactly when they are equal |
| `Digests.BitsInjective` | varnish-cache/bin/varnishd/hash_critbit.c:165-179 | two digests with the same 256 bits are the same digest, so the index may be keyed by bits |
| `CritBitTree.CritBitInvariant` | varnish-cache/bin/varnishd/hash_critbit.c:94-107 | below a branch all digests agree before its crit-bit and split on it by side, and crit-bits strictly increase downwards |
| `CritBitTree.SearchExact` | varnish-cache/bin/varnishd/hash_critbit.c:205-221 | a descent ends at a leaf of the tree, and finds every digest that is in it |
| `CritBitTree.InsertExact` | varnish-cache/bin/varnishd/hash_critbit.c:226-251 | splicing a new branch in at the first differing bit keeps the trie invariant and adds exactly one digest |
| `CritBitTree.InsertOwners` | varnish-cache/bin/varnishd/hash_critbit.c:228-234 | the one new branch is embedded in the new objhead; every other branch stays embedded where it was |
| `CritBitTree.InsertWrites` | varnish-cache/bin/varnishd/hash_critbit.c:228-250 | an insert is two writes: the node of the new objhead, and one slot of the old tree |
| `CritBitTree.DeleteExact` | varnish-cache/bin/varnishd/hash_critbit.c:256-286 | removing a leaf keeps the trie invariant and removes exactly that digest |
| `CritBitTree.DeleteOwners` | varnish-cache/bin/varnishd/hash_critbit.c:267-285 | a delete takes exactly one branch node out of use, which may sit in another objhead than the deleted one |
| `CritBitTree.DeleteWrites` | varnish-cache/bin/varnishd/hash_critbit.c:277-282 | a delete is one overwritten slot, which takes the sibling, and one node dropped; nothing else moves |
| `CritBitTree.StopsAtLeaf` | varnish-cache/bin/varnishd/hash_critbit.c:271-285 | the descent of a delete stops exactly where the side it would take is the leaf it looks for |
| `CritBitTree.CountNodes` | varnish-cache/bin/varnishd/hash_critbit.c:94-107 | a tree of n digests uses exactly n - 1 embedded nodes |
| `HashCritBit.HashCritBit.constructor` | varnish-cache/bin/varnishd/hash_critbit.c:382-395 | the index starts empty, with the table of leading bits built |
| `HashCritBit.BuildBitTable` | varnish-cache/bin/varnishd/hash_critbit.c:68-84 | the two nested loops fill the table with the number of leading zero bits of every byte |
| `HashCritBit.HashCritBit.CommonBits` | varnish-cache/bin/varnishd/hash_critbit.c:62-66 | the number of leading bits two bytes share, 8 only for equal bytes |
| `HashCritBit.HashCritBit.CritBit` | varnish-cache/bin/varnishd/hash_critbit.c:165-179 | the first bit in which two different digests differ, with its byte and mask |
| `HashCritBit.HashCritBit.FindLeaf` | varnish-cache/bin/varnishd/hash_critbit.c:205-218 | the descent by tested bits reaches the leaf that a search of the abstract trie reaches |
| `HashCritBit.HashCritBit.FindSlot` | varnish-cache/bin/varnishd/hash_critbit.c:236-248 | the second descent stops at the one slot where a branch on the new crit-bit belongs |
| `HashCritBit.HashCritBit.Link` | varnish-cache/bin/varnishd/hash_critbit.c:228-250 | filling in the embedded node and storing it into that slot leaves memory holding exactly the trie with the digest added |
| `HashCritBit.HashCritBit.Insert` | varnish-cache/bin/varnishd/hash_critbit.c:187-252 | returns the indexed objhead of an equal digest; else adds exactly the new one when the caller has the lock, and changes nothing when it has not |
| `HashCritBit.HashCritBit.FindBranch` | varnish-cache/bin/varnishd/hash_critbit.c:267-285 | the loop of the delete finds the branch one of whose sides is the leaf, and the slot that points to it |
| `HashCritBit.HashCritBit.Prune` | varnish-cache/bin/varnishd/hash_critbit.c:277-282 | overwriting that slot with the other side and zeroing the branch leaves memory holding exactly the trie without the digest |
| `HashCritBit.HashCritBit.Delete` | varnish-cache/bin/varnishd/hash_critbit.c:256-286 | the objhead leaves the index, alone; its own embedded node may still be in use by the tree |
| `HashCritBit.HashCritBit.Deref` | varnish-cache/bin/varnishd/hash_critbit.c:397-422 | one reference fewer; the last one takes the objhead out of the index and onto laylow, with the first byte of its digest, which is its clock there, set to zero; the return value is always 1 |
| `HashCritBit.HashCritBit.InsertLocked` | varnish-cache/bin/varnishd/hash_critbit.c:454-475 | the locked pass refers to the indexed objhead or indexes the new one, which keeps its one reference |
| `HashCritBit.HashCritBit.Lookup` | varnish-cache/bin/varnishd/hash_critbit.c:424-476 | on a tree nobody else changes, the unlocked pass and the locked retry together are one lookup of the reference index |
| `HashCritBit.HashCritBit.OwnersUsed` | varnish-cache/bin/varnishd/hash_critbit.c:345-378 | every branch node reachable from the root has two non-zero leaves |
| `HashCritBit.HashCritBit.BranchNodesLive` | varnish-cache/bin/varnishd/hash_critbit.c:345-378 | in every reachable state each branch node is embedded in exactly one objhead, which is in the tree or on laylow, and there is one fewer than there are digests; an objhead of either kind that holds none has a zero node |
| `HashCritBit.HashCritBit.CleanerSweep` | varnish-cache/bin/varnishd/hash_critbit.c:345-378 | a sweep frees exactly the objheads on laylow whose clock was at sixty and whose node is not in use, none of which the tree refers to; the others on laylow are a second cooler, unless their node is in use |
| `HashCritBit.HashCritBit.SweepAt` | varnish-cache/bin/varnishd/hash_critbit.c:360-373 | the body of the sweep for one objhead: freed and unlinked, or aged |
| `HashSimpleList.LessTransitive` | varnish-cache/bin/varnishd/hash_simple_list.c:78-87 | memcmp order is transitive, so that a place in the list is well defined |
| `HashSimpleList.Trichotomy` | varnish-cache/bin/varnishd/hash_simple_list.c:79-86 | memcmp decides exactly one of less, equal and greater |
| `HashSimpleList.FirstByteDecides` | varnish-cache/bin/varnishd/hash_simple_list.c:79-86 | the first byte in which two digests differ decides which is less |
| `HashSimpleList.HashSimpleList.constructor` | varnish-cache/bin/varnishd/hash_simple_list.c:55-60 | the list starts empty |
| `HashSimpleList.HashSimpleList.Lookup` | varnish-cache/bin/varnishd/hash_simple_list.c:69-96 | keeps digests strictly increasing; refers to the listed objhead of an equal digest, or lists the new one at its place |
| `HashSimpleList.HashSimpleList.NotListed` | varnish-cache/bin/varnishd/hash_simple_list.c:78-92 | where the scan stops, a digest that is not listed belongs |
| `HashSimpleList.HashSimpleList.InsertAt` | varnish-cache/bin/varnishd/hash_simple_list.c:89-92 | putting an objhead between smaller and larger ones keeps the order and lists exactly one more |
| `HashSimpleList.HashSimpleList.Deref` | varnish-cache/bin/varnishd/hash_simple_list.c:102-115 | one reference fewer; the last one unlinks the objhead, and only then is the return value 0 |
| `HashSimpleList.HashSimpleList.Remove` | varnish-cache/bin/varnishd/hash_simple_list.c:107-113 | unlinking keeps the order and unlists exactly that digest |
| `Lockstep.CritBitWorker.Look` | varnish-cache/bin/varnishd/cache_hash.c:328-346 | a worker that preallocates and looks a digest up over the crit-bit index takes a step of the specification, and keeps or gives away its objhead |
| `Lockstep.SimpleWorker.Look` | varnish-cache/bin/varnishd/cache_hash.c:328-346 | the same over the reference list |
| `Lockstep.CritBitWorker.Drop` | varnish-cache/bin/varnishd/hash_critbit.c:397-422 | dropping a held reference over the crit-bit index is a step of the specification |
| `Lockstep.SimpleWorker.Drop` | varnish-cache/bin/varnishd/hash_simple_list.c:102-115 | dropping a held reference over the list is the same step, after which an unreferenced objhead is freed at once |
| `Lockstep.CritBitWorker.Sweep` | varnish-cache/bin/varnishd/hash_critbit.c:345-378 | a sweep of the cleaner changes nothing that lookups can see |
| `Lockstep.CritBitWorker.Do` | varnish-cache/bin/varnishd/hash_critbit.c:345-476 | one lookup, deref or sweep takes a step of the specification; only a sweep touches the objheads on laylow, and no node there is taken into use again |
| `Lockstep.CoolFor` | varnish-cache/bin/varnishd/hash_critbit.c:345-378 | an objhead on laylow with its clock at c is still there after 60 - c sweeps, whatever else happens between them; and if its node is not in use, it is freed by the next one |
| `Lockstep.CoolOff` | varnish-cache/bin/varnishd/hash_critbit.c:345-422 | after any run, the objhead of a digest whose last reference is dropped stays in memory for sixty sweeps among any other operations, and if its node was free not for sixty-one |
| `Lockstep.RunCritBit` | varnish-cache/bin/varnishd/hash_critbit.c:397-476 | any run over the crit-bit index ends where the specification does |
| `Lockstep.RunSimple` | varnish-cache/bin/varnishd/hash_simple_list.c:69-115 | any run over the reference list ends where the specification does |
| `Lockstep.Lockstep` | varnish-cache/bin/varnishd/hash_simple_list.c:52-115 | refinement: whatever the run of lookups, derefs and sweeps, both slingers choose the same objheads and index the same ones with the same reference counts |
| `BanLists.ObjectTests` | varnish-cache/bin/varnishd/cache_ban.c:415-470 | a ban without a condition on the request bans an object for all requests or for none |
| `BanLists.BanList.constructor` | varnish-cache/bin/varnishd/cache_ban.c:794-806 | the list starts as ban_magic alone, GONE and without conditions |
| `BanLists.BanList.Publish` | varnish-cache/bin/varnishd/cache_ban.c:308-332 | the locked first part of BAN_Insert: the ban becomes head and ban_start; a reference on the tail is held when there are duplicates to look for |
| `BanLists.BanList.Hunt` | varnish-cache/bin/varnishd/cache_ban.c:346-351 | one step of the walk marks the next ban GONE exactly when it has the same text |
| `BanLists.BanList.WalkSurvives` | varnish-cache/bin/varnishd/cache_ban.c:330-357 | whatever one step of another thread does to the list, a walk in flight keeps its ban listed and newer than all behind it, its held tail last, the duplicates it has passed GONE, and as many rounds to go |
| `BanLists.BanList.Enter` | varnish-cache/bin/varnishd/cache_ban.c:308-340 | the locked first part of BAN_Insert in one of many threads: its walk starts at the head, holding the tail, and disturbs no other walk |
| `BanLists.BanList.Advance` | varnish-cache/bin/varnishd/cache_ban.c:344-357 | the next step of a walk: one round, which marks at most the ban it comes to and only a duplicate, with one round less to go; or, at the held tail, the locked end, with every older duplicate GONE |
| `BanLists.BanList.StepOf` | varnish-cache/bin/varnishd/cache_ban.c:344-357 | the same among many threads: all other walks stay where they are, and the tails they hold stay held, each as often as it was |
| `BanLists.BanList.Do` | varnish-cache/bin/varnishd/cache_ban.c:308-601 | one step of any thread, a section or a round of a walk: the flags change only as a round says, every other walk has exactly as many rounds to go as before, every count is exact, and the book of bans, objects and threads changes as the operation alone asks for |
| `BanLists.BanList.GoneIffSuperseded` | varnish-cache/bin/varnishd/cache_ban.c:342-353 | if duplicates are dropped and no walk is in flight, a ban is GONE exactly if a strictly newer one has its text |
| `BanLists.BanList.Walk` | varnish-cache/bin/varnishd/cache_ban.c:342-353 | with any run of the other threads before each of its rounds, the walk comes to its end and then every older duplicate is GONE; if nobody interferes, exactly the older duplicates have been marked |
| `BanLists.BanList.Insert` | varnish-cache/bin/varnishd/cache_ban.c:308-358 | BAN_Insert with any run of the other threads between its sections and rounds: its ban stays listed and every older ban with its text is GONE at the end; if nobody interferes, the list grows by one live ban at its head and no other flag changes |
| `BanLists.BanList.Deref` | varnish-cache/bin/varnishd/cache_ban.c:551-561 | gives a temporary hold back, and one count with it |
| `BanLists.BanList.NewObj` | varnish-cache/bin/varnishd/cache_ban.c:360-373 | a new object starts at ban_start, counted there |
| `BanLists.BanList.CheckLast` | varnish-cache/bin/varnishd/cache_ban.c:375-390 | only the tail is ever removed, only unreferenced, and never when it is also the head |
| `BanLists.BanList.DestroyObj` | varnish-cache/bin/varnishd/cache_ban.c:392-412 | the object leaves its ban with its reference; the tail goes exactly if nothing else refers to it and it is not the head |
| `BanLists.BanList.LiveTwin` | varnish-cache/bin/varnishd/cache_ban.c:342-353 | every ban with a text has itself or a newer ban with that text live in the list |
| `BanLists.BanList.TestAll` | varnish-cache/bin/varnishd/cache_ban.c:438-450 | testing all bans newer than that of the object, GONE ones included: the reference for the shortcut |
| `BanLists.BanList.GoneNeverDecides` | varnish-cache/bin/varnishd/cache_ban.c:438-450 | if a GONE ban on the way bans the object for a request, a live one on the way does too |
| `BanLists.BanList.GoneNeverDefers` | varnish-cache/bin/varnishd/cache_ban.c:438-450 | if a GONE ban on the way looks at requests, a live one on the way does too |
| `BanLists.BanList.Scan` | varnish-cache/bin/varnishd/cache_ban.c:438-463 | the walk that skips GONE bans comes to the verdict of the walk that does not; without a request it gives up exactly if a live ban that looks at requests comes before any live ban that bans the object |
| `BanLists.BanList.Rehang` | varnish-cache/bin/varnishd/cache_ban.c:464-479 | the object and its reference move from its ban to ban_start |
| `BanLists.BanList.CheckObject` | varnish-cache/bin/varnishd/cache_ban.c:415-487 | with a request: banned exactly when some ban newer than that of the object bans it, else it moves to ban_start; without one the object stays where it is exactly if the walk gives up, is banned only by what bans it for every request, and else moves to ban_start past bans that look at no request |
| `BanLists.BanList.MeetsIs` | varnish-cache/bin/varnishd/cache_ban.c:438-463 | the bans in front of a listed one ban an object exactly if some ban that ever came after it does: retired and GONE ones are never missed |
| `BanLists.BanList.AcceptedIsClean` | varnish-cache/bin/varnishd/cache_ban.c:415-487 | an object at ban_start meets none of the object-only bans inserted since it was created |
| `BanLists.BanList.Lurk` | varnish-cache/bin/varnishd/cache_ban.c:493-544 | a lurker round retires the tail exactly if nothing refers to it and it is not alone; else it checks the first object of the tail exactly if there is one, the tail is not ban_start and HSH_FindBan finds it: banned only by what bans it for every request, left there exactly if the walk gives up, else moved to ban_start |
| `BanLists.BanList.LurkOn` | varnish-cache/bin/varnishd/cache_ban.c:493-544 | if nothing is held and no live ban looks at the request, a round with a second ban in the list leaves fewer bans, or fewer objects that are not at ban_start |
| `BanLists.BanList.LurkAll` | varnish-cache/bin/varnishd/cache_ban.c:493-544 | then enough rounds, as many as there are older bans and objects on them, leave the newest ban alone in the list, with every object that is left on it |
| `BanLists.BanList.DoDestroy` | varnish-cache/bin/varnishd/cache_ban.c:392-412 | the end of an object as the book has it: off its ban, and the oldest ban leaves exactly if that was its last object, nothing holds it, and it is not the only one |
| `BanLists.BanList.DoCheck` | varnish-cache/bin/varnishd/cache_ban.c:415-487 | a check as the book has it: the object is banned exactly if a ban since its own bans it for the request, and goes to the newest ban otherwise |
| `BanLists.BanList.LurkKept` | varnish-cache/bin/varnishd/cache_ban.c:493-544 | a round of the lurker as the book has it: the oldest ban leaves exactly if nothing refers to it and it is not the only one; else one of its objects is banned by a ban met for every request, or goes to the newest ban past bans that look at no request, or stays because one of them does |
| `BanLists.BanList.TailRef` | varnish-cache/bin/varnishd/cache_ban.c:567-577 | a silo holds the tail, counted |
| `BanLists.BanList.HoldTail` | varnish-cache/bin/varnishd/cache_ban.c:567-577 | the same among many threads: the tail stays held until the silo is loaded, and no walk is disturbed |
| `BanLists.BanList.Adopt` | varnish-cache/bin/varnishd/cache_ban.c:583-601 | while a silo is loaded, its objects go on the bans of their time, and no walk is disturbed |
| `BanLists.BanList.LetGo` | varnish-cache/bin/varnishd/cache_ban.c:551-561 | the end of the load gives the tail back, once, and leaves every other hold |
| `BanLists.BanList.RefBan` | varnish-cache/bin/varnishd/cache_ban.c:583-601 | an object of a silo is attached to a ban of its time, or to the held tail |
| `BanLists.BanList.Run` | varnish-cache/bin/varnishd/cache_ban.c:308-601 | any run of steps of any number of threads, with walks of BAN_Insert in flight and silos being loaded: sorted list, exact counts with every held tail counted, duplicates live, objects clean; a walk is over after as many rounds of its own as it had bans before it and one step more, whatever the others do, with every older duplicate GONE; and step by step the run is one of a book without duplicates, flags and counts, in which a check bans an object exactly if any ban since its own does |
| `BanLists.BanList.Locate` | varnish-cache/bin/varnishd/cache_ban.c:621-631 | the first loop of the reload: whether the pair is there, where it belongs, and whether a strictly newer ban has its text |
| `BanLists.BanList.MarkAfter` | varnish-cache/bin/varnishd/cache_ban.c:647-653 | the second loop marks the older bans with the text of the reloaded one |
| `BanLists.BanList.Reload` | varnish-cache/bin/varnishd/cache_ban.c:611-654 | one reload keeps the list in order of time without equal pairs, and each ban live exactly if no strictly newer one has its text |
| `BanLists.BanList.ReloadAll` | varnish-cache/bin/varnishd/cache_ban.c:611-654 | after any sequence of reloads, with repeats and in any order, exactly the pairs given are listed, once, newest first, and live exactly if no strictly newer ban has the same text |
| `BanLists.BanList.EmptyTextsAreGone` | varnish-cache/bin/varnishd/cache_ban.c:660-688 | the bans without conditions are all GONE exactly if none of them is newer than ban_magic, which is what compiling them needs |
| `BanLists.LiveEmptyText` | varnish-cache/bin/varnishd/cache_ban.c:611-688 | an empty text one second newer than ban_magic is live after it has been reloaded |
| `BanLists.BanList.CompilePending` | varnish-cache/bin/varnishd/cache_ban.c:670-685 | compiling gives each live skeleton the conditions of its text and leaves none pending |
| `BanLists.BanList.Compile` | varnish-cache/bin/varnishd/cache_ban.c:660-688 | compiled bans are a valid start for objects and checks, with all duplicates marked |
| `BanLists.BanList.CoveredByLoad` | varnish-cache/bin/varnishd/cache_ban.c:647-653 | after any load every ban has marked its older duplicates |
| `Extents.MergeKeeps` | varnish-cache/bin/varnishd/storage_file.c:296-319 | coalescing contiguous neighbours keeps the order and covers the same bytes of the file |
| `Extents.SplitKeeps` | varnish-cache/bin/varnishd/storage_file.c:259-275 | splitting keeps the order and covers the same bytes |
| `Extents.FreedKeeps` | varnish-cache/bin/varnishd/storage_file.c:283-322 | freeing with two-sided coalescing keeps order and bytes, leaves no contiguous free neighbours, and frees exactly the bytes of the extent |
| `Extents.TakenKeeps` | varnish-cache/bin/varnishd/storage_file.c:250-275 | taking from the front keeps order, bytes and coalescing and allocates exactly as many bytes |
| `Extents.TakenFreed` | varnish-cache/bin/varnishd/storage_file.c:228-322 | freeing what was just allocated gives back the very same extents |
| `Extents.TrimmedKeeps` | varnish-cache/bin/varnishd/storage_file.c:328-352 | trimming keeps order, bytes and coalescing and frees exactly what is cut off |
| `Extents.AddedKeeps` | varnish-cache/bin/varnishd/storage_file.c:358-388 | a new range adds its bytes, keeps order and coalescing, and allocates none |
| `StorageFile.SmfSc.constructor` | varnish-cache/bin/varnishd/storage_file.c:144-155 | nothing is mapped and all lists are empty |
| `StorageFile.SmfSc.InsertSorted` | varnish-cache/bin/varnishd/storage_file.c:189-201 | the list stays sorted by offset and gains the extent |
| `StorageFile.SmfSc.InsFree` | varnish-cache/bin/varnishd/storage_file.c:172-202 | a free extent goes on the list of its size class, by offset; every other one stays on its own |
| `StorageFile.SmfSc.RemFree` | varnish-cache/bin/varnishd/storage_file.c:204-222 | a free extent leaves the list of its class, and no other list changes |
| `StorageFile.SmfSc.Unuse` | varnish-cache/bin/varnishd/storage_file.c:290-294 | an extent leaves the used list |
| `StorageFile.SmfSc.MergeRight` | varnish-cache/bin/varnishd/storage_file.c:296-306 | a free contiguous right neighbour is absorbed |
| `StorageFile.SmfSc.MergeLeft` | varnish-cache/bin/varnishd/storage_file.c:308-319 | a free contiguous left neighbour absorbs the extent |
| `StorageFile.SmfSc.FreeSmf` | varnish-cache/bin/varnishd/storage_file.c:283-322 | the order list becomes the coalesced one; all lists agree again, and other used extents are untouched |
| `StorageFile.SmfSc.AllOffsetsDiffer` | varnish-cache/bin/varnishd/storage_file.c:193-201 | no two extents with bytes in them start at the same offset of the file, so the order of a free list by offset is strict |
| `StorageFile.SmfSc.Pick` | varnish-cache/bin/varnishd/storage_file.c:234-248 | null exactly if no free extent is large enough; else the first one that fits in the first class that has one |
| `StorageFile.SmfSc.PickLarge` | varnish-cache/bin/varnishd/storage_file.c:241-248 | the search of the last class takes the first of its extents that is large enough, and finds none exactly if no free extent is |
| `StorageFile.SmfSc.FirstIsBest` | varnish-cache/bin/varnishd/storage_file.c:228-248 | that is the smallest free extent that fits, at the lowest offset; but of those of 32 pages and more, the one at the lowest offset |
| `StorageFile.SmfSc.FullClass` | varnish-cache/bin/varnishd/storage_file.c:234-248 | below the last class, any extent of a sufficient class is large enough |
| `StorageFile.SmfSc.CutFront` | varnish-cache/bin/varnishd/storage_file.c:258-275 | the front of an extent becomes a new used extent of exactly the size asked for |
| `StorageFile.SmfSc.AllocSmf` | varnish-cache/bin/varnishd/storage_file.c:228-276 | fails exactly if nothing fits; else hands out exactly the bytes asked for, from the front of the preferred extent |
| `StorageFile.SmfSc.CutTail` | varnish-cache/bin/varnishd/storage_file.c:343-350 | the tail of a used extent becomes a new used extent |
| `StorageFile.SmfSc.TrimSmf` | varnish-cache/bin/varnishd/storage_file.c:328-352 | the extent keeps its front, the tail is freed and coalesced |
| `StorageFile.SmfSc.PutByAddress` | varnish-cache/bin/varnishd/storage_file.c:376-385 | a new extent goes before the first one at a higher address |
| `StorageFile.SmfSc.NewSmf` | varnish-cache/bin/varnishd/storage_file.c:358-388 | the mapped bytes grow by exactly the new range |
| `StorageFile.SmfSc.SmfAlloc` | varnish-cache/bin/varnishd/storage_file.c:459-492 | alloc of the rounded size, zero included: fails exactly if nothing fits, else hands out the front of the preferred extent; the byte counters move by the size and keep their sum; for a size below 2^32 that is granted, no extent is empty afterwards exactly if the rounded size fits 32 bits |
| `StorageFile.SmfSc.SmfTrim` | varnish-cache/bin/varnishd/storage_file.c:496-520 | the extent has the rounded size, and the counters keep their sum |
| `StorageFile.SmfSc.SmfFree` | varnish-cache/bin/varnishd/storage_file.c:525-540 | an extent that is not empty is freed, other used extents are untouched, and the counters keep their sum |
| `StorageFile.SmfSc.Do` | varnish-cache/bin/varnishd/storage_file.c:459-540 | one allocation, trim or free: an empty extent appears exactly if an allocation rounds to zero and something is free, and freeing an empty extent is what the process dies of |
| `StorageFile.SmfSc.DoAlloc` | varnish-cache/bin/varnishd/storage_file.c:459-492 | over the extents of the file alone: nothing changes exactly if no free one is large enough; else the best fit is taken from its front, and the new used extent is the last |
| `StorageFile.SmfSc.DoTrim` | varnish-cache/bin/varnishd/storage_file.c:496-520 | over the extents of the file alone: the used one gets the rounded size, and what is behind it is free |
| `StorageFile.SmfSc.DoFree` | varnish-cache/bin/varnishd/storage_file.c:525-540 | over the extents of the file alone: the used one is free, coalesced with its neighbours; fatal exactly if it has no bytes |
| `StorageFile.SmfSc.Run` | varnish-cache/bin/varnishd/storage_file.c:459-540 | any run of allocations, trims and frees, up to one the process dies of: every extent on exactly one list of its class or on used, order sorted and coalesced over the same bytes, and sm_balloc + sm_bfree constant; step by step the extents of the file and the used ones change as the operation asks for, and no others; without an allocation that rounds to zero no extent is ever empty and the run goes to its end |
| `StorageFile.EmptyExtent` | varnish-cache/bin/varnishd/storage_file.c:443-492 | a request for 4294967295 bytes to a file of 128 pages, the smallest that smf_open takes, is granted an extent of no bytes |
| `StorageFile.RoundedToZero` | varnish-cache/bin/varnishd/storage_file.c:467-468 | a size below 2^32 rounds to zero exactly if its rounded size does not fit 32 bits |
| `StorageFile.LargestRoundsToZero` | varnish-cache/bin/varnishd/storage_file.c:467-468 | 0xFFFFFFFF bytes are rounded to none |
| `Extents.TakenPositive` | varnish-cache/bin/varnishd/storage_file.c:250-275 | taking leaves an empty extent exactly if no bytes are taken |
| `Extents.FreedPositive` | varnish-cache/bin/varnishd/storage_file.c:283-322 | freeing makes no extent empty, and removes no empty one |
| `StorageFile.RoundedEnough` | varnish-cache/bin/varnishd/storage_file.c:467-468 | the rounded size is the least whole number of pages that is enough exactly if it fits 32 bits; the mask made from a 32-bit page size cuts off the rest |
| `StorageFile.RoundedLeast` | varnish-cache/bin/varnishd/storage_file.c:509-510 | rounding a trimmed size does not go past the extent |
| `HashProtocol.ObjHead.constructor` | varnish-cache/bin/varnishd/cache_hash.c:119-128 | a new objhead has one reference, that of the session whose lookup indexed it |
| `HashProtocol.ObjHead.Arrive` | varnish-cache/bin/varnishd/cache_hash.c:341-346 | the slinger gives a session the objhead, and counts it |
| `HashProtocol.ObjHead.Resume` | varnish-cache/bin/varnishd/cache_hash.c:333-340 | a session off the waiting list brings the reference it kept; nothing is counted twice |
| `HashProtocol.ObjHead.Pass` | varnish-cache/bin/varnishd/cache_hash.c:351-386 | the scan finds the first objcore whose object the request may get, or whether one is busy and the last one that is only too old, but within its grace; at each of them the objhead has more than one reference |
| `HashProtocol.ObjHead.Choose` | varnish-cache/bin/varnishd/cache_hash.c:351-408 | the objcore taken is the one that must serve the request; none exactly if there is none |
| `HashProtocol.ObjHead.Decide` | varnish-cache/bin/varnishd/cache_hash.c:388-408 | what the scan found determines the one objcore that must serve the request, if any |
| `HashProtocol.ObjHead.Lookup` | varnish-cache/bin/varnishd/cache_hash.c:347-456 | takes the first object that is not busy, cacheable, not expired for good, neither banned nor of another variant, and not too old; else the last one that is within its own grace and that of the request, if a fetch is under way or impossible; else waits if one is busy; else inserts a new busy objcore; whatever is taken of the old ones has all these properties |
| `HashProtocol.ObjHead.DoLookup` | varnish-cache/bin/varnishd/cache_hash.c:347-456 | a lookup among other sessions: who must serve serves; else the session waits behind those who wait already, or polls, if an objcore is busy; else it fetches, with one objcore more |
| `HashProtocol.ObjHead.Take` | varnish-cache/bin/varnishd/cache_hash.c:408-418 | a hit refers to the objcore |
| `HashProtocol.ObjHead.Release` | varnish-cache/bin/varnishd/cache_hash.c:417-419 | the deref after a hit is never the last one |
| `HashProtocol.ObjHead.Park` | varnish-cache/bin/varnishd/cache_hash.c:424-441 | a session waits only while a busy objcore is held by another session; its reference goes with it |
| `HashProtocol.ObjHead.Add` | varnish-cache/bin/varnishd/cache_hash.c:443-455 | a new objcore takes over the reference of its session; there is no other busy one |
| `HashProtocol.ObjHead.Insert` | varnish-cache/bin/varnishd/cache_hash.c:293-308 | an objcore from a silo takes over the reference of its session and is not busy |
| `HashProtocol.ObjHead.Rush` | varnish-cache/bin/varnishd/cache_hash.c:458-483 | the first parked sessions, up to the rush and no further than one the pools refuse, leave the waiting list in order; nobody else moves; sessions are left stranded exactly if the pools refuse the first of several and nobody else is there to wake the rest |
| `HashProtocol.ObjHead.Unbusy` | varnish-cache/bin/varnishd/cache_hash.c:534-539 | the objcore leaves busy, and the first parked sessions are woken in order; whoever stays parked is never stranded, for the session itself will rush again |
| `HashProtocol.ObjHead.RefCore` | varnish-cache/bin/varnishd/cache_hash.c:542-555 | one more reference on an objcore of the list |
| `HashProtocol.ObjHead.FindBan` | varnish-cache/bin/varnishd/cache_hash.c:596-616 | finds the objcore exactly if it is still on the list, and refers to it |
| `HashProtocol.ObjHead.Deref` | varnish-cache/bin/varnishd/cache_hash.c:640-648 | the last reference takes the objcore off the list and keeps its reference on the objhead; parked sessions are woken; the rest is stranded exactly if the pools refuse the first of several and no other session is there to wake them |
| `HashProtocol.ObjHead.DerefObjCore` | varnish-cache/bin/varnishd/cache_hash.c:571-576 | a persistent objcore, or a busy one held once, leaves the list; parked sessions are woken if it was busy, and stranded under the condition of Deref |
| `HashProtocol.ObjHead.Leave` | varnish-cache/bin/varnishd/cache_hash.c:578-582 | the objhead is deleted with the last reference, and then nothing refers to it: no objcore, no parked session, no lookup in flight |
| `HashProtocol.ObjHead.Drop` | varnish-cache/bin/varnishd/cache_hash.c:491-508 | a busy object is given up: no longer busy, and dereferenced; the rest is stranded exactly if the pools refuse the first parked session and then the next one, more wait behind it, and nobody else is there |
| `HashProtocol.ObjHead.DroppedPins` | varnish-cache/bin/varnishd/cache_hash.c:474-480 | a parked session that is killed keeps its reference: the objhead is never deleted |
| `HashProtocol.ObjHead.Leaked` | varnish-cache/bin/varnishd/cache_hash.c:471-480 | the reference count is the objcores and the references of live, parked and queued sessions exactly if no session has been killed; each one killed is one reference too many |
| `HashProtocol.ObjHead.Do` | varnish-cache/bin/varnishd/cache_hash.c:271-685 | one step of any session: sessions, waiting list, number of objcores and reference count change as the operation asks for; parked sessions that had somebody to wake them lose it exactly if the step is a last dereference that StrandsBy describes, and a session is killed only if the pools refuse it |
| `HashProtocol.ObjHead.DeletedUnused` | varnish-cache/bin/varnishd/cache_hash.c:152-160 | a deleted objhead has no objcores, and no session refers to it |
| `HashProtocol.ObjHead.Run` | varnish-cache/bin/varnishd/cache_hash.c:271-685 | over any interleaving, step by step as the operations ask for: at most one busy objcore, none becomes busy again, reference counts equal to holders; and as long as the pools take every session no reference leaks and the parked have another session to wake them |
| `HashProtocol.Stranded` | varnish-cache/bin/varnishd/cache_hash.c:458-483 | the condition is met: a run in which two parked sessions are refused and the third is left on the waiting list with nobody to wake it |
| `ShmLog.ScanAll` | varnish-cache/include/shmlog.h:74-110 | scanning encoded records by length, up to an end marker, gives back the records |
| `ShmLog.ScanFirst` | varnish-cache/include/shmlog.h:83-98 | length and identifier are read back from a header as they were written |
| `ShmLog.VslHdr` | varnish-cache/bin/varnishd/shmlog.c:84-100 | every byte of the header, the NUL behind the data and the end marker, and no other byte |
| `ShmLog.Put` | varnish-cache/bin/varnishd/shmlog.c:137-138 | data and header together are one encoded record with an end marker behind it |
| `ShmLog.Worker.Add` | varnish-cache/bin/varnishd/shmlog.c:234-239 | the buffer of a worker is its pending records, encoded |
| `ShmLog.Log.constructor` | varnish-cache/bin/varnishd/shmlog.c:362-386 | an empty log, with workers that have logged nothing |
| `ShmLog.Log.Readable` | varnish-cache/bin/varnishd/shmlog.c:72-209 | a scan from the start visits exactly the records written since the last wrap and ends at the write position |
| `ShmLog.Log.Wrap` | varnish-cache/bin/varnishd/shmlog.c:72-82 | the log restarts, and a reader at the old end finds a wrap marker there |
| `ShmLog.Log.Room` | varnish-cache/bin/varnishd/shmlog.c:129-131 | the log wraps exactly if the bytes and an end marker do not fit |
| `ShmLog.Log.VSLR` | varnish-cache/bin/varnishd/shmlog.c:107-139 | one record, truncated to the limit, is added behind those since the wrap |
| `ShmLog.Log.VSL` | varnish-cache/bin/varnishd/shmlog.c:143-180 | a text without conversions is logged as it is; a formatted one makes room for a full record and takes what it needs |
| `ShmLog.Log.Flush` | varnish-cache/bin/varnishd/shmlog.c:184-209 | all pending records of the worker reach the log, in order, and none stays |
| `ShmLog.Log.CopyIn` | varnish-cache/bin/varnishd/shmlog.c:199-206 | the copy that stores the first tag last writes the whole buffer and an end marker |
| `ShmLog.Log.WSLR` | varnish-cache/bin/varnishd/shmlog.c:213-242 | one record, truncated, is the last thing the worker has logged; the log grows only by its records; the buffer keeps what it had exactly if the record fits behind it, and is empty after a synchronous one |
| `ShmLog.Log.WSL` | varnish-cache/bin/varnishd/shmlog.c:246-282 | the same for a text; a formatted one asks for room for a full record |
| `ShmLog.Log.Run` | varnish-cache/bin/varnishd/shmlog.c:107-282 | over any interleaving the log reads as the last records written, no record of any worker is lost, repeated or reordered, each buffer holds exactly the records since its last flush, and the direct records in the log are exactly those asked for, in order |
| `Strtoul.BaseZero` | varnish-cache/bin/varnishd/cache_fetch.c:59 | a Content-Length read with base 0 is right exactly if it has no leading zero or is below eight: with one it is taken for octal |
| `Strtoul.TenIsEight` | varnish-cache/bin/varnishd/cache_fetch.c:59 | the Content-Length 010 is read as eight |
| `Strtoul.DigitIs` | varnish-cache/bin/varnishd/cache_fetch.c:110-111 | the digits of base 36: decimal digits count from zero, letters from ten, in either case |
| `Strtoul.ParsePrefixed` | varnish-cache/bin/varnishd/cache_fetch.c:59-111 | base 16 and base 0 take 0x in front of hexadecimal digits; a minus sign gives the negative number in 64 bits, and what does not fit them gives the largest one |
| `Strtoul.ParsePlain` | varnish-cache/bin/varnishd/cache_fetch.c:59-111 | other digits are those of the base, for base 0 of base 8 after a leading zero; no digits are no number |
| `CType.SpaceIs` | varnish-cache/bin/varnishd/cache_vary.c:85-125 | white space is the blank and the five control characters from the tab on |
| `Strtoul.NumberPrefix` | varnish-cache/bin/varnishd/cache_fetch.c:110-111 | what comes after a number does not change it |
| `Chunked.LineEnds` | varnish-cache/bin/varnishd/cache_fetch.c:108-154 | reading one character at a time, the newline is the last one in the buffer: nothing is ever left over |
| `Chunked.LineFound` | varnish-cache/bin/varnishd/cache_fetch.c:108-154 | a size line of white space, such as the CRLF of the last chunk, hexadecimal digits, blanks, and a newline with or without a carriage return is recognised at its end and not before |
| `Chunked.FirstLineIs` | varnish-cache/bin/varnishd/cache_fetch.c:100-127 | the shortest prefix that is a size line is taken; one of more than 19 characters is not |
| `Chunked.SizeRight` | varnish-cache/bin/varnishd/cache_fetch.c:111 | the size taken from a line is the size written exactly if that fits 32 bits |
| `Chunked.RoundTrip` | varnish-cache/bin/varnishd/cache_fetch.c:95-217 | for every chunked body without extensions whose size lines fit the buffer and whose chunks are shorter than 2^32, decoding gives back the data and takes exactly the encoding, whatever follows |
| `Chunked.CutShort` | varnish-cache/bin/varnishd/cache_fetch.c:111-158 | a chunk of data whose size is a multiple of 2^32 is taken for the last one, without an error |
| `Chunked.FourGigabytes` | varnish-cache/bin/varnishd/cache_fetch.c:111-158 | a body of one chunk of 2^32 bytes decodes to no data, without an error |
| `Chunked.Conn.Read` | varnish-cache/bin/varnishd/cache_httpconn.c:182-209 | a read returns the next bytes of the stream, some and at most as many as asked, or nothing |
| `Chunked.Fetcher.Skip` | varnish-cache/bin/varnishd/cache_fetch.c:113-119 | the skipping loop ends where the newline has to be |
| `Chunked.Fetcher.ReadSize` | varnish-cache/bin/varnishd/cache_fetch.c:108-154 | the loop that reads a size line finds the first line of the stream, and fails if there is none |
| `Chunked.Fetcher.Room` | varnish-cache/bin/varnishd/cache_fetch.c:162-169 | there is a piece of storage that is not full; a new one is asked for in the size of the chunk, and at least in that of fetch_chunksize |
| `Chunked.Fetcher.ReadInto` | varnish-cache/bin/varnishd/cache_fetch.c:191-200 | as many bytes as asked for go to the end of the last piece, which keeps its bounds |
| `Chunked.Fetcher.ReadChunk` | varnish-cache/bin/varnishd/cache_fetch.c:160-202 | the bytes of a chunk are appended to the store, over as many pieces as it takes |
| `Chunked.Fetcher.FetchChunked` | varnish-cache/bin/varnishd/cache_fetch.c:95-217 | succeeds with the decoded body in the store and the connection at its end, every piece within its space and the lengths adding up; with no failing read it fails only if the stream does not decode |
| `Chunked.Fetcher.Trim` | varnish-cache/bin/varnishd/cache_fetch.c:214-215 | trimming the last piece keeps its data and leaves at most the given slack behind it |
| `Chunked.Fetcher.FetchStraight` | varnish-cache/bin/varnishd/cache_fetch.c:50-89 | stores exactly as many bytes as the Content-Length says; the process dies exactly if that does not fit 32 bits |
| `VaryMatch.GetHdr` | varnish-cache/bin/varnishd/cache_http.c:184-230 | the first line with that name in any case counts: its value from behind the blanks up to a NUL or the end of the line; nothing exactly if no line has the name |
| `VaryMatch.CaseEqIs` | varnish-cache/bin/varnishd/cache_http.c:184-206 | two names are the same exactly if they are equally long and each two characters are equal, or the same letter in two cases |
| `VaryMatch.HdrRecased` | varnish-cache/bin/varnishd/cache_http.c:184-206 | lines that differ only in the case of letters have the same headers, with the same values if they differ only in the names |
| `VaryMatch.NamesRecased` | varnish-cache/bin/varnishd/cache_vary.c:85-125 | lists that differ only in the case of letters have the same names but for that |
| `VaryMatch.Trim` | varnish-cache/bin/varnishd/cache_vary.c:103-108 | the two loops trim white space at both ends |
| `VaryMatch.NamesJoined` | varnish-cache/bin/varnishd/cache_vary.c:85-125 | the names found in a comma separated list are the names it was made of, whatever the white space |
| `VaryMatch.NextName` | varnish-cache/bin/varnishd/cache_vary.c:90-120 | the loops over one name and the white space after it |
| `VaryMatch.EntryFor` | varnish-cache/bin/varnishd/cache_vary.c:93-117 | the entry of one name, encoded; refused exactly if the name or the value does not fit |
| `VaryMatch.Create` | varnish-cache/bin/varnishd/cache_vary.c:66-133 | no matching string without a Vary header; a panic for a malformed list, a name over 126 bytes or a value over 0xffff; else the entries in order |
| `VaryMatch.EntryAt` | varnish-cache/bin/varnishd/cache_vary.c:99-117 | entries follow each other without gaps |
| `VaryMatch.EntryParts` | varnish-cache/bin/varnishd/cache_vary.c:143-149 | name, length and value are read back from an entry as they were written |
| `VaryMatch.Match` | varnish-cache/bin/varnishd/cache_vary.c:135-180 | true exactly if every entry agrees with the request and none is ambiguous; a failed assertion of http_GetHdr exactly if the first entry of which that is not true has a value of 0xffff bytes and the request lacks its header |
| `VaryMatch.InValue` | varnish-cache/bin/varnishd/cache_http.c:213-215 | what follows an absent header with a value of 0xffff bytes is taken from the value, where no name can be |
| `VaryMatch.CreateThenMatch` | varnish-cache/bin/varnishd/cache_vary.c:66-180 | for all requests: one matches a string made from another exactly if every header named by Vary is absent from both or equal after trimming, and no value is 0xffff bytes long; it panics exactly if it lacks a header with so long a value and agrees on all before; so a request matches its own string exactly if none of its values is that long |
| `VaryMatch.AnyCase` | varnish-cache/bin/varnishd/cache_vary.c:66-180 | letters of header names in the other case, in either request, in the object or in its list of names, change neither whether a string is made nor whether it matches; and not the string itself, if the list is not changed |
| `VaryMatch.LongestValue` | varnish-cache/bin/varnishd/cache_vary.c:66-180 | a request with a value of 0xffff bytes does not match its own string, and one without that header panics on it |
| `BanLog.ReadOne` | varnish-cache/bin/varnishd/storage_persistent.c:746-777 | one appended ban is read back, and reading goes on behind it |
| `BanLog.RoundTrip` | varnish-cache/bin/varnishd/storage_persistent.c:687-781 | all bans that were appended are read back in order, with return code 0 |
| `BanLog.Layout` | varnish-cache/bin/varnishd/storage_persistent.c:693-710 | the bytes of a logged ban: BAN and a NUL, eight of time, four of flags, four of length with the low byte first, the text and its NUL |
| `BanLog.ReadHeader` | varnish-cache/bin/varnishd/storage_persistent.c:746-773 | each check and its code, 1001 to 1004, in order |
| `BanLog.ReadBans` | varnish-cache/bin/varnishd/storage_persistent.c:744-780 | over any bytes: the bans before the first bad one, and its code, unless the closing assertion fails |
| `BanLog.Area.AppendBan` | varnish-cache/bin/varnishd/storage_persistent.c:687-712 | an area gains one ban behind the others, and its length with it; the new signature stands behind all bans |
| `BanLog.Area.PutBan` | varnish-cache/bin/varnishd/storage_persistent.c:693-710 | the five copies write one encoded ban |
| `BanLog.Area.OpenBans` | varnish-cache/bin/varnishd/storage_persistent.c:730-781 | opening an area reloads exactly its bans |
| `BanLog.NewBan` | varnish-cache/bin/varnishd/storage_persistent.c:714-724 | a new ban goes to both copies, each with its signature behind it |
| `BanLog.LogAndReopen` | varnish-cache/bin/varnishd/storage_persistent.c:687-781 | any sequence of bans that fits is read back from either copy |
| `Silos.PlaceApart` | varnish-cache/bin/varnishd/storage_persistent.c:1078-1110 | a new segment gets a place of its own exactly if no older segment is in the way; the checks look only at the first segment of the list |
| `Silos.PlaceLaid` | varnish-cache/bin/varnishd/storage_persistent.c:1078-1110 | placed in order, segments stay laid out around the silo |
| `Silos.LaidApart` | varnish-cache/bin/varnishd/storage_persistent.c:1078-1110 | segments laid out in order do not overlap |
| `Silos.StartsOverTwice` | varnish-cache/bin/varnishd/storage_persistent.c:1084-1095 | a segment lands on one that has started over before only if the last one ended past the start of the oldest, by at most eight bytes: only after an overrun |
| `Silos.Misplaced` | varnish-cache/bin/varnishd/storage_persistent.c:1078-1110 | a segment is placed on another one exactly if the last one ended at or past the start of the oldest, and there is room up to the end of the silo or a segment that started over is too close to its beginning |
| `SiloRuns.OnOldest` | varnish-cache/bin/varnishd/storage_persistent.c:1078-1110 | a run of a new silo of one mebibyte in which the 181st segment is placed on the oldest one left, which has an object, and both hand out the same bytes |
| `SiloRuns.OnNewest` | varnish-cache/bin/varnishd/storage_persistent.c:1078-1110 | a run of such a silo in which a segment overruns past the start of the oldest, and the next one is placed on a live one at the beginning |
| `Silos.Ends` | varnish-cache/bin/varnishd/storage_persistent.c:1160-1182 | a closed segment is eight bytes longer than planned exactly if nothing but the reserve was left |
| `Silos.Seg.Grab` | varnish-cache/bin/varnishd/storage_persistent.c:1394-1414 | an allocation follows the last one and leaves the reserve |
| `Silos.Silo.constructor` | varnish-cache/bin/varnishd/storage_persistent.c:1223-1268 | an empty silo opens its first segment |
| `Silos.Silo.NewSeg` | varnish-cache/bin/varnishd/storage_persistent.c:1057-1129 | gives up exactly if there is no place; else a blank segment is open, with room for its reserve |
| `Silos.Silo.CloseSeg` | varnish-cache/bin/varnishd/storage_persistent.c:1135-1190 | the checks on count and space hold; an empty segment is dropped, another one is closed behind its allocations; then a segment is dropped exactly if neither it nor one before it has objects, whatever allocations still await theirs; so the closed one, whose end the code still reads, exactly if no segment has objects |
| `Silos.Silo.WriteIndex` | varnish-cache/bin/varnishd/storage_persistent.c:1159-1184 | the index lies between its signature and the closing one, behind all allocations, and the segment ends eight bytes, two signatures and the index past them; overrun exactly if nothing but the reserve was left, never if the length is an odd multiple of eight |
| `Silos.Silo.DropEmpty` | varnish-cache/bin/varnishd/storage_persistent.c:624-641 | exactly the leading segments without objects leave the list |
| `Silos.Silo.Alloc` | varnish-cache/bin/varnishd/storage_persistent.c:1330-1430 | what fits the open segment whole is granted there, in full; what is not an object and does not fit is cut down there if more than 4096 bytes are left for it, so that fewer than sixteen bytes beyond the reserve stay; anything else goes in the same way to the first of three new segments that has room, and the process gives up exactly if there is no place for one of them |
| `Silos.Silo.Try` | varnish-cache/bin/varnishd/storage_persistent.c:1345-1387 | one round of the loop: granted exactly if all of it fits, or more than 4096 bytes of what is not an object; in full exactly if it fits |
| `Silos.Silo.Renew` | varnish-cache/bin/varnishd/storage_persistent.c:1380-1387 | closing the open segment and opening another leaves the segments from the first one with objects on, and a new one where smp_new_seg puts it; it fails exactly if the closed one ends past the silo or there is no place |
| `Silos.Silo.Bump` | varnish-cache/bin/varnishd/storage_persistent.c:1394-1414 | the allocation, the counts and the reserve move together |
| `Silos.Silo.Object` | varnish-cache/bin/varnishd/storage_persistent.c:1293-1324 | each object takes the next descriptor, never more than were reserved |
| `Silos.Silo.Do` | varnish-cache/bin/varnishd/storage_persistent.c:1293-1430 | one allocation, registration or free: only the segment named changes, by one descriptor and object, or by one object; an allocation changes the open one, and others only where it has no room |
| `Silos.Silo.Run` | varnish-cache/bin/varnishd/storage_persistent.c:1293-1430 | any run, step by step up to where the process gives up, is one of a plain list of segments with their counts; it keeps C_ALIGN(objreserv) + 2 * SEG_SPACE bytes free in the open segment, nalloc2 <= nalloc1 <= aim_nobj and objreserv at nalloc1 descriptors |
| `Silos.Silo.AllocNext` | varnish-cache/bin/varnishd/storage_persistent.c:1345-1414 | the path of smp_alloc for an object that does not fit: the open segment is closed at its end, the new one goes where smp_new_seg puts it, and the object to its beginning |
| `Silos.Silo.AllocsApart` | varnish-cache/bin/varnishd/storage_persistent.c:1394-1400 | no two allocations of listed segments overlap, in one segment or, while every segment was placed in order around the silo, in two |
| `SiloRuns.Overrun` | varnish-cache/bin/varnishd/storage_persistent.c:1135-1190 | in a new silo of one mebibyte, a segment of 5824 bytes filled by one object closes at 5832 |
| `SiloRuns.ReadAfterFree` | varnish-cache/bin/varnishd/storage_persistent.c:1184-1189 | there, a segment without objects is dropped by its own closing, which still reads its end |
| `SiloRuns.LostObject` | varnish-cache/bin/varnishd/storage_persistent.c:1184-1189 | there, a segment is dropped that still awaits smp_object for an allocation |
| `SiloMetrics.SmpMetrics` | varnish-cache/bin/varnishd/storage_persistent.c:451-514 | the number of segments is halved until one holds a struct object, and the planned one lies at the exponential average of the least and the greatest; it fails exactly if the halving comes to zero, where the code divides by it |
| `SiloMetrics.AimBetween` | varnish-cache/bin/varnishd/storage_persistent.c:481-499 | with room for eighteen objects the halving ends, and the planned segment holds an object, is no shorter than the shortest, and no longer than the space |
| `SiloMetrics.OneMebibyte` | varnish-cache/bin/varnishd/storage_persistent.c:451-514 | one mebibyte gives segments of 5825 bytes and 26 objects |
| `SiloRuns.NewSilo` | varnish-cache/bin/varnishd/storage_persistent.c:338-514 | a silo of any number of pages gets a space for segments and dimensions with which it can be opened |
| `SiloRuns.Grow` | varnish-cache/bin/varnishd/storage_persistent.c:1057-1190 | any number of segments, one behind the other, each closed eight bytes past its planned end and none dropped |

## Left out

- HashCritBit.HashCritBit.Lookup: the unlocked first pass runs on a tree that does not change meanwhile; its race with a delete, where safety rests on the cool-off time, is not modelled.
- Lockstep.Lockstep: the return value of a deref and the moment of deletion differ between the two slingers and are not compared.
- BanLists.BanList.CheckObject: one check of one object is atomic; the lurker and a lookup on the same object at once are not modelled, but sections and rounds of insertions may come between the checks.
- BanLists.BanList.Insert: a ban text stands for its conditions through an uninterpreted function; regular expressions and argument parsing are not modelled, the clock is assumed to advance from one ban that enters the list to the next, and the call of SMP_NewBan is left to `BanLog`.
- BanLists.BanList.Publish: its time is required to be later than that of the head; the code takes it before the lock, so two insertions at once can enter in the other order.
- BanLists.BanList.Enter: the same requirement on the time.
- BanLists.BanList.Adopt: a ban with the time of the object, not older than the held tail, is required to be listed, which BAN_RefBan asserts.
- HashProtocol.ObjHead.Lookup: what the ban and Vary checks say of an object is a parameter here; their side effects on the object, hit counters and statistics are not modelled. The director is healthy or not.
- HashProtocol.ObjHead.DerefObjCore: a busy objcore is required to be held once, as the callers that give a fetch up assume; that the expiry thread looks at the persistent flag without the lock is not modelled.
- StorageFile.SmfSc.constructor: the page size is a power of two, as that of the system is; the granularity argument of -sfile allows others, for which the mask of smf_alloc does not round.
- StorageFile.SmfSc.NewSmf: the caller of the model guarantees that mapped ranges do not overlap, which mmap and smf_open_chunk do, and calls it before the first allocation; the recursion of smf_open_chunk is not modelled.
- ShmLog.Log.VSLR: each write completes before the next begins; the copy after the mutex is released, memory barriers and concurrent readers are not modelled. Records are required to fit the log and the buffers.
- Chunked.RoundTrip: chunk extensions and trailers are not modelled; the code does not read what follows the last size line.
- VaryMatch.CreateThenMatch: names longer than 126 bytes are a panic, as they are where char is signed.
- BanLog.Area.AppendBan: signatures are ideal, a given 32-byte value that verifies; the ban is required to fit, which the code does not check.
- Silos.Silo.Alloc: after three failed tries the model returns null; the code looks at the segment it has closed, which may have been freed. Sizes do not wrap around 64 bits.
- Silos.Silo.AllocsApart: what a dropped segment has handed out can be handed out again, objects it still awaits included; smp_object for one of those is not followed.
- Silos.Silo.constructor: a silo without segments is opened; those that a silo already has are not loaded.
- SiloMetrics.SmpMetrics: the exponential average is exact, where the code rounds in floating point.
- Silos.Silo.NewSeg: giving up covers both the orderly exit for lack of space and the assertions that fail.
- Silos.Silo.CloseSeg: when the closed segment is dropped and freed, the model still takes its end for the next place; what the code reads there is not defined.
- smp_trim, which returns at once, loading of segments and objects from a silo, and SMP_BANchanged and SMP_TTLchanged.
- cache_esi.c: its parser depends on how a body is cut into storage segments.
- fetch_eof and FetchReqBody, which add no case that fetch_straight and fetch_chunked do not have.
- hash_classic.c, which has the interface of the other two slingers.
- Statistics counters other than sm_balloc and sm_bfree, debug output, magic numbers, and the assertions on them.
- Management process, command line, parameters, waiters, log tools and varnishtest.
- Out of memory: allocations succeed, as the code asserts.
