# A verified model of the Yarn FUSE linker

The repository turns a Yarn install plan into a FUSE file system. A TypeScript plugin computes a
tree of packages and hands it to a Go daemon, which serves the packages straight out of their
archives. This project models the parts where that can go wrong:

* **The archive index and its cache** (`Paths`, `NestedIndex`, `ZipIndex`, `ZipGetter`, `ZipCache`,
  `ZipDir`). `processZip` folds the flat entry list of an archive into directory -> name -> entry.
  `ProcessedZip` and `ZipCacheObject` are that code as objects, `ZipCache` is the two-lock protocol
  of `GetZip` as a state machine of any number of threads, with evictions and failed opens, and
  `ZipDir` answers lookups and listings from the index.
* **Inode numbers and the overlay** (`Inodes`, `DependencyTree`, `DirStream`, `FuseTypes`,
  `UnionFs`). `getInoStart` hands out blocks of numbers, `init` runs it over all mounts, and the
  dependency tree is laid over the archives.
* **The install plan** (`Locations`, `LocationTree`, `FuseTree`, `BinLinks`, `PackageLocation`).
  `buildLocationTree` builds nested mutable maps (`LocationTree`); what it builds is the flat
  `Forest` of `Locations`. `buildFuseTree` compiles that into the daemon's input,
  `createBinSymlinkMap` computes the links to scripts, and `findPackageLocation` picks a location.
* **Both ends together** (`MountedSystem`). The daemon's trees decode the plugin's output, so a
  location of the locator map, walked in the mounted system, ends in its package's archive.
* **Pooled readers** (`FlateReaders`), as objects and as a state machine of their owners.

Code that changes state is a class or a method with loops. It is proved equal to a function
(`IndexOf`, `Assigned`, `ApplyAll`, `Mounts`, `RootsTable`, `StableSort`), and the theorems say what
that function means without its own recursion: last packages of the map, first requests, nearest
packages in document order, distinctness, exact domains. The small functions underneath, such as path
cleaning, the split of a target or the join of a script, have theorems of their own that spell out
their answers on raw input.

## Where the code does not do what one would expect

These are proved, each with the exact condition where there is one.

* The strip prefix is compared as a string. It means "inside that directory" exactly for entries
  whose remaining path starts with a slash (`PrefixMeansInside`); an entry of a sibling whose name
  starts with the prefix is indexed too, and can take the place of a file inside
  (`SiblingKept`, `SiblingCollides`). With the whole archive as target, the cleaned prefix is `.`
  and only names that begin with a dot are kept (`WholeArchivePrefix`).
* An explicit but empty directory can be looked up but not listed (`DirectoryKeys`).
* Listing an archive with dependency children fails exactly if the archive does not open or nothing
  of it is kept; the dependency children can be looked up all the same (`FailedListing`). When the
  listing succeeds, a lookup agrees on a name exactly if its own call opens the archive, or the
  name is a dependency child, or it was not listed (`ListingAgreesWithLookup`, `CallsAgree`).
* The cache is keyed by path only. A second request with other arguments gets the first one's index
  (`FirstRequestWins`), which for two targets in one archive is its own only if neither keeps
  anything (`WrongIndexServed`). One target string per archive is enough to exclude it
  (`RequestsAreConsistent`).
* With at most `INO_STEP - 1` entries an archive, no entry has the number of a node or of another
  target's entry up to exactly 18,446,744,073 blocks (`NumbersApart`, `BlockBoundIsExact`); without
  wrapping they fit in uint64 up to exactly one block less (`FitBoundIsExact`). The bound on entries
  is exact too (`EntryBoundIsExact`).
* Packages placed below a location root marked SOFT are not served at all, and that is the only
  location root for which this happens (`SoftRootServesNothing`, `MeaningPreserved`).
* The order of the location roots can matter for the links of a root inside `node_modules`; the exact
  condition is `RootOrderMatters`. Such a root is SOFT, so its links are never used
  (`InsideRootsAreSoft`).
* A bin link may leave its package: it stays inside exactly when the normalised script path comes
  back by the names it climbed over (`ScriptStaysInside`, `ScriptBesideEscapes`).

## Model

| member | source | states |
|---|---|---|
| Paths.CleanPlain | fuse/zip/zipGetter.go:100 | cleaning leaves a relative path of plain components alone |
| Paths.CleanSkips | fuse/zip/zipGetter.go:100 | an empty component or "." behind the first component changes nothing, wherever it stands; a trailing slash is one case |
| Paths.CleanLeadingDot | fuse/zip/zipGetter.go:100 | a leading "." changes nothing |
| Paths.CleanDrops | fuse/zip/zipGetter.go:100 | ".." takes back the plain component before it |
| Paths.CleanAboveRoot | fuse/zip/zipGetter.go:100 | ".." at the root changes nothing |
| Paths.CleanClimbs | fuse/zip/zipGetter.go:100 | a relative path keeps the ".." it starts with |
| Paths.CleanRooted | fuse/zip/zipGetter.go:100 | a rooted path of plain components stays as it is |
| Paths.CleanSpells | fuse/zip/zipGetter.go:100 | a relative path without ".." becomes its non-empty components other than ".", or "." if there are none |
| Paths.JoinPlain | fuse/zip/zipGetter.go:124 | joining the running directory with one more component appends exactly that component |
| ZipIndex.IndexStep | fuse/zip/zipGetter.go:98-150 | one more archive entry changes the index by at most one write at the end, and only a kept entry uses up a number |
| ZipIndex.IndexRefinement | fuse/zip/zipGetter.go:98-150 | a directory key exists iff some kept entry passes through it, a name exists iff some kept entry is recorded there, and it carries number, kind and data of the last such entry |
| ZipIndex.InodesFollowArchiveOrder | fuse/zip/zipGetter.go:89-145 | inode numbers lie in [inoStart, inoStart + kept entries), are pairwise distinct over all directories, and increase in archive order, when that range fits in uint64 |
| ZipIndex.NumberOfListed | fuse/zip/zipGetter.go:141-145 | a listed name has the number of the last kept entry recorded there, also where numbers wrap around |
| ZipIndex.PrefixMeansInside | fuse/zip/zipGetter.go:101-108 | an entry lies inside the prefix directory by components iff it is kept and its rest starts with a slash; it is then recorded under its components below the prefix |
| ZipIndex.EntryInside | fuse/zip/zipGetter.go:100-108 | an entry whose cleaned name is up + segs is kept under the prefix up and recorded under segs |
| ZipIndex.RawEntryInside | fuse/zip/zipGetter.go:100-108 | the same from the raw name, with any empty components, dots and trailing slashes in it |
| ZipIndex.DirectoryEntryInside | fuse/zip/zipGetter.go:100-108 | the entry up/segs is recorded under segs, with a trailing slash as without |
| ZipIndex.PrefixEntrySkipped | fuse/zip/zipGetter.go:101-103 | the prefix directory's own entry is not kept, with a trailing slash or without |
| ZipIndex.SiblingKept | fuse/zip/zipGetter.go:101-108 | for a prefix of any number of plain components, an entry of a sibling directory whose name extends the last one is kept under a mangled name |
| ZipIndex.SiblingCollides | fuse/zip/zipGetter.go:101-108 | for such a prefix, an entry beside the prefix directory and one inside it have the same place in the index |
| ZipIndex.WholeArchivePrefix | fuse/zip/zipRoot.go:75-79 | with an empty strip prefix exactly the names that start with a dot are kept |
| ZipIndex.PlaceBySegments | fuse/zip/zipGetter.go:117-148 | an entry with plain components is recorded under its parent and creates exactly its proper ancestors |
| ZipGetter.ProcessedZip.constructor | fuse/zip/zipGetter.go:155-157 | a new archive object is empty and unprocessed |
| ZipGetter.ProcessedZip.Record | fuse/zip/zipGetter.go:98-149 | the loop over the parts makes exactly the one placement that the entry's path means, or changes nothing when the entry is not kept |
| ZipGetter.ProcessedZip.ProcessZip | fuse/zip/zipGetter.go:82-153 | success leaves the fresh index of the whole archive, a second call changes nothing, and a failed open leaves the object empty and retryable |
| ZipGetter.ZipCacheObject.Evict | fuse/zip/zipGetter.go:180-188 | expiry forgets one key and leaves the archive objects as they are |
| ZipGetter.ZipCacheObject.Add | fuse/zip/zipGetter.go:175 | the new key is present, the capacity of 30 holds, and every other key that is left keeps its object |
| ZipGetter.ZipCacheObject.FindOrAdd | fuse/zip/zipGetter.go:169-176 | under the cache lock a hit changes nothing and a miss leaves a new empty object with this call's arguments |
| ZipGetter.ZipCacheObject.GetZip | fuse/zip/zipGetter.go:168-178 | success returns the complete index for the arguments the cached object was created with, which are this call's on a miss; failure returns an empty object that stays retryable; no other object is touched |
| ZipCache.InvKept | fuse/zip/zipGetter.go:82-178 | every step of every thread, and every eviction, keeps: each lock has one holder, an index under construction is that of the entries read so far, a processed index is the fresh one |
| ZipCache.RunKeepsInv | fuse/zip/zipGetter.go:82-178 | the invariant holds after every run of any length |
| ZipCache.CacheRefinement | fuse/zip/zipGetter.go:82-178 | under any interleaving, evictions and failed opens, a call that succeeds holds exactly the index a fresh build of its own arguments gives; objects of one path that coexist agree; an object nobody is building is complete or empty |
| ZipCache.AnswerIsFresh | fuse/zip/zipGetter.go:168-178 | in every reachable state, what a returned call gave its thread is nothing or the fresh index of its own arguments |
| ZipCache.PublishedStays | fuse/zip/zipGetter.go:85-87 | once processed, an index and its arguments never change again, whatever happens to the cache |
| ZipCache.OtherInoStartDiffers | fuse/zip/zipGetter.go:170 | with equal prefixes, two fresh builds of one archive are equal iff the first numbers are or nothing is kept |
| ZipCache.OtherArgsDiffer | fuse/zip/zipGetter.go:170 | with any two prefixes whose numbers do not meet, two fresh builds of one archive are equal iff both keep nothing |
| ZipCache.FirstRequestWins | fuse/zip/zipGetter.go:168-178 | there is a run in which a second request for a path, with any other arguments, succeeds and returns the index of the first request |
| ZipCache.NoDeadlock | fuse/zip/zipGetter.go:83-176 | whenever some thread is inside GetZip, some thread inside GetZip can take a step |
| ZipCache.StepsUseUpWork | fuse/zip/zipGetter.go:82-178 | every step inside a call uses up remaining work and evictions add none, so calls end |
| ZipDir.ZipDirs.Lookup | fuse/zip/zipDir.go:26-62 | a name is found iff the archive opens and lists it, as a directory node or a file node with the listed kind and number; a success uses up one generation, a failure none |
| ZipDir.ListAll | fuse/zip/zipDir.go:70-85 | the loop over a directory fills the list with every name once, with its kind and number, for any map order |
| ZipDir.ZipDirs.Readdir | fuse/zip/zipDir.go:64-90 | exactly the names of the directory are listed; it fails iff the archive does not open or the path has no key |
| ZipDir.LookupIsLastEntry | fuse/zip/zipDir.go:33-57 | one lookup answers for a path exactly as the last kept entry with these components says |
| ZipDir.WalkMeansListed | fuse/zip/zipDir.go:26-62 | a walk of lookups succeeds iff the path is listed and each proper ancestor was last listed as a directory, and it ends at the last entry for the path |
| ZipDir.DirectoryKeys | fuse/zip/zipGetter.go:120-123 | a directory can be listed iff a kept entry lies properly below it |
| ZipDir.WalkInClosedArchive | fuse/zip/zipDir.go:26-62 | when every proper ancestor of a kept entry is listed as a directory, a walk succeeds exactly on the kept entries |
| Inodes.InodeAllocator.constructor | fuse/main.go:37-50 | nothing is allocated at the start |
| Inodes.InodeAllocator.GetInoStart | fuse/main.go:164-188 | the answer and the new cache and counter are those the whole log of requests determines: block of the first equal request, generation by count |
| Inodes.AnswersFollow | fuse/main.go:164-188 | the first request gets 10^9 and generation 1; every request that is not a repeated non-empty HARD target gets the number 10^9 after the last such one and generation 1; a repeated one gets the number of the request before it and the next generation, all in uint64 |
| Inodes.BlockShared | fuse/main.go:167-174 | two requests use the same block iff they are the same request or ask for the same non-empty HARD target |
| Inodes.GenerationsCount | fuse/main.go:170-173 | the requests for one target get generations 1, 2, 3 and so on |
| Inodes.IdentitiesUnique | fuse/main.go:164-188 | up to 18,446,744,073 blocks no two requests get the same (ino, gen); equal HARD targets share the ino, all other inos are at least a block apart |
| Inodes.EntryInBlock | fuse/main.go:217 | up to 18,446,744,072 blocks, an archive with at most INO_STEP - 1 kept entries numbers them strictly inside its target's block |
| Inodes.NumbersApart | fuse/main.go:217 | up to 18,446,744,073 blocks, no entry number of any block is a node's number or the number of an entry of another block, wrapping included |
| Inodes.EntryIsNoNode | fuse/main.go:217 | no archive entry has the number of any request's node |
| Inodes.EntriesApart | fuse/main.go:217 | archives of different requests share no entry number |
| Inodes.EntryBoundIsExact | fuse/main.go:35 | entry k is inside its block iff k <= INO_STEP - 2, and the next one has the number of the next block |
| Inodes.FitBoundIsExact | fuse/main.go:37 | all entry numbers of a block fit in uint64 without wrapping iff it is at most block 18,446,744,072 |
| Inodes.BlockBoundIsExact | fuse/main.go:37 | in a run with 18,446,744,074 blocks an archive of the last one can give an entry the number of the first block's node, and the two blocks' nodes are less than a step apart |
| DependencyTree.DependencyRoot.Init | fuse/main.go:134-142 | initialising a tree gives every node of it one request of its own and makes no other request |
| DependencyTree.DependencyRoot.InitChild | fuse/main.go:140 | initialising one child adds its nodes to the settled ones |
| DependencyTree.DependencyRoot.InitChildren | fuse/main.go:139-141 | the same for the loop over the children, in any map order |
| DependencyTree.MountRoot.Init | fuse/main.go:134-142 | a mount gets the unmount entry and its children's numbers, while the root's own number goes to the copy; earlier mounts keep theirs |
| DependencyTree.FuseData.InitMount | fuse/main.go:289-291 | one mount more is initialised and the mounts still to come are untouched |
| DependencyTree.FuseData.Init | fuse/main.go:288-292 | after all mounts, the nodes of all trees with the injected entries have one request each and there are no other requests, for any map order |
| DependencyTree.Accounting | fuse/main.go:164-188 | the last number is INO_STEP times (distinct non-empty HARD targets + nodes that are SOFT or have no target), and the cached generation of a target is the number of HARD nodes carrying it |
| DependencyTree.NodesDistinct | fuse/main.go:134-142 | no two nodes of any mounts have the same (ino, gen) |
| DirStream.MultiDirStream.constructor | fuse/MultiDirStream.go:35-37 | the stream starts with the given streams in their order |
| DirStream.MultiDirStream.HasNext | fuse/MultiDirStream.go:14-23 | the answer is whether anything remains; what remains does not change, and afterwards the first stream has an entry |
| DirStream.MultiDirStream.Next | fuse/MultiDirStream.go:25-27 | it delivers the first remaining entry and only that |
| DirStream.MultiDirStream.Drain | fuse/MultiDirStream.go:14-27 | HasNext and Next in turn deliver exactly the concatenation of the streams, and this ends |
| UnionFs.ArchiveWalk | fuse/zip/zipDir.go:26-62 | once inside an archive a walk never returns to the dependency tree; it is found iff the fresh index has it and every call on the way opens the archive |
| UnionFs.DepPartIsLongest | fuse/main.go:194-200 | the part of a path that a walk follows in the dependency tree is the longest one that leads from dependency to dependency through ones that can be opened |
| UnionFs.UnionWalk | fuse/main.go:190-256 | any walk from a mount, with any failed opens on the way, follows the dependency tree for that longest part and then asks the package reached for the rest |
| UnionFs.PathIntoArchive | fuse/main.go:114-119 | a path that leaves the dependency tree at an archive is found iff the archive lists it below directories and every call opens it, and ends at the archive's last entry for it |
| UnionFs.ReaddirDep | fuse/main.go:144-154 | every dependency child is listed once with its kind and number |
| UnionFs.ReaddirZip | fuse/main.go:121-132 | the archive's entries and then the dependency children are listed, nothing lost or repeated within either part |
| UnionFs.ListingAgreesWithLookup | fuse/main.go:114-132 | with a call of its own for each, listing and lookup agree on a name iff the lookup's call opened the archive, or the name is a dependency child, or it is not listed; what is found has kind and number of a listed entry, the dependency's on a clash |
| UnionFs.FailedListing | fuse/main.go:121-125 | the listing fails iff the archive does not open or nothing of it is kept; a name is still found iff it is a dependency child or the lookup's own call opens the archive and lists it |
| UnionFs.CallsAgree | fuse/main.go:114-132 | both statements for any two returned calls in any two reachable states of the cache, so with any evictions, expiries and failed opens before, between and after |
| UnionFs.ViewAt | fuse/main.go:52-57 | every dependency value a walk meets is the view of one initialised node object |
| UnionFs.FindIsFirst | fuse/main.go:214-215 | a substring is found at its first position, and not found iff it occurs nowhere |
| UnionFs.ArchiveOfTarget | fuse/main.go:215-217 | a target path.zip/inner whose first ".zip/" ends path.zip names the archive path.zip, the cleaned prefix inner and the number after the node's; a target names none iff ".zip/" occurs nowhere in it |
| UnionFs.NodeOfTarget | fuse/main.go:202-256 | which node serves a dependency, from its link type and the text of its target: a link, a plain directory, the top of the named archive, the loopback directory, or the end of the process |
| UnionFs.ChildIs | fuse/main.go:156-205 | a child is found iff it is listed, as a symbolic link for SOFT and a directory for HARD, under its own number and generation, and is listed with the same kind and number |
| UnionFs.RequestIsServed | fuse/main.go:215-225 | the archive arguments a node asks for are exactly those of the archive it is served from |
| UnionFs.RequestsAreConsistent | fuse/main.go:213-225 | with one target string per archive, every request for an archive path has the same prefix and first number, which is what the cache needs |
| UnionFs.WrongIndexServed | fuse/main.go:213-225 | for two targets in one archive there is a run in which the second one gets the first one's index, and that is its own iff neither keeps anything |
| UnionFs.EntriesApartFromNodes | fuse/main.go:217 | after initialisation no archive entry has the number of any dependency node |
| UnionFs.EntriesOfTargetsApart | fuse/main.go:217 | after initialisation archives of different targets share no number |
| FlateReaders.ReaderPool.Get | fuse/zip/decompressor.go:78 | a reader that is handed out is no longer in the pool |
| FlateReaders.PooledFlateReader.Read | fuse/zip/decompressor.go:92-99 | a closed handle errors and touches no reader, an open one delivers its reader's next chunk |
| FlateReaders.PooledFlateReader.Close | fuse/zip/decompressor.go:101-111 | the first close hands the reader back, later ones do nothing |
| FlateReaders.NewFlateReader | fuse/zip/decompressor.go:77-85 | the reader behind a new handle is fresh or recycled, reset to the new source, and no longer in the pool |
| FlateReaders.StepKeepsInv | fuse/zip/decompressor.go:77-111 | every step of every goroutine keeps single ownership of readers |
| FlateReaders.ReadersAreOwnedOnce | fuse/zip/decompressor.go:75-111 | over all interleavings no reader is owned by two handles or by a handle and the pool, and the n-th read of a handle yields chunk n of its own source |
| FlateReaders.OpenRecycled | fuse/zip/decompressor.go:77-85 | a handle opened on a recycled reader is at chunk 0 of its own source, and the pool has lost the reader |
| FlateReaders.OpenFresh | fuse/zip/decompressor.go:77-85 | a handle opened without one has a new reader at chunk 0 of its own source |
| FlateReaders.CloseHandsBack | fuse/zip/decompressor.go:101-111 | closing an open handle shuts it and puts its reader into the pool; closing it again changes nothing |
| FlateReaders.ShutStaysShut | fuse/zip/decompressor.go:95-97 | a closed handle stays closed; reading it errors and changes nothing, however the reader was recycled |
| Locations.ParseKeepsLocation | sources/index.ts:152-178 | it throws iff the location is outside the project; otherwise root and segments put together are the location, split at the first node_modules, or before the last segment if there is none |
| Locations.LastWriteWins | sources/index.ts:197-242 | a node exists iff some write passes through it; locator and link type are those of the last write to it, the target that of the last package placed there, which a mark leaves alone; a node never written is a plain HARD directory |
| Locations.OpsAt | sources/index.ts:197-242 | the writes of each package of the map stand together, in the order of the map |
| Locations.MarkWritten | sources/index.ts:198-209 | a SOFT package whose target is in the project marks that directory with its locator, before its own locations |
| Locations.PlaceWritten | sources/index.ts:211-241 | every location is written with its package's locator, link type and target, in their order behind the mark |
| Locations.EveryWrite | sources/index.ts:197-242 | there are no other writes |
| Locations.TreeMeansMap | sources/index.ts:185-246 | from the map alone: a node exists iff a location leads to or through it or a SOFT package marks it; it has locator and link type of the last package of the map that marks it or has a location there, and the target of the last one with a location there |
| Locations.RealIs | sources/index.ts:222-224 | only the segment "." is passed over on the way down |
| Locations.WriteShape | sources/index.ts:197-242 | every write lies inside the project and names a package of the map; the root of a location has no node_modules below the project, and its segments, if there are several, start with node_modules |
| Locations.StoredLocatorsAreKeys | sources/index.ts:282-284 | every locator in the tree is a key of the locator map and every node lies inside the project |
| LocationTree.LocationTree.GetRoot | sources/index.ts:216-220 | the root is found or made, and nothing else changes |
| LocationTree.LocationTree.GetChild | sources/index.ts:226-233 | the child is found or appended, and every other node keeps its content and children |
| LocationTree.LocationTree.AddNode | sources/index.ts:226-232 | a new node is appended to its parent's children and every other node keeps its content and children |
| LocationTree.LocationTree.Write | sources/index.ts:236-240 | one node gets the locator and link type, and the target if there is one; every other node is untouched |
| LocationTree.LocationTree.Assign | sources/index.ts:236-240 | the field assignments change what that one node holds and no children |
| LocationTree.LocationTree.Attach | sources/index.ts:232 | the parent gets the child and its name and no other node changes |
| LocationTree.LocationTree.PlaceAt | sources/index.ts:212-241 | the walk with a moving node creates the missing nodes and writes the last one |
| LocationTree.LocationTree.MarkAt | sources/index.ts:198-209 | a SOFT package marks its own directory without setting a target |
| LocationTree.PlaceAll | sources/index.ts:211-242 | all locations of a package are placed in order; it throws iff one is outside the project |
| LocationTree.AddPackage | sources/index.ts:197-242 | the mark and then the locations of one package |
| LocationTree.BuildLocationTree | sources/index.ts:185-246 | the nested mutable maps are the flat forest of all writes in order; it throws iff some location is outside the project |
| FuseTree.BuiltWellFormed | sources/index.ts:185-246 | in every built tree children and roots are listed once each and every node has its parent |
| FuseTree.AttachBins | sources/index.ts:362-375 | a bin directory is made if missing and gets every link, over what was there |
| FuseTree.BuildFuseTree | sources/index.ts:337-381 | the loops in insertion order compute the specified mounts |
| FuseTree.FollowMapped | sources/index.ts:343-352 | a mapped node shows exactly the nodes of the location tree below it |
| FuseTree.FollowMount | sources/index.ts:358-377 | below a mount a path is a bin link, the directory made for bin links, or exactly the node of the location tree |
| FuseTree.MountsAre | sources/index.ts:354-379 | the mounts are exactly the children of roots that are not SOFT, each with its root's bin links |
| FuseTree.MeaningPreserved | sources/index.ts:185-381 | from the map alone: for every location that is not the project directory, below a root that is not SOFT and not taken by a bin link, the daemon's input has at that very path the link type and target of the last package of the map with a location there |
| FuseTree.SoftRootServesNothing | sources/index.ts:355-357 | the condition is exact: when the last package of the map that writes a location root is SOFT, nothing below that root is served |
| FuseTree.MarkedRootServesNothing | sources/index.ts:198-209 | the target of a SOFT package is a SOFT root with its locator and nothing below it is served, unless a later package writes that directory |
| FuseTree.ChildrenInWriteOrder | sources/index.ts:226-232 | children stand in the order of the first writes that reach them |
| FuseTree.RootsInWriteOrder | sources/index.ts:216-220 | location roots stand in the order of the first writes that reach them |
| FuseTree.EmittedNodesAreMeant | sources/index.ts:185-381 | every node of the daemon's input lies below a root that is not SOFT and is a location with link type and target of the last package of the map that has it, an intermediate directory without target, the bin directory or a SOFT bin link |
| BinLinks.ScriptResolves | sources/index.ts:285-290 | joining a script to a location: plain names follow the location, empty names and "." vanish, ".." takes back the name before it or climbs one level, and nothing is above the top |
| BinLinks.ScriptStaysInside | sources/index.ts:285-290 | a link's target starts with its package's location iff the normalised script path comes back by the names it climbed over; a path that does not climb always does |
| BinLinks.ScriptBesideEscapes | sources/index.ts:285-290 | a script ../name of a package not called name is linked outside the package |
| BinLinks.BinLinker.OwnLinks | sources/index.ts:284-291 | one link per script of the package, to the script joined to the package's location, and no other link |
| BinLinks.BinLinker.GetBinSymlinks | sources/index.ts:276-322 | the recursion returns the node's exported links and leaves the specified table, whatever was in the table |
| BinLinks.BinLinker.CreateBinSymlinkMap | sources/index.ts:274-335 | the loop over the location roots leaves the specified table |
| BinLinks.FrontierIsNearest | sources/index.ts:282-320 | the packages a node's links come from are exactly those with no other package between |
| BinLinks.FrontierInOrder | sources/index.ts:309-320 | the nearest packages are met in document order: below their deepest common ancestor the earlier one stands under an earlier child |
| BinLinks.ExportedIsMerged | sources/index.ts:276-322 | a node exports the merge of its nearest packages' links in insertion order |
| BinLinks.MergedIsLast | sources/index.ts:316-318 | a name is linked iff one of the packages has it, and to the script of the last package that does |
| BinLinks.TableWritesBelow | sources/index.ts:299-306 | the recursion on a node touches only directories of nodes below it |
| BinLinks.DirectoriesDisjoint | sources/index.ts:299-306 | no two nodes with children in the built trees, of one location root or of different ones, have the same directory |
| BinLinks.TableAt | sources/index.ts:292-308 | the recursion adds to each directory below it exactly what the package there collects from its children |
| BinLinks.RootsTableAt | sources/index.ts:324-332 | every directory of the table holds the pieces of the roots merged in their order: what its node collects, and a root's own links |
| BinLinks.RootsTableNoneEmpty | sources/index.ts:298 | no directory gets an entry without links |
| BinLinks.RootEntry | sources/index.ts:324-332 | a location root gets what its children export overridden by its own links, merged in the order of the roots with what a package of another root's tree collects for the same directory |
| BinLinks.RootOrderMatters | sources/index.ts:324-332 | two orders of the roots give the same entry for a directory, unless it is a root itself, they put it and its node's root differently, and some name has different targets in the two's links: exactly then they differ |
| BinLinks.BuiltTreeIsReady | sources/index.ts:282-284 | for the tree of any locator map the script lookup never fails, every node is inside the project, and no location root inside node_modules has children |
| BinLinks.InsideRootsAreSoft | sources/index.ts:198-209 | a location root inside node_modules only comes from the mark of a SOFT package, so it is SOFT and its part of the table is never used |
| BinLinks.LinksAreOfNearest | sources/index.ts:309-319 | the packages whose links are merged below a node are exactly the nearest ones |
| BinLinks.BinLinksSpecified | sources/index.ts:248-335 | for any locator map, every location root gets the ordered merge of its nearest packages below, later winning, overridden by its own links; only a root inside node_modules can also get those of a package at the same directory in another root's tree |
| BinLinks.MountedRootEntry | sources/index.ts:324-332 | every root that has mounts gets exactly the links of its nearest packages and itself |
| BinLinks.BinLinkServed | sources/index.ts:248-381 | in the plugin's whole output, .bin/n of every mount is the SOFT link to the script n of the last provider: a package provides it if it has a script n and no other package but the root itself stands above it, the last one is the last in document order or the root, and the target is its location joined with the script, for plain names exactly the one followed by the other; some provider is the last if there is one, and without one there is only what the location tree itself has there |
| MountedSystem.HoldsView | fuse/main.go:52-57 | a decoded tree of objects has the plugin's link types, targets and children in every state, whatever numbers initialisation gives it |
| MountedSystem.CopyDecodes | fuse/main.go:134-142 | the copy that a mount is served from is the decoded mount with the injected entry |
| MountedSystem.DependencyOfLocation | sources/index.ts:337-381 | every served location of the map is a dependency of the mounted tree with the link type and target of the last package of the map that has it |
| MountedSystem.LocationIsServed | fuse/main.go:190-256 | a walk to a served location reaches the dependency with the link type and target of the last package of the map that has it; if that target reads path.zip/inner the walk ends at the top of path.zip opened at inner, and a path below it that no dependency child starts is found iff that archive lists it and opens throughout, ending at the archive's last entry for it |
| PackageLocation.SortIsStable | sources/index.ts:1098-1101 | the sort orders by depth, keeps exactly the locations, and keeps the order within a depth |
| PackageLocation.SortIsIdempotent | sources/index.ts:1098-1101 | sorting the cached array again changes nothing |
| PackageLocation.LocatorInfo.constructor | sources/index.ts:1081-1083 | the cached entry starts with the recorded locations |
| PackageLocation.LocatorInfo.FindPackageLocation | sources/index.ts:1097-1111 | the cached array is left sorted; the answer is the shallowest, and of these the earliest recorded, location that has the starting directory's node_modules as a prefix, or of all locations if none has, and none iff there is no location |
| PackageLocation.InsideIsPrefix | sources/index.ts:1103-1111 | a location is inside a directory iff the directory is a prefix of it, and it is not the directory with a trailing separator |
| PackageLocation.ChoiceIsShallowest | sources/index.ts:1097-1111 | the same of the choice from the sorted array |
| PackageLocation.CallsDoNotInterfere | sources/index.ts:1098-1111 | calls from any other starting directories before or in between never change the answer |

## Left out

- The zip container, DEFLATE and reading file contents: the entry list is an input, a decompressed
  stream is a sequence of chunks determined by its source, and `zipFile.go` only slices bytes.
- The order and the clock of the LRU cache: any key may vanish at any step, which covers both.
- Fatal exits: a symlink or irregular entry that is kept is excluded by `NoFatalEntry` in the
  archive objects (the interleaving model does not look at kinds); a missing or malformed target is
  the outcome `Fatal` or `Crash`.
- Attribute copying and block counts of files, which would only add easy members.
- Loopback directories: a target without `.zip` is a leaf that answers `Foreign` after its dependency
  children, so neither the directory's content nor the daemon's re-use of the same dependency
  children at every level below it is modelled, nor the trimming of its path.
- Mounting, signals, kernel caching and inode objects: a node is its kind, number and generation.
- The JSON text between the plugin and the daemon: `MountedSystem.Decodes` says which trees decode an
  output, and building those objects from text is left to the library.
- DependencyTree.DependencyRoot.Init: the children of nodes below a mount root are constant, as no
  code assigns them; their inode fields are updated in place.
- DependencyTree.FuseData.Init: starts from an allocator without earlier requests, as the daemon does,
  and runs the allocator single-threaded, which its mutex makes it.
- ZipDir.WalkMeansListed: asks that the components of kept entries be plain (not empty, `.` or `..`);
  cleaning makes them so for a relative name inside the prefix directory (`ZipIndex.PrefixMeansInside`,
  `ZipIndex.RawEntryInside`).
- Yarn's hoisting, manifests, `link:` locators, unplugging and reports: the model starts from the
  locator map and from the table of bin scripts per package.
- FuseTree.BuildFuseTree: reads the finished location tree as a value, not through its nodes, because
  nothing writes to the tree any more.
- BinLinks.BinLinker.GetBinSymlinks: the same; only the shared table is an object.
- MountedSystem.LocationIsServed: asks that every dependency above the location can be opened;
  `UnionFs.UnionWalk` says where a walk ends that meets one that cannot.
- Locations.ParseKeepsLocation: paths are lists of segments and the project root has no trailing
  separator; `..` inside a location is not normalised.
- PackageLocation.LocatorInfo.FindPackageLocation: starts where the entry of an installed package was
  found; workspaces and the error for packages that are not installed come before it.
- `findPackageLocator` throws on entry, so the rest of its body is dead.
- The pool of flate writers, which is the same machine as the pool of readers.
