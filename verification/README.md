# HookSelf: PRoot and Dobby cores in Dafny

A Dafny 4.11 model of the cores of the two programs HookSelf bundles, and proofs about them.

PRoot runs a program under another root without privileges, by translating its system calls. Modelled are:

- the path layer: comparison, joining and substitution on strings (`Paths`), the sorted binding lists (`Bindings`),
  emulated mount, umount and pivot_root (`Mounts`), translation back to guest paths (`Detranslate`),
  canonicalization, against a reference resolver (`Resolver`, `Canon`, `CanonCode`), when it succeeds (`Traversal`),
  and how put_old is spelled (`PutOld`);
- the filter compiler, run on a classic BPF machine (`Sysnum`, `Seccomp`);
- the ELF loader: program headers to mappings to memory (`LoadImage`), the load script written below the stack
  (`LoadScript`, `LoadTransfer`), the interpreter of that script (`Loader`), and the whole way from request to loaded
  program (`LoadProgram`);
- the machine of a tracee's system-call stages and chained calls (`Chain`), the emulated ptrace and wait (`Ptrace`,
  `PtraceEvents`), the emulated heap (`Heap`), scripts and their argument vectors (`Argv`, `Shebang`), and the fake
  netlink replies (`Netlink`, `NetlinkReply`).

Dobby is the hooking library. Modelled are its hash table (`HashBase`, `HashTable`), vector buffer and sort (`Buffers`,
`Sorting`), block allocator (`Allocator`), and the search for unused code space (`NearMemory`).

State that the source updates in place is a class or an array here, and each method is proved against a function of the
old state; pure code is functions and lemmas. Numbers are unbounded except where the source relies on their width,
which is then written out (wrapping addresses, 32-bit allocator sizes, 16-bit program lengths, narrow script words).
The kernel, the file system and the memory of other processes are parameters. `Bits`, `Words`, `Limits` and `Wrappers`
hold arithmetic, byte encodings, shared limits and `Option`.

Some properties one would expect do not hold of the code. For each there is a lemma that says exactly when they hold:
inserting a straddling range (`StraddleExactly`), searching without backing up (`ScanExactly`), rounding up a request
(`RequestServed`), unmounting (`UmountUndoesMount`), translating back (`RoundTrip`), a put_old ending in a separator
or a dot (`PutOldExactly`), page offsets (`OffsetsMustMatch`), clearing a tail (`ClearExact`), flags in a verdict
(`TracedExactly`), the length of a filter (`InstalledExactly`), interfaces listed once (`ListedTwiceExactly`), a refused
number (`StrandedExactly`), stopped ptracees (`StoppedExactly`) and wakeups (`AwakeExactly`, `NoneLostExactly`, with the
failing runs `EarlyRestart` and `WokenWhileHeld`). The merge pass of the allocator runs when its flag says that the free
blocks are already merged, and `alloc` then repeats itself without end if that does not help; the model follows the
code, and `Alloc` says exactly when each happens.

Check the project with `dafny verify dfyconfig.toml`.

## Model

| member | source | states |
|---|---|---|
| HashBase.Bucket | Dobby-master/external/TINYSTL/hash_base.h:283-284 | masking with one less than the bucket count is the remainder by the bucket count, for every count the table can reach, so a bucket is never the sentinel slot |
| HashBase.LinkAt | Dobby-master/external/TINYSTL/hash_base.h:166-182 | the list stays doubly linked, in order, with the node at the chosen place and every other node where it was |
| HashBase.Propagate | Dobby-master/external/TINYSTL/hash_base.h:184-189 | the backward walk leaves each slot at the first node of its bucket or of a later one, for the list with the new node |
| HashBase.NodeInsert | Dobby-master/external/TINYSTL/hash_base.h:160-190 | list, slots and bucket order all describe the list with the node inserted at the end of its bucket |
| HashBase.NodeErase | Dobby-master/external/TINYSTL/hash_base.h:193-208 | list, slots and bucket order all describe the list without the node |
| HashBase.NodeFind | Dobby-master/external/TINYSTL/hash_base.h:283-290 | a node is found exactly when some node of the whole list has the key, although one bucket only is walked |
| HashTable.UnorderedMap.constructor | Dobby-master/external/TINYSTL/unordered_map.h:84-89 | an empty map |
| HashTable.UnorderedMap.Copy | Dobby-master/external/TINYSTL/unordered_map.h:92-105 | the copy holds the same map in the same order, in nodes and slots that are all its own |
| HashTable.CopyNodes | Dobby-master/external/TINYSTL/unordered_map.h:99-104 | every copied node lands at the end, because the source list is already sorted by bucket |
| HashTable.UnorderedMap.Find | Dobby-master/external/TINYSTL/unordered_map.h:189-193 | found exactly when the map binds the key, with its value |
| HashTable.UnorderedMap.Rehash | Dobby-master/external/TINYSTL/unordered_map.h:203-219 | same map, same nodes, eight times the buckets exactly past four entries a slot |
| HashTable.Redistribute | Dobby-master/external/TINYSTL/unordered_map.h:209-217 | every node of the old list is in the new one once, threaded by the new bucket numbers |
| HashTable.UnorderedMap.Insert | Dobby-master/external/TINYSTL/unordered_map.h:222-242 | adds the pair exactly when the key is new and leaves an existing binding alone |
| HashTable.UnorderedMap.Assign | Dobby-master/external/TINYSTL/unordered_map.h:278-280 | assignment through `operator[]` is the map update |
| HashTable.UnorderedMap.Erase | Dobby-master/external/TINYSTL/unordered_map.h:269-275 | the map without that key |
| HashTable.UnorderedMap.EraseKey | Dobby-master/external/TINYSTL/unordered_set.h:249-256 | the map without the key, and whether it was there |
| HashTable.UnorderedMap.Entries | Dobby-master/external/TINYSTL/unordered_map.h:135-139 | the iteration lists every binding exactly once |
| HashTable.UnorderedMap.Clear | Dobby-master/external/TINYSTL/unordered_map.h:173-186 | empty afterwards; the nodes given back are exactly those the list had |
| HashTable.Perform | Dobby-master/external/TINYSTL/unordered_map.h:173-280 | any single operation, copies included, does to the table what it does to a finite map |
| HashTable.Run | Dobby-master/external/TINYSTL/unordered_map.h:84-280 | the outputs and the final contents of any run of operations are those of a finite map |
| Buffers.Buffer.Reserve | Dobby-master/external/TINYSTL/buffer.h:143-156 | contents unchanged, capacity at least as asked and never smaller |
| Buffers.Buffer.InsertCommon | Dobby-master/external/TINYSTL/buffer.h:203-217 | what precedes the gap and what follows it are the old contents, whether or not the buffer moved |
| Buffers.Buffer.Insert | Dobby-master/external/TINYSTL/buffer.h:220-238 | the contents with the given values inserted; for a range of the buffer itself, exactly what the pointer arithmetic then reads |
| Buffers.StraddleExactly | Dobby-master/external/TINYSTL/buffer.h:220-238 | inserting a range of the buffer itself is right for all contents if and only if the range does not straddle the insertion point |
| Buffers.Buffer.Append | Dobby-master/external/TINYSTL/buffer.h:248-255 | one element more, also when it is an element of the buffer that moves meanwhile |
| Buffers.Buffer.Erase | Dobby-master/external/TINYSTL/buffer.h:268-278 | the contents without the range, in order |
| Buffers.Buffer.EraseUnordered | Dobby-master/external/TINYSTL/buffer.h:281-293 | the last elements fill the hole, or the rest moves down, whichever is less |
| Buffers.SameLeft | Dobby-master/external/TINYSTL/buffer.h:268-293 | both erasures leave the same elements |
| Sorting.Partition | Dobby-master/external/TINYSTL/vector.h:315-331 | a permutation with everything below the pivot before it and nothing below it after it |
| Sorting.QuickSort | Dobby-master/external/TINYSTL/vector.h:334-340 | the part is sorted and permuted, the rest untouched, under any total preorder |
| Sorting.Sort | Dobby-master/external/TINYSTL/vector.h:343-345 | sorted and a permutation, for vectors of any length including none |
| Allocator.LinearAllocator.constructor | Dobby-master/common/linear_allocator.h:184-190 | one free block tiles the buffer and nothing is handed out |
| Allocator.LinearAllocator.TrySplit | Dobby-master/common/linear_allocator.h:114-131 | the tiling with the block cut, or unchanged if nothing would be left; no data of a block in use is written |
| Allocator.LinearAllocator.TryMergeNext | Dobby-master/common/linear_allocator.h:133-146 | merges exactly when this block and the next are both free, also for the last block |
| Allocator.MergeUndoesSplit | Dobby-master/common/linear_allocator.h:114-146 | merging gives back the block that was split |
| Allocator.LinearAllocator.MergePass | Dobby-master/common/linear_allocator.h:192-198 | one pass over the blocks; blocks in use and their data stay |
| Allocator.PassKeeps | Dobby-master/common/linear_allocator.h:192-198 | the pass keeps tiling and blocks in use, never adds a block, and changes nothing only when no two neighbours are free |
| Allocator.LinearAllocator.Search | Dobby-master/common/linear_allocator.h:203-213 | a free block that is large enough, or proof that none is |
| Allocator.LinearAllocator.Alloc | Dobby-master/common/linear_allocator.h:200-230 | the new block overlaps none in use, whose places and data are untouched; with the flag set it succeeds exactly when there is a large enough gap between blocks in use, and otherwise never returns: no block is large enough and the pass changes nothing any more; with the flag clear it succeeds exactly when some block as cut now is large enough |
| Allocator.LinearAllocator.Free | Dobby-master/common/linear_allocator.h:232-246 | gives back exactly that block, and only if it looks like one handed out; the data of the others is untouched |
| Allocator.GapFits | Dobby-master/common/linear_allocator.h:200-230 | once no two neighbours are free, any gap lies inside one block |
| Allocator.RequestServed | Dobby-master/common/linear_allocator.h:201-201 | the block is as large as asked for if and only if rounding up does not wrap around 32 bits |
| Allocator.Run | Dobby-master/common/linear_allocator.h:180-246 | over any run of requests, releases and writes, the blocks handed out and not given back never overlap, stay inside the buffer and hold what was last written to them; a run stops early only at a request that never returns |
| NearMemory.MemMem | Dobby-master/source/MemoryAllocator/NearMemoryAllocator.h:13-33 | the search as a function of text and needle |
| NearMemory.ScanExactly | Dobby-master/source/MemoryAllocator/NearMemoryAllocator.h:13-33 | the search that never backs up finds the leftmost occurrence in every text if and only if the needle repeats one byte |
| NearMemory.ScanNotConstant | Dobby-master/source/MemoryAllocator/NearMemoryAllocator.h:13-33 | for any other needle, a text that holds it and is searched in vain |
| NearMemory.AlignedInside | Dobby-master/source/MemoryAllocator/NearMemoryAllocator.h:138-146 | three bytes of slack leave an aligned run of zero bytes of the size asked for |
| NearMemory.FindCodeGap | Dobby-master/source/MemoryAllocator/NearMemoryAllocator.h:124-148 | the result is an aligned run of zero bytes inside an executable region and the search range; no result means no executable region meeting the range in enough bytes has such a run |
| Sysnum.DetranslateSysnum | proot-master/src/syscall/sysnum.c:104-123 | the first number the table gives to the call, or the avoider exactly when there is none |
| Sysnum.SysnumRoundTrip | proot-master/src/syscall/sysnum.c:81-123 | a number produced for a call translates back to that call |
| Seccomp.SectionRuns | proot-master/src/syscall/seccomp.c:130-204 | a section decides every call of its own architecture and falls through for any other, jump distances included |
| Seccomp.TracedExactly | proot-master/src/syscall/seccomp.c:90-116 | the kernel reads "traced" with exactly the flags in what a traced call returns if and only if they fit 16 bits |
| Seccomp.FilterRuns | proot-master/src/syscall/seccomp.c:211-328 | the compiled program never leaves its bounds and returns the verdict of the first section of the caller |
| Seccomp.FilterMeaning | proot-master/src/syscall/seccomp.c:253-328 | what the kernel reads in the verdict: killed on an unknown architecture, traced with exactly its flags for a listed call if and only if they fit 16 bits, allowed for the rest |
| Seccomp.Program.StartArchSection | proot-master/src/syscall/seccomp.c:159-204 | the statements of the section head, or an error exactly when the jump would not fit |
| Seccomp.SetSeccompFilters | proot-master/src/syscall/seccomp.c:253-328 | the program built step by step is the compiled one, or an error exactly when a section or a number does not fit |
| Seccomp.CompiledSize | proot-master/src/syscall/seccomp.c:130-229 | the number of statements, from the architectures and the calls traced in each |
| Seccomp.InstalledExactly | proot-master/src/syscall/seccomp.c:211-229 | the installed program, whose length is kept in 16 bits, decides every call as the compiled one if and only if the traced calls leave it below 65536 statements |
| Seccomp.TooManyCalls | proot-master/src/syscall/seccomp.c:211-328 | filter lists of any length from 32768 calls on that are accepted and cut short |
| Seccomp.RequestedMeaning | proot-master/src/syscall/seccomp.c:253-328 | the kernel reads in the verdict of the compiled program that a call is traced with all the flags any list asks for, if and only if each of them fits 16 bits, and allowed if no list asks for it |
| Seccomp.FilterList.MergeFilteredSysnums | proot-master/src/syscall/seccomp.c:442-482 | each call once, with the flags of both lists |
| Seccomp.EnableSyscallFiltering | proot-master/src/syscall/seccomp.c:490-523 | the compiled merge of all lists and, of it, exactly the statements installed; an error exactly when a section or a number does not fit |
| Seccomp.EnabledMeaning | proot-master/src/syscall/seccomp.c:490-523 | the same of the installed program, while it is below 65536 statements |
| Seccomp.VerdictIgnoresMergeOrder | proot-master/src/syscall/seccomp.c:442-523 | the verdict on every call is the same whatever the order of the lists and however often one is merged |
| Paths.CompareMeaning | proot-master/src/path/path.c:536-592 | comparing characters is comparing names: containment is never decided inside a name |
| Paths.JoinMeaning | proot-master/src/path/path.c:51-111 | joining adds one name, or fails exactly when the result is too long |
| Paths.SubstituteMeaning | proot-master/src/path/path.c:679-738 | one containing directory is replaced by another whatever the special cases for the root, if the result fits, and nothing is changed otherwise |
| Paths.RenderInjective | proot-master/src/path/path.c:536-592 | a canonical path spells one list of names |
| Bindings.BindingLists.constructor | proot-master/src/path/binding.c:711-767 | two consistent lists that bind the root |
| Bindings.InsortKeepsOrder | proot-master/src/path/binding.c:297-376 | after the place the insertion chooses, no binding comes before one it contains |
| Bindings.BindingLists.InsortGuest | proot-master/src/path/binding.c:297-376 | a binding of the same guest path is replaced in both lists |
| Bindings.BindingLists.InsortHost | proot-master/src/path/binding.c:297-376 | added to the host list, which stays deepest first |
| Bindings.BindingLists.Insort2 | proot-master/src/path/binding.c:381-388 | the binding map with that guest path rebound; both lists hold the same bindings, deepest first |
| Bindings.BindingLists.Insort3 | proot-master/src/path/binding.c:396-415 | the same for a new binding |
| Bindings.BindingLists.Remove | proot-master/src/path/binding.c:277-287 | the map without that binding, from both lists |
| Bindings.FirstIsLongest | proot-master/src/path/binding.c:120-165 | in a list kept deepest first, the first match is the longest bound prefix |
| Bindings.BindingLists.GetGuestBinding | proot-master/src/path/binding.c:120-165 | a miss means no bound prefix; a hit is the longest one |
| Bindings.BindingLists.GetRoot | proot-master/src/path/binding.c:199-225 | the last binding is what the root is bound to |
| Bindings.BindingLists.SubstituteGuest | proot-master/src/path/binding.c:239-272 | the path resolved through its innermost binding, or unchanged if the result would be too long |
| Mounts.EmulateMount | proot-master/src/syscall/enter.c:227-266 | the target shows the source of a bind mount, the directory of the host for proc, sysfs, devtmpfs and devpts, a new one for a tmpfs; nothing else changes, and nothing at all for a remount, an unknown type or what does not translate |
| Mounts.EmulateUmount | proot-master/src/syscall/enter.c:418-441 | the map without the target; the root stays |
| Mounts.UmountUndoesMount | proot-master/src/syscall/enter.c:227-441 | mounting and then unmounting leaves the map as it was if and only if nothing was bound at the target, or the target is the root and already showed what is mounted; the root is never unmounted |
| Mounts.UndoneExactly | proot-master/src/syscall/enter.c:227-441 | the same of the maps |
| Mounts.EmulatePivotRoot | proot-master/src/syscall/enter.c:275-408 | the lists stay consistent and every guest path is bound to what it should be: moved, re-exposed below put_old, the previous root at put_old, kept or gone, whatever the bindings and in whatever order the copy of the list is visited |
| Mounts.NewRootTheorem | proot-master/src/syscall/enter.c:275-408 | a path covered neither by put_old nor by a retained binding leads where the new root followed by it led before |
| Mounts.PutOldTheorem | proot-master/src/syscall/enter.c:340-408 | put_old followed by a path outside the new root leads where that path led before, if put_old was not bound and the names fit |
| Mounts.Perform | proot-master/src/syscall/enter.c:227-441 | each operation does to the map what is stated for it, and the root stays bound |
| Mounts.Run | proot-master/src/syscall/enter.c:227-441 | over any run of mounts, umounts and pivots from a root on, the lists stay sorted and consistent, each operation does what is stated for it, and there is always a root |
| PutOld.SpelledAs | proot-master/src/syscall/enter.c:300-306 | the string kept for put_old is its names with the separator or the dot the user ended it with |
| PutOld.AfterMeaning | proot-master/src/syscall/enter.c:319-334 | the part behind the new root, with that ending |
| PutOld.RunsTogether | proot-master/src/syscall/enter.c:319-334 | a binding whose guest path ends in a separator takes one separator too many away, for any directory, host and rest |
| PutOld.LeadsExactly | proot-master/src/syscall/enter.c:319-408 | such a binding leads into the previous root if and only if nothing ends it, or a separator does and it is bound to its own name |
| PutOld.PutOldExactly | proot-master/src/syscall/enter.c:275-408 | on the path as the user spells it: put_old gives access to the previous root if and only if its last name is neither "." nor ".." and no separator follows, or it ends in a separator or ".." and put_old is bound to its own name |
| Detranslate.GetHostBinding | proot-master/src/path/path.c:402-515 | the host binding that decides, the root file system first |
| Detranslate.FollowsBinding | proot-master/src/path/path.c:421-471 | whether the binding or the root decides: for the target of a link it depends on where the link and the target lie |
| Detranslate.DetranslatePath | proot-master/src/path/path.c:402-515 | the guest path of a host path, also of the target of a link, if the result fits |
| Detranslate.RoundTrip | proot-master/src/path/path.c:402-515 | translating and back gives the path again if and only if, in a root file system, the binding shows a directory of it at its own place, and elsewhere the first binding on the host side shows the same place |
| Detranslate.ThereAndBack | proot-master/src/path/path.c:402-515 | the same of substitution and then translation back, on strings, where both fit |
| Detranslate.ContainingRootfs | proot-master/src/path/path.c:402-515 | a binding whose host side contains the root file system never brings a path of it back |
| Detranslate.LinksStayTogether | proot-master/src/path/path.c:421-471 | a link and its target in one binding outside the root file system stay in that binding |
| Detranslate.ProcLinksFollow | proot-master/src/path/path.c:421-446 | the target of a link in /proc is translated as the path itself is, except that it may lie outside |
| Detranslate.ProcLinkThroughBinding | proot-master/src/path/path.c:421-446 | so it goes through the binding it lies in |
| Detranslate.RootLinksStay | proot-master/src/path/path.c:421-471 | the target of any other link of the root file system never goes through a binding |
| Detranslate.NoRoundTripInsideRootfs | proot-master/src/path/path.c:402-515 | a directory of the root file system bound elsewhere comes back under its own name |
| Resolver.OneResult | proot-master/src/path/canon.c:199-411 | the reference resolver has at most one result |
| Canon.CanonicalizedRuns | proot-master/src/path/canon.c:199-411 | whenever canonicalization succeeds it ends where the reference resolver ends |
| Canon.CanonicalizedShape | proot-master/src/path/canon.c:199-411 | no ".", "..", empty name or link is left, except a last link that was not to be followed |
| Canon.RefereeIsNoLink | proot-master/src/path/canon.c:375-382 | what a followed link leads to is not a link |
| CanonCode.PopComponent | proot-master/src/path/canon.c:44-71 | the parent, for the root and trailing separators too |
| CanonCode.NextComponent | proot-master/src/path/canon.c:87-127 | the next name, or none if it is too long, the cursor at the following name, and whether it was the last |
| CanonCode.FollowLink | proot-master/src/path/canon.c:339-369 | the target canonicalized from the directory of the link, with the errors of the source |
| CanonCode.Canonicalize | proot-master/src/path/canon.c:199-411 | the cursor over the string computes the recursion on names, with its finality suffix and its errors, in at most two to the link limit calls; an empty path adds a separator to a base other than the root |
| CanonCode.EndsAs | proot-master/src/path/canon.c:87-127 | how the end of a user path reads: "." is kept, ".." and a separator ask for a directory, any other name for nothing |
| CanonCode.SplitConcat | proot-master/src/path/canon.c:87-127 | the names of a path are those before a separator and then those behind it |
| Traversal.PlainExactly | proot-master/src/path/canon.c:199-411 | of a path without links, on the file system: it is accepted if and only if names and places fit and every name but the last leads to a directory, whatever the last one is, and then leads where its names say; the first name that is refused decides the error, ENOENT where nothing is and ENOTDIR at a file |
| Traversal.ResolvesExactly | proot-master/src/path/canon.c:199-411 | of any path: it is accepted if and only if the worklist resolver comes to its end without being blocked, and then with its result; the error is exactly the one that blocks it, by a length, the link limit, a link that leads back to its place, or a name that is followed and no directory |
| Traversal.GoesRuns | proot-master/src/path/canon.c:199-411 | a run of that resolver is a run of the reference resolver |
| Traversal.LiesInDirectories | proot-master/src/path/canon.c:183-187 | what is reached from a directory lies in directories, through any links |
| Traversal.CanonicalizePath | proot-master/src/path/canon.c:199-411 | the text and the error a caller gets are those of the resolver, with the terminating separator or dot where it fits |
| LoadImage.LoadInfo.AddMapping | proot-master/src/execve/enter.c:56-124 | the mappings of a segment, in wrapping arithmetic |
| LoadImage.AddSegments | proot-master/src/execve/enter.c:235-306 | the mappings of all segments, in the order of the program headers |
| LoadImage.SegmentEffect | proot-master/src/execve/enter.c:56-124 | the mappings of a segment decide every address: its pages show file and zeroes, the rest is untouched |
| LoadImage.TailEndsOnPage | proot-master/src/execve/enter.c:56-124 | every mapping lies in the pages of its segment and ends on a page, and what is to be cleared is no more than it has |
| LoadImage.MappingOfSegment | proot-master/src/execve/enter.c:56-124 | so does every mapping of an object, for some segment of it |
| LoadImage.ImageTheorem | proot-master/src/execve/enter.c:56-124 | every byte of every segment is the byte of the file or zero, with the protection of the segment, as chapter 5 of the System V gABI asks |
| LoadImage.ProtExactly | proot-master/src/execve/enter.c:89-91 | read, write and execute are each granted exactly when their flag is set |
| LoadImage.ProtectionTheorem | proot-master/src/execve/enter.c:56-124 | so is every byte of every segment protected |
| LoadImage.OffsetsMustMatch | proot-master/src/execve/enter.c:56-124 | the first byte is right for every file if and only if offset and address agree modulo the page size |
| LoadImage.Untouched | proot-master/src/execve/enter.c:56-124 | addresses outside the pages of all segments keep what they held |
| LoadImage.LoadInfo.AddLoadBase | proot-master/src/execve/enter.c:311-324 | every mapping and the entry point moved |
| LoadImage.MovedMappings | proot-master/src/execve/enter.c:311-324 | moving the mappings by whole pages gives the mappings of the segment linked that much higher |
| LoadImage.MovedImage | proot-master/src/execve/enter.c:311-324 | the image of a position-independent object is the one linked at its load base |
| LoadScript.FetchWritten | proot-master/src/loader/script.h:29-76 | reading a statement is the inverse of writing it, up to the width of the words |
| LoadScript.ScriptEven | proot-master/src/execve/exit.c:251-261 | a script takes an even number of words |
| LoadScript.TranscriptMappings | proot-master/src/execve/exit.c:144-168 | the buffer holds the statements written before and then one for each mapping |
| LoadScript.Narrow | proot-master/src/execve/exit.c:331-336 | the words cut to half their width, in place, none lost |
| LoadTransfer.ScriptSizeExact | proot-master/src/execve/exit.c:251-261 | the size announced is the size written |
| LoadTransfer.AlignedBelow | proot-master/src/execve/exit.c:232-264 | what is pushed keeps the stack aligned |
| LoadTransfer.TransferLoadScript | proot-master/src/execve/exit.c:174-403 | script, strings and padding right below the stack pointer, in 64-bit or 32-bit words |
| Loader.Clear | proot-master/src/loader/loader.c:56-85 | which bytes are zeroed |
| Loader.ClearExact | proot-master/src/loader/loader.c:56-85 | exactly the bytes from start to end are zeroed if and only if the first word boundary from start on is not past end |
| Loader.ClearExactAtBoundary | proot-master/src/loader/loader.c:56-85 | so it is when the end is a word boundary, as the end of every mapping is |
| Loader.StatementRead | proot-master/src/loader/loader.c:111-263 | each statement is read back from memory as written |
| Loader.Execute | proot-master/src/loader/loader.c:117-200 | one statement does to memory what it means |
| Loader.Run | proot-master/src/loader/loader.c:111-263 | the loader does what the script means and starts with the last statement; it stops otherwise only for an unwritable tail, which it never survives, a failing call or a path that is too long |
| LoadProgram.ProgramEffect | proot-master/src/execve/exit.c:272-326 | the meaning of the script is the mappings of both objects, and the base of the object started |
| LoadProgram.ProgramProper | proot-master/src/execve/exit.c:174-403 | each statement written for segments away from the stack area is one the loader performs exactly |
| LoadProgram.ProgramRunnable | proot-master/src/execve/exit.c:174-403 | what is pushed is a script the loader can run where it is |
| LoadProgram.Load | proot-master/src/execve/exit.c:174-403 | from the program headers to the start: memory is what the mappings of both objects make of it; the loader jumps to the entry of the interpreter, if there is one, and else of the program, with the stack pointer of the request, and the headers, the entry and an address where memory holds the name of the program for the auxiliary vector; the stack is made executable exactly if one of the objects asks for it |
| LoadProgram.ProgramBytes | proot-master/src/execve/exit.c:174-403 | each byte of a segment of the program is the byte of the file or zero, wherever the pages of the interpreter are not |
| LoadProgram.HeadersFound | proot-master/src/execve/exit.c:316-324 | when the first segment starts in the first page of the file, memory at the address given for the program headers is what the file has there |
| LoadProgram.InterpreterBytes | proot-master/src/execve/exit.c:174-403 | the same for each byte of the interpreter |
| Chain.Tracee.PushRegs | proot-master/src/tracee/reg.c:291-373 | what the kernel is told, and whether it accepts the number; the register of the result is not restored, also where it is the one of the first argument |
| Chain.Tracee.TranslateEnter | proot-master/src/syscall/syscall.c:103-200 | the enter stage as a step of the machine, and what it leaves in terms of the stop: the translated call, or the avoider with the error; its stack pointer, or the own one of the tracee where no exit stop follows; after a refused number a call that fails and, unless nothing is to be performed, the translated call behind it |
| Chain.EnterExactly | proot-master/src/syscall/syscall.c:103-200 | the same of the step itself, for every state and stop |
| Chain.Tracee.TranslateExit | proot-master/src/syscall/syscall.c:200-274 | the exit stage as a step of the machine |
| Chain.Tracee.ChainNext | proot-master/src/syscall/chain.c:103-153 | the next chained call put in place, or the original registers restored with the result |
| Chain.RegisterOne | proot-master/src/syscall/chain.c:43-96 | calls are chained in the order they are registered |
| Chain.EnterKeeps | proot-master/src/syscall/syscall.c:103-200 | the invariant below is kept by every entry outside the stranding combination |
| Chain.ExitKeeps | proot-master/src/syscall/syscall.c:200-274 | and by every exit |
| Chain.RunKeeps | proot-master/src/syscall/syscall.c:103-274 | over any run and for both register layouts: each exit is handled once, the calls performed are the translated call and then the chained ones in order and on its stack, and when nothing is left number, arguments, stack and instruction pointers are the tracee's own, but for the first argument where the result shares its register, with the result of the call or the one forced |
| Chain.Drive | proot-master/src/syscall/syscall.c:103-274 | the fields updated in place follow the machine over any run |
| Chain.StrandedExactly | proot-master/src/syscall/syscall.c:140-200 | for both register layouts, the enter stage keeps the invariant if and only if it is not a refused number of a call restarted without a stop at its exit; then a chained call is left behind |
| Ptrace.Emulation.GetStopped | proot-master/src/tracee/tracee.c:243-305 | a zombie or stopped ptracee that matches; a miss means there is none |
| Ptrace.Emulation.HasPtracees | proot-master/src/tracee/tracee.c:311-314 | whether some ptracee matches |
| Ptrace.Emulation.UpdateWaitStatus | proot-master/src/ptrace/wait.c:121-174 | the pid told is that of the ptracee found; the kernel is left to report it exactly if it has ended and is a child of the ptracer; a fault changes nothing; an event is no longer pending, a zombie goes |
| Ptrace.Emulation.WaitExit | proot-master/src/ptrace/wait.c:181-227 | a pid returned is that of a ptracee, or zombie, of the caller that is asked for and had an event, and this event and no other is gone; a ptracer that may block waits exactly when it has ptracees and no stopped one has an event it asks for; one that may not block is told whether some ptracee matches |
| Ptrace.ToldAnswers | proot-master/src/ptrace/wait.c:121-227 | what telling does is what the answer means |
| Ptrace.Emulation.Report | proot-master/src/ptrace/wait.c:235-393 | the event is kept for the ptracer, who is told and woken at once exactly if it waits for it |
| Ptrace.Emulation.Attach | proot-master/src/ptrace/ptrace.c:104-207 | one ptracer at most and never oneself |
| Ptrace.Emulation.Continue | proot-master/src/ptrace/ptrace.c:207-670 | restarts exactly a stopped ptracee of the caller that is no zombie |
| Ptrace.Emulation.Detach | proot-master/src/ptrace/ptrace.c:116-124 | the same, no longer traced and no longer counted |
| Ptrace.Emulation.Fork | proot-master/src/tracee/tracee.c:383-631 | the new tracee, attached to the ptracer of its parent when that is followed |
| Ptrace.Emulation.Remove | proot-master/src/tracee/tracee.c:85-171 | ptracees are released, and the ptracer keeps a zombie or is woken when nothing is left to wait for |
| Ptrace.Emulation.Restart | proot-master/src/tracee/event.c:809-829 | a process waiting for a ptracee is not restarted |
| Ptrace.StoppedExactly | proot-master/src/tracee/event.c:809-829 | ptracees with an event stay stopped if and only if the step does not let one go: a restart before the event was told, or the wakeup of a ptracer that is itself kept stopped |
| Ptrace.ParkExactly | proot-master/src/ptrace/wait.c:181-227 | putting a ptracer to sleep loses no wakeup if and only if none of its ptracees, running or not, has an event it asks for |
| Ptrace.AwakeExactly | proot-master/src/ptrace/wait.c:121-393 | no step loses a wakeup but a wait that overlooks the event of a ptracee that runs |
| Ptrace.AttachKeeps | proot-master/src/ptrace/ptrace.c:104-110 | attaching keeps counters exact, one ptracer a ptracee, and nobody waiting for nothing |
| Ptrace.DetachEnds | proot-master/src/tracee/tracee.c:155-168 | so does the end of the last ptracee, which wakes a waiting ptracer |
| Ptrace.ReleaseKeeps | proot-master/src/tracee/tracee.c:96-121 | so does the end of a ptracer |
| Ptrace.Perform | proot-master/src/ptrace/wait.c:121-393 | each step the kernel can bring does what is stated for it and keeps the bookkeeping |
| Ptrace.Run | proot-master/src/ptrace/wait.c:121-393 | at every moment of any run, counters are exact, each ptracee has one living ptracer, and whoever waits is stopped and has something to wait for; no wakeup is ever lost if and only if no wait overlooks an event |
| Ptrace.NoneLostExactly | proot-master/src/ptrace/wait.c:181-393 | the same equivalence, of the states of a run |
| Ptrace.OrderlyRuns | proot-master/src/ptrace/wait.c:121-393 | in a run that lets no stopped ptracee go, ptracees with events stay stopped and no wakeup is lost |
| Ptrace.EarlyRestart | proot-master/src/ptrace/ptrace.c:655-668 | a run from one process on in which a ptracee is restarted before its event was told, and the wait that follows overlooks it |
| Ptrace.WokenWhileHeld | proot-master/src/ptrace/wait.c:367-393 | a run in which a ptracer is woken while its own event is kept, and the wait of its ptracer overlooks it |
| PtraceEvents.EventKept | proot-master/src/ptrace/wait.c:121-393 | no step forgets an event but the next event of that ptracee, a wait of its ptracer that asks for it, its detaching and the end of one of the two |
| PtraceEvents.ZombieKept | proot-master/src/ptrace/wait.c:121-174 | nor a zombie, but a wait that asks for it and the end of its ptracer |
| PtraceEvents.EndBecomesZombie | proot-master/src/tracee/tracee.c:123-171 | the end of a ptracee that was to be told becomes a zombie |
| PtraceEvents.EndExactly | proot-master/src/tracee/tracee.c:85-171 | what the end of a process does to each of the others: its ptracees are free and run again, its ptracer counts it while it is a zombie and is woken when it waits for nothing any more, nobody else changes |
| PtraceEvents.ReportedIsKept | proot-master/src/ptrace/wait.c:345-393 | a reported event is kept with what it says, or the ptracer that waits for it runs again and has been told |
| PtraceEvents.KeptUntilSettled | proot-master/src/ptrace/wait.c:121-393 | over any run an event is kept until it is settled |
| Heap.ErrorsAreSeen | proot-master/src/syscall/heap.c:150-213 | cutting the result to an int tells every error from every page address |
| Heap.Emulated.Enter | proot-master/src/syscall/heap.c:54-145 | nothing is changed once disabled; without a heap it is mapped by brk(0) and any other address goes to the kernel; with one, an address below it asks for nothing and any other for a mapping that ends exactly there |
| Heap.Emulated.Exit | proot-master/src/syscall/heap.c:150-213 | base and size after each reply, a resize answered elsewhere included, and the break the tracee sees |
| Heap.Brk | proot-master/src/syscall/heap.c:54-213 | one call does to the heap and returns what the ideal break does, whatever was asked and answered |
| Heap.Run | proot-master/src/syscall/heap.c:54-213 | the results of any run of brk calls, also before there is a heap and once disabled, are those of an ideal break, and the heap mapping is the heap and the page before it |
| Netlink.ParseEncoded | proot-master/src/syscall/enter.c:601-770 | a receiver that cuts a reply by the lengths in it finds exactly the messages put in |
| Netlink.WalkEncoded | proot-master/src/syscall/enter.c:922-951 | a walk over encoded attributes finds each of them |
| NetlinkReply.AddAttr | proot-master/src/syscall/enter.c:601-618 | the attribute with its padding, or nothing when it does not fit |
| NetlinkReply.BuildMessage | proot-master/src/syscall/enter.c:625-716 | header, fixed part and the attributes that fit, with the length they have |
| NetlinkReply.BuildDone | proot-master/src/syscall/enter.c:721-739 | one terminator more |
| NetlinkReply.BuildItems | proot-master/src/syscall/enter.c:958-1119 | the first items as whole messages, stopping only when the reserve is used up, and always room for a terminator |
| NetlinkReply.DumpReply | proot-master/src/syscall/enter.c:1228-1321 | what the host has, or the fallback, then one terminator, never past the buffer |
| NetlinkReply.DumpParses | proot-master/src/syscall/enter.c:1228-1321 | the tracee finds the items in order and exactly one terminator, at the end |
| NetlinkReply.LinkIsSmall | proot-master/src/syscall/enter.c:625-671 | a link with any name leaves room for the terminator in the reserve |
| NetlinkReply.AddressIsSmall | proot-master/src/syscall/enter.c:678-716 | and so does an address |
| NetlinkReply.OncePerName | proot-master/src/syscall/enter.c:973-996 | an entry of the host is listed exactly when its name is none of the names remembered before it |
| NetlinkReply.ListedTwiceExactly | proot-master/src/syscall/enter.c:973-996 | a name is listed at two entries that have it if and only if it is not among the first 64 names |
| NetlinkReply.EachOnce | proot-master/src/syscall/enter.c:973-996 | so with at most 64 names none is listed twice |
| NetlinkReply.NoneMissed | proot-master/src/syscall/enter.c:973-996 | and every name is listed, however many there are |
| NetlinkReply.RouteReply | proot-master/src/syscall/enter.c:1130-1212 | the messages of the host up to its terminator or to the first that does not fit, readdressed, and a terminator in any case |
| NetlinkReply.RouteParses | proot-master/src/syscall/enter.c:1130-1212 | the tracee finds those messages and one terminator, at the end, all addressed to it |
| NetlinkReply.LinkTarget | proot-master/src/syscall/enter.c:922-951 | the index, and the name of the last name attribute the walk reaches, for any bytes |
| NetlinkReply.LinkRoundTrip | proot-master/src/syscall/enter.c:625-951 | the decoder applied to a link message gives back its interface |
| NetlinkReply.LinkDecoded | proot-master/src/syscall/enter.c:625-671 | type, flags, size, hardware address and state of the interface are read back too |
| NetlinkReply.AddressRoundTrip | proot-master/src/syscall/enter.c:678-716 | a receiver reads back family, prefix length, scope, interface, address and, for IPv4, the tag of an address message |
| Argv.TextsApart | proot-master/src/execve/aoxp.c:353-439 | the strings of different entries do not overlap |
| Argv.PushedSpells | proot-master/src/execve/aoxp.c:353-439 | after the push every pointer of the table leads to its string, new or kept |
| Argv.PushedTable | proot-master/src/execve/aoxp.c:353-439 | the table reads back as those pointers |
| Shebang.XArray.Fetch | proot-master/src/execve/aoxp.c:305-346 | the pointers up to the null pointer |
| Shebang.XArray.Push | proot-master/src/execve/aoxp.c:353-439 | table and strings in one block |
| Shebang.ExpandOne | proot-master/src/execve/shebang.c:262-289 | interpreter, argument if any and script in place of the head, also for an empty vector |
| Shebang.PushedArgv | proot-master/src/execve/shebang.c:296-303 | fetched again, the pushed vector spells what its entries stood for |
| Shebang.ExpandShebang | proot-master/src/execve/shebang.c:208-307 | the vector in the memory of the tracee is the one execve(2) documents, followed from interpreter to interpreter; too many levels and a vector that finds no room fail, and memory is untouched unless it succeeds |
| Shebang.PlannedExactly | proot-master/src/execve/shebang.c:208-307 | in closed form: below the limit the vector is every interpreter with its argument, last one first, then the script, then the arguments of the caller; it fails where something cannot be executed, or at the limit |
| Shebang.ChainEnds | proot-master/src/execve/shebang.c:208-307 | and every chain of scripts ends in one of these ways |

## Left out

- Hash table: wrap-around of `size_t`, hash functions, reuse of the bucket buffer on rehash, move constructors, swap; `emplace` differs from `insert` only in moving.
- Buffers.Buffer.Insert: element types with constructors or destructors are not modelled; the elements are plain values, as in the memmove variants.
- Sorting.Sort: the sort of a sub-range with an inclusive end is `QuickSort`; comparisons that are no total preorder are not covered.
- Allocator.LinearAllocator.constructor: the unit behind the buffer is read by the merge of the last block and is required not to look like a free header; buffers are whole units.
- Allocator.LinearAllocator.Free: the pointer must lie in the buffer, and a unit of client data that looks like a used header must not be passed; the source cannot tell either.
- `simple_linear_allocator_t`, and the steps of `allocNearBlock` that use pages already allocated or between regions: simple cases of what is proved.
- NearMemory.FindCodeGap: sizes above the zero pattern of 4096 bytes, which the source reads past, are excluded.
- Code generation, relocation and hook installation of Dobby, and the files of HookSelf itself: not part of this model.
- Seccomp: the tables of numbers are parameters; the system calls that install the filter are left out.
- Sysnum: a number one past the end of the table, which the source lets through, is excluded from the round trip.
- Paths: the fixed character buffers of the source are values; only their size limits are modelled.
- Bindings: the list of pending bindings before the first execution, and induced bindings, are left out; records are told apart by a number instead of an address.
- Mounts.EmulatePivotRoot: canonicalization and the host path of the new root are inputs, and put_old is given as names (how it is spelled is the subject of `PutOldExactly`); where a moved and a re-exposed binding meet at one path, which of the two stays depends on the order of the list and is not said.
- Mounts.PutOldTheorem: bindings already at or below put_old, and names that would be too long, are excluded; both change what is shown there.
- Detranslate.DetranslatePath: what a link inside /proc leads to is left out; a link outside the root file system lies in some binding, as the source asserts.
- CanonCode.Canonicalize: the file system is constant during a call, /proc is not special, and extensions are not called.
- LoadImage.ImageTheorem: requires that later segments have their pages clear of earlier contents; where they have not, `LastCoverShows` says that the last segment shows.
- LoadTransfer.TransferLoadScript: requires the script to fit below the stack pointer, which the source does not test.
- Loader.Run: the patched auxiliary vector and the process name are left out; failures of the kernel are arbitrary.
- LoadProgram.Load: requires that no segment touches the stack area used and that addresses fit the words of the tracee.
- Chain.RunKeeps: the seccomp events before the enter stage and the restart of a call by the kernel are left out.
- Ptrace.Run: a step is what the kernel can bring at that moment; others are passed over.
- Ptrace.Emulation.Attach: PTRACE_TRACEME of a process without a known parent is left out.
- Ptrace requests that read or write registers and memory, seizing, and signals: left out, they do not change the bookkeeping.
- Heap.Run: the location of the first mapping and the answers of the kernel are inputs.
- NetlinkReply.DumpReply: answers to single requests, error replies and copying the reply into scattered buffers are left out, as is reading the interfaces of the host.
- Shebang.ExpandShebang: reading the first line of a script and checking permissions are inputs, as is where the block is allocated; the runner of `expand_runner` and arrays that shrink are left out.
